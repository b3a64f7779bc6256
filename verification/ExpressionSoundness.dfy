/**
 What the trees mean: a reference semantics of integer expressions over mathematical
 integers, and the proof that the tree built by the grammar evaluates to it.
 */
module ExpressionSoundness {
  import opened Bytes
  import opened Arithmetic
  import opened Expressions

  // Surface syntax

  datatype Expr =
    | Const(value: Word)
    | Variable(id: nat)
    | NegOf(e: Expr)
    | InvOf(e: Expr)
    | NotOf(e: Expr)
    | CastTo(kind: Kind, size: nat, e: Expr)
    | ArithOf(aop: ArithOp, l: Expr, r: Expr)
    | RelOf(rop: RelOp, l: Expr, r: Expr)
    | AndOf(l: Expr, r: Expr)
    | OrOf(l: Expr, r: Expr)
    | BitOf(bop: BitOp, l: Expr, r: Expr)

  /** Variables are integers of 1, 2, 4 or 8 bytes, and casts name such types. */
  datatype VarType = VarType(offset: int, kind: Kind, size: nat)

  type Vars = nat -> VarType

  predicate IntegerType(kind: Kind, size: nat) {
    IsInteger(kind) && IntegerSize(size)
  }

  ghost predicate OverIntegers(e: Expr, vars: Vars) {
    match e
    case Const(_) => true
    case Variable(id) => IntegerType(vars(id).kind, vars(id).size)
    case NegOf(a) => OverIntegers(a, vars)
    case InvOf(a) => OverIntegers(a, vars)
    case NotOf(a) => OverIntegers(a, vars)
    case CastTo(k, n, a) => IntegerType(k, n) && OverIntegers(a, vars)
    case ArithOf(_, a, b) => OverIntegers(a, vars) && OverIntegers(b, vars)
    case RelOf(_, a, b) => OverIntegers(a, vars) && OverIntegers(b, vars)
    case AndOf(a, b) => OverIntegers(a, vars) && OverIntegers(b, vars)
    case OrOf(a, b) => OverIntegers(a, vars) && OverIntegers(b, vars)
    case BitOf(_, a, b) => OverIntegers(a, vars) && OverIntegers(b, vars)
  }

  /** The parser: actions applied bottom-up. */
  function Build(e: Expr, vars: Vars): Option<Node> {
    match e
    case Const(v) => Some(Int(UNSIGNED64, v))
    case Variable(id) => Some(Var(Type(vars(id).offset, vars(id).kind, vars(id).size, 0), id))
    case NegOf(a) => var n := Build(a, vars); if n.None? then None else MakeNeg(n.value)
    case InvOf(a) => var n := Build(a, vars); if n.None? then None else MakeInv(n.value)
    case NotOf(a) => var n := Build(a, vars); if n.None? then None else MakeNot(n.value)
    case CastTo(k, size, a) =>
      var n := Build(a, vars); if n.None? then None else MakeCast(Type(0, k, size, 0), n.value)
    case ArithOf(op, a, b) =>
      var l, r := Build(a, vars), Build(b, vars);
      if l.None? || r.None? then None else MakeArith(op, l.value, r.value)
    case RelOf(op, a, b) =>
      var l, r := Build(a, vars), Build(b, vars);
      if l.None? || r.None? then None else MakeRel(op, l.value, r.value)
    case AndOf(a, b) =>
      var l, r := Build(a, vars), Build(b, vars);
      if l.None? || r.None? then None else MakeLogic(And, l.value, r.value)
    case OrOf(a, b) =>
      var l, r := Build(a, vars), Build(b, vars);
      if l.None? || r.None? then None else MakeLogic(Or, l.value, r.value)
    case BitOf(op, a, b) =>
      var l, r := Build(a, vars), Build(b, vars);
      if l.None? || r.None? then None else MakeBit(op, l.value, r.value)
  }

  // Reference semantics

  /** The kind of an expression: signed wins, and a difference is always signed. */
  function KindOf(e: Expr, vars: Vars): Kind {
    match e
    case Const(_) => Unsigned
    case Variable(id) => vars(id).kind
    case NegOf(_) => Signed
    case InvOf(_) => Unsigned
    case NotOf(_) => Unsigned
    case CastTo(k, _, _) => k
    case ArithOf(op, a, b) =>
      if op == Sub || op == Mod || KindOf(a, vars) == Signed || KindOf(b, vars) == Signed then Signed else Unsigned
    case RelOf(_, _, _) => Unsigned
    case AndOf(_, _) => Unsigned
    case OrOf(_, _) => Unsigned
    case BitOf(_, _, _) => Unsigned
  }

  predicate FitsSigned(x: int) {
    -TWO63 <= x < TWO63
  }

  /** A value as a 64-bit signed integer, as a conversion to int64_t gives it. */
  function Int64(x: int): int {
    AsSigned(ToWord(x))
  }

  function ValueOf(kind: Kind, w: Word): int {
    if kind == Signed then AsSigned(w) else w
  }

  /** Conversion to an integer type, as section 6.3.1.3 of C11 defines it. */
  function Convert(kind: Kind, size: nat, x: int): int {
    var m := x % Modulus(size);
    if kind == Signed && m >= Modulus(size) / 2 then m - Modulus(size) else m
  }

  function Abs(x: int): nat {
    if x < 0 then -x else x
  }

  /** The quotient of the magnitudes, negative for operands of different signs (section 6.5.5 of C11). */
  function Quotient(x: int, y: int): int
    requires y != 0
  {
    if (x < 0) == (y < 0) then Abs(x) / Abs(y) else -(Abs(x) / Abs(y))
  }

  /** Whether a comparison holds, by the sign of the difference. */
  predicate Ordered(op: RelOp, x: int, y: int) {
    var d := x - y;
    match op
    case Lt => d < 0
    case Gt => d > 0
    case Le => d <= 0
    case Ge => d >= 0
    case Eq => d == 0
    case Neq => d != 0
  }

  /** The exact result of a signed operation; none for a zero divisor. */
  function Exact(op: ArithOp, x: int, y: int): Option<int> {
    match op
    case Mul => Some(x * y)
    case Add => Some(x + y)
    case Sub => Some(x - y)
    case Div => if y == 0 then None else Some(Quotient(x, y))
    case Mod => if y == 0 || !FitsSigned(Quotient(x, y)) then None else Some(x - y * Quotient(x, y))
  }

  /** Signed if either operand is: exact, undefined on overflow. Unsigned: modulo 2^64. */
  function RefArith(op: ArithOp, ka: Kind, kb: Kind, a: int, b: int): Option<int> {
    if ka == Signed || kb == Signed || op == Mod then
      var exact := Exact(op, Int64(a), Int64(b));
      if exact.Some? && FitsSigned(exact.value) then exact else None
    else
      match op
      case Mul => Some(a * b % TWO64)
      case Add => Some((a + b) % TWO64)
      case Sub => Some(Int64(a - b))
      case _ => if b == 0 then None else Some(a / b)
  }

  function RefRel(op: RelOp, ka: Kind, kb: Kind, a: int, b: int): int {
    var holds := if ka == Signed || kb == Signed then Ordered(op, Int64(a), Int64(b)) else Ordered(op, a, b);
    if holds then 1 else 0
  }

  function Power2(n: nat): nat
    ensures Power2(n) > 0
  {
    if n == 0 then 1 else 2 * Power2(n - 1)
  }

  /** Binary digit k of a number. */
  function Digit(x: int, k: nat): (d: int)
    ensures 0 <= d <= 1
    decreases k
  {
    if k == 0 then x % 2 else Digit(x / 2, k - 1)
  }

  /** A bitwise operator on digits, by how many of the two are 1: both, any, exactly one. */
  function RefDigit(op: BitOp, x: int, y: int): nat {
    var ones := x + y;
    match op
    case BitAnd => if ones == 2 then 1 else 0
    case BitOr => if ones >= 1 then 1 else 0
    case _ => if ones == 1 then 1 else 0
  }

  /** The number whose first n binary digits are those of the operator, digit by digit. */
  function DigitSum(op: BitOp, x: int, y: int, n: nat): nat {
    if n == 0 then 0 else DigitSum(op, x, y, n - 1) + Power2(n - 1) * RefDigit(op, Digit(x, n - 1), Digit(y, n - 1))
  }

  /** Bitwise operators digit by digit; shifts as section 6.5.7 of C11 has them, undefined from 64 on. */
  function RefBits(op: BitOp, x: int, y: int): Option<int> {
    if op != Left && op != Right then Some(DigitSum(op, x, y, 64))
    else if y < 0 || y >= 64 then None
    else if op == Left then Some(x * Power2(y) % TWO64)
    else Some(x / Power2(y))
  }

  /** The value of an expression; None where a part that is evaluated has none. */
  ghost function Ref(e: Expr, vars: Vars, env: Env): Option<int> {
    match e
    case Const(v) => Some(v)
    case Variable(id) =>
      var addr := env.varAddress(id);
      if addr.None? then None
      else
        var bytes := env.read(addr.value, vars(id).size);
        if bytes.None? || |bytes.value| != vars(id).size then None
        else Some(Convert(vars(id).kind, vars(id).size, LittleEndian(bytes.value)))
    case NegOf(a) =>
      var v := Ref(a, vars, env);
      if v.None? || !FitsSigned(-Int64(v.value)) then None else Some(-Int64(v.value))
    case InvOf(a) =>
      var v := Ref(a, vars, env);
      if v.None? then None else Some(TWO64 - 1 - v.value % TWO64)
    case NotOf(a) =>
      var v := Ref(a, vars, env);
      if v.None? then None else Some(if v.value == 0 then 1 else 0)
    case CastTo(k, size, a) =>
      var v := Ref(a, vars, env);
      if v.None? || Convert(k, size, v.value) != Convert(k, 8, v.value) then None else Some(Convert(k, size, v.value))
    case ArithOf(op, a, b) =>
      var x, y := Ref(a, vars, env), Ref(b, vars, env);
      if x.None? || y.None? then None else RefArith(op, KindOf(a, vars), KindOf(b, vars), x.value, y.value)
    case RelOf(op, a, b) =>
      var x, y := Ref(a, vars, env), Ref(b, vars, env);
      if x.None? || y.None? then None else Some(RefRel(op, KindOf(a, vars), KindOf(b, vars), x.value, y.value))
    case AndOf(a, b) =>
      var x := Ref(a, vars, env);
      if x.None? then None
      else if x.value == 0 then Some(0)
      else
        var y := Ref(b, vars, env);
        if y.None? then None else Some(if y.value != 0 then 1 else 0)
    case OrOf(a, b) =>
      var x := Ref(a, vars, env);
      if x.None? then None
      else if x.value != 0 then Some(1)
      else
        var y := Ref(b, vars, env);
        if y.None? then None else Some(if y.value != 0 then 1 else 0)
    case BitOf(op, a, b) =>
      var x, y := Ref(a, vars, env), Ref(b, vars, env);
      if x.None? || y.None? || KindOf(a, vars) == Signed || KindOf(b, vars) == Signed then None
      else RefBits(op, x.value, y.value)
  }

  // Typing

  /** Arithmetic and comparison nodes have operands of one kind. */
  ghost predicate WellKinded(n: Node) {
    match n
    case Int(_, _) => true
    case Var(_, _) => true
    case Item(_, a, b) => WellKinded(a) && WellKinded(b)
    case Unary(_, _, a) => WellKinded(a)
    case Cast(_, a) => WellKinded(a)
    case Binary(_, op, a, b) =>
      WellKinded(a) && WellKinded(b) && ((op.Arith? || op.Rel?) && a.ty.indirect == 0 ==> a.ty.kind == b.ty.kind)
  }

  lemma ArithTypes(op: ArithOp, l: Node, r: Node)
    requires IsNumber(l) && IsNumber(r) && WellKinded(l) && WellKinded(r)
    ensures MakeArith(op, l, r).Some?
    ensures var n := MakeArith(op, l, r).value;
            && IsNumber(n) && WellKinded(n)
            && n.ty.kind == if op == Sub || op == Mod || l.ty.kind == Signed || r.ty.kind == Signed then Signed
                else Unsigned
  {
    BinaryTypes(op, l, r);
    match op {
      case Mul =>
      case Div =>
      case Mod =>
      case Add =>
      case Sub =>
    }
  }

  lemma PromotedTypes(ty: Type, op: BinaryOp, l: Node, r: Node)
    requires IsNumber(l) && IsNumber(r) && WellKinded(l) && WellKinded(r)
    requires l.ty.kind == Signed || r.ty.kind == Signed
    ensures WellKinded(PromoteToSigned(ty, op, l, r)) && PromoteToSigned(ty, op, l, r).ty == ty
  {
  }

  lemma BinaryTypes(op: ArithOp, l: Node, r: Node)
    requires IsNumber(l) && IsNumber(r) && WellKinded(l) && WellKinded(r)
    ensures var n := MakeBinary(op, l, r);
            && IsNumber(n) && WellKinded(n)
            && n.ty.kind == if op == Sub || l.ty.kind == Signed || r.ty.kind == Signed then Signed else Unsigned
  {
    if l.ty.kind == Signed || r.ty.kind == Signed {
      PromotedTypes(SIGNED64, Arith(op), l, r);
    }
  }

  lemma RelTypes(op: RelOp, l: Node, r: Node)
    requires IsNumber(l) && IsNumber(r) && WellKinded(l) && WellKinded(r)
    ensures MakeRel(op, l, r).Some?
    ensures var n := MakeRel(op, l, r).value; IsNumber(n) && WellKinded(n) && n.ty.kind == Unsigned
  {
    if l.ty.kind == Signed || r.ty.kind == Signed {
      PromotedTypes(UNSIGNED64, Rel(op), l, r);
    }
  }

  /** Every integer expression is accepted, typed as the reference says, with matching operands. */
  lemma {:induction false} BuildTypes(e: Expr, vars: Vars)
    requires OverIntegers(e, vars)
    ensures Build(e, vars).Some?
    ensures Build(e, vars).value.ty.kind == KindOf(e, vars) && IsNumber(Build(e, vars).value)
    ensures WellKinded(Build(e, vars).value)
  {
    match e {
      case Const(_) =>
      case Variable(_) =>
      case NegOf(a) => BuildTypes(a, vars);
      case InvOf(a) => BuildTypes(a, vars);
      case NotOf(a) => BuildTypes(a, vars);
      case CastTo(_, _, a) => BuildTypes(a, vars);
      case ArithOf(op, a, b) =>
        BuildTypes(a, vars);
        BuildTypes(b, vars);
        ArithTypes(op, Build(a, vars).value, Build(b, vars).value);
      case RelOf(op, a, b) =>
        BuildTypes(a, vars);
        BuildTypes(b, vars);
        RelTypes(op, Build(a, vars).value, Build(b, vars).value);
      case AndOf(a, b) => BuildTypes(a, vars); BuildTypes(b, vars);
      case OrOf(a, b) => BuildTypes(a, vars); BuildTypes(b, vars);
      case BitOf(_, a, b) => BuildTypes(a, vars); BuildTypes(b, vars);
    }
  }

  // Values

  ghost predicate Agrees(n: Node, env: Env, kind: Kind, v: int) {
    var r := Evaluate(n, false, env);
    r.Ok? && ValueOf(kind, r.w) == v
  }

  lemma WordOfValue(kind: Kind, w: Word)
    ensures ToWord(ValueOf(kind, w)) == w && Int64(ValueOf(kind, w)) == AsSigned(w)
  {
  }

  lemma ExactSigned(x: int)
    requires FitsSigned(x)
    ensures AsSigned(ToWord(x)) == x
  {
  }

  lemma TruncIsQuotient(x: int, y: int)
    requires y != 0
    ensures TruncDiv(x, y) == Quotient(x, y)
  {
  }

  /** Division truncates: the remainder is smaller than the divisor and has the sign of the dividend. */
  lemma QuotientTruncates(x: int, y: int)
    requires y != 0
    ensures var r := x - y * TruncDiv(x, y); Abs(r) < Abs(y) && (r == 0 || (r < 0 <==> x < 0))
  {
    TruncIsQuotient(x, y);
    var q: int := Abs(x) / Abs(y);
    DivisionLaw(Abs(x), Abs(y));
    assert y * -q == -(y * q) && -y * q == -(y * q);
  }

  /** An operation crashes if and only if it divides by zero or, signed, the quotient does not fit. */
  lemma DivisionFailsIff(op: ArithOp, x: int, y: int)
    requires FitsSigned(x) && FitsSigned(y)
    ensures SignedArith(op, x, y) == Err(Crash) <==>
              (op == Div || op == Mod) && (y == 0 || !FitsSigned(Quotient(x, y)))
    ensures x >= 0 && y >= 0 ==> (UnsignedArith(op, x, y) == Err(Crash) <==> op == Div && y == 0)
  {
    if y != 0 {
      QuotientFits(x, y);
    }
  }

  lemma QuotientFits(x: int, y: int)
    requires FitsSigned(x) && FitsSigned(y) && y != 0
    ensures FitsSigned(Quotient(x, y)) <==> !(x == -TWO63 && y == -1)
  {
    if y == 1 || y == -1 {
      assert Abs(y) == 1 && Abs(x) / 1 == Abs(x);
    } else {
      HalvesAtLeast(Abs(x), Abs(y));
      assert Abs(x) / Abs(y) <= TWO63 / 2;
    }
  }

  lemma HalvesAtLeast(a: nat, b: nat)
    requires b >= 2
    ensures a / b <= a / 2
  {
    DivisionLaw(a, b);
    ProductMonotone(2, b, a / b);
  }

  lemma DivisionLaw(a: nat, b: nat)
    requires b > 0
    ensures 0 <= a - b * (a / b) < b
  {
  }

  /** The evaluator's comparison is that of the difference's sign. */
  lemma ComparesByDifference(op: RelOp, x: int, y: int)
    ensures Compare(op, x, y) == Ordered(op, x, y)
  {
  }

  lemma SignedIsExact(op: ArithOp, x: int, y: int)
    requires Exact(op, x, y).Some? && FitsSigned(Exact(op, x, y).value)
    ensures SignedArith(op, x, y) == Ok(ToWord(Exact(op, x, y).value))
  {
    if (op == Div || op == Mod) && y != 0 {
      TruncIsQuotient(x, y);
    }
  }

  lemma SmallWord(x: int)
    requires 0 <= x < TWO64
    ensures ToWord(x) == x
  {
  }

  lemma UnsignedWraps(op: ArithOp, a: Word, b: Word)
    requires op != Mod && RefArith(op, Unsigned, Unsigned, a, b).Some?
    ensures var r := UnsignedArith(op, a, b);
            var kind := if op == Sub then Signed else Unsigned;
            r.Ok? && ValueOf(kind, r.w) == RefArith(op, Unsigned, Unsigned, a, b).value
  {
    match op {
      case Mul =>
      case Add =>
      case Sub =>
      case Div => QuotientWord(a, b);
    }
  }

  lemma QuotientWord(a: Word, b: Word)
    requires b != 0
    ensures ToWord(a / b) == a / b
  {
  }

  /** An operation on numbers evaluates its operands, then dispatches on their kinds. */
  lemma OperationValue(ty: Type, op: BinaryOp, l: Node, r: Node, env: Env)
    requires l.ty.indirect == 0 && !op.Logic?
    requires Evaluate(l, false, env).Ok? && Evaluate(r, false, env).Ok?
    ensures Evaluate(Binary(ty, op, l, r), false, env) ==
              Operate(op, l.ty.kind, r.ty.kind, Evaluate(l, false, env).w, Evaluate(r, false, env).w, env)
  {
  }

  /** A promoted operand keeps its bits. */
  lemma PromotedOperand(n: Node, env: Env)
    requires IsNumber(n)
    ensures Evaluate(CastToSigned(n), false, env) == Evaluate(n, false, env)
  {
  }

  lemma ArithAgrees(op: ArithOp, l: Node, r: Node, env: Env, x: int, y: int)
    requires IsNumber(l) && IsNumber(r)
    requires Agrees(l, env, l.ty.kind, x) && Agrees(r, env, r.ty.kind, y)
    requires RefArith(op, l.ty.kind, r.ty.kind, x, y).Some?
    ensures MakeArith(op, l, r).Some?
    ensures var n := MakeArith(op, l, r).value;
            Agrees(n, env, n.ty.kind, RefArith(op, l.ty.kind, r.ty.kind, x, y).value)
  {
    var a, b := Evaluate(l, false, env).w, Evaluate(r, false, env).w;
    WordOfValue(l.ty.kind, a);
    WordOfValue(r.ty.kind, b);
    PromotedOperand(l, env);
    PromotedOperand(r, env);
    var n := MakeArith(op, l, r).value;
    OperationValue(n.ty, n.bop, n.left, n.right, env);
    if op == Mod || l.ty.kind == Signed || r.ty.kind == Signed {
      SignedIsExact(op, AsSigned(a), AsSigned(b));
      ExactSigned(RefArith(op, l.ty.kind, r.ty.kind, x, y).value);
    } else {
      UnsignedWraps(op, a, b);
    }
  }

  lemma RelAgrees(op: RelOp, l: Node, r: Node, env: Env, x: int, y: int)
    requires IsNumber(l) && IsNumber(r)
    requires Agrees(l, env, l.ty.kind, x) && Agrees(r, env, r.ty.kind, y)
    ensures MakeRel(op, l, r).Some?
    ensures Agrees(MakeRel(op, l, r).value, env, Unsigned, RefRel(op, l.ty.kind, r.ty.kind, x, y))
  {
    WordOfValue(l.ty.kind, Evaluate(l, false, env).w);
    WordOfValue(r.ty.kind, Evaluate(r, false, env).w);
    PromotedOperand(l, env);
    PromotedOperand(r, env);
    ComparesByDifference(op, Int64(x), Int64(y));
    ComparesByDifference(op, x, y);
  }

  function Power256(n: nat): nat {
    if n == 0 then 1 else 256 * Power256(n - 1)
  }

  lemma {:induction false} LittleEndianBound(bytes: seq<byte>)
    ensures LittleEndian(bytes) < Power256(|bytes|)
  {
    if bytes == [] {
    } else {
      LittleEndianBound(bytes[1..]);
    }
  }

  lemma Power256IsModulus(size: nat)
    requires IntegerSize(size)
    ensures Power256(size) == Modulus(size)
  {
  }

  /**
   The integer read from memory is the one of its type whose bytes these are: it lies in the type's
   range and is the little-endian number of the bytes, modulo the type's size.
   */
  lemma IntegerInIs(kind: Kind, size: nat, bytes: seq<byte>)
    requires IntegerType(kind, size) && |bytes| == size
    ensures InRange(kind, size, IntegerIn(kind, size, bytes))
    ensures IntegerIn(kind, size, bytes) % Modulus(size) == LittleEndian(bytes)
    ensures IntegerIn(kind, size, bytes) == Convert(kind, size, LittleEndian(bytes))
  {
    LittleEndianBound(bytes);
    Power256IsModulus(size);
    SmallRemainder(LittleEndian(bytes), Modulus(size));
  }

  /** A variable's 64-bit value is its typed value. */
  lemma VariableAgrees(kind: Kind, size: nat, bytes: seq<byte>)
    requires IntegerType(kind, size) && |bytes| == size
    ensures var x := ValueOf(kind, ToWord(IntegerIn(kind, size, bytes)));
            && InRange(kind, size, x) && x % Modulus(size) == LittleEndian(bytes)
            && x == Convert(kind, size, LittleEndian(bytes))
  {
    IntegerInIs(kind, size, bytes);
    WordHolds(kind, size, IntegerIn(kind, size, bytes));
  }

  /** A value of an integer type is kept by its 64-bit word. */
  lemma WordHolds(kind: Kind, size: nat, x: int)
    requires IntegerType(kind, size) && InRange(kind, size, x)
    ensures ValueOf(kind, ToWord(x)) == x
  {
    assert Modulus(size) <= TWO64;
  }

  lemma CastAgrees(kind: Kind, from: Kind, w: Word)
    requires IsInteger(kind)
    ensures ValueOf(kind, w) == Convert(kind, 8, ValueOf(from, w))
  {
  }

  lemma NegAgrees(n: Node, env: Env, v: int)
    requires IsNumber(n) && Agrees(n, env, n.ty.kind, v) && FitsSigned(-Int64(v))
    ensures MakeNeg(n).Some? && Agrees(MakeNeg(n).value, env, Signed, -Int64(v))
  {
    WordOfValue(n.ty.kind, Evaluate(n, false, env).w);
    ExactSigned(-Int64(v));
  }

  lemma InvAgrees(n: Node, env: Env, v: int)
    requires IsNumber(n) && Agrees(n, env, n.ty.kind, v)
    ensures MakeInv(n).Some? && Agrees(MakeInv(n).value, env, Unsigned, TWO64 - 1 - v % TWO64)
  {
    WordOfValue(n.ty.kind, Evaluate(n, false, env).w);
  }

  lemma NotAgrees(n: Node, env: Env, v: int)
    requires IsNumber(n) && Agrees(n, env, n.ty.kind, v)
    ensures MakeNot(n).Some? && Agrees(MakeNot(n).value, env, Unsigned, if v == 0 then 1 else 0)
  {
  }

  lemma CastNodeAgrees(kind: Kind, size: nat, n: Node, env: Env, v: int)
    requires IntegerType(kind, size) && IsNumber(n) && Agrees(n, env, n.ty.kind, v)
    ensures MakeCast(Type(0, kind, size, 0), n).Some?
    ensures Agrees(MakeCast(Type(0, kind, size, 0), n).value, env, kind, Convert(kind, 8, v))
  {
    CastAgrees(kind, n.ty.kind, Evaluate(n, false, env).w);
  }

  // Bitwise operators and shifts

  /** Taking digits from the low end or from the high end gives one number. */
  lemma {:induction false} LowDigitFirst(op: BitOp, x: int, y: int, n: nat)
    requires n > 0
    ensures DigitSum(op, x, y, n) == RefDigit(op, x % 2, y % 2) + 2 * DigitSum(op, x / 2, y / 2, n - 1)
  {
    if n == 1 {
      assert DigitSum(op, x, y, 0) == 0;
    } else {
      LowDigitFirst(op, x, y, n - 1);
      var d := RefDigit(op, Digit(x, n - 1), Digit(y, n - 1));
      assert Power2(n - 1) * d == 2 * (Power2(n - 2) * d);
    }
  }

  lemma {:induction false} BitwiseIsDigits(op: BitOp, x: nat, y: nat, n: nat)
    ensures Bitwise(op, x, y, n) == DigitSum(op, x, y, n) < Power2(n)
  {
    if n == 0 {
    } else {
      BitwiseIsDigits(op, x / 2, y / 2, n - 1);
      LowDigitFirst(op, x, y, n);
    }
  }

  lemma Power2IsWord()
    ensures Power2(64) == TWO64
  {
    assert Power2(8) == 0x100;
    assert Power2(16) == 0x1_0000;
    assert Power2(24) == 0x100_0000;
    assert Power2(32) == 0x1_0000_0000;
    assert Power2(40) == 0x100_0000_0000;
    assert Power2(48) == 0x1_0000_0000_0000;
    assert Power2(56) == 0x100_0000_0000_0000;
  }

  /** Reducing a factor first does not change a product modulo 2^64. */
  lemma ReducedFactor(x: int, m: nat)
    ensures ToWord(ToWord(x) * m) == ToWord(x * m)
  {
    var q := x / TWO64;
    assert x == q * TWO64 + ToWord(x);
    assert x * m == ToWord(x) * m + q * m * TWO64;
    if q * m >= 0 {
      WholeMultiple(x * m, q * m, TWO64);
    } else {
      WholeMultiple(ToWord(x) * m, -(q * m), TWO64);
    }
  }

  lemma {:induction false} ShiftedLeftIsProduct(a: Word, n: nat)
    ensures ShiftedLeft(a, n) == ToWord(a * Power2(n))
    decreases n
  {
    if n == 0 {
      SmallWord(a);
    } else {
      ShiftedLeftIsProduct(ToWord(2 * a), n - 1);
      ReducedFactor(2 * a, Power2(n - 1));
      assert 2 * a * Power2(n - 1) == a * Power2(n);
    }
  }

  lemma {:induction false} ShiftedRightIsQuotient(a: Word, n: nat)
    ensures ShiftedRight(a, n) == a / Power2(n)
  {
    if n == 0 {
    } else {
      ShiftedRightIsQuotient(a / 2, n - 1);
      HalvedQuotient(a, Power2(n - 1));
    }
  }

  /** The processor's operators are the reference's. */
  lemma BitsAgree(op: BitOp, a: Word, b: Word, env: Env)
    requires RefBits(op, a, b).Some?
    ensures Bits(op, a, b, env) == RefBits(op, a, b).value
  {
    if op == Left {
      ShiftedLeftIsProduct(a, b);
    } else if op == Right {
      ShiftedRightIsQuotient(a, b);
    } else {
      BitwiseIsDigits(op, a, b, 64);
      Power2IsWord();
      SmallWord(Bitwise(op, a, b, 64));
    }
  }

  lemma BitAgrees(op: BitOp, l: Node, r: Node, env: Env, x: int, y: int)
    requires IsNumber(l) && IsNumber(r) && l.ty.kind == Unsigned && r.ty.kind == Unsigned
    requires Agrees(l, env, Unsigned, x) && Agrees(r, env, Unsigned, y) && RefBits(op, x, y).Some?
    ensures MakeBit(op, l, r).Some? && Agrees(MakeBit(op, l, r).value, env, Unsigned, RefBits(op, x, y).value)
  {
    BitsAgree(op, x, y, env);
  }

  /** The right operand counts only when the left one does not decide. */
  lemma LogicAgrees(op: LogicOp, l: Node, r: Node, env: Env, x: int, y: Option<int>)
    requires IsNumber(l) && IsNumber(r) && Agrees(l, env, l.ty.kind, x)
    requires (if op == And then x != 0 else x == 0) ==> y.Some? && Agrees(r, env, r.ty.kind, y.value)
    ensures MakeLogic(op, l, r).Some?
    ensures Agrees(MakeLogic(op, l, r).value, env, Unsigned,
                   if op == And && x == 0 then 0
                   else if op == Or && x != 0 then 1
                   else if y.value != 0 then 1 else 0)
  {
  }

  /**
   Evaluator soundness: wherever the reference gives an integer expression a value (no zero divisor,
   no signed overflow, no narrowing cast in a part that is evaluated), the tree the grammar builds
   evaluates to the 64-bit word of that value, without error.
   */
  lemma {:induction false} EvaluatesToReference(e: Expr, vars: Vars, env: Env)
    requires OverIntegers(e, vars) && Ref(e, vars, env).Some?
    ensures Build(e, vars).Some?
    ensures Agrees(Build(e, vars).value, env, KindOf(e, vars), Ref(e, vars, env).value)
    decreases e, 1
  {
    match e {
      case Const(_) =>
      case Variable(id) =>
        VariableAgrees(vars(id).kind, vars(id).size, env.read(env.varAddress(id).value, vars(id).size).value);
      case NegOf(a) =>
        OperandAgreement(a, vars, env);
        NegAgrees(Build(a, vars).value, env, Ref(a, vars, env).value);
      case InvOf(a) =>
        OperandAgreement(a, vars, env);
        InvAgrees(Build(a, vars).value, env, Ref(a, vars, env).value);
      case NotOf(a) =>
        OperandAgreement(a, vars, env);
        NotAgrees(Build(a, vars).value, env, Ref(a, vars, env).value);
      case CastTo(k, size, a) =>
        OperandAgreement(a, vars, env);
        CastNodeAgrees(k, size, Build(a, vars).value, env, Ref(a, vars, env).value);
      case ArithOf(op, a, b) =>
        OperandAgreement(a, vars, env);
        OperandAgreement(b, vars, env);
        ArithTypes(op, Build(a, vars).value, Build(b, vars).value);
        ArithAgrees(op, Build(a, vars).value, Build(b, vars).value, env,
          Ref(a, vars, env).value, Ref(b, vars, env).value);
      case RelOf(op, a, b) =>
        OperandAgreement(a, vars, env);
        OperandAgreement(b, vars, env);
        RelAgrees(op, Build(a, vars).value, Build(b, vars).value, env,
          Ref(a, vars, env).value, Ref(b, vars, env).value);
      case AndOf(_, _) => LogicReference(e, vars, env);
      case OrOf(_, _) => LogicReference(e, vars, env);
      case BitOf(op, a, b) =>
        OperandAgreement(a, vars, env);
        OperandAgreement(b, vars, env);
        BitAgrees(op, Build(a, vars).value, Build(b, vars).value, env,
          Ref(a, vars, env).value, Ref(b, vars, env).value);
    }
  }

  lemma {:induction false} OperandAgreement(a: Expr, vars: Vars, env: Env)
    requires OverIntegers(a, vars) && Ref(a, vars, env).Some?
    ensures OperandAgrees(a, vars, env)
    decreases a, 2
  {
    BuildTypes(a, vars);
    EvaluatesToReference(a, vars, env);
  }

  lemma {:induction false} LogicReference(e: Expr, vars: Vars, env: Env)
    requires e.AndOf? || e.OrOf?
    requires OverIntegers(e, vars) && Ref(e, vars, env).Some?
    ensures Build(e, vars).Some?
    ensures Agrees(Build(e, vars).value, env, KindOf(e, vars), Ref(e, vars, env).value)
    decreases e, 0
  {
    OperandAgreement(e.l, vars, env);
    BuildTypes(e.r, vars);
    if (Ref(e.l, vars, env).value != 0) == e.AndOf? {
      OperandAgreement(e.r, vars, env);
    }
    LogicAgrees(if e.AndOf? then And else Or, Build(e.l, vars).value, Build(e.r, vars).value, env,
                Ref(e.l, vars, env).value, Ref(e.r, vars, env));
  }

  ghost predicate OperandAgrees(a: Expr, vars: Vars, env: Env) {
    && Build(a, vars).Some? && IsNumber(Build(a, vars).value) && WellKinded(Build(a, vars).value)
    && Build(a, vars).value.ty.kind == KindOf(a, vars)
    && Ref(a, vars, env).Some? && Agrees(Build(a, vars).value, env, KindOf(a, vars), Ref(a, vars, env).value)
  }

  // What the evaluator does not do

  /** Shift and bitwise operators are applied to unsigned operands only. */
  ghost predicate BitsUnsigned(e: Expr, vars: Vars) {
    match e
    case Const(_) => true
    case Variable(_) => true
    case NegOf(a) => BitsUnsigned(a, vars)
    case InvOf(a) => BitsUnsigned(a, vars)
    case NotOf(a) => BitsUnsigned(a, vars)
    case CastTo(_, _, a) => BitsUnsigned(a, vars)
    case ArithOf(_, a, b) => BitsUnsigned(a, vars) && BitsUnsigned(b, vars)
    case RelOf(_, a, b) => BitsUnsigned(a, vars) && BitsUnsigned(b, vars)
    case AndOf(a, b) => BitsUnsigned(a, vars) && BitsUnsigned(b, vars)
    case OrOf(a, b) => BitsUnsigned(a, vars) && BitsUnsigned(b, vars)
    case BitOf(_, a, b) =>
      && BitsUnsigned(a, vars) && BitsUnsigned(b, vars)
      && KindOf(a, vars) == Unsigned && KindOf(b, vars) == Unsigned
  }

  lemma ArithNotInternal(op: ArithOp, l: Node, r: Node, env: Env)
    requires IsNumber(l) && IsNumber(r)
    requires Evaluate(l, false, env) != Err(InternalError) && Evaluate(r, false, env) != Err(InternalError)
    ensures MakeArith(op, l, r).Some? && Evaluate(MakeArith(op, l, r).value, false, env) != Err(InternalError)
  {
    PromotedOperand(l, env);
    PromotedOperand(r, env);
  }

  lemma RelNotInternal(op: RelOp, l: Node, r: Node, env: Env)
    requires IsNumber(l) && IsNumber(r)
    requires Evaluate(l, false, env) != Err(InternalError) && Evaluate(r, false, env) != Err(InternalError)
    ensures MakeRel(op, l, r).Some? && Evaluate(MakeRel(op, l, r).value, false, env) != Err(InternalError)
  {
    PromotedOperand(l, env);
    PromotedOperand(r, env);
  }

  /** Whatever the variables hold, even where an operation is undefined, no such tree is an internal error. */
  lemma {:induction false} NeverInternalError(e: Expr, vars: Vars, env: Env)
    requires OverIntegers(e, vars) && BitsUnsigned(e, vars)
    ensures Build(e, vars).Some? && Evaluate(Build(e, vars).value, false, env) != Err(InternalError)
  {
    BuildTypes(e, vars);
    match e {
      case Const(_) =>
      case Variable(_) =>
      case NegOf(a) => BuildTypes(a, vars); NeverInternalError(a, vars, env);
      case InvOf(a) => BuildTypes(a, vars); NeverInternalError(a, vars, env);
      case NotOf(a) => BuildTypes(a, vars); NeverInternalError(a, vars, env);
      case CastTo(_, _, a) => BuildTypes(a, vars); NeverInternalError(a, vars, env);
      case ArithOf(op, a, b) =>
        BuildTypes(a, vars);
        BuildTypes(b, vars);
        NeverInternalError(a, vars, env);
        NeverInternalError(b, vars, env);
        ArithNotInternal(op, Build(a, vars).value, Build(b, vars).value, env);
      case RelOf(op, a, b) =>
        BuildTypes(a, vars);
        BuildTypes(b, vars);
        NeverInternalError(a, vars, env);
        NeverInternalError(b, vars, env);
        RelNotInternal(op, Build(a, vars).value, Build(b, vars).value, env);
      case AndOf(a, b) =>
        BuildTypes(a, vars);
        BuildTypes(b, vars);
        NeverInternalError(a, vars, env);
        NeverInternalError(b, vars, env);
      case OrOf(a, b) =>
        BuildTypes(a, vars);
        BuildTypes(b, vars);
        NeverInternalError(a, vars, env);
        NeverInternalError(b, vars, env);
      case BitOf(_, a, b) =>
        BuildTypes(a, vars);
        BuildTypes(b, vars);
        NeverInternalError(a, vars, env);
        NeverInternalError(b, vars, env);
    }
  }

  /**
   The grammar promises that signed operands of shift and bitwise operators are cast to unsigned;
   instead the evaluator reports an internal error, if and only if an operand is signed.
   */
  lemma SignedBitOperandsFail(op: BitOp, l: Node, r: Node, env: Env)
    requires IsNumber(l) && IsNumber(r)
    requires Evaluate(l, false, env).Ok? && Evaluate(r, false, env).Ok?
    ensures MakeBit(op, l, r).Some?
    ensures Evaluate(MakeBit(op, l, r).value, false, env) == Err(InternalError) <==>
        l.ty.kind == Signed || r.ty.kind == Signed
  {
    OperationValue(UNSIGNED64, Bit(op), l, r, env);
  }

  /** The values of an integer type. */
  predicate InRange(kind: Kind, size: nat, x: int) {
    if kind == Signed then -(Modulus(size) / 2) <= x < Modulus(size) / 2 else 0 <= x < Modulus(size)
  }

  /**
   A cast leaves the bits alone, so it is the conversion C makes if and only if the resulting
   value lies in the range of the target type.
   */
  lemma CastConvertsIffInRange(kind: Kind, size: nat, n: Node, env: Env)
    requires IntegerType(kind, size) && IsNumber(n) && Evaluate(n, false, env).Ok?
    ensures MakeCast(Type(0, kind, size, 0), n).Some?
    ensures var w := Evaluate(n, false, env).w;
            && Evaluate(MakeCast(Type(0, kind, size, 0), n).value, false, env) == Ok(w)
            && (ValueOf(kind, w) == Convert(kind, size, ValueOf(n.ty.kind, w)) <==>
                InRange(kind, size, ValueOf(kind, w)))
  {
    var w := Evaluate(n, false, env).w;
    ConvertsIffInRange(kind, size, n.ty.kind, w);
  }

  lemma ModulusDivides(size: nat, w: Word)
    requires IntegerSize(size)
    ensures (w - TWO64) % Modulus(size) == w % Modulus(size)
  {
    var m := Modulus(size);
    var q: nat :=
      match size
      case 1 => 0x100_0000_0000_0000
      case 2 => 0x1_0000_0000_0000
      case 4 => 0x1_0000_0000
      case _ => 1;
    assert q * m == TWO64;
    WholeMultiple(w, q, m);
  }

  lemma ConvertsIffInRange(kind: Kind, size: nat, from: Kind, w: Word)
    requires IntegerType(kind, size)
    ensures ValueOf(kind, w) == Convert(kind, size, ValueOf(from, w)) <==> InRange(kind, size, ValueOf(kind, w))
  {
    ModulusDivides(size, w);
    assert ValueOf(from, w) % Modulus(size) == w % Modulus(size) == ValueOf(kind, w) % Modulus(size);
    InRangeIffFixed(kind, size, ValueOf(kind, w));
  }

  /** Conversion fixes exactly the values in range. */
  lemma InRangeIffFixed(kind: Kind, size: nat, x: int)
    requires IntegerType(kind, size)
    ensures x == Convert(kind, size, x) <==> InRange(kind, size, x)
  {
    var m := Modulus(size);
    assert 0 <= x % m < m && x == x / m * m + x % m;
    if kind == Signed {
      if InRange(kind, size, x) && x < 0 {
        assert x % m == x + m;
      }
    }
  }
}
