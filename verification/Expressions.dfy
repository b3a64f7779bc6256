/**
 Debugger expressions over integers and pointers: the typing actions of expr.y, which build
 a typed tree and insert casts, and evaluate_node of expression.c.
 */
module Expressions {
  import opened Bytes

  const TWO63: int := 0x8000_0000_0000_0000
  const TWO64: int := 0x1_0000_0000_0000_0000

  /** The bits of union node_value. */
  type Word = w: int | 0 <= w < TWO64

  function ToWord(x: int): Word {
    x % TWO64
  }

  /** .signed_value */
  function AsSigned(w: Word): int {
    if w >= TWO63 then w - TWO64 else w
  }

  // Types and trees

  datatype Kind = Signed | Unsigned | Array | Aggregate | NoKind

  datatype Type = Type(offset: int, kind: Kind, size: nat, indirect: nat)

  datatype ArithOp = Mul | Div | Mod | Add | Sub
  datatype RelOp = Lt | Gt | Le | Ge | Eq | Neq
  datatype LogicOp = And | Or
  datatype BitOp = BitAnd | BitOr | Xor | Left | Right

  datatype BinaryOp = Arith(arith: ArithOp) | Rel(rel: RelOp) | Logic(logic: LogicOp) | Bit(bit: BitOp)
  datatype UnaryOp = AddressOf | Deref | Neg | Inv | Not

  datatype Node =
    | Int(ty: Type, value: Word)
    | Var(ty: Type, id: nat)
    | Item(ty: Type, target: Node, member: Node)
    | Unary(ty: Type, op: UnaryOp, operand: Node)
    | Binary(ty: Type, bop: BinaryOp, left: Node, right: Node)
    | Cast(ty: Type, operand: Node)

  const SIGNED64 := Type(0, Signed, 8, 0)
  const UNSIGNED64 := Type(0, Unsigned, 8, 0)

  /** IS_INTEGER */
  predicate IsInteger(k: Kind) {
    k == Signed || k == Unsigned
  }

  /** An integer and not a pointer. */
  predicate IsNumber(n: Node) {
    IsInteger(n.ty.kind) && n.ty.indirect == 0
  }

  // Typing actions; None is parse_error

  function CastToSigned(n: Node): Node {
    Cast(SIGNED64, n)
  }

  function SignedUnless(n: Node): Node {
    if n.ty.kind != Signed then CastToSigned(n) else n
  }

  /** promote_operands_to_signed */
  function PromoteToSigned(ty: Type, op: BinaryOp, l: Node, r: Node): Node {
    if l.ty.kind != Signed then Binary(ty, op, CastToSigned(l), r)
    else if r.ty.kind != Signed then Binary(ty, op, l, CastToSigned(r))
    else Binary(ty, op, l, r)
  }

  /** binary_op, for integers */
  function MakeBinary(op: ArithOp, l: Node, r: Node): Node {
    if l.ty.kind == Signed || r.ty.kind == Signed then PromoteToSigned(SIGNED64, Arith(op), l, r)
    else Binary(if op == Sub then SIGNED64 else UNSIGNED64, Arith(op), l, r)
  }

  function MakeArith(op: ArithOp, l: Node, r: Node): Option<Node> {
    match op
    case Mul => if IsNumber(l) && IsNumber(r) then Some(MakeBinary(Mul, l, r)) else None
    case Div => if IsNumber(l) && IsNumber(r) then Some(MakeBinary(Div, l, r)) else None
    case Mod =>
      if IsNumber(l) && IsNumber(r)
      then Some(Binary(SIGNED64, Arith(Mod), if l.ty.kind == Unsigned then CastToSigned(l) else l,
                                             if r.ty.kind == Unsigned then CastToSigned(r) else r))
      else None
    case Add =>
      if l.ty.indirect > 0 then
        if IsNumber(r) then Some(Binary(l.ty, Arith(Add), l, SignedUnless(r))) else None
      else if IsNumber(l) && IsNumber(r) then Some(MakeBinary(Add, l, r)) else None
    case Sub =>
      if l.ty.indirect > 0 then
        if r.ty.indirect > 0 then
          if l.ty.indirect == r.ty.indirect && l.ty.size == r.ty.size
          then Some(Binary(SIGNED64, Arith(Sub), l, r)) else None
        else if IsInteger(r.ty.kind) then Some(Binary(l.ty, Arith(Sub), l, SignedUnless(r))) else None
      else if IsNumber(l) && IsNumber(r) then Some(MakeBinary(Sub, l, r)) else None
  }

  function MakeRel(op: RelOp, l: Node, r: Node): Option<Node> {
    if !(IsNumber(l) && IsNumber(r)) then None
    else if l.ty.kind == Signed || r.ty.kind == Signed then Some(PromoteToSigned(UNSIGNED64, Rel(op), l, r))
    else Some(Binary(UNSIGNED64, Rel(op), l, r))
  }

  function MakeLogic(op: LogicOp, l: Node, r: Node): Option<Node> {
    if (!IsInteger(l.ty.kind) && l.ty.indirect == 0) || (!IsInteger(r.ty.kind) && r.ty.indirect == 0) then None
    else Some(Binary(UNSIGNED64, Logic(op), l, r))
  }

  function MakeBit(op: BitOp, l: Node, r: Node): Option<Node> {
    if IsNumber(l) && IsNumber(r) then Some(Binary(UNSIGNED64, Bit(op), l, r)) else None
  }

  function MakeNeg(n: Node): Option<Node> {
    if IsNumber(n) then Some(Unary(SIGNED64, Neg, n)) else None
  }

  function MakeInv(n: Node): Option<Node> {
    if IsNumber(n) then Some(Unary(UNSIGNED64, Inv, n)) else None
  }

  function MakeNot(n: Node): Option<Node> {
    if !IsInteger(n.ty.kind) && n.ty.indirect == 0 then None else Some(Unary(UNSIGNED64, Not, n))
  }

  function MakeCast(ty: Type, n: Node): Option<Node> {
    if || (ty.indirect > 0 && n.ty.indirect > 0)
       || (ty.indirect > 0 && n.ty.kind == Array)
       || (ty.indirect > 0 && IsInteger(n.ty.kind))
       || (n.ty.indirect > 0 && IsInteger(ty.kind) && ty.size == 8)
       || (IsInteger(ty.kind) && IsInteger(n.ty.kind))
    then Some(Cast(ty, n)) else None
  }

  function MakeDeref(n: Node): Option<Node> {
    if n.ty.indirect == 0 then None else Some(Unary(n.ty.(indirect := n.ty.indirect - 1), Deref, n))
  }

  function MakeAddressOf(n: Node): Option<Node> {
    if n.Var? || n.Item? then Some(Unary(n.ty.(indirect := n.ty.indirect + 1), AddressOf, n)) else None
  }

  /** p[i]; `base` is get_base_type_details. */
  function MakeItem(target: Node, member: Node, base: int -> Option<Type>): Option<Node> {
    if target.ty.indirect == 0 && target.ty.kind != Array then None
    else if !IsInteger(member.ty.kind) then None
    else if target.ty.kind == Array then
      var b := base(target.ty.offset);
      if b.None? then None else Some(Item(b.value, target, member))
    else Some(Item(target.ty.(indirect := target.ty.indirect - 1), target, member))
  }

  // Evaluation

  datatype Error =
    | InternalError | Crash | NoAddress | CannotRead | BadSize | BadType
    | OutOfBounds | ReleasedMemory | NoArraySize | BadPointerMath

  datatype Result = Ok(w: Word) | Err(e: Error)

  datatype TypeSize = TypeSize(size: nat, dim: nat)
  datatype Block = Bytes(n: nat) | Released | Unknown

  /**
   What evaluation asks of the recording at one step; what memory holds past the buffer of a variable,
   by position in it; and what a shift by the width of a word or more gives, which C leaves undefined.
   */
  datatype Env = Env(
    varAddress: nat -> Option<Word>,
    read: (Word, nat) -> Option<seq<byte>>,
    beyond: nat -> byte,
    typeSize: int -> Option<TypeSize>,
    blockAt: Word -> Block,
    wideShift: (BitOp, Word, Word) -> Word)

  function Modulus(size: nat): nat {
    match size
    case 1 => 0x100
    case 2 => 0x1_0000
    case 4 => 0x1_0000_0000
    case _ => 0x1_0000_0000_0000_0000
  }

  predicate IntegerSize(size: nat) {
    size == 1 || size == 2 || size == 4 || size == 8
  }

  /** The value of `size` bytes of memory as an integer of a kind. */
  function IntegerIn(kind: Kind, size: nat, bytes: seq<byte>): int {
    var v := LittleEndian(bytes);
    if kind == Signed && v >= Modulus(size) / 2 then v - Modulus(size) else v
  }

  /** The eight bytes at the start of a buffer: what was fetched, the byte of 0 after it, then whatever follows. */
  function BufferStart(bytes: seq<byte>, beyond: nat -> byte): seq<byte> {
    seq(8, (i: nat) => if i < |bytes| then bytes[i] else if i == |bytes| then 0 else beyond(i))
  }

  /** var_value; a pointer is loaded from a buffer of the size of its base type. */
  function VarValue(ty: Type, addr: Word, env: Env): Result {
    var bytes := env.read(addr, ty.size);
    if bytes.None? then Err(CannotRead)
    else if ty.indirect > 0 then Ok(ToWord(LittleEndian(BufferStart(bytes.value, env.beyond))))
    else if !IsInteger(ty.kind) then Err(BadType)
    else if !IntegerSize(ty.size) then Err(BadSize)
    else Ok(ToWord(IntegerIn(ty.kind, ty.size, bytes.value)))
  }

  function TruncDiv(a: int, b: int): int
    requires b != 0
  {
    if b > 0 then if a >= 0 then a / b else -((-a) / b)
    else if a >= 0 then -(a / (-b)) else (-a) / (-b)
  }

  /** signed_bin_op on 64-bit operands. */
  function SignedArith(op: ArithOp, a: int, b: int): Result {
    match op
    case Mul => Ok(ToWord(a * b))
    case Add => Ok(ToWord(a + b))
    case Sub => Ok(ToWord(a - b))
    case Div => if b == 0 || (a == -TWO63 && b == -1) then Err(Crash) else Ok(ToWord(TruncDiv(a, b)))
    case Mod => if b == 0 || (a == -TWO63 && b == -1) then Err(Crash) else Ok(ToWord(a - b * TruncDiv(a, b)))
  }

  /** unsigned_bin_op; it knows no OP_MOD. */
  function UnsignedArith(op: ArithOp, a: Word, b: Word): Result {
    match op
    case Mul => Ok(ToWord(a * b))
    case Add => Ok(ToWord(a + b))
    case Sub => Ok(ToWord(a - b))
    case Div => if b == 0 then Err(Crash) else Ok(ToWord(a / b))
    case Mod => Err(InternalError)
  }

  function Compare(op: RelOp, a: int, b: int): bool {
    match op
    case Lt => a < b
    case Gt => a > b
    case Le => a <= b
    case Ge => a >= b
    case Eq => a == b
    case Neq => a != b
  }

  function Truth(b: bool): Word {
    if b then 1 else 0
  }

  /** One binary digit of a bitwise operator. */
  function DigitOf(op: BitOp, x: int, y: int): int {
    match op
    case BitAnd => if x == 1 && y == 1 then 1 else 0
    case BitOr => if x == 1 || y == 1 then 1 else 0
    case _ => if x != y then 1 else 0
  }

  /** &, | and ^ on words of n bits, from the low bit up. */
  function Bitwise(op: BitOp, a: nat, b: nat, n: nat): nat {
    if n == 0 then 0 else DigitOf(op, a % 2, b % 2) + 2 * Bitwise(op, a / 2, b / 2, n - 1)
  }

  /** a << n, a bit at a time; bits that leave the word are lost. */
  function ShiftedLeft(a: Word, n: nat): Word
    decreases n
  {
    if n == 0 then a else ShiftedLeft(ToWord(2 * a), n - 1)
  }

  function ShiftedRight(a: Word, n: nat): Word
    decreases n
  {
    if n == 0 then a else ShiftedRight(a / 2, n - 1)
  }

  /** The bitwise and shift operators of unsigned_bin_op. */
  function Bits(op: BitOp, a: Word, b: Word, env: Env): Word {
    if op == Left || op == Right then
      if b >= 64 then env.wideShift(op, a, b)
      else if op == Left then ShiftedLeft(a, b) else ShiftedRight(a, b)
    else ToWord(Bitwise(op, a, b, 64))
  }

  /** The dispatch on operand kinds at the end of NODE_TYPE_BINARY_OP. */
  function Operate(op: BinaryOp, lk: Kind, rk: Kind, a: Word, b: Word, env: Env): Result {
    if lk == Signed || rk == Signed then
      match op
      case Arith(o) => SignedArith(o, AsSigned(a), AsSigned(b))
      case Rel(o) => Ok(Truth(Compare(o, AsSigned(a), AsSigned(b))))
      case _ => Err(InternalError)
    else
      match op
      case Arith(o) => UnsignedArith(o, a, b)
      case Rel(o) => Ok(Truth(Compare(o, a, b)))
      case Bit(o) => Ok(Bits(o, a, b, env))
      case _ => Err(InternalError)
  }

  /** The bounds check of NODE_TYPE_ITEM. */
  function CheckIndex(target: Type, addr: Word, index: Word, env: Env): Option<Error> {
    var ts := env.typeSize(target.offset);
    if ts.None? then Some(NoArraySize)
    else if ts.value.dim == 0 || target.indirect > 0 then
      match env.blockAt(addr)
      case Bytes(n) =>
        if n == 0 then None
        else if ts.value.size == 0 then Some(Crash)
        else if index >= n / ts.value.size then Some(OutOfBounds) else None
      case Released => Some(ReleasedMemory)
      case Unknown => None
    else if index >= ts.value.dim then Some(OutOfBounds)
    else None
  }

  function Load(ty: Type, addr: Word, addressOnly: bool, env: Env): Result {
    if addressOnly then Ok(addr) else VarValue(ty, addr, env)
  }

  /** evaluate_node; `addressOnly` is FLAG_ADDR. */
  function Evaluate(n: Node, addressOnly: bool, env: Env): Result
    decreases n
  {
    match n
    case Int(_, v) => Ok(v)
    case Var(ty, id) =>
      var addr := env.varAddress(id);
      if addr.None? then Err(NoAddress) else Load(ty, addr.value, addressOnly, env)
    case Item(ty, target, member) =>
      var base := Evaluate(target, target.ty.indirect == 0, env);
      if base.Err? then base
      else
        var index := Evaluate(member, false, env);
        if index.Err? then index
        else
          var check := CheckIndex(target.ty, base.w, index.w, env);
          if check.Some? then Err(check.value)
          else Load(ty, ToWord(base.w + index.w * ty.size), addressOnly, env)
    case Unary(ty, op, e) =>
      var v := Evaluate(e, op == AddressOf, env);
      if v.Err? then v
      else (match op
            case AddressOf => v
            case Deref => Load(ty, v.w, addressOnly, env)
            case Neg => Ok(ToWord(-AsSigned(v.w)))
            case Inv => Ok(TWO64 - 1 - v.w)
            case Not => Ok(Truth(v.w == 0)))
    case Binary(ty, op, l, r) =>
      if l.ty.indirect > 0 then PointerMath(n, env)
      else if op.Logic? then
        var a := Evaluate(l, false, env);
        if a.Err? then a
        else if op.logic == And && a.w == 0 then Ok(0)
        else if op.logic == Or && a.w != 0 then Ok(1)
        else
          var b := Evaluate(r, false, env);
          if b.Err? then b else Ok(Truth(b.w != 0))
      else
        var a := Evaluate(l, false, env);
        if a.Err? then a
        else
          var b := Evaluate(r, false, env);
          if b.Err? then b else Operate(op, l.ty.kind, r.ty.kind, a.w, b.w, env)
    case Cast(ty, e) =>
      var v := Evaluate(e, e.ty.kind == Array || e.ty.kind == Aggregate, env);
      if v.Err? || ty.indirect > 0 || IsInteger(ty.kind) then v else Err(InternalError)
  }

  /** Pointer plus or minus integer, pointer minus pointer. */
  function PointerMath(n: Node, env: Env): Result
    requires n.Binary?
    decreases n, 0
  {
    var l, r, op := n.left, n.right, n.bop;
    if !(op == Arith(Add) && r.ty.kind == Signed) && op == Arith(Sub) && (r.ty.kind == Signed || r.ty.indirect > 0)
    then Err(BadPointerMath)
    else
      var p := Evaluate(l, false, env);
      if p.Err? then p
      else
        var i := Evaluate(r, false, env);
        if i.Err? then i
        else if r.ty.kind == Signed then
          var offset := ToWord(AsSigned(i.w)) * l.ty.size;
          Ok(ToWord(if op == Arith(Add) then p.w + offset else p.w - offset))
        else
          var diff := AsSigned(ToWord(p.w - i.w));
          if l.ty.size == 0 then Err(Crash)
          else if ToWord(diff) % l.ty.size != 0 then Err(BadPointerMath)
          else Ok(ToWord(ToWord(diff) / l.ty.size))
  }
}
