/**
 Operands of different integer types. The evaluator makes both signed as soon as one is; section
 6.3.1.8 of C11 lets the unsigned one win at equal or greater rank. When the two compare alike.
 */
module UsualConversions {
  import opened Bytes
  import opened Expressions
  import opened ExpressionSoundness

  datatype IntType = IntType(kind: Kind, size: nat)

  /** Types below int become int. */
  function Promoted(t: IntType): IntType {
    if t.size < 4 then IntType(Signed, 4) else t
  }

  /** The usual arithmetic conversions, with a rank per size. */
  function Common(a: IntType, b: IntType): IntType {
    var p, q := Promoted(a), Promoted(b);
    if p.kind == q.kind then if p.size >= q.size then p else q
    else
      var u, s := if p.kind == Unsigned then p else q, if p.kind == Unsigned then q else p;
      if u.size >= s.size then u else s
  }

  /** A comparison as C makes it: both operands converted to the common type. */
  function CompareInC(op: RelOp, a: IntType, b: IntType, x: int, y: int): int {
    var t := Common(a, b);
    if Ordered(op, Convert(t.kind, t.size, x), Convert(t.kind, t.size, y)) then 1 else 0
  }

  /** The evaluator makes this comparison as C does, whatever the operator. */
  ghost predicate ComparesAsC(a: IntType, b: IntType, x: int, y: int) {
    forall op :: RefRel(op, a.kind, b.kind, x, y) == CompareInC(op, a, b, x, y)
  }

  /** A comparison of two pairs comes out alike for every operator if and only if they are ordered alike. */
  lemma SameOrder(x: int, y: int, v: int, w: int)
    ensures (forall op :: Ordered(op, x, y) == Ordered(op, v, w)) <==> (x < y <==> v < w) && (x == y <==> v == w)
  {
    assert Ordered(Lt, x, y) == Ordered(Lt, v, w) <==> (x < y <==> v < w);
    assert Ordered(Eq, x, y) == Ordered(Eq, v, w) <==> (x == y <==> v == w);
  }

  ghost predicate Holds(t: IntType, x: int) {
    IntegerType(t.kind, t.size) && InRange(t.kind, t.size, x)
  }

  /** A value that a type holds is its own conversion to it. */
  lemma Converted(kind: Kind, size: nat, x: int)
    requires IntegerType(kind, size)
    ensures InRange(kind, size, x) ==> Convert(kind, size, x) == x
    ensures kind == Unsigned && InRange(Signed, size, x) && x < 0 ==> Convert(kind, size, x) == x + Modulus(size)
  {
    InRangeIffFixed(kind, size, x);
    var m := Modulus(size);
    if kind == Unsigned && InRange(Signed, size, x) && x < 0 {
      assert x == -1 * m + (x + m);
    }
  }

  lemma AsInt64(x: int)
    requires -TWO63 <= x < TWO64
    ensures Int64(x) == if x >= TWO63 then x - TWO64 else x
  {
  }

  /** Operands of one signedness compare as in C. */
  lemma SameSignComparesAsC(a: IntType, b: IntType, x: int, y: int)
    requires Holds(a, x) && Holds(b, y) && a.kind == b.kind
    ensures ComparesAsC(a, b, x, y)
  {
    var t := Common(a, b);
    Converted(t.kind, t.size, x);
    Converted(t.kind, t.size, y);
    AsInt64(x);
    AsInt64(y);
    SameOrder(x, y, Convert(t.kind, t.size, x), Convert(t.kind, t.size, y));
  }

  /**
   A signed x and an unsigned y compare as in C if and only if the signed type is the common one, or
   x is not negative and y is below 2^63, or x is negative and y is above x as an unsigned number
   (in 64 bits: is at least 2^63).
   */
  lemma MixedComparesAsCIff(a: IntType, b: IntType, x: int, y: int)
    requires Holds(a, x) && Holds(b, y) && a.kind == Signed && b.kind == Unsigned
    ensures ComparesAsC(a, b, x, y) <==>
              || Common(a, b).kind == Signed
              || (x >= 0 && y < TWO63)
              || (x < 0 && if b.size == 8 then y >= TWO63 else y > x + Modulus(b.size))
  {
    var t := Common(a, b);
    CommonConverts(a, b, x, y);
    AsInt64(x);
    AsInt64(y);
    SameOrder(Int64(x), Int64(y), Convert(t.kind, t.size, x), Convert(t.kind, t.size, y));
    AllOperators(a, b, x, y);
  }

  /** The operator that says the same with its operands exchanged. */
  function Flipped(op: RelOp): RelOp {
    match op
    case Lt => Gt
    case Gt => Lt
    case Le => Ge
    case Ge => Le
    case Eq => Eq
    case Neq => Neq
  }

  lemma FlippedAlike(op: RelOp, a: IntType, b: IntType, x: int, y: int)
    requires IntegerType(a.kind, a.size) && IntegerType(b.kind, b.size)
    ensures RefRel(op, a.kind, b.kind, x, y) == RefRel(Flipped(op), b.kind, a.kind, y, x)
    ensures CompareInC(op, a, b, x, y) == CompareInC(Flipped(op), b, a, y, x)
  {
    assert Common(a, b) == Common(b, a);
  }

  lemma Turned(a: IntType, b: IntType, x: int, y: int)
    requires IntegerType(a.kind, a.size) && IntegerType(b.kind, b.size) && ComparesAsC(b, a, y, x)
    ensures ComparesAsC(a, b, x, y)
  {
    forall op ensures RefRel(op, a.kind, b.kind, x, y) == CompareInC(op, a, b, x, y) {
      FlippedAlike(op, a, b, x, y);
      assert RefRel(Flipped(op), b.kind, a.kind, y, x) == CompareInC(Flipped(op), b, a, y, x);
    }
  }

  /** It does not matter which operand is the signed one. */
  lemma EitherOrder(a: IntType, b: IntType, x: int, y: int)
    requires IntegerType(a.kind, a.size) && IntegerType(b.kind, b.size)
    ensures ComparesAsC(a, b, x, y) <==> ComparesAsC(b, a, y, x)
  {
    if ComparesAsC(a, b, x, y) {
      Turned(b, a, y, x);
    }
    if ComparesAsC(b, a, y, x) {
      Turned(a, b, x, y);
    }
  }

  lemma AllOperators(a: IntType, b: IntType, x: int, y: int)
    requires a.kind == Signed && b.kind == Unsigned
    ensures var t := Common(a, b);
            ComparesAsC(a, b, x, y) <==>
              forall op :: Ordered(op, Int64(x), Int64(y)) ==
                           Ordered(op, Convert(t.kind, t.size, x), Convert(t.kind, t.size, y))
  {
    var t := Common(a, b);
    forall op ensures RefRel(op, a.kind, b.kind, x, y) == CompareInC(op, a, b, x, y) <==>
                        Ordered(op, Int64(x), Int64(y)) ==
                          Ordered(op, Convert(t.kind, t.size, x), Convert(t.kind, t.size, y))
    {
    }
  }

  /** What the common type makes of a signed and an unsigned value. */
  lemma CommonConverts(a: IntType, b: IntType, x: int, y: int)
    requires Holds(a, x) && Holds(b, y) && a.kind == Signed && b.kind == Unsigned
    ensures var t := Common(a, b);
            && Convert(t.kind, t.size, y) == y
            && (t.kind == Signed ==> Convert(t.kind, t.size, x) == x && y < TWO63)
            && (t.kind == Unsigned ==>
                  t.size == b.size && Convert(t.kind, t.size, x) == if x < 0 then x + Modulus(b.size) else x)
  {
    var t := Common(a, b);
    Converted(t.kind, t.size, x);
    Converted(t.kind, t.size, y);
    assert t.kind == Unsigned ==> InRange(Signed, t.size, x);
  }

  /** int x = -1 and unsigned y = 1: x < y is true in the debugger and false in C. */
  lemma MixedExample(l: Node, r: Node, env: Env)
    requires IsNumber(l) && l.ty.kind == Signed && Agrees(l, env, Signed, -1)
    requires IsNumber(r) && r.ty.kind == Unsigned && Agrees(r, env, Unsigned, 1)
    ensures MakeRel(Lt, l, r).Some? && Evaluate(MakeRel(Lt, l, r).value, false, env) == Ok(1)
    ensures CompareInC(Lt, IntType(Signed, 4), IntType(Unsigned, 4), -1, 1) == 0
  {
    RelAgrees(Lt, l, r, env, -1, 1);
    Converted(Unsigned, 4, -1);
    Converted(Unsigned, 4, 1);
  }
}
