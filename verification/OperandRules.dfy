/**
 Which operands the grammar accepts, what type it gives the result, and what casts and logical
 operators do with pointers and arrays.
 */
module OperandRules {
  import opened Bytes
  import opened Expressions
  import opened ExpressionSoundness
  import opened PointerExpressions

  datatype Shape = Number | Pointer | ArrayObject | Other

  /** What an operand is, as far as operators care. */
  function ShapeOf(n: Node): Shape {
    if n.ty.indirect > 0 then Pointer
    else
      match n.ty.kind
      case Signed => Number
      case Unsigned => Number
      case Array => ArrayObject
      case _ => Other
  }

  /** Something with a truth value. */
  predicate IsScalar(n: Node) {
    ShapeOf(n) == Number || ShapeOf(n) == Pointer
  }

  /** The operands an arithmetic operator takes. A pointer may be the left operand of a sum, not the right one. */
  predicate TakesOperands(op: ArithOp, l: Node, r: Node) {
    if ShapeOf(l) == Number then ShapeOf(r) == Number
    else if ShapeOf(l) == Pointer && ShapeOf(r) == Number then op == Add || op == Sub
    else if ShapeOf(l) == Pointer && ShapeOf(r) == Pointer
    then op == Sub && l.ty.indirect == r.ty.indirect && l.ty.size == r.ty.size
    else false
  }

  lemma NumberShape(n: Node)
    ensures ShapeOf(n) == Number <==> IsNumber(n)
    ensures ShapeOf(n) == Pointer <==> n.ty.indirect > 0
  {
  }

  /** Arithmetic is accepted for exactly these operands. */
  lemma ArithAccepted(op: ArithOp, l: Node, r: Node)
    ensures MakeArith(op, l, r).Some? <==> TakesOperands(op, l, r)
  {
    NumberShape(l);
    NumberShape(r);
  }

  /** A sum or difference with a number keeps the pointer's type; a difference of pointers is signed. */
  lemma PointerArithTypes(op: ArithOp, l: Node, r: Node)
    requires TakesOperands(op, l, r) && ShapeOf(l) == Pointer
    ensures MakeArith(op, l, r).Some?
    ensures MakeArith(op, l, r).value.ty == if ShapeOf(r) == Pointer then SIGNED64 else l.ty
  {
    NumberShape(r);
  }

  /** Comparisons and bitwise operators take numbers, logical ones anything with a truth value; all yield unsigned. */
  lemma BinaryAccepted(rel: RelOp, logic: LogicOp, bit: BitOp, l: Node, r: Node)
    ensures MakeRel(rel, l, r).Some? <==> ShapeOf(l) == Number && ShapeOf(r) == Number
    ensures MakeBit(bit, l, r).Some? <==> ShapeOf(l) == Number && ShapeOf(r) == Number
    ensures IsScalar(l) && IsScalar(r) ==> MakeLogic(logic, l, r).Some? && MakeLogic(logic, l, r).value.ty == UNSIGNED64
    ensures MakeLogic(logic, l, r).Some? ==> IsScalar(l) && IsScalar(r)
    ensures MakeRel(rel, l, r).Some? ==> MakeRel(rel, l, r).value.ty == UNSIGNED64
    ensures MakeBit(bit, l, r).Some? ==> MakeBit(bit, l, r).value.ty == UNSIGNED64
  {
  }

  /** Unary operators: signs and inversion take numbers, negation scalars, * pointers, & variables and items. */
  lemma UnaryAccepted(n: Node)
    ensures MakeNeg(n).Some? <==> ShapeOf(n) == Number
    ensures MakeInv(n).Some? <==> ShapeOf(n) == Number
    ensures MakeNot(n).Some? <==> IsScalar(n)
    ensures MakeDeref(n).Some? <==> ShapeOf(n) == Pointer
    ensures MakeAddressOf(n).Some? <==> n.Var? || n.Item?
    ensures MakeAddressOf(n).Some? ==> ShapeOf(MakeAddressOf(n).value) == Pointer
    ensures MakeAddressOf(n).Some? ==> MakeDeref(MakeAddressOf(n).value).Some?
    ensures MakeAddressOf(n).Some? ==> MakeDeref(MakeAddressOf(n).value).value.ty == n.ty
  {
  }

  /** What is subscripted is a pointer or an array whose base type is known, by an integer or a pointer to integers. */
  lemma SubscriptTakes(target: Node, member: Node, base: int -> Option<Type>)
    ensures MakeItem(target, member, base).Some? <==>
              && (ShapeOf(target) == Pointer || ShapeOf(target) == ArrayObject)
              && IsInteger(member.ty.kind)
              && (target.ty.kind == Array ==> base(target.ty.offset).Some?)
  {
  }

  /** A cast goes between numbers, from all but aggregates to a pointer, and from a pointer to 8-byte integers. */
  lemma CastAccepted(ty: Type, n: Node)
    requires ty.indirect > 0 || IsInteger(ty.kind)
    requires n.ty.kind != NoKind && n.ty.kind != Aggregate
    ensures MakeCast(ty, n).Some? <==>
              if ty.indirect > 0 then true
              else if ShapeOf(n) == Pointer then ty.size == 8 || IsInteger(n.ty.kind)
              else ShapeOf(n) == Number
  {
  }

  /** A cast keeps the bits of a number or a pointer, and makes an array its address. */
  lemma CastValue(ty: Type, n: Node, addressOnly: bool, env: Env)
    requires MakeCast(ty, n).Some? && n.ty.kind != Aggregate
    ensures Evaluate(MakeCast(ty, n).value, addressOnly, env) == Evaluate(n, n.ty.kind == Array, env)
  {
  }

  // Logical operators

  /** The truth of two results joined by && or ||. */
  function Joined(op: LogicOp, a: Result, b: Result): Result
    requires a.Ok? && b.Ok?
  {
    var x, y := a.w != 0, b.w != 0;
    Ok(if (if op == And then x && y else x || y) then 1 else 0)
  }

  lemma LogicNode(op: LogicOp, l: Node, r: Node, env: Env)
    requires l.ty.indirect == 0 && Evaluate(l, false, env).Ok? && Evaluate(r, false, env).Ok?
    ensures Evaluate(Binary(UNSIGNED64, Logic(op), l, r), false, env) ==
              Joined(op, Evaluate(l, false, env), Evaluate(r, false, env))
  {
  }

  /** With a number on the left, a logical operator yields the truth of its operands, numbers or pointers. */
  lemma LogicWithNumberLeft(op: LogicOp, l: Node, r: Node, env: Env)
    requires ShapeOf(l) == Number && IsScalar(r) && Evaluate(l, false, env).Ok? && Evaluate(r, false, env).Ok?
    ensures MakeLogic(op, l, r).Some?
    ensures Evaluate(MakeLogic(op, l, r).value, false, env) ==
              Joined(op, Evaluate(l, false, env), Evaluate(r, false, env))
  {
    assert MakeLogic(op, l, r) == Some(Binary(UNSIGNED64, Logic(op), l, r));
    LogicNode(op, l, r, env);
  }

  /** The difference of two results, the second in units of `size`, modulo 2^64. */
  function Behind(a: Result, b: Result, size: nat): Result {
    if a.Err? then a else if b.Err? then b else Ok(ToWord(a.w - b.w * size))
  }

  /** With a pointer on the left and a signed number on the right it is a subtraction. */
  lemma LogicWithPointerLeft(op: LogicOp, l: Node, r: Node, env: Env)
    requires ShapeOf(l) == Pointer && ShapeOf(r) == Number && r.ty.kind == Signed
    ensures MakeLogic(op, l, r).Some?
    ensures Evaluate(MakeLogic(op, l, r).value, false, env) ==
              Behind(Evaluate(l, false, env), Evaluate(r, false, env), l.ty.size)
  {
    var n := Binary(UNSIGNED64, Logic(op), l, r);
    assert MakeLogic(op, l, r) == Some(n);
    PointerNode(n, false, env);
    PointerLogic(n, env);
  }

  lemma PointerLogic(n: Node, env: Env)
    requires n.Binary? && n.bop.Logic? && n.left.ty.indirect > 0 && n.right.ty.kind == Signed
    ensures PointerMath(n, env) ==
              Behind(Evaluate(n.left, false, env), Evaluate(n.right, false, env), n.left.ty.size)
  {
    var b := Evaluate(n.right, false, env);
    if Evaluate(n.left, false, env).Ok? && b.Ok? {
      SignedBits(b.w);
    }
  }

  /** (int *)1000 && -1 is 1004, where C has 1. */
  lemma PointerLogicExample(p: Node, minus: Node, env: Env)
    requires MakeCast(Type(1, Signed, 4, 1), Int(UNSIGNED64, 1000)) == Some(p)
    requires MakeNeg(Int(UNSIGNED64, 1)) == Some(minus)
    ensures MakeLogic(And, p, minus).Some? && Evaluate(MakeLogic(And, p, minus).value, false, env) == Ok(1004)
  {
    assert Evaluate(p, false, env) == Ok(1000);
    MinusOne(minus, env);
    LogicWithPointerLeft(And, p, minus, env);
    FarProduct();
  }

  lemma MinusOne(minus: Node, env: Env)
    requires MakeNeg(Int(UNSIGNED64, 1)) == Some(minus)
    ensures Evaluate(minus, false, env) == Ok(TWO64 - 1)
  {
    assert Evaluate(Int(UNSIGNED64, 1), false, env) == Ok(1);
  }

  lemma FarProduct()
    ensures ToWord(1000 - (TWO64 - 1) * 4) == 1004
  {
  }
}
