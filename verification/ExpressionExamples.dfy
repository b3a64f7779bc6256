/**
 Inputs on which the evaluator gives something else than C does.
 */
module ExpressionExamples {
  import opened Bytes
  import opened Expressions
  import opened ExpressionSoundness
  import opened PointerExpressions

  /** int *p that holds 0x7FFF_1234_5678: four bytes are fetched, and the fifth, 0xFF, is read as 0. */
  lemma IntPointerExample(addr: Word, env: Env, mem: nat -> byte)
    requires Records(env, addr, mem) && Recording(mem, addr, 8) == [0x78, 0x56, 0x34, 0x12, 0xFF, 0x7F, 0, 0]
    ensures VarValue(Type(1, Signed, 4, 1), addr, env) != Ok(PointerAt(mem, addr))
  {
    assert mem(addr + 4) == Recording(mem, addr, 8)[4];
    ShortPointerIsWrong(Type(1, Signed, 4, 1), addr, env, mem);
  }

  /** (int **)1000 + 1 is 1004, where C has 1008. */
  lemma PointerToPointerExample(p: Node, env: Env)
    requires MakeCast(Type(1, Signed, 4, 2), Int(UNSIGNED64, 1000)) == Some(p)
    ensures Evaluate(SumWith(p, 1), false, env) == Ok(1004) && !StepsByElement(p, 1, env)
  {
    var a := Evaluate(p, false, env);
    assert a == Ok(1000) && ElementSize(p.ty) == 8;
    SumWithValue(p, 1, env);
    ThousandAnd(a);
  }

  lemma ThousandAnd(a: Result)
    requires a == Ok(1000)
    ensures Offset(a, Ok(1), 4) == Ok(1004) && Offset(a, Ok(1), 8) == Ok(1008) && Offset(a, Ok(1), 12) == Ok(1012)
  {
  }

  /** int **p on a block of 8 bytes, which holds one pointer: p[1] passes the check. */
  lemma PointerBlockExample(addr: Word, env: Env)
    requires env.blockAt(addr) == Bytes(8) && env.typeSize(1) == Some(TypeSize(4, 0))
    ensures CheckIndex(Type(1, Signed, 4, 2), addr, 1, env).None?
    ensures (1 + 1) * ElementSize(Type(1, Signed, 4, 2)) == 16
  {
  }

  /** The base type of int[3]. */
  function IntBase(offset: int): Option<Type> {
    Some(Type(2, Signed, 4, 0))
  }

  /**
   int (*p)[3] that holds 1000, the start of a block of 36 bytes: p[1] is in bounds, but &p[1] is
   1004 and p + 1 is 1012, and p[1] is an int where *(p+1) is an array.
   */
  lemma PointerToArrayExample(p: Node, one: Node, env: Env)
    requires p == Var(Type(1, Array, 12, 1), 0) && one == Int(UNSIGNED64, 1)
    requires Evaluate(p, false, env) == Ok(1000)
    requires env.blockAt(1000) == Bytes(36) && env.typeSize(1) == Some(TypeSize(12, 3))
    ensures InBounds(p, one, env) && !Identity(p, one, IntBase)
    ensures MakeItem(p, one, IntBase) == Some(Item(Type(2, Signed, 4, 0), p, one))
    ensures Evaluate(Item(Type(2, Signed, 4, 0), p, one), true, env) == Ok(1004)
    ensures Evaluate(SumWith(p, 1), false, env) == Ok(1012)
  {
    ThousandAnd(Evaluate(p, false, env));
    SumWithValue(p, 1, env);
    SubscriptValues(p, one, Type(2, Signed, 4, 0), env, true);
    SubscriptIdentity(p, one, IntBase);
  }

  /** p - 1, with int *p: accepted by the grammar, refused by the evaluator. */
  lemma SubtractionExample(p: Node, one: Node, env: Env)
    requires p == Var(Type(1, Signed, 4, 1), 0) && one == Int(UNSIGNED64, 1)
    ensures MakeArith(Sub, p, one).Some? && Evaluate(MakeArith(Sub, p, one).value, false, env) == Err(BadPointerMath)
  {
  }

  /** -1 & 1: both are numbers, and the evaluator reports an internal error. */
  lemma SignedBitExample(e: Expr, vars: Vars, env: Env)
    requires e == BitOf(BitAnd, NegOf(Const(1)), Const(1))
    ensures Build(e, vars).Some? && Evaluate(Build(e, vars).value, false, env) == Err(InternalError)
  {
    var l, r := Unary(SIGNED64, Neg, Int(UNSIGNED64, 1)), Int(UNSIGNED64, 1);
    assert Build(e, vars) == MakeBit(BitAnd, l, r);
    SignedBitOperandsFail(BitAnd, l, r, env);
  }

  /** (signed char)300 stays 300, where C has 44. */
  lemma NarrowingExample(e: Expr, vars: Vars, env: Env)
    requires e == CastTo(Signed, 1, Const(300))
    ensures Build(e, vars).Some? && Evaluate(Build(e, vars).value, false, env) == Ok(300)
    ensures Convert(Signed, 1, 300) == 44
  {
  }
}
