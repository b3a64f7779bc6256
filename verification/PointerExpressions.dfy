/**
 Pointer expressions: subscripting is dereferencing a sum, as section 6.5.2.1 of C11 has it, and
 where the code keeps to it: the type of the element, the size of a step, the load of a pointer.
 */
module PointerExpressions {
  import opened Bytes
  import opened Arithmetic
  import opened Expressions
  import opened ExpressionSoundness
  import Breakpoints

  ghost predicate IsPointer(p: Node) {
    p.ty.indirect > 0
  }

  lemma SignedBits(w: Word)
    ensures ToWord(AsSigned(w)) == w
  {
  }

  /** An index promoted to signed keeps its bits. */
  lemma IndexBits(i: Node, env: Env)
    requires IsNumber(i)
    ensures Evaluate(SignedUnless(i), false, env) == Evaluate(i, false, env)
    ensures SignedUnless(i).ty.kind == Signed
  {
  }

  /** The sum of two results, the second in units of `size`, modulo 2^64. */
  function Offset(a: Result, b: Result, size: nat): Result {
    if a.Err? then a else if b.Err? then b else Ok(ToWord(a.w + b.w * size))
  }

  /** Pointer plus signed integer. */
  lemma PointerPlus(n: Node, env: Env)
    requires n.Binary? && n.bop == Arith(Add) && n.left.ty.indirect > 0 && n.right.ty.kind == Signed
    ensures PointerMath(n, env) == Offset(Evaluate(n.left, false, env), Evaluate(n.right, false, env), n.left.ty.size)
  {
    var b := Evaluate(n.right, false, env);
    if Evaluate(n.left, false, env).Ok? && b.Ok? {
      SignedBits(b.w);
    }
  }

  lemma PointerNode(n: Node, addressOnly: bool, env: Env)
    requires n.Binary? && n.left.ty.indirect > 0
    ensures Evaluate(n, addressOnly, env) == PointerMath(n, env)
  {
  }

  /** p + i is p and i times the size of the node's base type, modulo 2^64. */
  lemma SumAddress(p: Node, i: Node, addressOnly: bool, env: Env)
    requires IsPointer(p) && IsNumber(i)
    ensures MakeArith(Add, p, i).Some? && MakeArith(Add, p, i).value.ty == p.ty
    ensures Evaluate(MakeArith(Add, p, i).value, addressOnly, env) ==
              Offset(Evaluate(p, false, env), Evaluate(i, false, env), p.ty.size)
  {
    var sum := Binary(p.ty, Arith(Add), p, SignedUnless(i));
    assert MakeArith(Add, p, i) == Some(sum);
    IndexBits(i, env);
    PointerNode(sum, addressOnly, env);
    PointerPlus(sum, env);
  }

  // The size of a step

  /** The size of what a pointer points to: another pointer unless it is the last. */
  function ElementSize(ty: Type): nat {
    if ty.indirect > 1 then 8 else ty.size
  }

  function SumWith(p: Node, i: Word): Node
    requires p.ty.indirect > 0
  {
    Binary(p.ty, Arith(Add), p, CastToSigned(Int(UNSIGNED64, i)))
  }

  lemma SumWithValue(p: Node, i: Word, env: Env)
    requires IsPointer(p)
    ensures MakeArith(Add, p, Int(UNSIGNED64, i)) == Some(SumWith(p, i))
    ensures Evaluate(SumWith(p, i), false, env) == Offset(Evaluate(p, false, env), Ok(i), p.ty.size)
  {
    SumAddress(p, Int(UNSIGNED64, i), false, env);
  }

  /** The sum C defines: the step is the size of what p points to. */
  ghost predicate StepsByElement(p: Node, i: Word, env: Env)
    requires IsPointer(p)
  {
    Evaluate(SumWith(p, i), false, env) == Offset(Evaluate(p, false, env), Ok(i), ElementSize(p.ty))
  }

  /**
   p + i steps by the size of what p points to, for every i, if and only if p is no pointer to a
   pointer or its base type has the size of one: the size of a node is that of its base type.
   */
  lemma StepIsElementIff(p: Node, env: Env)
    requires IsPointer(p) && Evaluate(p, false, env).Ok?
    ensures forall i: Word :: MakeArith(Add, p, Int(UNSIGNED64, i)) == Some(SumWith(p, i))
    ensures (forall i: Word :: StepsByElement(p, i, env)) <==> p.ty.indirect == 1 || ToWord(p.ty.size) == 8
  {
    var a := Evaluate(p, false, env);
    forall i: Word
      ensures MakeArith(Add, p, Int(UNSIGNED64, i)) == Some(SumWith(p, i))
      ensures StepsByElement(p, i, env) <==> ToWord(i * p.ty.size) == ToWord(i * ElementSize(p.ty))
    {
      SumWithValue(p, i, env);
      SameOffsetIff(a, Ok(i), p.ty.size, ElementSize(p.ty));
    }
    if p.ty.indirect > 1 {
      forall i: Word | ToWord(p.ty.size) == 8 ensures StepsByElement(p, i, env) {
        SameProduct(i, p.ty.size, 8);
      }
      assert ToWord(1 * p.ty.size) == ToWord(p.ty.size) && ToWord(1 * 8) == 8;
      assert StepsByElement(p, 1, env) <==> ToWord(p.ty.size) == 8;
    }
  }

  /** Sizes that agree modulo 2^64 give the same product. */
  lemma SameProduct(i: Word, m: nat, n: nat)
    requires ToWord(m) == ToWord(n)
    ensures ToWord(i * m) == ToWord(i * n)
  {
    ReducedFactor(m, i);
    ReducedFactor(n, i);
    assert i * m == m * i && i * n == n * i;
  }

  lemma SameSumIff(a: Word, x: int, y: int)
    ensures ToWord(a + x) == ToWord(a + y) <==> ToWord(x) == ToWord(y)
  {
  }

  lemma SameOffsetIff(a: Result, b: Result, m: nat, n: nat)
    requires a.Ok? && b.Ok?
    ensures Offset(a, b, m) == Offset(a, b, n) <==> ToWord(b.w * m) == ToWord(b.w * n)
  {
    SameSumIff(a.w, b.w * m, b.w * n);
  }

  // Subscripts

  /** The subscript passes the evaluator's check. */
  ghost predicate InBounds(p: Node, i: Node, env: Env) {
    var a, b := Evaluate(p, false, env), Evaluate(i, false, env);
    a.Ok? && b.Ok? ==> CheckIndex(p.ty, a.w, b.w, env).None?
  }

  /** On a heap block the check passes if and only if that many base types lie inside the block. */
  lemma CheckIsInsideBlock(ty: Type, addr: Word, index: Word, env: Env)
    requires env.typeSize(ty.offset).Some? && env.typeSize(ty.offset).value.size > 0
    requires ty.indirect > 0 || env.typeSize(ty.offset).value.dim == 0
    requires env.blockAt(addr).Bytes? && env.blockAt(addr).n > 0
    ensures CheckIndex(ty, addr, index, env) in {None, Some(OutOfBounds)}
    ensures CheckIndex(ty, addr, index, env).None? <==>
              (index + 1) * env.typeSize(ty.offset).value.size <= env.blockAt(addr).n
  {
    var n, z := env.blockAt(addr).n, env.typeSize(ty.offset).value.size;
    if index < n / z {
      assert (index + 1) * z <= n / z * z <= n;
    } else {
      assert (index + 1) * z >= (n / z + 1) * z > n;
    }
  }

  /**
   What a subscript comes to when its check fails or cannot tell: no type size is an error, a released
   block is one, a type without size crashes, and memory of unknown extent is let through.
   */
  lemma SubscriptUnchecked(ty: Type, p: Node, i: Node, addressOnly: bool, env: Env)
    requires IsPointer(p) && Evaluate(p, false, env).Ok? && Evaluate(i, false, env).Ok?
    ensures var size, block := env.typeSize(p.ty.offset), env.blockAt(Evaluate(p, false, env).w);
            var r := Evaluate(Item(ty, p, i), addressOnly, env);
            && (size.None? ==> r == Err(NoArraySize))
            && (size.Some? && block == Released ==> r == Err(ReleasedMemory))
            && (size.Some? && size.value.size == 0 && block.Bytes? && block.n > 0 ==> r == Err(Crash))
            && (size.Some? && (block == Unknown || block == Bytes(0)) ==>
                  Evaluate(Item(ty, p, i), true, env) ==
                    Offset(Evaluate(p, false, env), Evaluate(i, false, env), ty.size))
  {
  }

  /** An operand that fails makes the subscript fail alike, the pointer before the index. */
  lemma SubscriptFails(ty: Type, p: Node, i: Node, addressOnly: bool, env: Env)
    requires IsPointer(p) && (Evaluate(p, false, env).Err? || Evaluate(i, false, env).Err?)
    ensures Evaluate(Item(ty, p, i), addressOnly, env) ==
              if Evaluate(p, false, env).Err? then Evaluate(p, false, env) else Evaluate(i, false, env)
  {
  }

  /**
   An array, of known dimension, is subscripted at its own address: the element is reached if and only
   if it ends within the array, and otherwise the subscript is out of bounds.
   */
  lemma ArraySubscript(ty: Type, a: Node, i: Node, addressOnly: bool, env: Env)
    requires a.ty.indirect == 0 && Evaluate(a, true, env).Ok? && Evaluate(i, false, env).Ok? && ty.size > 0
    requires env.typeSize(a.ty.offset).Some? && env.typeSize(a.ty.offset).value.dim > 0
    ensures var start, index := Evaluate(a, true, env).w, Evaluate(i, false, env).w;
            var dim := env.typeSize(a.ty.offset).value.dim;
            if (index + 1) * ty.size <= dim * ty.size
            then Evaluate(Item(ty, a, i), true, env) == Ok(ToWord(start + index * ty.size)) &&
                 Evaluate(Item(ty, a, i), addressOnly, env) ==
                   Load(ty, ToWord(start + index * ty.size), addressOnly, env)
            else Evaluate(Item(ty, a, i), addressOnly, env) == Err(OutOfBounds)
  {
    var index, dim := Evaluate(i, false, env).w, env.typeSize(a.ty.offset).value.dim;
    WholeElements(index, dim, ty.size);
    assert Evaluate(Item(ty, a, i), addressOnly, env) ==
           if index >= dim then Err(OutOfBounds)
           else Load(ty, ToWord(Evaluate(a, true, env).w + index * ty.size), addressOnly, env);
  }

  lemma WholeElements(index: nat, dim: nat, size: nat)
    requires size > 0
    ensures (index + 1) * size <= dim * size <==> index < dim
  {
    if index < dim {
      ProductMonotone(index + 1, dim, size);
    } else {
      ProductMonotone(dim, index, size);
      assert (index + 1) * size == index * size + size;
    }
  }

  /** A variable cannot be read if and only if it has no memory, or is neither a pointer nor an integer to read. */
  lemma VariableFailsIff(ty: Type, addr: Word, env: Env)
    ensures VarValue(ty, addr, env).Err? <==>
              env.read(addr, ty.size).None? || (ty.indirect == 0 && !IntegerType(ty.kind, ty.size))
    ensures forall id, addressOnly ::
              env.varAddress(id).None? ==> Evaluate(Var(ty, id), addressOnly, env) == Err(NoAddress)
  {
  }

  /** The same recording with a block of n bytes at every address. */
  function WithBlock(env: Env, n: nat): Env {
    env.(blockAt := _ => Bytes(n))
  }

  /** At a block of n bytes the check passes exactly when the element C names lies inside the block. */
  ghost predicate ChecksElement(ty: Type, addr: Word, index: Word, env: Env, n: nat) {
    CheckIndex(ty, addr, index, WithBlock(env, n)).None? <==> (index + 1) * ElementSize(ty) <= n
  }

  /**
   The check is right for the element C names, at every index and block, if and only if the size it
   divides by, that of the base type, is the element's. For a pointer to a pointer that is 8.
   */
  lemma CheckIsElementIff(ty: Type, addr: Word, env: Env)
    requires ty.indirect > 0 && env.typeSize(ty.offset).Some? && env.typeSize(ty.offset).value.size > 0
    ensures (forall index: Word, n: nat :: n > 0 ==> ChecksElement(ty, addr, index, env, n))
            <==> env.typeSize(ty.offset).value.size == ElementSize(ty)
  {
    var z, e := env.typeSize(ty.offset).value.size, ElementSize(ty);
    forall index: Word, n: nat | n > 0
      ensures ChecksElement(ty, addr, index, env, n) <==> ((index + 1) * z <= n <==> (index + 1) * e <= n)
    {
      CheckIsInsideBlock(ty, addr, index, WithBlock(env, n));
    }
    if z != e {
      var index: Word, n: nat := if e == 0 then 1 else 0, if e == 0 then 1 else if z < e then z else e;
      assert (index + 1) * z <= n <==> !((index + 1) * e <= n);
      assert !ChecksElement(ty, addr, index, env, n);
    }
  }

  /** What *(p+i) has as its type. */
  function Pointee(ty: Type): Type
    requires ty.indirect > 0
  {
    ty.(indirect := ty.indirect - 1)
  }

  /** The type p[i] gets: for a pointer to an array that of the array's base type. */
  function ItemType(ty: Type, base: int -> Option<Type>): Option<Type>
    requires ty.indirect > 0
  {
    if ty.kind == Array then base(ty.offset) else Some(Pointee(ty))
  }

  /** p[i] is accepted just when its type is known, whatever the pointer. */
  lemma SubscriptAccepted(p: Node, i: Node, base: int -> Option<Type>)
    requires IsPointer(p) && IsNumber(i)
    ensures ItemType(p.ty, base).None? ==> MakeItem(p, i, base) == None
    ensures ItemType(p.ty, base).Some? ==> MakeItem(p, i, base) == Some(Item(ItemType(p.ty, base).value, p, i))
  {
  }

  /** p[i] is accepted with the type of *(p+i), and &p[i] with that of p + i. */
  ghost predicate SameTypes(p: Node, i: Node, base: int -> Option<Type>) {
    var item, sum := MakeItem(p, i, base), MakeArith(Add, p, i);
    && item.Some? && sum.Some? && MakeDeref(sum.value).Some? && MakeAddressOf(item.value).Some?
    && item.value.ty == MakeDeref(sum.value).value.ty
    && MakeAddressOf(item.value).value.ty == sum.value.ty
  }

  /** The types agree if and only if the pointer is to no array, or the array's base type is the pointee. */
  lemma SubscriptTypes(p: Node, i: Node, base: int -> Option<Type>)
    requires IsPointer(p) && IsNumber(i)
    ensures SameTypes(p, i, base) <==> p.ty.kind != Array || base(p.ty.offset) == Some(Pointee(p.ty))
  {
  }

  /** Where the two forms read: their address, and the value of that address as the item's type. */
  lemma SubscriptValues(p: Node, i: Node, ty: Type, env: Env, addressOnly: bool)
    requires IsPointer(p) && IsNumber(i) && InBounds(p, i, env)
    ensures var at := Offset(Evaluate(p, false, env), Evaluate(i, false, env), ty.size);
            && Evaluate(Item(ty, p, i), true, env) == at
            && Evaluate(Item(ty, p, i), addressOnly, env) == if at.Err? then at else Load(ty, at.w, addressOnly, env)
  {
  }

  lemma DerefValues(p: Node, i: Node, env: Env, addressOnly: bool)
    requires IsPointer(p) && IsNumber(i)
    ensures MakeArith(Add, p, i).Some? && MakeDeref(MakeArith(Add, p, i).value).Some?
    ensures var at := Offset(Evaluate(p, false, env), Evaluate(i, false, env), p.ty.size);
            Evaluate(MakeDeref(MakeArith(Add, p, i).value).value, addressOnly, env) ==
              if at.Err? then at else Load(Pointee(p.ty), at.w, addressOnly, env)
  {
    SumAddress(p, i, false, env);
  }

  /**
   The address of the subscript is the sum, &p[i] == p + i, if and only if the step over the item's
   size reaches where the step over the pointer's does.
   */
  lemma SubscriptAddressIff(p: Node, i: Node, base: int -> Option<Type>, env: Env)
    requires IsPointer(p) && IsNumber(i) && InBounds(p, i, env) && ItemType(p.ty, base).Some?
    requires Evaluate(p, false, env).Ok? && Evaluate(i, false, env).Ok?
    ensures MakeItem(p, i, base).Some? && MakeAddressOf(MakeItem(p, i, base).value).Some? && MakeArith(Add, p, i).Some?
    ensures Evaluate(MakeAddressOf(MakeItem(p, i, base).value).value, false, env) ==
              Evaluate(MakeArith(Add, p, i).value, false, env)
            <==> ToWord(Evaluate(i, false, env).w * ItemType(p.ty, base).value.size) ==
                   ToWord(Evaluate(i, false, env).w * p.ty.size)
  {
    var a, b := Evaluate(p, false, env), Evaluate(i, false, env);
    AddressOfItem(p, i, base, env);
    SumAddress(p, i, false, env);
    SameOffsetIff(a, b, ItemType(p.ty, base).value.size, p.ty.size);
  }

  lemma AddressOfItem(p: Node, i: Node, base: int -> Option<Type>, env: Env)
    requires IsPointer(p) && IsNumber(i) && InBounds(p, i, env) && ItemType(p.ty, base).Some?
    ensures MakeItem(p, i, base).Some? && MakeAddressOf(MakeItem(p, i, base).value).Some?
    ensures Evaluate(MakeAddressOf(MakeItem(p, i, base).value).value, false, env) ==
              Offset(Evaluate(p, false, env), Evaluate(i, false, env), ItemType(p.ty, base).value.size)
  {
    SubscriptAccepted(p, i, base);
    SubscriptValues(p, i, ItemType(p.ty, base).value, env, true);
  }

  /** p[i] and *(p+i) agree in type, address and value, and &p[i] with p + i, wherever the check passes. */
  ghost predicate Identity(p: Node, i: Node, base: int -> Option<Type>) {
    SameTypes(p, i, base) &&
    forall env, addressOnly :: InBounds(p, i, env) ==> IdentityAt(p, i, base, env, addressOnly)
  }

  ghost predicate IdentityAt(p: Node, i: Node, base: int -> Option<Type>, env: Env, addressOnly: bool)
    requires SameTypes(p, i, base)
  {
    var item, sum := MakeItem(p, i, base).value, MakeArith(Add, p, i).value;
    && Evaluate(item, addressOnly, env) == Evaluate(MakeDeref(sum).value, addressOnly, env)
    && Evaluate(MakeAddressOf(item).value, addressOnly, env) == Evaluate(sum, addressOnly, env)
  }

  /**
   The subscript identity holds, in every environment where the subscript is in bounds, if and only
   if the pointer is to no array or the array's base type is what the pointer points to.
   */
  lemma SubscriptIdentity(p: Node, i: Node, base: int -> Option<Type>)
    requires IsPointer(p) && IsNumber(i)
    ensures Identity(p, i, base) <==> p.ty.kind != Array || base(p.ty.offset) == Some(Pointee(p.ty))
  {
    SubscriptTypes(p, i, base);
    if SameTypes(p, i, base) {
      forall env, addressOnly | InBounds(p, i, env) ensures IdentityAt(p, i, base, env, addressOnly) {
        IdentityInBounds(p, i, base, env, addressOnly);
      }
    }
  }

  lemma IdentityInBounds(p: Node, i: Node, base: int -> Option<Type>, env: Env, addressOnly: bool)
    requires IsPointer(p) && IsNumber(i) && SameTypes(p, i, base) && InBounds(p, i, env)
    ensures IdentityAt(p, i, base, env, addressOnly)
  {
    SubscriptAccepted(p, i, base);
    assert MakeItem(p, i, base).value == Item(Pointee(p.ty), p, i);
    SubscriptValues(p, i, Pointee(p.ty), env, addressOnly);
    DerefValues(p, i, env, addressOnly);
    SumAddress(p, i, addressOnly, env);
  }

  /** Out of bounds the subscript is an error, and the sum is not. */
  lemma SubscriptOutOfBounds(p: Node, i: Node, base: int -> Option<Type>, env: Env, addressOnly: bool)
    requires IsPointer(p) && IsNumber(i) && !InBounds(p, i, env) && MakeItem(p, i, base).Some?
    ensures Evaluate(MakeItem(p, i, base).value, addressOnly, env).Err?
    ensures MakeArith(Add, p, i).Some? && Evaluate(MakeArith(Add, p, i).value, addressOnly, env).Ok?
  {
    SubscriptAccepted(p, i, base);
    SumAddress(p, i, addressOnly, env);
  }

  /** Every pointer subtraction the grammar accepts is refused by the evaluator. */
  lemma PointerSubtractionRefused(p: Node, r: Node, env: Env)
    requires p.ty.indirect > 0 && MakeArith(Sub, p, r).Some?
    ensures Evaluate(MakeArith(Sub, p, r).value, false, env) == Err(BadPointerMath)
  {
  }

  // Loading a pointer

  /** The recorded bytes from an address on. */
  function Recording(mem: nat -> byte, addr: nat, n: nat): (bytes: seq<byte>)
    ensures |bytes| == n
  {
    seq(n, (i: nat) => mem(addr + i))
  }

  /** Reading the recording at an address gives its bytes there. */
  ghost predicate Records(env: Env, addr: Word, mem: nat -> byte) {
    forall n: nat :: env.read(addr, n) == Some(Recording(mem, addr, n))
  }

  /** The pointer stored at an address. */
  function PointerAt(mem: nat -> byte, addr: nat): Word {
    ToWord(LittleEndian(Recording(mem, addr, 8)))
  }

  /** Eight bytes and their word determine each other. */
  lemma SameWordSameBytes(a: seq<byte>, b: seq<byte>)
    requires |a| == |b| == 8
    ensures ToWord(LittleEndian(a)) == ToWord(LittleEndian(b)) <==> a == b
  {
    LittleEndianBound(a);
    LittleEndianBound(b);
    Power256IsModulus(8);
    SmallWord(LittleEndian(a));
    SmallWord(LittleEndian(b));
    Breakpoints.WordRoundTrip(a);
    Breakpoints.WordRoundTrip(b);
  }

  /** A buffer of `size` bytes starts like the recording for every rest of memory, if and only if. */
  lemma BufferIsRecordingIff(mem: nat -> byte, addr: nat, size: nat)
    ensures (forall beyond :: BufferStart(Recording(mem, addr, size), beyond) == Recording(mem, addr, 8))
            <==> size >= 8 || (size == 7 && mem(addr + 7) == 0)
  {
    var bytes, all := Recording(mem, addr, size), Recording(mem, addr, 8);
    if size >= 7 {
      forall beyond ensures BufferStart(bytes, beyond)[7] == (if size == 7 then 0 else mem(addr + 7)) {
      }
      forall beyond | size >= 8 || mem(addr + 7) == 0 ensures BufferStart(bytes, beyond) == all {
        assert forall j :: 0 <= j < 8 ==> BufferStart(bytes, beyond)[j] == all[j];
      }
      assert all[7] == mem(addr + 7);
      if size == 7 && mem(addr + 7) != 0 {
        assert BufferStart(bytes, _ => 0)[7] != all[7];
      }
    } else {
      var other: nat -> byte := _ => if mem(addr + size + 1) == 0 then 1 else 0;
      assert BufferStart(bytes, other)[size + 1] == other(size + 1) != mem(addr + size + 1) == all[size + 1];
    }
  }

  /**
   A pointer variable evaluates to the recorded pointer, whatever lies past its buffer, if and only
   if its base type has at least eight bytes, or seven and the pointer's top byte is 0.
   */
  lemma PointerLoadedIff(ty: Type, addr: Word, env: Env, mem: nat -> byte)
    requires ty.indirect > 0 && Records(env, addr, mem)
    ensures (forall beyond :: VarValue(ty, addr, env.(beyond := beyond)) == Ok(PointerAt(mem, addr)))
            <==> ty.size >= 8 || (ty.size == 7 && mem(addr + 7) == 0)
  {
    var bytes, all := Recording(mem, addr, ty.size), Recording(mem, addr, 8);
    assert env.read(addr, ty.size) == Some(bytes);
    forall beyond
      ensures VarValue(ty, addr, env.(beyond := beyond)) == Ok(PointerAt(mem, addr)) <==>
          BufferStart(bytes, beyond) == all
    {
      SameWordSameBytes(BufferStart(bytes, beyond), all);
    }
    BufferIsRecordingIff(mem, addr, ty.size);
    if beyond :| BufferStart(bytes, beyond) != all {
      assert VarValue(ty, addr, env.(beyond := beyond)) != Ok(PointerAt(mem, addr));
    }
  }

  /** A short buffer ends in a 0, so a pointer with another byte there is never loaded right. */
  lemma ShortPointerIsWrong(ty: Type, addr: Word, env: Env, mem: nat -> byte)
    requires ty.indirect > 0 && ty.size < 8 && Records(env, addr, mem) && mem(addr + ty.size) != 0
    ensures VarValue(ty, addr, env).Ok? && VarValue(ty, addr, env) != Ok(PointerAt(mem, addr))
  {
    var bytes, all := Recording(mem, addr, ty.size), Recording(mem, addr, 8);
    assert env.read(addr, ty.size) == Some(bytes);
    assert BufferStart(bytes, env.beyond)[ty.size] == 0 != all[ty.size];
    SameWordSameBytes(BufferStart(bytes, env.beyond), all);
  }
}
