/**
 Evaluating expressions on a recording: memory comes from the replayed log and heap blocks from the
 `heap` table, so that variables have the values the child's had, and subscripts are checked against
 the blocks that were live.
 */
module RecordedEvaluation {
  import opened Bytes
  import opened SegmentLog
  import opened Replay
  import opened RecorderTheorems
  import opened Expressions
  import opened ExpressionSoundness
  import opened PointerExpressions
  import opened HeapLog
  import opened EndToEnd
  import Recorder

  /** The buffer of get_var_value without its last byte: the recorded bytes, then zeros. */
  ghost function Buffer(v: View, addr: nat, size: nat): (bytes: seq<byte>)
    requires WellFormed(v)
    ensures |bytes| == size
  {
    var present := Present(v, addr, addr + size);
    present + seq(size - |present|, _ => 0)
  }

  /** The query's answer for a block: `newest` picks the row the engine returns first, if any. */
  function BlockOf(newest: Word -> Option<HeapRow>, address: Word, step: nat): Expressions.Block {
    match newest(address)
    case None => Unknown
    case Some(row) =>
      match AnswerFrom(row, step)
      case Released => Expressions.Released
      case Block(n) => Bytes(n)
  }

  /** `newest` is a way the engine may answer the query of get_pointer_size. */
  ghost predicate Picks(rows: seq<HeapRow>, newest: Word -> Option<HeapRow>, step: nat) {
    forall a: Word ::
      match newest(a)
      case Some(row) => IsNewest(rows, row, a, step)
      case None => forall q :: q in rows && q.address == a ==> q.allocatedAt > step
  }

  /** An environment reads a recording: its memory is the view, its blocks the query's. */
  ghost predicate ReadsRecording(env: Env, v: View, newest: Word -> Option<HeapRow>, step: nat) {
    && WellFormed(v)
    && (forall addr: Word, size: nat :: env.read(addr, size) == Some(Buffer(v, addr, size)))
    && (forall addr: Word :: env.blockAt(addr) == BlockOf(newest, addr, step))
  }

  /** In covered pages the buffer is the child's memory at the stop shown. */
  lemma BufferIsChild(states: seq<Recorder.State>, actions: seq<Recorder.Action>, j: nat, n: nat, addr: nat, size: nat)
    requires Recorder.IsRun(states, actions) && j < |states| && n < |states[j].history.stops|
    requires InPages(Shown(states[j], n).pages, addr, size)
    ensures var v := ViewAt(states[j].mirror.log, states[j].history.first + n);
            && WellFormed(v) && InPages(Shown(states[j], n).mem.Keys, addr, size)
            && Buffer(v, addr, size) == ChildBytes(Shown(states[j], n).mem, addr, size)
  {
    ReplayIsFaithful(states, actions, j, n, addr, size);
  }

  /**
   At every stop of every run, an integer variable in cached pages evaluates to the integer its bytes
   in the child stood for: the one in the range of its type that is their little-endian number modulo
   the type's size. A pointer of at least eight bytes evaluates to the pointer they stood for.
   */
  lemma VariableIsChilds(states: seq<Recorder.State>, actions: seq<Recorder.Action>, j: nat, n: nat,
                         env: Env, newest: Word -> Option<HeapRow>, ty: Type, id: nat, addr: Word)
    requires Recorder.IsRun(states, actions) && j < |states| && n < |states[j].history.stops|
    requires ReadsRecording(env, ViewAt(states[j].mirror.log, states[j].history.first + n), newest,
                            states[j].history.first + n)
    requires env.varAddress(id) == Some(addr) && InPages(Shown(states[j], n).pages, addr, ty.size)
    ensures InPages(Shown(states[j], n).mem.Keys, addr, ty.size)
    ensures var bytes := ChildBytes(Shown(states[j], n).mem, addr, ty.size);
            var r := Evaluate(Var(ty, id), false, env);
            && (ty.indirect == 0 && IntegerType(ty.kind, ty.size) ==>
                  && r.Ok? && InRange(ty.kind, ty.size, ValueOf(ty.kind, r.w))
                  && ValueOf(ty.kind, r.w) % Modulus(ty.size) == LittleEndian(bytes))
            && (ty.indirect > 0 && ty.size >= 8 ==>
                  Evaluate(Var(ty, id), false, env) == Ok(ToWord(LittleEndian(bytes[..8]))))
  {
    BufferIsChild(states, actions, j, n, addr, ty.size);
    var bytes := ChildBytes(Shown(states[j], n).mem, addr, ty.size);
    assert env.read(addr, ty.size) == Some(bytes);
    if IntegerType(ty.kind, ty.size) {
      VariableAgrees(ty.kind, ty.size, bytes);
    }
    if ty.size >= 8 {
      assert BufferStart(bytes, env.beyond) == bytes[..8];
    }
  }

  /**
   A block live at the step is known with its size, a released one as released, unless the block is
   live and its address was allocated twice in the step of its newest allocation.
   */
  lemma BlockIsLive(msgs: seq<HeapMsg>, newest: Word -> Option<HeapRow>, address: Word, step: nat)
    requires Orderly(msgs) && Picks(TableOf(msgs), newest, step)
    requires !(LiveAt(msgs, address, step).Some? && AllocatedTwice(msgs, address, step))
    ensures LiveAt(msgs, address, step).Some? ==>
              BlockOf(newest, address, step) == Bytes(LiveAt(msgs, address, step).value)
    ensures LiveAt(msgs, address, step).None? ==> BlockOf(newest, address, step) in {Expressions.Released, Unknown}
    ensures BlockOf(newest, address, step) == Unknown <==> newest(address).None?
  {
    HeapAnswers(msgs, address, step);
    if newest(address).None? {
      NoRowNotLive(msgs, address, step);
    }
  }

  /** So a subscript into a live block passes the check if and only if its element lies in that block. */
  lemma SubscriptInLiveBlock(msgs: seq<HeapMsg>, env: Env, v: View, newest: Word -> Option<HeapRow>, step: nat,
                             ty: Type, address: Word, index: Word)
    requires Orderly(msgs) && Picks(TableOf(msgs), newest, step) && ReadsRecording(env, v, newest, step)
    requires LiveAt(msgs, address, step).Some? && !AllocatedTwice(msgs, address, step)
    requires ty.indirect > 0 && env.typeSize(ty.offset).Some? &&
        env.typeSize(ty.offset).value.size == ElementSize(ty) > 0
    ensures CheckIndex(ty, address, index, env).None? <==>
              (index + 1) * ElementSize(ty) <= LiveAt(msgs, address, step).value
  {
    BlockIsLive(msgs, newest, address, step);
    CheckIsInsideBlock(ty, address, index, env);
  }

  /** An address that was allocated by the step has a row, so the query knows of it. */
  lemma AllocatedIsKnown(msgs: seq<HeapMsg>, newest: Word -> Option<HeapRow>, address: Word, step: nat, k: nat)
    requires Picks(TableOf(msgs), newest, step)
    requires k < |msgs| && IsAlloc(msgs[k], address) && msgs[k].step <= step
    ensures newest(address).Some?
  {
    assert IsRow(msgs, RowFor(msgs, k));
    RowsAreAllocations(msgs, RowFor(msgs, k));
  }

  /** A subscript into a block that was allocated and is no longer live is refused, whatever its index. */
  lemma SubscriptInReleasedBlock(msgs: seq<HeapMsg>, env: Env, v: View, newest: Word -> Option<HeapRow>, step: nat,
                                 ty: Type, p: Node, i: Node, addressOnly: bool, address: Word, k: nat)
    requires Orderly(msgs) && Picks(TableOf(msgs), newest, step) && ReadsRecording(env, v, newest, step)
    requires k < |msgs| && IsAlloc(msgs[k], address) && msgs[k].step <= step && LiveAt(msgs, address, step).None?
    requires p.ty.indirect > 0 && Evaluate(p, false, env) == Ok(address) && Evaluate(i, false, env).Ok?
    requires env.typeSize(p.ty.offset).Some?
    ensures Evaluate(Item(ty, p, i), addressOnly, env) == Err(ReleasedMemory)
  {
    AllocatedIsKnown(msgs, newest, address, step, k);
    BlockIsLive(msgs, newest, address, step);
    SubscriptUnchecked(ty, p, i, addressOnly, env);
  }
}
