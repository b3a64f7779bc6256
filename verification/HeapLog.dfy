/**
 The `heap` table: a row per allocation, closed by the first free after it, and the
 query that tells whether an address was allocated at a step.
 */
module HeapLog {
  import opened Bytes

  /** A message of the heap channel; size 0 means free. */
  datatype HeapMsg = HeapMsg(step: nat, address: nat, size: nat)

  datatype HeapRow = HeapRow(address: nat, size: nat, allocatedAt: nat, freedAt: nat)

  // The worker

  /** UPDATE heap SET freed_at = step WHERE address = address AND freed_at = 0 */
  function Close(rows: seq<HeapRow>, address: nat, step: nat): (r: seq<HeapRow>)
    ensures |r| == |rows|
    ensures forall i :: 0 <= i < |rows| ==>
              r[i] == if rows[i].address == address && rows[i].freedAt == 0 then rows[i].(freedAt := step) else rows[i]
  {
    if rows == [] then []
    else
      var row := rows[0];
      var closed := if row.address == address && row.freedAt == 0 then row.(freedAt := step) else row;
      [closed] + Close(rows[1..], address, step)
  }

  function Record(rows: seq<HeapRow>, m: HeapMsg): seq<HeapRow> {
    if m.size != 0 then rows + [HeapRow(m.address, m.size, m.step, 0)]
    else Close(rows, m.address, m.step)
  }

  function TableOf(msgs: seq<HeapMsg>): seq<HeapRow> {
    if msgs == [] then [] else Record(TableOf(msgs[..|msgs| - 1]), msgs[|msgs| - 1])
  }

  class HeapTable {
    var rows: seq<HeapRow>

    constructor ()
      ensures rows == []
    {
      rows := [];
    }

    /** The loop of wrk_insert_heap. */
    method Drain(msgs: seq<HeapMsg>)
      requires rows == []
      modifies this
      ensures rows == TableOf(msgs)
    {
      for i := 0 to |msgs|
        invariant rows == TableOf(msgs[..i])
      {
        assert msgs[..i + 1][..i] == msgs[..i];
        if msgs[i].size != 0 {
          rows := rows + [HeapRow(msgs[i].address, msgs[i].size, msgs[i].step, 0)];
        } else {
          rows := Close(rows, msgs[i].address, msgs[i].step);
        }
      }
      assert msgs[..|msgs|] == msgs;
    }
  }

  // The program's side

  predicate IsAlloc(m: HeapMsg, address: nat) {
    m.address == address && m.size != 0
  }

  predicate IsFree(m: HeapMsg, address: nat) {
    m.address == address && m.size == 0
  }

  /** Steps count from 1 and never go back, and a block is freed before its address is allocated again. */
  ghost predicate Orderly(msgs: seq<HeapMsg>) {
    && (forall i :: 0 <= i < |msgs| ==> msgs[i].step > 0)
    && (forall i, j :: 0 <= i < j < |msgs| ==> msgs[i].step <= msgs[j].step)
    && (forall i, j :: 0 <= i < j < |msgs| && msgs[i].size != 0 && IsAlloc(msgs[j], msgs[i].address) ==>
          FreedBetween(msgs, i, j))
  }

  ghost predicate FreedBetween(msgs: seq<HeapMsg>, i: nat, j: nat)
    requires i < j <= |msgs|
  {
    exists f :: i < f < j && IsFree(msgs[f], msgs[i].address)
  }

  /** The size of the block live at `address` after all messages stamped at or before `step`. */
  function LiveAt(msgs: seq<HeapMsg>, address: nat, step: nat): (size: Option<nat>)
    ensures size.Some? ==> size.value > 0
  {
    if msgs == [] then None
    else
      var last := msgs[|msgs| - 1];
      if last.address == address && last.step <= step
      then if last.size != 0 then Some(last.size) else None
      else LiveAt(msgs[..|msgs| - 1], address, step)
  }

  // What the rows are

  /** The step of the first free of message i's address after it, or 0. */
  function FirstFree(msgs: seq<HeapMsg>, i: nat): nat
    requires i < |msgs|
    decreases |msgs|
  {
    if i == |msgs| - 1 then 0
    else
      var before := FirstFree(msgs[..|msgs| - 1], i);
      var last := msgs[|msgs| - 1];
      if before == 0 && IsFree(last, msgs[i].address) then last.step else before
  }

  function RowFor(msgs: seq<HeapMsg>, i: nat): HeapRow
    requires i < |msgs|
  {
    HeapRow(msgs[i].address, msgs[i].size, msgs[i].step, FirstFree(msgs, i))
  }

  /** Row r stands for some allocation. */
  ghost predicate IsRow(msgs: seq<HeapMsg>, r: HeapRow) {
    exists i: nat :: i < |msgs| && msgs[i].size != 0 && r == RowFor(msgs, i)
  }

  lemma {:induction false} RowIsAllocation(msgs: seq<HeapMsg>, r: HeapRow)
    requires r in TableOf(msgs)
    ensures IsRow(msgs, r)
  {
    var n := |msgs| - 1;
    var pre, m := msgs[..n], msgs[n];
    if m.size != 0 && r == HeapRow(m.address, m.size, m.step, 0) {
      assert r == RowFor(msgs, n);
    } else {
      var k :| 0 <= k < |TableOf(msgs)| && TableOf(msgs)[k] == r;
      var was := TableOf(pre)[k];
      RowIsAllocation(pre, was);
      var i: nat :| i < |pre| && pre[i].size != 0 && was == RowFor(pre, i);
      assert r == RowFor(msgs, i);
    }
  }

  lemma {:induction false} AllocationHasRow(msgs: seq<HeapMsg>, i: nat)
    requires i < |msgs| && msgs[i].size != 0
    ensures RowFor(msgs, i) in TableOf(msgs)
    decreases |msgs|
  {
    var n := |msgs| - 1;
    if i == n {
      assert TableOf(msgs)[|TableOf(msgs[..n])|] == RowFor(msgs, n);
    } else {
      AllocationHasRow(msgs[..n], i);
      var k :| 0 <= k < |TableOf(msgs[..n])| && TableOf(msgs[..n])[k] == RowFor(msgs[..n], i);
      assert TableOf(msgs)[k] == RowFor(msgs, i);
    }
  }

  /** The table holds exactly one kind of row per allocation, closed by the first free after it. */
  lemma RowsAreAllocations(msgs: seq<HeapMsg>, r: HeapRow)
    ensures r in TableOf(msgs) <==> IsRow(msgs, r)
  {
    if r in TableOf(msgs) {
      RowIsAllocation(msgs, r);
    }
    if IsRow(msgs, r) {
      var i: nat :| i < |msgs| && msgs[i].size != 0 && r == RowFor(msgs, i);
      AllocationHasRow(msgs, i);
    }
  }

  lemma {:induction false} FirstFreeFacts(msgs: seq<HeapMsg>, i: nat)
    requires Orderly(msgs) && i < |msgs|
    ensures FirstFree(msgs, i) == 0 <==> !FreedBetween(msgs, i, |msgs|)
    ensures forall f :: i < f < |msgs| && IsFree(msgs[f], msgs[i].address) ==> FirstFree(msgs, i) <= msgs[f].step
    ensures FirstFree(msgs, i) != 0 ==>
              exists f :: i < f < |msgs| && IsFree(msgs[f], msgs[i].address) && FirstFree(msgs, i) == msgs[f].step
    decreases |msgs|
  {
    var n := |msgs| - 1;
    if i == n {
    } else {
      var pre := msgs[..n];
      assert forall j :: 0 <= j < n ==> pre[j] == msgs[j];
      OrderlyPrefix(msgs, n);
      FirstFreeFacts(pre, i);
      if f :| i < f < |msgs| && IsFree(msgs[f], msgs[i].address) && f < n {
        assert IsFree(pre[f], pre[i].address);
      }
    }
  }

  lemma OrderlyPrefix(msgs: seq<HeapMsg>, n: nat)
    requires Orderly(msgs) && n <= |msgs|
    ensures Orderly(msgs[..n])
  {
  }

  // The query of get_pointer_size

  datatype Answer = Released | Block(size: nat)

  /** ORDER BY allocated_at DESC, first row: among equal steps the engine may return any. */
  ghost predicate IsNewest(rows: seq<HeapRow>, r: HeapRow, address: nat, step: nat) {
    && r in rows && r.address == address && r.allocatedAt <= step
    && forall q :: q in rows && q.address == address && q.allocatedAt <= step ==> q.allocatedAt <= r.allocatedAt
  }

  function AnswerFrom(r: HeapRow, step: nat): Answer {
    if r.freedAt != 0 && r.freedAt <= step then Released else Block(r.size)
  }

  function Expected(live: Option<nat>): Answer {
    match live
    case None => Released
    case Some(n) => Block(n)
  }

  /** Whichever newest row the engine returns, the answer is right. */
  ghost predicate AnswersRight(msgs: seq<HeapMsg>, address: nat, step: nat) {
    forall r :: IsNewest(TableOf(msgs), r, address, step) ==>
        AnswerFrom(r, step) == Expected(LiveAt(msgs, address, step))
  }

  ghost predicate NewestAlloc(msgs: seq<HeapMsg>, i: nat, address: nat, step: nat)
    requires i < |msgs|
  {
    && IsAlloc(msgs[i], address) && msgs[i].step <= step
    && forall k :: 0 <= k < |msgs| && IsAlloc(msgs[k], address) && msgs[k].step <= step ==> msgs[k].step <= msgs[i].step
  }

  /** The address was allocated twice in the step of its newest allocation. */
  ghost predicate AllocatedTwice(msgs: seq<HeapMsg>, address: nat, step: nat) {
    exists i, j :: 0 <= i < j < |msgs| && NewestAlloc(msgs, i, address, step) && NewestAlloc(msgs, j, address, step)
  }

  lemma {:induction false} LastMessage(msgs: seq<HeapMsg>, address: nat, step: nat) returns (j: int)
    ensures -1 <= j < |msgs|
    ensures forall k :: j < k < |msgs| && msgs[k].address == address ==> msgs[k].step > step
    ensures j >= 0 ==> msgs[j].address == address && msgs[j].step <= step
    ensures LiveAt(msgs, address, step) == if j >= 0 && msgs[j].size != 0 then Some(msgs[j].size) else None
  {
    if msgs == [] {
      j := -1;
    } else {
      var n := |msgs| - 1;
      if msgs[n].address == address && msgs[n].step <= step {
        j := n;
      } else {
        j := LastMessage(msgs[..n], address, step);
        assert forall k :: 0 <= k < n ==> msgs[..n][k] == msgs[k];
      }
    }
  }

  lemma NewestRowIsNewestAlloc(msgs: seq<HeapMsg>, r: HeapRow, address: nat, step: nat) returns (i: nat)
    requires IsNewest(TableOf(msgs), r, address, step)
    ensures i < |msgs| && r == RowFor(msgs, i) && NewestAlloc(msgs, i, address, step)
  {
    RowsAreAllocations(msgs, r);
    i :| i < |msgs| && msgs[i].size != 0 && r == RowFor(msgs, i);
    forall k | 0 <= k < |msgs| && IsAlloc(msgs[k], address) && msgs[k].step <= step
      ensures msgs[k].step <= msgs[i].step
    {
      assert IsRow(msgs, RowFor(msgs, k));
      RowsAreAllocations(msgs, RowFor(msgs, k));
    }
  }

  lemma NewestAllocIsNewestRow(msgs: seq<HeapMsg>, i: nat, address: nat, step: nat)
    requires i < |msgs| && NewestAlloc(msgs, i, address, step)
    ensures IsNewest(TableOf(msgs), RowFor(msgs, i), address, step)
  {
    assert IsRow(msgs, RowFor(msgs, i));
    RowsAreAllocations(msgs, RowFor(msgs, i));
    forall q | q in TableOf(msgs) && q.address == address && q.allocatedAt <= step
      ensures q.allocatedAt <= msgs[i].step
    {
      RowsAreAllocations(msgs, q);
      var k: nat :| k < |msgs| && msgs[k].size != 0 && q == RowFor(msgs, k);
      assert IsAlloc(msgs[k], address);
    }
  }

  /** A block freed by `step` answers as released. */
  lemma FreedRow(msgs: seq<HeapMsg>, i: nat, f: nat, step: nat)
    requires Orderly(msgs) && i < f < |msgs| && IsFree(msgs[f], msgs[i].address) && msgs[f].step <= step
    ensures AnswerFrom(RowFor(msgs, i), step) == Released
  {
    FirstFreeFacts(msgs, i);
    assert FreedBetween(msgs, i, |msgs|);
  }

  /** The newest row answers right for the last allocation; an earlier one of the same step answers released. */
  lemma RowAnswer(msgs: seq<HeapMsg>, i: nat, address: nat, step: nat)
    requires Orderly(msgs) && i < |msgs| && NewestAlloc(msgs, i, address, step)
    ensures AnswerFrom(RowFor(msgs, i), step) ==
              if LiveAt(msgs, address, step).Some? &&
                 !(exists j :: i < j < |msgs| && NewestAlloc(msgs, j, address, step))
              then Expected(LiveAt(msgs, address, step)) else Released
  {
    var j := LastMessage(msgs, address, step);
    FirstFreeFacts(msgs, i);
    if msgs[j].size == 0 {
      FreedRow(msgs, i, j, step);
    } else if i < j {
      assert NewestAlloc(msgs, j, address, step);
      assert FreedBetween(msgs, i, j);
      var f :| i < f < j && IsFree(msgs[f], msgs[i].address);
      FreedRow(msgs, i, f, step);
    }
  }

  /**
   The newest heap row at or before a step answers released exactly when the block is not live
   after all events stamped up to that step, and otherwise gives its size, if and only if the
   address is not both live and allocated twice in the step of its newest allocation.
   */
  lemma HeapAnswers(msgs: seq<HeapMsg>, address: nat, step: nat)
    requires Orderly(msgs)
    ensures AnswersRight(msgs, address, step) <==>
              !(LiveAt(msgs, address, step).Some? && AllocatedTwice(msgs, address, step))
  {
    if LiveAt(msgs, address, step).Some? && AllocatedTwice(msgs, address, step) {
      var i, j :| 0 <= i < j < |msgs| && NewestAlloc(msgs, i, address, step) && NewestAlloc(msgs, j, address, step);
      RowAnswer(msgs, i, address, step);
      NewestAllocIsNewestRow(msgs, i, address, step);
    } else {
      forall r | IsNewest(TableOf(msgs), r, address, step)
        ensures AnswerFrom(r, step) == Expected(LiveAt(msgs, address, step))
      {
        var i := NewestRowIsNewestAlloc(msgs, r, address, step);
        RowAnswer(msgs, i, address, step);
      }
    }
  }

  /** An address that was never allocated by then has no row, and is not live. */
  lemma NoRowNotLive(msgs: seq<HeapMsg>, address: nat, step: nat)
    requires forall r :: r in TableOf(msgs) && r.address == address ==> r.allocatedAt > step
    ensures LiveAt(msgs, address, step).None?
  {
    var j := LastMessage(msgs, address, step);
    if j >= 0 && msgs[j].size != 0 {
      assert IsRow(msgs, RowFor(msgs, j));
      RowsAreAllocations(msgs, RowFor(msgs, j));
      assert false;
    }
  }

  /** malloc, free and malloc again within one step: the freed row ties with the live one. */
  lemma TieExample()
    ensures var msgs := [HeapMsg(1, 64, 8), HeapMsg(1, 64, 0), HeapMsg(1, 64, 16)];
            Orderly(msgs) && LiveAt(msgs, 64, 1) == Some(16) && !AnswersRight(msgs, 64, 1)
  {
    var msgs := [HeapMsg(1, 64, 8), HeapMsg(1, 64, 0), HeapMsg(1, 64, 16)];
    assert IsFree(msgs[1], msgs[0].address);
    assert Orderly(msgs);
    assert NewestAlloc(msgs, 0, 64, 1) && NewestAlloc(msgs, 2, 64, 1);
    HeapAnswers(msgs, 64, 1);
  }
}
