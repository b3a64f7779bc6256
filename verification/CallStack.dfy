/**
 Call depth. The child is a call-stack machine whose every activation stops first at its
 function's START statement and last at its END statement; the recorder sees the stops and
 keeps one counter. Stops are numbered from 0 here; the step id is one more.
 */
module CallStack {
  import opened Bytes

  datatype Flag = Plain | Start | End

  /** The statement a stop is at, as the cache describes it. */
  datatype Stmt = Stmt(func: nat, flag: Flag, file: string, line: nat)

  /** A row of `step`, joined with its statement and file. */
  datatype Step = Step(depth: int, func: nat, file: string, line: nat)

  // The machine: an activation is named by the stop that opened it

  /** The live activations after the first `n` stops, outermost first. */
  ghost function StackAfter(stops: seq<Stmt>, n: nat): seq<nat>
    requires n <= |stops|
  {
    if n == 0 then []
    else
      var stack := StackAfter(stops, n - 1);
      match stops[n - 1].flag
      case Start => stack + [n - 1]
      case Plain => stack
      case End => if stack == [] then [] else stack[..|stack| - 1]
  }

  /** The live activations at stop `n`, the one it belongs to last. */
  ghost function StackAt(stops: seq<Stmt>, n: nat): seq<nat>
    requires n < |stops|
  {
    if stops[n].flag == Start then StackAfter(stops, n) + [n] else StackAfter(stops, n)
  }

  /** Every stop belongs to some activation. */
  ghost predicate WellBracketed(stops: seq<Stmt>) {
    forall n {:trigger StackAt(stops, n)} :: 0 <= n < |stops| ==> StackAt(stops, n) != []
  }

  ghost function Owner(stops: seq<Stmt>, n: nat): nat
    requires n < |stops| && WellBracketed(stops)
  {
    assert StackAt(stops, n) != [];
    StackAt(stops, n)[|StackAt(stops, n)| - 1]
  }

  // The recorder

  class DepthRecorder {
    var depth: int
    var funcId: nat
    var steps: seq<Step>

    constructor ()
      ensures depth == 0 && steps == []
    {
      depth, funcId, steps := 0, 0, [];
    }

    /** The depth part of process_breakpoint. */
    method Record(line: Stmt)
      modifies this
      ensures steps == old(steps) +
                [Step(old(depth) + (if line.flag == Start then 1 else 0), line.func, line.file, line.line)]
      ensures depth == old(depth) + (match line.flag case Start => 1 case End => -1 case Plain => 0)
      ensures funcId == line.func
    {
      if line.func != funcId || line.flag == Start {
        if line.flag == Start {
          depth := depth + 1;
        }
        funcId := line.func;
      }
      steps := steps + [Step(depth, funcId, line.file, line.line)];
      if line.flag == End {
        depth := depth - 1;
      }
    }

    /** A whole recording: the rows are those the call-stack machine calls for. */
    method RecordAll(stops: seq<Stmt>)
      requires WellBracketed(stops) && depth == 0 && steps == []
      modifies this
      ensures IsRecording(stops, steps)
    {
      for n := 0 to |stops|
        invariant |steps| == n && depth == |StackAfter(stops, n)|
        invariant forall i :: 0 <= i < n ==> steps[i] == RowAt(stops, i)
      {
        DepthFollowsStack(stops, n);
        Record(stops[n]);
      }
    }
  }

  lemma DepthFollowsStack(stops: seq<Stmt>, n: nat)
    requires WellBracketed(stops) && n < |stops|
    ensures |StackAt(stops, n)| == |StackAfter(stops, n)| + (if stops[n].flag == Start then 1 else 0)
    ensures |StackAfter(stops, n + 1)| ==
              |StackAfter(stops, n)| + (match stops[n].flag case Start => 1 case End => -1 case Plain => 0)
  {
  }

  /** The row of stop `n`: its depth is the number of live activations. */
  ghost function RowAt(stops: seq<Stmt>, n: nat): Step
    requires n < |stops|
  {
    Step(|StackAt(stops, n)|, stops[n].func, stops[n].file, stops[n].line)
  }

  ghost predicate IsRecording(stops: seq<Stmt>, steps: seq<Step>) {
    |steps| == |stops| && forall n {:trigger RowAt(stops, n)} :: 0 <= n < |stops| ==> steps[n] == RowAt(stops, n)
  }

  // Activations over time

  /** An activation live after `n` stops has been live, in the same place, ever since it was opened. */
  lemma {:induction false} LiveSince(stops: seq<Stmt>, n: nat, j: nat, m: nat)
    requires n <= |stops| && j < |StackAfter(stops, n)| && StackAfter(stops, n)[j] <= m < n
    ensures StackAfter(stops, n)[..j + 1] <= StackAt(stops, m)
  {
    var stack, before := StackAfter(stops, n), StackAfter(stops, n - 1);
    if j < |before| {
      assert stack[..j + 1] == before[..j + 1];
      if m == n - 1 {
        assert before <= StackAt(stops, m);
      } else {
        LiveSince(stops, n - 1, j, m);
      }
    }
  }

  lemma {:induction false} OpenedBefore(stops: seq<Stmt>, n: nat, j: nat)
    requires n <= |stops| && j < |StackAfter(stops, n)|
    ensures StackAfter(stops, n)[j] < n
  {
    if j < |StackAfter(stops, n - 1)| {
      OpenedBefore(stops, n - 1, j);
    }
  }

  /** While the k-th activation of stop `n` is live, shallower stops are impossible and its own depth is its own. */
  lemma LiveUntil(stops: seq<Stmt>, n: nat, k: nat, m: nat)
    requires WellBracketed(stops) && n < |stops| && 0 < k <= |StackAt(stops, n)|
    requires StackAt(stops, n)[k - 1] <= m <= n
    ensures |StackAt(stops, m)| >= k && StackAt(stops, m)[k - 1] == StackAt(stops, n)[k - 1]
    ensures |StackAt(stops, m)| == k <==> Owner(stops, m) == StackAt(stops, n)[k - 1]
  {
    var s := StackAt(stops, n)[k - 1];
    assert StackAt(stops, n)[..k] <= StackAt(stops, m) by {
      if m < n {
        assert k <= |StackAfter(stops, n)|;
        LiveSince(stops, n, k - 1, m);
        assert StackAt(stops, n)[..k] == StackAfter(stops, n)[..k];
      }
    }
    assert StackAt(stops, m)[k - 1] == s;
    if |StackAt(stops, m)| > k {
      StackIncreases(stops, m, k - 1, |StackAt(stops, m)| - 1);
    }
  }

  lemma {:induction false} StackAfterIncreases(stops: seq<Stmt>, n: nat, i: nat, j: nat)
    requires n <= |stops| && i < j < |StackAfter(stops, n)|
    ensures StackAfter(stops, n)[i] < StackAfter(stops, n)[j]
  {
    if j < |StackAfter(stops, n - 1)| {
      StackAfterIncreases(stops, n - 1, i, j);
    } else {
      OpenedBefore(stops, n - 1, i);
    }
  }

  lemma StackIncreases(stops: seq<Stmt>, n: nat, i: nat, j: nat)
    requires n < |stops| && i < j < |StackAt(stops, n)|
    ensures StackAt(stops, n)[i] < StackAt(stops, n)[j]
  {
    if j < |StackAfter(stops, n)| {
      StackAfterIncreases(stops, n, i, j);
    } else {
      OpenedBefore(stops, n, i);
    }
  }

  lemma OwnerOpened(stops: seq<Stmt>, n: nat, k: nat)
    requires n < |stops| && 0 < k <= |StackAt(stops, n)|
    ensures StackAt(stops, n)[k - 1] <= n
  {
    if k <= |StackAfter(stops, n)| {
      OpenedBefore(stops, n, k - 1);
    }
  }

  // The stack trace

  /** The last step with id at most that of `n` and the given depth (MAX(id) ... GROUP BY depth). */
  function LastAtDepth(steps: seq<Step>, n: int, depth: int): (r: Option<nat>)
    requires n < |steps|
    ensures r.Some? ==> r.value <= n && steps[r.value].depth == depth
    ensures forall m: nat :: m <= n && steps[m].depth == depth ==> r.Some? && m <= r.value
    decreases n + 1
  {
    if n < 0 then None
    else if steps[n].depth == depth then Some(n)
    else LastAtDepth(steps, n - 1, depth)
  }

  /** The frames from depth `depth` outwards, innermost first (ORDER BY depth DESC). */
  function Frames(steps: seq<Step>, n: nat, depth: nat): seq<nat>
    requires n < |steps|
  {
    if depth == 0 then []
    else
      var last := LastAtDepth(steps, n, depth);
      (if last.Some? then [last.value] else []) + Frames(steps, n, depth - 1)
  }

  /** `m` is the last stop of activation `a` up to stop `n`. */
  ghost predicate IsLastStopOf(stops: seq<Stmt>, n: nat, a: nat, m: nat)
    requires WellBracketed(stops) && n < |stops|
  {
    && m <= n && Owner(stops, m) == a
    && forall x: nat :: m < x <= n ==> Owner(stops, x) != a
  }

  lemma FrameIsLastStop(stops: seq<Stmt>, steps: seq<Step>, n: nat, k: nat)
    requires WellBracketed(stops) && IsRecording(stops, steps) && n < |stops| && 0 < k <= |StackAt(stops, n)|
    ensures LastAtDepth(steps, n, k).Some?
    ensures IsLastStopOf(stops, n, StackAt(stops, n)[k - 1], LastAtDepth(steps, n, k).value)
  {
    var a := StackAt(stops, n)[k - 1];
    OwnerOpened(stops, n, k);
    LiveUntil(stops, n, k, a);
    OpenerIsShallowest(stops, n, k);
    assert steps[a] == RowAt(stops, a);
    var last := LastAtDepth(steps, n, k).value;
    assert steps[last] == RowAt(stops, last);
    LiveUntil(stops, n, k, last);
    forall x: nat | last < x <= n ensures Owner(stops, x) != a {
      LiveUntil(stops, n, k, x);
      assert steps[x] == RowAt(stops, x) && steps[x].depth != k;
    }
  }

  lemma OpenerIsShallowest(stops: seq<Stmt>, n: nat, k: nat)
    requires WellBracketed(stops) && n < |stops| && 0 < k <= |StackAt(stops, n)|
    ensures StackAt(stops, n)[k - 1] < |stops|
    ensures |StackAt(stops, StackAt(stops, n)[k - 1])| == k
  {
    var a := StackAt(stops, n)[k - 1];
    OwnerOpened(stops, n, k);
    LiveUntil(stops, n, k, a);
    if |StackAt(stops, a)| > k {
      StackIncreases(stops, a, k - 1, |StackAt(stops, a)| - 1);
      OwnerOpened(stops, a, |StackAt(stops, a)|);
    }
  }

  lemma {:induction false} FramesByDepth(steps: seq<Step>, n: nat, depth: nat)
    requires n < |steps|
    requires forall k :: 0 < k <= depth ==> LastAtDepth(steps, n, k).Some?
    ensures |Frames(steps, n, depth)| == depth
    ensures forall i :: 0 <= i < depth ==> Frames(steps, n, depth)[i] == LastAtDepth(steps, n, depth - i).value
  {
    if depth == 0 {
    } else {
      FramesByDepth(steps, n, depth - 1);
    }
  }

  /**
   The stack trace at stop `n` lists, innermost first, exactly the last executed step of each
   live activation.
   */
  lemma StackTrace(stops: seq<Stmt>, steps: seq<Step>, n: nat, depth: nat)
    requires WellBracketed(stops) && IsRecording(stops, steps) && n < |stops| && depth <= |StackAt(stops, n)|
    ensures |Frames(steps, n, depth)| == depth
    ensures forall i :: 0 <= i < depth ==>
              IsLastStopOf(stops, n, StackAt(stops, n)[depth - 1 - i], Frames(steps, n, depth)[i])
  {
    forall k | 0 < k <= depth ensures LastAtDepth(steps, n, k).Some? {
      FrameIsLastStop(stops, steps, n, k);
    }
    FramesByDepth(steps, n, depth);
    forall i | 0 <= i < depth
      ensures IsLastStopOf(stops, n, StackAt(stops, n)[depth - 1 - i], Frames(steps, n, depth)[i])
    {
      FrameIsLastStop(stops, steps, n, depth - i);
    }
  }

  /**
   With a fixed depth of 1, as after running to the end, the trace is the whole stack if and only
   if the stop is at depth 1.
   */
  lemma TraceFromDepthOne(stops: seq<Stmt>, steps: seq<Step>, n: nat)
    requires WellBracketed(stops) && IsRecording(stops, steps) && n < |stops|
    ensures Frames(steps, n, 1) == Frames(steps, n, |StackAt(stops, n)|) <==> |StackAt(stops, n)| == 1
  {
    assert StackAt(stops, n) != [];
    StackTrace(stops, steps, n, 1);
    StackTrace(stops, steps, n, |StackAt(stops, n)|);
  }

  /** A recording that ends inside a called function: with depth 1 its own frame is missing. */
  lemma TraceExample(stops: seq<Stmt>, steps: seq<Step>)
    requires |stops| == 2 && stops[0].flag == Start && stops[1].flag == Start && IsRecording(stops, steps)
    ensures WellBracketed(stops) && |StackAt(stops, 1)| == 2
    ensures Frames(steps, 1, 1) == [0] && Frames(steps, 1, 2) == [1, 0]
  {
    assert StackAfter(stops, 0) == [] && StackAt(stops, 0) == [0];
    assert StackAfter(stops, 1) == [0] && StackAt(stops, 1) == [0, 1];
    assert steps[0] == RowAt(stops, 0) && steps[1] == RowAt(stops, 1);
    assert LastAtDepth(steps, 1, 2) == Some(1) && LastAtDepth(steps, 1, 1) == Some(0);
    assert Frames(steps, 1, 1) == [0] + Frames(steps, 1, 0);
  }
}
