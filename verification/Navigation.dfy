/**
 Moving through a recording: the selections on the rows of `step` behind next, stepIn, stepOut,
 stepBack, continue and reverseContinue, and what they mean for the activations of the recorded
 program.
 */
module Navigation {
  import opened Bytes
  import opened CallStack

  // Selections

  /** The first row at or after `i` that satisfies `p` (ORDER BY id LIMIT 1). */
  function First(steps: seq<Step>, i: nat, p: Step -> bool): (r: Option<nat>)
    ensures r.Some? ==> i <= r.value < |steps| && p(steps[r.value]) && forall m :: i <= m < r.value ==> !p(steps[m])
    ensures r.None? ==> forall m :: i <= m < |steps| ==> !p(steps[m])
    decreases |steps| - i
  {
    if i >= |steps| then None else if p(steps[i]) then Some(i) else First(steps, i + 1, p)
  }

  /** The last row before `i` that satisfies `p` (ORDER BY id DESC LIMIT 1). */
  function Last(steps: seq<Step>, i: nat, p: Step -> bool): (r: Option<nat>)
    requires i <= |steps|
    ensures r.Some? ==> r.value < i && p(steps[r.value]) && forall m :: r.value < m < i ==> !p(steps[m])
    ensures r.None? ==> forall m :: 0 <= m < i ==> !p(steps[m])
  {
    if i == 0 then None else if p(steps[i - 1]) then Some(i - 1) else Last(steps, i - 1, p)
  }

  /** At most as deep, on another line. */
  function OffLine(depth: int, file: string, line: nat): Step -> bool {
    (s: Step) => s.depth <= depth && !(s.file == file && s.line == line)
  }

  function Shallower(depth: int): Step -> bool {
    (s: Step) => s.depth < depth
  }

  type Breakpoints = set<(string, nat)>

  /** The line a step is on, as breakpoints name it. */
  function Line(s: Step): (string, nat) {
    (s.file, s.line)
  }

  /** The join of steps with the breakpoint table. */
  function AtBreakpoint(breakpoints: Breakpoints): Step -> bool {
    (s: Step) => (s.file, s.line) in breakpoints
  }

  predicate SameLine(a: Step, b: Step) {
    a.file == b.file && a.line == b.line
  }

  /** The last step of the contiguous run of steps on one line that starts at `n`. */
  function RunEnd(steps: seq<Step>, n: nat): (e: nat)
    requires n < |steps|
    ensures n <= e < |steps|
    decreases |steps| - n
  {
    if n + 1 < |steps| && SameLine(steps[n + 1], steps[n]) then RunEnd(steps, n + 1) else n
  }

  function RunStart(steps: seq<Step>, n: nat): (b: nat)
    requires n < |steps|
    ensures b <= n
  {
    if n > 0 && SameLine(steps[n - 1], steps[n]) then RunStart(steps, n - 1) else n
  }

  lemma {:induction false} RunForward(steps: seq<Step>, n: nat)
    requires n < |steps|
    ensures forall m :: n <= m <= RunEnd(steps, n) ==> SameLine(steps[m], steps[n])
    ensures RunEnd(steps, n) + 1 < |steps| ==> !SameLine(steps[RunEnd(steps, n) + 1], steps[n])
    decreases |steps| - n
  {
    if n + 1 < |steps| && SameLine(steps[n + 1], steps[n]) {
      RunForward(steps, n + 1);
    }
  }

  lemma {:induction false} RunBackward(steps: seq<Step>, n: nat)
    requires n < |steps|
    ensures forall m :: RunStart(steps, n) <= m <= n ==> SameLine(steps[m], steps[n])
    ensures RunStart(steps, n) > 0 ==> !SameLine(steps[RunStart(steps, n) - 1], steps[n])
  {
    if n > 0 && SameLine(steps[n - 1], steps[n]) {
      RunBackward(steps, n - 1);
    }
  }

  lemma {:induction false} FirstSkips(steps: seq<Step>, i: nat, j: nat, p: Step -> bool)
    requires i <= j <= |steps| && forall m :: i <= m < j ==> !p(steps[m])
    ensures First(steps, i, p) == First(steps, j, p)
    decreases j - i
  {
  }

  lemma {:induction false} LastSkips(steps: seq<Step>, i: nat, j: nat, p: Step -> bool)
    requires i <= j <= |steps| && forall m :: i <= m < j ==> !p(steps[m])
    ensures Last(steps, j, p) == Last(steps, i, p)
    decreases j - i
  {
    if i == j {
    } else {
      LastSkips(steps, i, j - 1, p);
    }
  }

  // The fetch loops of continue and reverseContinue

  /** The fetch loop of continue: pass over breakpoint steps that go on with the current line. */
  method FetchForward(steps: seq<Step>, breakpoints: Breakpoints, from: nat) returns (row: Option<nat>)
    requires from < |steps|
    ensures row == First(steps, RunEnd(steps, from) + 1, AtBreakpoint(breakpoints))
    ensures row.Some? ==> RunEnd(steps, from) < row.value < |steps| && Line(steps[row.value]) in breakpoints
    ensures forall m :: RunEnd(steps, from) < m < (if row.Some? then row.value else |steps|) ==>
              Line(steps[m]) !in breakpoints
  {
    var current: nat := from;
    row := First(steps, current + 1, AtBreakpoint(breakpoints));
    while row.Some? && row.value == current + 1 && SameLine(steps[row.value], steps[current])
      invariant current < |steps| && RunEnd(steps, current) == RunEnd(steps, from)
      invariant row == First(steps, current + 1, AtBreakpoint(breakpoints))
      decreases |steps| - current
    {
      RunGoesOn(steps, current);
      current := row.value;
      row := First(steps, current + 1, AtBreakpoint(breakpoints));
    }
    BreakpointsAreOfLines(breakpoints);
    SkipsRun(steps, current, AtBreakpoint(breakpoints));
  }

  method FetchBackward(steps: seq<Step>, breakpoints: Breakpoints, from: nat) returns (row: Option<nat>)
    requires from < |steps|
    ensures row == Last(steps, RunStart(steps, from), AtBreakpoint(breakpoints))
    ensures row.Some? ==> row.value < RunStart(steps, from) && Line(steps[row.value]) in breakpoints
    ensures forall m :: (if row.Some? then row.value else -1) < m < RunStart(steps, from) ==>
              Line(steps[m]) !in breakpoints
  {
    var current: nat := from;
    row := Last(steps, current, AtBreakpoint(breakpoints));
    while row.Some? && row.value == current - 1 && SameLine(steps[row.value], steps[current])
      invariant current < |steps| && RunStart(steps, current) == RunStart(steps, from)
      invariant row == Last(steps, current, AtBreakpoint(breakpoints))
      decreases current
    {
      current := row.value;
      row := Last(steps, current, AtBreakpoint(breakpoints));
    }
    BreakpointsAreOfLines(breakpoints);
    SkipsRunBack(steps, current, AtBreakpoint(breakpoints));
  }

  lemma RunGoesOn(steps: seq<Step>, n: nat)
    requires n + 1 < |steps| && SameLine(steps[n + 1], steps[n])
    ensures RunEnd(steps, n) == RunEnd(steps, n + 1)
  {
  }

  /** A predicate of lines holds on a whole run or nowhere in it. */
  ghost predicate OfLines(p: Step -> bool) {
    forall a, b :: SameLine(a, b) ==> p(a) == p(b)
  }

  lemma BreakpointsAreOfLines(breakpoints: Breakpoints)
    ensures OfLines(AtBreakpoint(breakpoints))
  {
  }

  lemma SkipsRun(steps: seq<Step>, n: nat, p: Step -> bool)
    requires n < |steps| && OfLines(p)
    requires var row := First(steps, n + 1, p);
             !(row.Some? && row.value == n + 1 && SameLine(steps[n + 1], steps[n]))
    ensures First(steps, n + 1, p) == First(steps, RunEnd(steps, n) + 1, p)
  {
    var e := RunEnd(steps, n);
    RunForward(steps, n);
    forall m | n + 1 <= m < e + 1 ensures !p(steps[m]) {
      assert SameLine(steps[m], steps[n]) && SameLine(steps[n + 1], steps[n]);
      assert SameLine(steps[m], steps[n + 1]);
    }
    FirstSkips(steps, n + 1, e + 1, p);
  }

  lemma SkipsRunBack(steps: seq<Step>, n: nat, p: Step -> bool)
    requires n < |steps| && OfLines(p)
    requires var row := Last(steps, n, p);
             !(row.Some? && row.value == n - 1 && SameLine(steps[n - 1], steps[n]))
    ensures Last(steps, n, p) == Last(steps, RunStart(steps, n), p)
  {
    var b := RunStart(steps, n);
    RunBackward(steps, n);
    forall m | b <= m < n ensures !p(steps[m]) {
      assert SameLine(steps[m], steps[n]) && SameLine(steps[n - 1], steps[n]);
      assert SameLine(steps[m], steps[n - 1]);
    }
    LastSkips(steps, b, n, p);
  }

  // What the selections mean for activations

  ghost function OffLineOf(steps: seq<Step>, n: nat): Step -> bool
    requires n < |steps|
  {
    OffLine(steps[n].depth, steps[n].file, steps[n].line)
  }

  ghost function NextOf(steps: seq<Step>, n: nat): Option<nat>
    requires n < |steps|
  {
    First(steps, n + 1, OffLineOf(steps, n))
  }

  ghost function BackOf(steps: seq<Step>, n: nat): Option<nat>
    requires n < |steps|
  {
    Last(steps, n, OffLineOf(steps, n))
  }

  /** A stop of the same activation as `n`, on another line. */
  ghost predicate OwnOtherLine(stops: seq<Stmt>, steps: seq<Step>, n: nat, m: nat)
    requires WellBracketed(stops) && IsRecording(stops, steps) && n < |stops| && m < |stops|
  {
    Owner(stops, m) == Owner(stops, n) && !SameLine(steps[m], steps[n])
  }

  /** Between two stops of one activation, a stop no deeper is one of its own. */
  lemma BetweenIsOwn(stops: seq<Stmt>, steps: seq<Step>, n: nat, m: nat, x: nat)
    requires WellBracketed(stops) && IsRecording(stops, steps) && n <= x <= m < |stops|
    requires Owner(stops, n) == Owner(stops, m)
    ensures steps[n].depth == steps[m].depth <= steps[x].depth
    ensures steps[x].depth == steps[m].depth <==> Owner(stops, x) == Owner(stops, m)
  {
    var k := |StackAt(stops, m)|;
    assert StackAt(stops, m) != [] && StackAt(stops, n) != [];
    OwnerOpened(stops, n, |StackAt(stops, n)|);
    LiveUntil(stops, m, k, n);
    LiveUntil(stops, m, k, x);
    assert steps[n] == RowAt(stops, n) && steps[m] == RowAt(stops, m) && steps[x] == RowAt(stops, x);
  }

  /**
   next stays in its activation if and only if the activation has a later stop on another line,
   and then lands on the first of them.
   */
  lemma NextStaysInActivation(stops: seq<Stmt>, steps: seq<Step>, n: nat)
    requires WellBracketed(stops) && IsRecording(stops, steps) && n < |stops|
    ensures (exists x :: n < x < |stops| && OwnOtherLine(stops, steps, n, x)) <==>
              NextOf(steps, n).Some? && Owner(stops, NextOf(steps, n).value) == Owner(stops, n)
    ensures NextOf(steps, n).Some? ==> forall x :: n < x < NextOf(steps, n).value ==> !OwnOtherLine(stops, steps, n, x)
  {
    forall x | n < x < |stops| && OwnOtherLine(stops, steps, n, x)
      ensures NextOf(steps, n).Some? && NextOf(steps, n).value <= x
      ensures Owner(stops, NextOf(steps, n).value) == Owner(stops, n)
    {
      BetweenIsOwn(stops, steps, n, x, x);
      assert OffLineOf(steps, n)(steps[x]);
      BetweenIsOwn(stops, steps, n, x, NextOf(steps, n).value);
    }
    if NextOf(steps, n).Some? && Owner(stops, NextOf(steps, n).value) == Owner(stops, n) {
      assert OwnOtherLine(stops, steps, n, NextOf(steps, n).value);
    }
  }

  /** stepBack likewise, with the latest earlier stop on another line. */
  lemma StepBackStaysInActivation(stops: seq<Stmt>, steps: seq<Step>, n: nat)
    requires WellBracketed(stops) && IsRecording(stops, steps) && n < |stops|
    ensures (exists x :: 0 <= x < n && OwnOtherLine(stops, steps, n, x)) <==>
              BackOf(steps, n).Some? && Owner(stops, BackOf(steps, n).value) == Owner(stops, n)
    ensures BackOf(steps, n).Some? ==> forall x :: BackOf(steps, n).value < x < n ==> !OwnOtherLine(stops, steps, n, x)
  {
    forall x | 0 <= x < n && OwnOtherLine(stops, steps, n, x)
      ensures BackOf(steps, n).Some? && x <= BackOf(steps, n).value
      ensures Owner(stops, BackOf(steps, n).value) == Owner(stops, n)
    {
      BetweenIsOwn(stops, steps, x, n, x);
      assert OffLineOf(steps, n)(steps[x]);
      BetweenIsOwn(stops, steps, x, n, BackOf(steps, n).value);
    }
    if BackOf(steps, n).Some? && Owner(stops, BackOf(steps, n).value) == Owner(stops, n) {
      assert OwnOtherLine(stops, steps, n, BackOf(steps, n).value);
    }
  }

  /** Neither lands deeper. */
  lemma NeverDeeper(steps: seq<Step>, n: nat)
    requires n < |steps|
    ensures NextOf(steps, n).Some? ==> steps[NextOf(steps, n).value].depth <= steps[n].depth
    ensures BackOf(steps, n).Some? ==> steps[BackOf(steps, n).value].depth <= steps[n].depth
  {
  }

  /** While nothing shallower than c + 1 frames is met, the outer c frames stay. */
  lemma {:induction false} OuterFramesStay(stops: seq<Stmt>, n: nat, m: nat, c: nat)
    requires WellBracketed(stops) && n < m <= |stops| && c < |StackAt(stops, n)|
    requires forall x :: n < x < m ==> |StackAt(stops, x)| > c
    ensures StackAt(stops, n)[..c] <= StackAfter(stops, m)
  {
    if m > n + 1 {
      OuterFramesStay(stops, n, m - 1, c);
      assert StackAfter(stops, m - 1)[..c] == StackAt(stops, n)[..c];
      assert |StackAt(stops, m - 1)| > c;
    }
  }

  /** stepOut lands in the caller's activation, the one shown as the next frame. */
  lemma StepOutToCaller(stops: seq<Stmt>, steps: seq<Step>, n: nat)
    requires WellBracketed(stops) && IsRecording(stops, steps) && n < |stops| && |StackAt(stops, n)| > 1
    requires First(steps, n + 1, Shallower(steps[n].depth)).Some?
    ensures var m := First(steps, n + 1, Shallower(steps[n].depth)).value;
            var depth := |StackAt(stops, n)|;
            && StackAt(stops, m) == StackAt(stops, n)[..depth - 1]
            && |Frames(steps, n, depth)| == depth && Frames(steps, n, depth)[1] <= n
            && Owner(stops, m) == Owner(stops, Frames(steps, n, depth)[1])
  {
    var m := First(steps, n + 1, Shallower(steps[n].depth)).value;
    var depth := |StackAt(stops, n)|;
    assert steps[n] == RowAt(stops, n) && steps[m] == RowAt(stops, m);
    forall x | n < x < m ensures |StackAt(stops, x)| > depth - 1 {
      assert steps[x] == RowAt(stops, x) && !Shallower(steps[n].depth)(steps[x]);
    }
    OuterFramesStay(stops, n, m, depth - 1);
    StackTrace(stops, steps, n, depth);
  }

  /** stepBack after a next that stayed in its activation returns to the same line and activation. */
  lemma NextThenStepBack(stops: seq<Stmt>, steps: seq<Step>, n: nat, m: nat)
    requires WellBracketed(stops) && IsRecording(stops, steps) && n < |stops|
    requires NextOf(steps, n) == Some(m) && Owner(stops, m) == Owner(stops, n)
    ensures BackOf(steps, m).Some?
    ensures var b := BackOf(steps, m).value;
            n <= b < m && SameLine(steps[b], steps[n]) && Owner(stops, b) == Owner(stops, n)
  {
    BetweenIsOwn(stops, steps, n, m, m);
    var off := OffLineOf(steps, m);
    assert off(steps[n]);
    var b := BackOf(steps, m).value;
    assert n <= b;
    BetweenIsOwn(stops, steps, n, m, b);
    if n < b {
      assert !OffLineOf(steps, n)(steps[b]);
    }
  }

  /** From a breakpoint line, reverseContinue after a continue that hit a breakpoint returns to that line. */
  lemma ContinueThenReverse(steps: seq<Step>, breakpoints: Breakpoints, n: nat, m: nat)
    requires n < |steps| && AtBreakpoint(breakpoints)(steps[n])
    requires First(steps, RunEnd(steps, n) + 1, AtBreakpoint(breakpoints)) == Some(m)
    ensures Last(steps, RunStart(steps, m), AtBreakpoint(breakpoints)) == Some(RunEnd(steps, n))
    ensures SameLine(steps[RunEnd(steps, n)], steps[n])
  {
    var p, e := AtBreakpoint(breakpoints), RunEnd(steps, n);
    RunForward(steps, n);
    if m - 1 > e {
      assert !p(steps[m - 1]) && p(steps[m]);
    }
    assert RunStart(steps, m) == m;
    assert p(steps[e]);
  }
}
