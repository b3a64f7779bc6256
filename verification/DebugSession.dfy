/**
 The debugger session of requests.c: the current step, file, line and depth, the handlers that
 move them, and what the handlers promise about the activations of the recorded program.
 */
module DebugSession {
  import opened Bytes
  import opened CallStack
  import opened Navigation

  datatype Outcome = Moved | Broke | AtEntry | AtEnd | Unmoved | Failed

  datatype Request =
    | Next
    | StepIn
    | StepOut
    | StepBack
    | Continue
    | ReverseContinue
    | SetBreakpoints(file: string, lines: seq<nat>)

  /** Where the debugger stands: cur_step, cur_file, cur_line and cur_depth. */
  datatype Position = Position(step: nat, file: string, line: nat, depth: int)

  /** A row that next and stepBack pass over: deeper, or on the line they start from. */
  predicate PassedOver(s: Step, depth: int, file: string, line: nat) {
    s.depth > depth || (s.file == file && s.line == line)
  }

  // What each request does to the position

  /** The position is at step `n`, with its line and depth. */
  ghost predicate IsAt(steps: seq<Step>, q: Position, n: nat) {
    n < |steps| && q == Position(n, steps[n].file, steps[n].line, steps[n].depth)
  }

  /** next: to the first later step that is not passed over; without one nothing moves. */
  ghost predicate NextMoves(steps: seq<Step>, p: Position, q: Position, r: Outcome) {
    match r
    case Moved =>
      && p.step < q.step && IsAt(steps, q, q.step) && !PassedOver(steps[q.step], p.depth, p.file, p.line)
      && forall m :: p.step < m < q.step ==> PassedOver(steps[m], p.depth, p.file, p.line)
    case AtEnd => q == p && forall m :: p.step < m < |steps| ==> PassedOver(steps[m], p.depth, p.file, p.line)
    case _ => false
  }

  /** stepIn: to the next step. */
  ghost predicate StepInMoves(steps: seq<Step>, p: Position, q: Position, r: Outcome) {
    match r
    case Moved => IsAt(steps, q, p.step + 1)
    case AtEnd => q == p && p.step == |steps| - 1
    case _ => false
  }

  /** stepOut: to the first later step that is shallower, except from depth 1. */
  ghost predicate StepOutMoves(steps: seq<Step>, p: Position, q: Position, r: Outcome) {
    match r
    case Moved =>
      && p.depth > 1 && p.step < q.step && IsAt(steps, q, q.step) && steps[q.step].depth < p.depth
      && forall m :: p.step < m < q.step ==> steps[m].depth >= p.depth
    case AtEnd => p.depth > 1 && q == p && forall m :: p.step < m < |steps| ==> steps[m].depth >= p.depth
    case Unmoved => p.depth <= 1 && q == p
    case _ => false
  }

  /** stepBack: to the last earlier step that is not passed over. */
  ghost predicate StepBackMoves(steps: seq<Step>, p: Position, q: Position, r: Outcome)
    requires p.step <= |steps|
  {
    match r
    case Moved =>
      && q.step < p.step && IsAt(steps, q, q.step) && !PassedOver(steps[q.step], p.depth, p.file, p.line)
      && forall m :: q.step < m < p.step ==> PassedOver(steps[m], p.depth, p.file, p.line)
    case AtEntry => q == p && p.step == 0
    case Failed =>
      q == p && p.step > 0 && forall m :: 0 <= m < p.step ==> PassedOver(steps[m], p.depth, p.file, p.line)
    case _ => false
  }

  /** continue: to the first step on a breakpoint line after the run of the current line, else to the last step. */
  ghost predicate ContinueMoves(steps: seq<Step>, breakpoints: Breakpoints, p: Position, q: Position, r: Outcome)
    requires p.step < |steps|
  {
    match r
    case Broke =>
      && RunEnd(steps, p.step) < q.step && IsAt(steps, q, q.step) && (q.file, q.line) in breakpoints
      && forall m :: RunEnd(steps, p.step) < m < q.step ==> (steps[m].file, steps[m].line) !in breakpoints
    case AtEnd =>
      && (forall m :: RunEnd(steps, p.step) < m < |steps| ==> (steps[m].file, steps[m].line) !in breakpoints)
      && q == Position(|steps| - 1, steps[|steps| - 1].file, steps[|steps| - 1].line, 1)
    case _ => false
  }

  /** reverseContinue: the mirror image, else to the first step. */
  ghost predicate ReverseContinueMoves(steps: seq<Step>, breakpoints: Breakpoints, p: Position, q: Position, r: Outcome)
    requires p.step < |steps|
  {
    match r
    case Broke =>
      && q.step < RunStart(steps, p.step) && IsAt(steps, q, q.step) && (q.file, q.line) in breakpoints
      && forall m :: q.step < m < RunStart(steps, p.step) ==> (steps[m].file, steps[m].line) !in breakpoints
    case AtEntry =>
      && (forall m :: 0 <= m < RunStart(steps, p.step) ==> (steps[m].file, steps[m].line) !in breakpoints)
      && IsAt(steps, q, 0)
    case _ => false
  }

  /** Some step is on the line. */
  ghost predicate Stoppable(steps: seq<Step>, file: string, line: nat) {
    exists m :: 0 <= m < |steps| && steps[m].file == file && steps[m].line == line
  }

  /** setBreakpoints: the file's breakpoints become those of the lines asked for that are stoppable. */
  ghost predicate IsReplaced(steps: seq<Step>, file: string, lines: seq<nat>, was: Breakpoints, now: Breakpoints) {
    forall b :: b in now <==> if b.0 == file then b.1 in lines && Stoppable(steps, file, b.1) else b in was
  }

  /** What a request promises of the positions and breakpoints before and after it. */
  ghost predicate Answers(request: Request, steps: seq<Step>, was: Breakpoints, now: Breakpoints,
                          p: Position, q: Position, r: Outcome)
    requires p.step < |steps|
  {
    && (!request.SetBreakpoints? ==> now == was)
    && match request
       case Next => NextMoves(steps, p, q, r)
       case StepIn => StepInMoves(steps, p, q, r)
       case StepOut => StepOutMoves(steps, p, q, r)
       case StepBack => StepBackMoves(steps, p, q, r)
       case Continue => ContinueMoves(steps, was, p, q, r)
       case ReverseContinue => ReverseContinueMoves(steps, was, p, q, r)
       case SetBreakpoints(file, lines) => r == Unmoved && q == p && IsReplaced(steps, file, lines, was, now)
  }

  // Activations

  /** The activation of stop `n` has a later stop on another line. */
  ghost predicate GoesOn(stops: seq<Stmt>, steps: seq<Step>, n: nat)
    requires WellBracketed(stops) && IsRecording(stops, steps) && n < |stops|
  {
    exists x :: n < x < |stops| && OwnOtherLine(stops, steps, n, x)
  }

  /** It had an earlier one. */
  ghost predicate CameFrom(stops: seq<Stmt>, steps: seq<Step>, n: nat)
    requires WellBracketed(stops) && IsRecording(stops, steps) && n < |stops|
  {
    exists x :: 0 <= x < n && OwnOtherLine(stops, steps, n, x)
  }

  /** `frames` are the last executed steps of all live activations of stop `n`, innermost first. */
  ghost predicate IsTrace(stops: seq<Stmt>, n: nat, frames: seq<nat>)
    requires WellBracketed(stops) && n < |stops|
  {
    && |frames| == |StackAt(stops, n)|
    && forall i :: 0 <= i < |frames| ==> IsLastStopOf(stops, n, StackAt(stops, n)[|frames| - 1 - i], frames[i])
  }

  /** Stop `m` belongs to the activation that the stack trace at `n` shows as its second frame. */
  ghost predicate ShownAsCaller(stops: seq<Stmt>, steps: seq<Step>, n: nat, m: nat)
    requires WellBracketed(stops) && IsRecording(stops, steps) && n < |stops| && m < |stops|
  {
    var frames := Frames(steps, n, |StackAt(stops, n)|);
    |frames| == |StackAt(stops, n)| > 1 && frames[1] <= n && Owner(stops, m) == Owner(stops, frames[1])
  }

  class Debugger {
    const steps: seq<Step>
    ghost const stops: seq<Stmt>   // the execution behind the recording
    var breakpoints: Breakpoints
    var curStep: nat
    var curFile: string
    var curLine: nat
    var curDepth: int

    /** The rows record an execution, and the current line is that of the current step. */
    ghost predicate Valid()
      reads this
    {
      && WellBracketed(stops) && IsRecording(stops, steps)
      && curStep < |steps| && curFile == steps[curStep].file && curLine == steps[curStep].line
    }

    ghost function Here(): Position
      reads this
    {
      Position(curStep, curFile, curLine, curDepth)
    }

    /** The current depth, too, is that of the current step. */
    ghost predicate AtStep()
      reads this
    {
      Valid() && curDepth == steps[curStep].depth
    }

    /** Only at the last step can the depth be wrong, and then it is 1. */
    ghost predicate Positioned()
      reads this
    {
      AtStep() || (Valid() && curStep == |steps| - 1 && curDepth == 1)
    }

    /** set_first_step */
    constructor (steps: seq<Step>, ghost stops: seq<Stmt>)
      requires steps != [] && WellBracketed(stops) && IsRecording(stops, steps)
      ensures this.steps == steps && this.stops == stops && AtStep() && curStep == 0 && breakpoints == {}
    {
      this.steps := steps;
      this.stops := stops;
      breakpoints := {};
      curStep, curFile, curLine, curDepth := 0, steps[0].file, steps[0].line, 1;
      FirstDepth(stops, steps);
    }

    method MoveTo(n: nat)
      requires Valid() && n < |steps|
      modifies this
      ensures AtStep() && curStep == n && breakpoints == old(breakpoints)
    {
      curFile, curLine, curStep, curDepth := steps[n].file, steps[n].line, n, steps[n].depth;
    }

    /**
     next: never deeper, passing over nothing it should stop at; it stays in its activation if and
     only if that goes on to another line, and then stops at the first such step.
     */
    method Next() returns (r: Outcome)
      requires Valid()
      modifies this
      ensures Valid() && breakpoints == old(breakpoints) && NextMoves(steps, old(Here()), Here(), r)
      ensures old(AtStep()) ==>
                (GoesOn(stops, steps, old(curStep)) <==>
                    r == Moved && Owner(stops, curStep) == Owner(stops, old(curStep)))
      ensures old(AtStep()) && r == Moved ==>
                forall x :: old(curStep) < x < curStep ==> !OwnOtherLine(stops, steps, old(curStep), x)
    {
      ghost var n := curStep;
      var target := First(steps, curStep + 1, OffLine(curDepth, curFile, curLine));
      if AtStep() {
        NextStaysInActivation(stops, steps, n);
      }
      if target.None? {
        return AtEnd;
      }
      MoveTo(target.value);
      return Moved;
    }

    /** stepIn: the very next stop, in the same activation, one just opened, or the caller's after an END. */
    method StepIn() returns (r: Outcome)
      requires Valid()
      modifies this
      ensures Valid() && breakpoints == old(breakpoints)
      ensures StepInMoves(steps, old(Here()), Here(), r)
      ensures r == Moved ==>
                && StackAt(stops, curStep) ==
                     (if stops[old(curStep)].flag == End
                      then StackAt(stops, old(curStep))[..|StackAt(stops, old(curStep))| - 1]
                      else StackAt(stops, old(curStep))) +
                     (if stops[curStep].flag == Start then [curStep] else [])
    {
      if curStep + 1 >= |steps| {
        return AtEnd;
      }
      NextStack(stops, curStep);
      MoveTo(curStep + 1);
      return Moved;
    }

    /** stepOut: to the caller's activation, the one the stack trace shows as the next frame. */
    method StepOut() returns (r: Outcome)
      requires Valid()
      modifies this
      ensures Valid() && breakpoints == old(breakpoints)
      ensures StepOutMoves(steps, old(Here()), Here(), r)
      ensures r == Moved && old(AtStep()) ==>
                && StackAt(stops, curStep) == StackAt(stops, old(curStep))[..|StackAt(stops, old(curStep))| - 1]
                && ShownAsCaller(stops, steps, old(curStep), curStep)
    {
      if curDepth <= 1 {
        return Unmoved;
      }
      var target := First(steps, curStep + 1, Shallower(curDepth));
      if target.None? {
        return AtEnd;
      }
      if AtStep() {
        OutToCaller(stops, steps, curStep, target.value);
      }
      MoveTo(target.value);
      return Moved;
    }

    /** stepBack: the mirror image of next. */
    method StepBack() returns (r: Outcome)
      requires Valid()
      modifies this
      ensures Valid() && breakpoints == old(breakpoints) && StepBackMoves(steps, old(Here()), Here(), r)
      ensures old(AtStep()) ==>
                (CameFrom(stops, steps, old(curStep)) <==>
                    r == Moved && Owner(stops, curStep) == Owner(stops, old(curStep)))
      ensures old(AtStep()) && r == Moved ==>
                forall x :: curStep < x < old(curStep) ==> !OwnOtherLine(stops, steps, old(curStep), x)
    {
      ghost var n := curStep;
      if curStep == 0 {
        return AtEntry;
      }
      var target := Last(steps, curStep, OffLine(curDepth, curFile, curLine));
      if AtStep() {
        StepBackStaysInActivation(stops, steps, n);
      }
      if target.None? {
        return Failed;
      }
      MoveTo(target.value);
      return Moved;
    }

    /**
     continue: stop at the earliest later breakpoint step outside the contiguous run of steps on
     the current line; without one, go to the last step, with depth 1 whatever its own depth.
     */
    method Continue() returns (r: Outcome)
      requires Valid()
      modifies this
      ensures Valid() && breakpoints == old(breakpoints)
      ensures ContinueMoves(steps, breakpoints, old(Here()), Here(), r)
    {
      var row := FetchForward(steps, breakpoints, curStep);
      if row.None? {
        curStep, curFile, curLine, curDepth := |steps| - 1, steps[|steps| - 1].file, steps[|steps| - 1].line, 1;
        return AtEnd;
      }
      MoveTo(row.value);
      return Broke;
    }

    /** reverseContinue: the mirror image; without a breakpoint, back to the first step. */
    method ReverseContinue() returns (r: Outcome)
      requires Valid()
      modifies this
      ensures Valid() && breakpoints == old(breakpoints)
      ensures ReverseContinueMoves(steps, breakpoints, old(Here()), Here(), r)
    {
      var row := FetchBackward(steps, breakpoints, curStep);
      if row.None? {
        curStep, curFile, curLine, curDepth := 0, steps[0].file, steps[0].line, 1;
        FirstDepth(stops, steps);
        return AtEntry;
      }
      MoveTo(row.value);
      return Broke;
    }

    /** process_stack: the trace is that of the live activations if and only if the depth is right. */
    method Trace() returns (frames: seq<nat>)
      requires Positioned()
      ensures IsTrace(stops, curStep, frames) <==> AtStep()
    {
      assert steps[curStep] == RowAt(stops, curStep) && StackAt(stops, curStep) != [];
      frames := Frames(steps, curStep, curDepth);
      StackTrace(stops, steps, curStep, if AtStep() then |StackAt(stops, curStep)| else 1);
    }

    // Whole sessions

    /** next and then stepBack: from a step whose activation goes on, back on its line and in it. */
    method NextAndBack() returns (next: Outcome, back: Outcome)
      requires AtStep()
      modifies this
      ensures Valid()
      ensures GoesOn(stops, steps, old(curStep)) ==>
                && next == Moved && back == Moved && AtStep() && old(curStep) <= curStep
                && SameLine(steps[curStep], steps[old(curStep)]) && Owner(stops, curStep) == Owner(stops, old(curStep))
    {
      ghost var n := curStep;
      next := Next();
      ghost var m := curStep;
      back := StepBack();
      if GoesOn(stops, steps, n) {
        BackWithin(stops, steps, n, m, curStep, back == Moved);
      }
    }

    /** continue to a breakpoint and reverseContinue, from a breakpoint line: back to that line. */
    method ContinueAndBack() returns (forth: Outcome, back: Outcome)
      requires Valid() && (curFile, curLine) in breakpoints
      modifies this
      ensures Valid()
      ensures forth == Broke ==>
                back == Broke && AtStep() && curStep == RunEnd(steps, old(curStep)) &&
                    SameLine(steps[curStep], steps[old(curStep)])
    {
      ghost var n := curStep;
      forth := Continue();
      if forth == Broke {
        ContinueThenReverse(steps, breakpoints, n, curStep);
      }
      back := ReverseContinue();
    }

    /** process_breakpoints: a line that no step is on is not verified, and gets no breakpoint. */
    method SetBreakpoints(file: string, lines: seq<nat>) returns (verified: seq<bool>)
      requires Valid()
      modifies this
      ensures Valid() && Here() == old(Here())
      ensures IsReplaced(steps, file, lines, old(breakpoints), breakpoints)
      ensures |verified| == |lines| && forall i :: 0 <= i < |lines| ==> verified[i] == Stoppable(steps, file, lines[i])
    {
      breakpoints := set b | b in breakpoints && b.0 != file;
      verified := [];
      for i := 0 to |lines|
        invariant Valid() && Here() == old(Here()) && |verified| == i
        invariant IsReplaced(steps, file, lines[..i], old(breakpoints), breakpoints)
        invariant forall j :: 0 <= j < i ==> verified[j] == Stoppable(steps, file, lines[j])
      {
        var row := First(steps, 0, (s: Step) => s.file == file && s.line == lines[i]);
        assert row.Some? <==> Stoppable(steps, file, lines[i]);
        if row.Some? {
          breakpoints := breakpoints + {(file, lines[i])};
        }
        verified := verified + [row.Some?];
        assert lines[..i + 1] == lines[..i] + [lines[i]];
      }
      assert lines[..|lines|] == lines;
    }

    /** process_request: each request is answered by its own handler. */
    method Serve(request: Request) returns (r: Outcome)
      requires Positioned()
      modifies this
      ensures Positioned()
      ensures Answers(request, steps, old(breakpoints), breakpoints, old(Here()), Here(), r)
    {
      match request {
        case Next => r := Next();
        case StepIn => r := StepIn();
        case StepOut => r := StepOut();
        case StepBack => r := StepBack();
        case Continue => r := Continue();
        case ReverseContinue => r := ReverseContinue();
        case SetBreakpoints(file, lines) =>
          var _ := SetBreakpoints(file, lines);
          r := Unmoved;
      }
    }

    /**
     A whole session: from position to position each request is answered as it promises. Whatever the
     requests, the position is a recorded step with its own line, and with its own depth, so that the
     stack trace is right, if the recording ends at depth 1.
     */
    method Session(requests: seq<Request>) returns (outcomes: seq<Outcome>, frames: seq<nat>, ghost trail: seq<Moment>)
      requires Positioned()
      modifies this
      ensures Positioned()
      ensures IsSession(steps, requests, outcomes, trail)
      ensures trail[0] == Moment(old(Here()), old(breakpoints)) && trail[|requests|] == Moment(Here(), breakpoints)
      ensures steps[|steps| - 1].depth == 1 ==> AtStep() && IsTrace(stops, curStep, frames)
    {
      outcomes, trail := [], [Moment(Here(), breakpoints)];
      for i := 0 to |requests|
        invariant Positioned() && |outcomes| == i && |trail| == i + 1
        invariant trail[0] == Moment(old(Here()), old(breakpoints)) && trail[i] == Moment(Here(), breakpoints)
        invariant forall k :: 0 <= k < i ==> AnsweredAt(steps, requests[k], outcomes[k], trail[k], trail[k + 1])
      {
        var r := Serve(requests[i]);
        outcomes, trail := outcomes + [r], trail + [Moment(Here(), breakpoints)];
      }
      frames := Trace();
    }
  }

  /** A position and the breakpoints set then. */
  datatype Moment = Moment(at: Position, breakpoints: Breakpoints)

  ghost predicate AnsweredAt(steps: seq<Step>, request: Request, r: Outcome, m: Moment, n: Moment) {
    m.at.step < |steps| && Answers(request, steps, m.breakpoints, n.breakpoints, m.at, n.at, r)
  }

  /** Each request of a session leads from one moment to the next as it promises. */
  ghost predicate IsSession(steps: seq<Step>, requests: seq<Request>, outcomes: seq<Outcome>, trail: seq<Moment>) {
    && |outcomes| == |requests| && |trail| == |requests| + 1
    && forall k :: 0 <= k < |requests| ==> AnsweredAt(steps, requests[k], outcomes[k], trail[k], trail[k + 1])
  }

  lemma FirstDepth(stops: seq<Stmt>, steps: seq<Step>)
    requires WellBracketed(stops) && IsRecording(stops, steps) && steps != []
    ensures steps[0].depth == 1
  {
    assert steps[0] == RowAt(stops, 0) && StackAt(stops, 0) != [];
  }

  /** The stack from one stop to the next. */
  lemma NextStack(stops: seq<Stmt>, n: nat)
    requires WellBracketed(stops) && n + 1 < |stops|
    ensures StackAt(stops, n) != []
    ensures StackAt(stops, n + 1) ==
              (if stops[n].flag == End then StackAt(stops, n)[..|StackAt(stops, n)| - 1] else StackAt(stops, n)) +
              (if stops[n + 1].flag == Start then [n + 1] else [])
  {
  }

  lemma {:induction false} OutToCaller(stops: seq<Stmt>, steps: seq<Step>, n: nat, m: nat)
    requires WellBracketed(stops) && IsRecording(stops, steps) && n < |stops| && steps[n].depth > 1
    requires First(steps, n + 1, Shallower(steps[n].depth)) == Some(m)
    ensures m < |stops| && StackAt(stops, m) == StackAt(stops, n)[..|StackAt(stops, n)| - 1]
    ensures ShownAsCaller(stops, steps, n, m)
  {
    assert steps[n] == RowAt(stops, n);
    StepOutToCaller(stops, steps, n);
  }

  /** Where a next from `n` comes to, told by what it passes over. */
  ghost predicate NextLands(steps: seq<Step>, n: nat, m: nat)
    requires n < m < |steps|
  {
    && !PassedOver(steps[m], steps[n].depth, steps[n].file, steps[n].line)
    && forall x :: n < x < m ==> PassedOver(steps[x], steps[n].depth, steps[n].file, steps[n].line)
  }

  ghost predicate BackLands(steps: seq<Step>, m: nat, b: nat)
    requires b < m < |steps|
  {
    && !PassedOver(steps[b], steps[m].depth, steps[m].file, steps[m].line)
    && forall x :: b < x < m ==> PassedOver(steps[x], steps[m].depth, steps[m].file, steps[m].line)
  }

  ghost predicate NoBack(steps: seq<Step>, m: nat)
    requires m < |steps|
  {
    forall x :: 0 <= x < m ==> PassedOver(steps[x], steps[m].depth, steps[m].file, steps[m].line)
  }

  lemma NextIs(steps: seq<Step>, n: nat, m: nat)
    requires n < m < |steps| && NextLands(steps, n, m)
    ensures NextOf(steps, n) == Some(m)
  {
  }

  lemma BackIs(steps: seq<Step>, m: nat, b: nat)
    requires b < m < |steps| && BackLands(steps, m, b)
    ensures BackOf(steps, m) == Some(b)
  {
  }

  /** What stepBack meets after a next from `n` to `m` that stayed in its activation. */
  lemma BackWithin(stops: seq<Stmt>, steps: seq<Step>, n: nat, m: nat, b: nat, moved: bool)
    requires WellBracketed(stops) && IsRecording(stops, steps) && n < m < |stops|
    requires NextLands(steps, n, m) && Owner(stops, m) == Owner(stops, n)
    requires if moved then b < m && BackLands(steps, m, b) else NoBack(steps, m)
    ensures moved && n <= b < m && SameLine(steps[b], steps[n]) && Owner(stops, b) == Owner(stops, n)
  {
    NextIs(steps, n, m);
    NextThenStepBack(stops, steps, n, m);
    var v := BackOf(steps, m).value;
    assert !PassedOver(steps[v], steps[m].depth, steps[m].file, steps[m].line);
    if moved {
      BackIs(steps, m, b);
    }
  }
}
