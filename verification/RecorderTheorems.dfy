/**
 The promises of the recorder over whole runs: what holds of every state of every run,
 under every interleaving of the child, the callback, the main loop and the reset worker.
 */
module RecorderTheorems {
  import opened Bytes
  import opened SegmentLog
  import opened Replay
  import opened Recorder
  import opened RecorderInvariants
  import opened RecordReplay

  // Record and replay

  /** The child's bytes in [addr, addr + size). */
  ghost function ChildBytes(mem: Memory, addr: nat, size: nat): (bytes: seq<byte>)
    requires InPages(mem.Keys, addr, size)
    ensures |bytes| == size
    ensures forall i :: 0 <= i < size ==> bytes[i] == ChildByte(mem, addr + i)
  {
    seq(size, i requires 0 <= i < size => ChildByte(mem, addr + i))
  }

  ghost function ChildByte(mem: Memory, x: nat): byte
    requires PageOf(x) in mem
  {
    mem[PageOf(x)][x % PAGE_SIZE]
  }

  ghost predicate InPages(pages: set<nat>, addr: nat, size: nat) {
    forall x: nat :: addr <= x < addr + size ==> PageOf(x) in pages
  }

  lemma SegmentOfByte(x: nat)
    ensures var k := x % PAGE_SIZE / SEGMENT_SIZE;
            k < SEGMENTS_PER_PAGE && SegmentStart(x) == SegmentAddress(PageOf(x), k) &&
            x % PAGE_SIZE == SEGMENT_SIZE * k + (x - SegmentStart(x))
  {
    var p, o := PageOf(x), x % PAGE_SIZE;
    var k, j := o / SEGMENT_SIZE, o % SEGMENT_SIZE;
    assert o == SEGMENT_SIZE * k + j;
    assert x == SEGMENT_SIZE * (p * SEGMENTS_PER_PAGE + k) + j;
    assert x % SEGMENT_SIZE == j;
  }

  lemma ByteReplays(log: Log, step: nat, page: Page, x: nat)
    requires WellFormedLog(log) && PageReplays(log, PageOf(x), step, page)
    ensures WellFormed(ViewAt(log, step))
    ensures ByteAt(ViewAt(log, step), x) == Some(page[x % PAGE_SIZE])
  {
    ViewIsWellFormed(log, step);
    SegmentOfByte(x);
    assert Replays(log, PageOf(x), x % PAGE_SIZE / SEGMENT_SIZE, step, page);
  }

  lemma RangeReplays(log: Log, step: nat, stop: Stop, addr: nat, size: nat)
    requires WellFormedLog(log) && StopReplays(log, step, stop) && InPages(stop.pages, addr, size)
    ensures WellFormed(ViewAt(log, step)) && InPages(stop.mem.Keys, addr, size)
    ensures Present(ViewAt(log, step), addr, addr + size) == ChildBytes(stop.mem, addr, size)
  {
    var v := ViewAt(log, step);
    ViewIsWellFormed(log, step);
    forall x: nat | addr <= x < addr + size
      ensures PageOf(x) in stop.mem && ByteAt(v, x) == Some(ChildByte(stop.mem, x))
    {
      assert PageReplays(log, PageOf(x), step, stop.mem[PageOf(x)]);
      ByteReplays(log, step, stop.mem[PageOf(x)], x);
    }
    CoveredReadsEveryByte(v, addr, addr + size);
    forall i | 0 <= i < size ensures Present(v, addr, addr + size)[i] == ChildBytes(stop.mem, addr, size)[i] {
      assert Some(Present(v, addr, addr + size)[addr + i - addr]) == ByteAt(v, addr + i);
    }
  }

  lemma StopIsReplayed(states: seq<State>, actions: seq<Action>, i: nat, n: nat)
    requires IsRun(states, actions) && i < |states| && n < |states[i].history.stops|
    ensures var s := states[i];
            WellFormedLog(s.mirror.log) &&
            StopReplays(s.mirror.log, s.history.first + n, s.history.stops[Base(s.history.stops, n)])
  {
    InvRun(states, actions, i);
  }

  /**
   Record/replay fidelity. At any moment of any run, for every stop recorded so far, replaying
   the log at that stop's step gives exactly the child's bytes at its base stop: the stop itself,
   or, at a function start, the latest earlier stop that was none.
   */
  lemma ReplayIsFaithful(states: seq<State>, actions: seq<Action>, i: nat, n: nat, addr: nat, size: nat)
    requires IsRun(states, actions) && i < |states| && n < |states[i].history.stops|
    requires var stops := states[i].history.stops; InPages(stops[Base(stops, n)].pages, addr, size)
    ensures var s := states[i];
            var stop := s.history.stops[Base(s.history.stops, n)];
            var v := ViewAt(s.mirror.log, s.history.first + n);
            && WellFormed(v) && InPages(stop.mem.Keys, addr, size)
            && Present(v, addr, addr + size) == ChildBytes(stop.mem, addr, size)
  {
    var s := states[i];
    StopIsReplayed(states, actions, i, n);
    RangeReplays(s.mirror.log, s.history.first + n, s.history.stops[Base(s.history.stops, n)], addr, size);
  }

  lemma {:induction false} StopsGrow(states: seq<State>, actions: seq<Action>, i: nat, j: nat)
    requires IsRun(states, actions) && i <= j < |states|
    ensures states[i].history.stops <= states[j].history.stops && states[i].history.first == states[j].history.first
  {
    if i == j {
    } else {
      StopsGrow(states, actions, i, j - 1);
      StepGrows(states, actions, j - 1);
    }
  }

  lemma StepGrows(states: seq<State>, actions: seq<Action>, i: nat)
    requires IsRun(states, actions) && i < |actions|
    ensures states[i].history.stops <= states[i + 1].history.stops
    ensures states[i].history.first == states[i + 1].history.first
  {
    RunStep(states, actions, i);
    HistoryGrows(states[i], actions[i], states[i + 1]);
  }

  lemma HistoryGrows(s: State, a: Action, t: State)
    requires Next(s, a, t)
    ensures s.history.stops <= t.history.stops && s.history.first == t.history.first
  {
    if a.Handle? {
      HandleMirror(s);
    }
  }

  /** While the main loop holds the child at a stop, the last recorded stop is the child as it stands. */
  lemma StopStandsInChild(states: seq<State>, actions: seq<Action>, i: nat)
    requires IsRun(states, actions) && i < |states| && states[i].main.pc == SingleStep
    ensures var s := states[i];
            && |s.history.stops| > 0 && s.main.step == s.history.first + |s.history.stops| - 1
            && LastStop(s).mem == s.child.mem && LastStop(s).pages == s.mirror.cached.Keys
  {
    InvRun(states, actions, i);
  }

  /**
   The same, told without the history: when the main loop is about to step over a statement that
   is no function start, the child's memory at that moment is what every later log replays at
   that step.
   */
  lemma ReplayMatchesChild(states: seq<State>, actions: seq<Action>, i: nat, j: nat, addr: nat, size: nat)
    requires IsRun(states, actions) && i <= j < |states|
    requires states[i].main.pc == SingleStep && |states[i].history.stops| > 0 && !LastStop(states[i]).start
    requires InPages(states[i].mirror.cached.Keys, addr, size)
    ensures var v := ViewAt(states[j].mirror.log, states[i].main.step);
            && WellFormed(v) && InPages(states[i].child.mem.Keys, addr, size)
            && Present(v, addr, addr + size) == ChildBytes(states[i].child.mem, addr, size)
  {
    StopStandsInChild(states, actions, i);
    StopsGrow(states, actions, i, j);
    var n := |states[i].history.stops| - 1;
    assert Base(states[j].history.stops, n) == n;
    ReplayIsFaithful(states, actions, j, n, addr, size);
  }

  /** Over a whole run the log never holds two rows for one address and step. */
  lemma OneRowPerStep(states: seq<State>, actions: seq<Action>, i: nat)
    requires IsRun(states, actions) && i < |states|
    ensures Unique(states[i].mirror.log)
  {
    InvRun(states, actions, i);
  }

  // The dirty-page protocol

  /**
   A page whose cached copy is stale always has a fault address waiting, and so does, while the
   child runs, every page open since the last reset; an address in the queue has set mem_dirty or
   is about to; and the child never runs with a triggered reset unfinished.
   */
  lemma DirtyPagesArePending(states: seq<State>, actions: seq<Action>, i: nat)
    requires IsRun(states, actions) && i < |states|
    ensures var s := states[i];
            && (ChildRuns(s) ==> s.worker == Worker(Idle, 0, 0))
            && (ChildRuns(s) ==> forall p :: p in s.child.open ==> Pending(s, p))
            && (forall p :: p in s.mirror.cached ==>
                  p in s.child.mem && (s.mirror.cached[p] == s.child.mem[p] || Pending(s, p)))
            && (s.queue != [] ==> s.dirty || s.callback.pc == SetDirty)
  {
    InvRun(states, actions, i);
  }

  /** When a drain ends, the cache equals the child on every cached page, and nothing is left to drain. */
  lemma DrainCleansCache(states: seq<State>, actions: seq<Action>, i: nat)
    requires IsRun(states, actions) && i < |actions| && actions[i] == DrainEnd
    ensures var t := states[i + 1];
            && (forall p :: p in t.mirror.cached ==> p in t.child.mem && t.mirror.cached[p] == t.child.mem[p])
            && t.queue == [] && !t.dirty && |t.history.stops| > 0 && !LastStop(t).start
  {
    InvRun(states, actions, i);
    InvRun(states, actions, i + 1);
    RunStep(states, actions, i);
    CleanCache(states[i + 1]);
  }

  /**
   Dirty memory is drained at every statement but a function's first: there the stop is recorded as a
   start, nothing is drained or logged, and what is pending stays so for the next stop.
   */
  lemma StartIsNotDrained(states: seq<State>, actions: seq<Action>, i: nat, start: bool)
    requires IsRun(states, actions) && i < |actions| && actions[i] == Found(start)
    ensures var s, t := states[i], states[i + 1];
            && t.mirror == s.mirror && t.queue == s.queue && t.dirty == s.dirty
            && (t.main.pc == Drain <==> s.dirty && !start)
            && (t.main.pc != Drain ==>
                  && t.main.pc == AwaitReset && |t.history.stops| == |s.history.stops| + 1
                  && LastStop(t).start == start)
  {
    RunStep(states, actions, i);
  }

  /** Once a page has been touched the child can write it; after a reset it must be touched again. */
  lemma WritesNeedATouch(s: State, address: nat, bytes: Page)
    requires ChildRuns(s) && PageOf(address) in s.child.mem
    ensures Enabled(Apply(s, Touch(address)), Store(PageOf(address), bytes))
    ensures Apply(s, Touch(address)).events == s.events + [Fault(address)]
    ensures forall t: State :: Enabled(t, Clear) ==> !Enabled(Apply(t, Clear), Store(PageOf(address), bytes))
  {
  }

  // The bpf_sem handshake

  /**
   bpf_sem is the number of handled breakpoint traps (every second trap, from the first) minus
   the completed waits, and process_breakpoint runs only when nothing is left to handle.
   */
  lemma Handshake(states: seq<State>, actions: seq<Action>, i: nat)
    requires IsRun(states, actions) && i < |states|
    ensures var s := states[i];
            && s.bpfSem == (s.history.handled + 1) / 2 - s.history.waits
            && (s.main.pc in {Enter, Lookup, Drain, AwaitReset, SingleStep} ==>
                  s.child.mode == Stopped && Quiet(s) &&
                      s.history.handled == s.history.emitted == 2 * s.history.waits - 1)
  {
    InvRun(states, actions, i);
  }

  // Every stop gets processed

  predicate IsChildStep(a: Action) {
    a.Touch? || a.Store? || a.Syscall? || a.Trap?
  }

  /** While the child is stopped, some thread of the recorder can move. */
  lemma NeverStuck(states: seq<State>, actions: seq<Action>, i: nat) returns (a: Action)
    requires IsRun(states, actions) && i < |states| && states[i].child.mode == Stopped
    ensures !IsChildStep(a) && Enabled(states[i], a)
  {
    InvRun(states, actions, i);
    var s := states[i];
    match s.main.pc {
      case Resume => a := Continue;
      case WaitChild => a := SeeStop;
      case WaitBpf =>
        if s.bpfSem > 0 {
          a := BpfWait;
        } else if s.callback.pc == SetDirty {
          a := MarkDirty;
        } else {
          HandleMapper(s);
          a := Handle;
        }
      case Enter => a := EnterBreakpoint;
      case Lookup => a := Found(true);
      case Drain => a := if s.queue == [] then DrainEnd else DrainOne;
      case AwaitReset =>
        a := if !s.main.waitReset || s.worker.endSem > 0 then ResetDone
             else if s.worker.pc == Clearing then Clear
             else if s.worker.pc == Posting then Post
             else Take;
      case SingleStep => a := StepInstruction;
      case WaitStep => a := SeeStep;
    }
  }

  /** The steps left before the child moves again. */
  ghost function Work(s: State): nat {
    4 * |s.events| + |s.queue| + (if s.callback.pc == SetDirty then 1 else 0)
    + 4 * s.worker.startSem + (match s.worker.pc case Idle => 0 case Clearing => 2 case Posting => 1)
    + match s.main.pc
      case WaitChild => 12 case WaitBpf => 11 case Enter => 10 case Lookup => 4 case Drain => 3
      case AwaitReset => 2 case SingleStep => 1 case WaitStep => 1 case Resume => 0
  }

  /** No schedule keeps the recorder busy for ever: every step short of resuming the child is progress. */
  lemma StopsAreFinite(s: State, a: Action)
    requires Enabled(s, a) && !IsChildStep(a) && a != Continue && a != StepInstruction
    ensures Work(Apply(s, a)) < Work(s)
  {
    if a.Handle? {
      HandleIsProgress(s);
    } else {
      assert Apply(s, a).events == s.events;
    }
  }

  lemma HandleIsProgress(s: State)
    requires Enabled(s, Handle)
    ensures Work(Apply(s, Handle)) < Work(s)
  {
    var t := Apply(s, Handle);
    assert |t.events| == |s.events| - 1 && |t.queue| <= |s.queue| + 1;
    assert t.worker == s.worker && t.main == s.main;
  }

  // Start-up

  /** Regions that are good one after the other, each disjoint from those before it. */
  ghost predicate GoodRegions(regions: seq<Region>, taken: set<nat>, have: set<nat>) {
    regions == [] ||
    (GoodRegion(regions[0], taken, have) && GoodRegions(regions[1..], taken + regions[0].Pages(), have))
  }

  lemma GoodIsReadable(region: Region, taken: set<nat>, mem: Memory)
    requires GoodRegion(region, taken, mem.Keys)
    ensures Readable(mem, region)
  {
  }

  /** init_cache: every region of the memory map is added to the cache, stamped with one step. */
  ghost function Cached(m: Mirror, mem: Memory, regions: seq<Region>, step: nat): Mirror
    requires GoodRegions(regions, m.cached.Keys, mem.Keys)
    decreases |regions|
  {
    if regions == [] then m
    else
      GoodIsReadable(regions[0], m.cached.Keys, mem);
      AddRegionKeys(m, mem, regions[0], step);
      Cached(AddRegion(m, mem, regions[0], step), mem, regions[1..], step)
  }

  ghost function EmptyCache(): (m: Mirror)
    ensures m.cached.Keys == {} && m.log == []
  {
    Mirror(map[], [])
  }

  ghost predicate Loaded(m: Mirror, mem: Memory, step: nat) {
    && LogOk(m, step, step, []) && m.cached.Keys <= mem.Keys && 0 !in m.cached
    && forall p :: p in m.cached ==> m.cached[p] == mem[p]
  }

  lemma AddToLoaded(m: Mirror, mem: Memory, region: Region, step: nat)
    requires Loaded(m, mem, step) && GoodRegion(region, m.cached.Keys, mem.Keys) && Readable(mem, region)
    ensures Loaded(AddRegion(m, mem, region, step), mem, step)
  {
    AddRegionLog(m, mem, region, step, step, []);
    AddRegionKeys(m, mem, region, step);
    RegionPages(region, 0);
  }

  lemma {:induction false} CachedIsLoaded(m: Mirror, mem: Memory, regions: seq<Region>, step: nat)
    requires GoodRegions(regions, m.cached.Keys, mem.Keys) && Loaded(m, mem, step)
    ensures Loaded(Cached(m, mem, regions, step), mem, step)
    decreases |regions|
  {
    if regions == [] {
    } else {
      GoodIsReadable(regions[0], m.cached.Keys, mem);
      AddRegionKeys(m, mem, regions[0], step);
      AddToLoaded(m, mem, regions[0], step);
      CachedIsLoaded(AddRegion(m, mem, regions[0], step), mem, regions[1..], step);
    }
  }

  /** The pages of some region. */
  ghost predicate InSome(regions: seq<Region>, p: nat) {
    exists i :: 0 <= i < |regions| && regions[i].address <= p * PAGE_SIZE < regions[i].address + regions[i].size
  }

  lemma {:induction false} CachedPages(m: Mirror, mem: Memory, regions: seq<Region>, step: nat, p: nat)
    requires GoodRegions(regions, m.cached.Keys, mem.Keys)
    ensures p in Cached(m, mem, regions, step).cached <==> p in m.cached || InSome(regions, p)
    decreases |regions|
  {
    if regions == [] {
    } else {
      GoodIsReadable(regions[0], m.cached.Keys, mem);
      AddRegionKeys(m, mem, regions[0], step);
      CachedPages(AddRegion(m, mem, regions[0], step), mem, regions[1..], step, p);
      RegionPages(regions[0], p);
      InSomeFirst(regions, p);
    }
  }

  lemma InSomeFirst(regions: seq<Region>, p: nat)
    requires regions != []
    ensures InSome(regions, p) <==>
              regions[0].address <= p * PAGE_SIZE < regions[0].address + regions[0].size || InSome(regions[1..], p)
  {
    if i :| 0 <= i < |regions| && regions[i].address <= p * PAGE_SIZE < regions[i].address + regions[i].size {
      if i > 0 {
        assert regions[1..][i - 1] == regions[i];
      }
    }
    if i :| 0 <= i < |regions[1..]| &&
            regions[1..][i].address <= p * PAGE_SIZE < regions[1..][i].address + regions[1..][i].size {
      assert regions[i + 1] == regions[1..][i];
    }
  }

  /**
   So every disjoint memory map gives a cache and a log from which the main loop may start, and the
   pages cached are exactly those of the map.
   */
  lemma StartUpCache(mem: Memory, regions: seq<Region>, step: nat)
    requires GoodRegions(regions, {}, mem.Keys)
    ensures InitMirror(Cached(EmptyCache(), mem, regions, step), mem, step)
    ensures forall p: nat :: p in Cached(EmptyCache(), mem, regions, step).cached <==> InSome(regions, p)
  {
    CachedIsLoaded(EmptyCache(), mem, regions, step);
    forall p: nat ensures p in Cached(EmptyCache(), mem, regions, step).cached <==> InSome(regions, p) {
      CachedPages(EmptyCache(), mem, regions, step, p);
    }
  }
}
