/**
 Record and replay: what the log says about a stop is what the child held there.
 */
module RecordReplay {
  import opened Bytes
  import opened SegmentLog
  import opened Replay
  import opened Recorder
  import opened RecorderInvariants

  /** The stop whose memory the log reproduces at stop `i`: the latest one that was not a function start. */
  ghost function Base(stops: seq<Stop>, i: nat): (b: nat)
    requires i < |stops|
    ensures b <= i && (forall j :: b < j <= i ==> stops[j].start) && (b > 0 ==> !stops[b].start)
  {
    if i == 0 || !stops[i].start then i else Base(stops, i - 1)
  }

  lemma {:induction false} BasePrefix(stops: seq<Stop>, more: seq<Stop>, i: nat)
    requires i < |stops|
    ensures Base(stops + more, i) == Base(stops, i)
  {
    if i == 0 {
    } else {
      BasePrefix(stops, more, i - 1);
    }
  }

  /** At `step` the log reproduces the memory of a stop, on the pages cached there. */
  ghost predicate StopReplays(log: Log, step: nat, stop: Stop) {
    forall p :: p in stop.pages ==> p in stop.mem && PageReplays(log, p, step, stop.mem[p])
  }

  /** Replaying the log at each stop gives the bytes of its base stop. */
  ghost predicate Faithful(log: Log, first: nat, stops: seq<Stop>) {
    forall i :: 0 <= i < |stops| ==> StopReplays(log, first + i, stops[Base(stops, i)])
  }

  ghost predicate StopsCached(stops: seq<Stop>, cached: set<nat>) {
    forall i :: 0 <= i < |stops| ==> stops[i].pages <= cached
  }

  ghost predicate RowsCached(m: Mirror, step: nat) {
    forall r :: r in m.log ==> r.step <= step && PageOf(r.address) in m.cached
  }

  ghost predicate Mirrors(m: Mirror, step: nat) {
    forall p :: p in m.cached ==> PageReplays(m.log, p, step, m.cached[p])
  }

  ghost predicate LogOk(m: Mirror, step: nat, first: nat, stops: seq<Stop>) {
    && RowsCached(m, step) && Mirrors(m, step) && Unique(m.log) && WellFormedLog(m.log)
    && StopsCached(stops, m.cached.Keys) && Faithful(m.log, first, stops)
  }

  lemma PageReplaysAppend(log: Log, rows: Log, p: nat, step: nat, page: Page)
    requires PageReplays(log, p, step, page)
    requires forall r :: r in rows ==> PageOf(r.address) != p || r.step > step
    ensures PageReplays(log + rows, p, step, page)
  {
    forall k: nat | k < SEGMENTS_PER_PAGE ensures Replays(log + rows, p, k, step, page) {
      assert Replays(log, p, k, step, page);
      SegmentInPage(p, k);
      NewestSkips(log, rows, SegmentAddress(p, k), step);
    }
  }

  lemma PageReplaysLater(log: Log, p: nat, step: nat, later: nat, page: Page)
    requires PageReplays(log, p, step, page) && step <= later
    requires forall r :: r in log ==> r.step <= step
    ensures PageReplays(log, p, later, page)
  {
    forall k: nat | k < SEGMENTS_PER_PAGE ensures Replays(log, p, k, later, page) {
      assert Replays(log, p, k, step, page);
      NewestAfterLast(log, SegmentAddress(p, k), step, later);
    }
  }

  /** Rows outside the pages of every stop, or after every stop, change no replay. */
  lemma FaithfulAppend(log: Log, rows: Log, first: nat, stops: seq<Stop>, keys: set<nat>)
    requires Faithful(log, first, stops) && StopsCached(stops, keys)
    requires forall r :: r in rows ==> PageOf(r.address) !in keys || r.step >= first + |stops|
    ensures Faithful(log + rows, first, stops)
  {
    forall i | 0 <= i < |stops| ensures StopReplays(log + rows, first + i, stops[Base(stops, i)]) {
      var stop := stops[Base(stops, i)];
      assert StopReplays(log, first + i, stop);
      forall p | p in stop.pages ensures PageReplays(log + rows, p, first + i, stop.mem[p]) {
        PageReplaysAppend(log, rows, p, first + i, stop.mem[p]);
      }
    }
  }

  lemma AddRegionMirrors(m: Mirror, mem: Memory, region: Region, step: nat)
    requires RowsCached(m, step) && Mirrors(m, step)
    requires GoodRegion(region, m.cached.Keys, mem.Keys) && Readable(mem, region)
    ensures Mirrors(AddRegion(m, mem, region, step), step)
  {
    var first, count := region.FirstPage(), region.PageCount();
    var n := AddRegion(m, mem, region, step);
    var rows := RegionRows(first, count, mem, step);
    AddRegionKeys(m, mem, region, step);
    RegionRowsFacts(first, count, mem, step);
    forall p | p in n.cached ensures PageReplays(n.log, p, step, n.cached[p]) {
      RegionPages(region, p);
      if p in region.Pages() {
        forall k: nat | k < SEGMENTS_PER_PAGE ensures Replays(n.log, p, k, step, mem[p]) {
          SegmentInPage(p, k);
          NewestOfRegion(m.log, first, count, mem, step, p, k, step);
        }
      } else {
        PageReplaysAppend(m.log, rows, p, step, m.cached[p]);
      }
    }
  }

  lemma AddRegionLog(m: Mirror, mem: Memory, region: Region, step: nat, first: nat, stops: seq<Stop>)
    requires LogOk(m, step, first, stops)
    requires GoodRegion(region, m.cached.Keys, mem.Keys) && Readable(mem, region)
    ensures LogOk(AddRegion(m, mem, region, step), step, first, stops)
  {
    var rows := RegionRows(region.FirstPage(), region.PageCount(), mem, step);
    AddRegionKeys(m, mem, region, step);
    AddRegionMirrors(m, mem, region, step);
    RegionRowsFacts(region.FirstPage(), region.PageCount(), mem, step);
    forall r | r in rows ensures PageOf(r.address) in region.Pages() {
      RegionPages(region, PageOf(r.address));
    }
    FaithfulAppend(m.log, rows, first, stops, m.cached.Keys);
    RegionUnique(region.FirstPage(), region.PageCount(), mem, step);
    UniqueAppend(m.log, rows);
  }

  /** Rows of the current step sit only in pages that already equal the child. */
  ghost predicate FreshAt(m: Mirror, mem: Memory, step: nat) {
    forall r :: r in m.log && r.step == step ==>
      PageOf(r.address) in m.cached && PageOf(r.address) in mem && m.cached[PageOf(r.address)] == mem[PageOf(r.address)]
  }

  lemma ProcessMirrors(m: Mirror, mem: Memory, address: nat, step: nat)
    requires RowsCached(m, step) && Mirrors(m, step) && FreshAt(m, mem, step)
    requires CanProcess(m, mem, address) && PageOf(address) in m.cached
    ensures Mirrors(ProcessAddress(m, mem, address, step), step)
  {
    var q := PageOf(address);
    var n := ProcessAddress(m, mem, address, step);
    var rows := PageDelta(q, Some(m.cached[q]), mem[q], step, SEGMENTS_PER_PAGE);
    DeltaRows(q, Some(m.cached[q]), mem[q], step, SEGMENTS_PER_PAGE);
    forall p | p in n.cached ensures PageReplays(n.log, p, step, n.cached[p]) {
      if p == q {
        forall k: nat | k < SEGMENTS_PER_PAGE ensures Replays(n.log, q, k, step, mem[q]) {
          SegmentInPage(q, k);
          assert Replays(m.log, q, k, step, m.cached[q]);
          NewestOfDelta(m.log, q, Some(m.cached[q]), mem[q], step, SEGMENTS_PER_PAGE, k, step);
        }
      } else {
        PageReplaysAppend(m.log, rows, p, step, m.cached[p]);
      }
    }
  }

  lemma ProcessLog(m: Mirror, mem: Memory, address: nat, step: nat, first: nat, stops: seq<Stop>)
    requires LogOk(m, step, first, stops) && FreshAt(m, mem, step) && step >= first + |stops|
    requires CanProcess(m, mem, address)
    ensures LogOk(ProcessAddress(m, mem, address, step), step, first, stops)
    ensures FreshAt(ProcessAddress(m, mem, address, step), mem, step)
  {
    var q := PageOf(address);
    if q in m.cached {
      var rows := PageDelta(q, Some(m.cached[q]), mem[q], step, SEGMENTS_PER_PAGE);
      DeltaRows(q, Some(m.cached[q]), mem[q], step, SEGMENTS_PER_PAGE);
      ProcessMirrors(m, mem, address, step);
      FaithfulAppend(m.log, rows, first, stops, m.cached.Keys);
      DeltaUnique(q, Some(m.cached[q]), mem[q], step, SEGMENTS_PER_PAGE);
      if m.cached[q] == mem[q] {
        UnchangedPageHasNoDelta(q, mem[q], step, SEGMENTS_PER_PAGE);
      }
      UniqueAppend(m.log, rows);
    }
  }

  // Counting a step and recording a stop

  lemma StepLog(m: Mirror, step: nat, first: nat, stops: seq<Stop>)
    requires LogOk(m, step, first, stops)
    ensures LogOk(m, step + 1, first, stops)
  {
    forall p | p in m.cached ensures PageReplays(m.log, p, step + 1, m.cached[p]) {
      PageReplaysLater(m.log, p, step, step + 1, m.cached[p]);
    }
  }

  lemma StopLog(m: Mirror, mem: Memory, step: nat, first: nat, stops: seq<Stop>, start: bool)
    requires LogOk(m, step, first, stops) && |stops| > 0 && step == first + |stops|
    requires m.cached.Keys <= mem.Keys
    requires start ==> forall r :: r in m.log ==> r.step != step
    requires !start ==> forall p :: p in m.cached ==> m.cached[p] == mem[p]
    ensures LogOk(m, step, first, stops + [Stop(start, mem, m.cached.Keys)])
  {
    var n := |stops|;
    var all := stops + [Stop(start, mem, m.cached.Keys)];
    forall i | 0 <= i < |all| ensures StopReplays(m.log, first + i, all[Base(all, i)]) {
      if i < n {
        BasePrefix(stops, [all[n]], i);
      } else if start {
        BasePrefix(stops, [all[n]], n - 1);
        var stop := stops[Base(stops, n - 1)];
        assert StopReplays(m.log, first + (n - 1), stop);
        forall p | p in stop.pages ensures PageReplays(m.log, p, step, stop.mem[p]) {
          PageReplaysLater(m.log, p, step - 1, step, stop.mem[p]);
        }
      }
    }
  }

  // The log along a run

  ghost predicate Recorded(s: State) {
    && LogOk(s.mirror, s.main.step, s.history.first, s.history.stops)
    && |s.history.stops| > 0
    && s.main.step + 1 == s.history.first + |s.history.stops| + (if s.main.pc in {Lookup, Drain} then 1 else 0)
    && (s.main.pc == Lookup ==> forall r :: r in s.mirror.log ==> r.step < s.main.step)
    && (s.main.pc == Drain ==> FreshAt(s.mirror, s.child.mem, s.main.step))
  }

  /** Until the child moves on, the last stop is the state it stands in. */
  ghost predicate AtStop(s: State) {
    s.main.pc in {AwaitReset, SingleStep} ==>
      && |s.history.stops| > 0
      && LastStop(s).mem == s.child.mem && LastStop(s).pages == s.mirror.cached.Keys
  }

  ghost function LastStop(s: State): Stop
    requires |s.history.stops| > 0
  {
    s.history.stops[|s.history.stops| - 1]
  }

  lemma AtStopStep(s: State, a: Action)
    requires Sync(s) && AtStop(s) && Enabled(s, a)
    ensures AtStop(Apply(s, a))
  {
    if !a.Found? && !a.DrainEnd? && s.main.pc in {AwaitReset, SingleStep} {
      assert !a.Handle?;
      assert Apply(s, a).mirror == s.mirror && Apply(s, a).child.mem == s.child.mem;
      assert Apply(s, a).history == s.history;
    }
  }

  ghost predicate Inv(s: State) {
    && Sync(s) && OneReset(s)
    && DirtyFlag(s) && OpenIsPending(s) && StaleIsPending(s)
    && RegionsAhead(s) && Recorded(s) && AtStop(s)
  }

  /** With nothing pending, the cache is the child's memory. */
  lemma CleanCache(s: State)
    requires StaleIsPending(s) && s.events == [] && s.queue == []
    ensures forall p :: p in s.mirror.cached ==> s.mirror.cached[p] == s.child.mem[p]
  {
  }

  lemma RecordedStop(s: State, start: bool)
    requires Inv(s) && (s.main.pc == Lookup || s.main.pc == Drain)
    requires start ==> s.main.pc == Lookup
    requires !start ==> s.queue == []
    ensures Recorded(RecordStop(s, start))
  {
    if !start {
      CleanCache(s);
    }
    StopLog(s.mirror, s.child.mem, s.main.step, s.history.first, s.history.stops, start);
  }

  /** What handling an event does to the mirror, and that it touches neither the main loop nor the stops. */
  lemma HandleMirror(s: State)
    requires Enabled(s, Handle)
    ensures var t := Apply(s, Handle);
            var region := RegionOf(s.events[0], s.callback.mapped, s.callback.brk);
            && t.mirror == (if region.Some? then AddRegion(s.mirror, s.child.mem, region.value, s.main.step)
                else s.mirror)
            && t.main == s.main && t.child == s.child
            && t.history.stops == s.history.stops && t.history.first == s.history.first
  {
  }

  lemma RecordedHandle(s: State)
    requires Inv(s) && Enabled(s, Handle)
    ensures Recorded(Apply(s, Handle))
  {
    HandleMirror(s);
    var region := RegionOf(s.events[0], s.callback.mapped, s.callback.brk);
    if region.Some? {
      AddRegionLog(s.mirror, s.child.mem, region.value, s.main.step, s.history.first, s.history.stops);
    }
  }

  lemma RecordedEnter(s: State)
    requires Inv(s) && Enabled(s, EnterBreakpoint)
    ensures Recorded(Apply(s, EnterBreakpoint))
  {
    StepLog(s.mirror, s.main.step, s.history.first, s.history.stops);
  }

  lemma RecordedFound(s: State, start: bool)
    requires Inv(s) && Enabled(s, Found(start))
    ensures Recorded(Apply(s, Found(start)))
  {
    if !s.dirty || start {
      RecordedStop(s, start);
    }
  }

  lemma RecordedDrain(s: State, a: Action)
    requires Inv(s) && Enabled(s, a) && (a.DrainOne? || a.DrainEnd?)
    ensures Recorded(Apply(s, a))
  {
    if a.DrainOne? {
      ProcessLog(s.mirror, s.child.mem, s.queue[0], s.main.step, s.history.first, s.history.stops);
    } else {
      RecordedStop(s, false);
    }
  }

  lemma RecordedStep(s: State, a: Action)
    requires Inv(s) && Enabled(s, a)
    ensures Recorded(Apply(s, a))
  {
    if a.Handle? {
      RecordedHandle(s);
    } else if a.EnterBreakpoint? {
      RecordedEnter(s);
    } else if a.Found? {
      RecordedFound(s, a.start);
    } else if a.DrainOne? || a.DrainEnd? {
      RecordedDrain(s, a);
    } else {
      var t := Apply(s, a);
      assert t.mirror == s.mirror && t.main.step == s.main.step;
      assert t.history.stops == s.history.stops && t.history.first == s.history.first;
      assert s.main.pc == Drain ==> t.child.mem == s.child.mem;
    }
  }

  lemma InvInit(s: State)
    requires Init(s)
    ensures Inv(s)
  {
  }

  lemma InvStep(s: State, a: Action)
    requires Inv(s) && Enabled(s, a)
    ensures Inv(Apply(s, a))
  {
    SyncStep(s, a);
    ResetStep(s, a);
    DirtyFlagStep(s, a);
    OpenStep(s, a);
    StaleStep(s, a);
    RegionsStep(s, a);
    RecordedStep(s, a);
    AtStopStep(s, a);
  }

  lemma {:induction false} InvRun(states: seq<State>, actions: seq<Action>, i: nat)
    requires IsRun(states, actions) && i < |states|
    ensures Inv(states[i])
  {
    if i == 0 {
      InvInit(states[0]);
    } else {
      InvRun(states, actions, i - 1);
      RunStep(states, actions, i - 1);
      InvStep(states[i - 1], actions[i - 1]);
    }
  }
}
