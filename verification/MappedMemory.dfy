/**
 What the child maps gets recorded: every page announced by mmap or by a growing brk is cached by
 the next stop, and stays cached.
 */
module MappedMemory {
  import opened Bytes
  import opened SegmentLog
  import opened Recorder
  import opened RecorderInvariants
  import opened RecordReplay
  import opened RecorderTheorems

  // Pages never leave the cache

  lemma CachedGrows(s: State, a: Action)
    requires Enabled(s, a)
    ensures s.mirror.cached.Keys <= Apply(s, a).mirror.cached.Keys
  {
    if a.Handle? {
      HandleMirror(s);
    } else if a.DrainOne? {
      assert Apply(s, a).mirror == ProcessAddress(s.mirror, s.child.mem, s.queue[0], s.main.step);
    } else {
      assert Apply(s, a).mirror == s.mirror;
    }
  }

  lemma {:induction false} CachedPagesStay(states: seq<State>, actions: seq<Action>, i: nat, j: nat)
    requires IsRun(states, actions) && i <= j < |states|
    ensures states[i].mirror.cached.Keys <= states[j].mirror.cached.Keys
  {
    if i == j {
    } else {
      CachedPagesStay(states, actions, i, j - 1);
      RunStep(states, actions, j - 1);
      CachedGrows(states[j - 1], actions[j - 1]);
    }
  }

  // Regions on their way

  lemma {:induction false} AfterAppend(events: seq<Event>, more: seq<Event>, m: Mapper)
    ensures After(events + more, m) == After(more, After(events, m))
  {
    if events == [] {
      assert events + more == more;
    } else {
      AfterAppend(events[1..], more, AfterEvent(events[0], m));
      assert (events + more)[1..] == events[1..] + more;
    }
  }

  /** Event `k`, still to be handled, will add `region`. */
  ghost predicate OnItsWay(s: State, region: Region, k: nat) {
    k < |s.events| &&
    var m := After(s.events[..k], MapperOf(s));
    RegionOf(s.events[k], m.mapped, m.brk) == Some(region)
  }

  /** The region is cached, or on its way. */
  ghost predicate Arrives(s: State, region: Region) {
    region.Pages() <= s.mirror.cached.Keys || exists k: nat :: OnItsWay(s, region, k)
  }

  lemma {:induction false} GoodAt(events: seq<Event>, m: Mapper, have: set<nat>, k: nat)
    requires GoodEvents(events, m, have) && k < |events|
    ensures var n := After(events[..k], m);
            RegionOf(events[k], n.mapped, n.brk).Some? ==>
              GoodRegion(RegionOf(events[k], n.mapped, n.brk).value, n.taken, have)
  {
    if k == 0 {
      assert events[..0] == [];
    } else {
      GoodAt(events[1..], AfterEvent(events[0], m), have, k - 1);
      assert events[..k][1..] == events[1..][..k - 1];
    }
  }

  lemma WayHandled(s: State, region: Region, k: nat)
    requires RegionsAhead(s) && OnItsWay(s, region, k) && Enabled(s, Handle)
    ensures Arrives(Apply(s, Handle), region)
  {
    var t := Apply(s, Handle);
    HandleMapper(s);
    HandleMirror(s);
    if k == 0 {
      assert s.events[..0] == [];
      AddRegionKeys(s.mirror, s.child.mem, region, s.main.step);
    } else {
      assert t.events == s.events[1..];
      assert s.events[..k][1..] == t.events[..k - 1];
      assert OnItsWay(t, region, k - 1);
    }
  }

  lemma WayKept(s: State, a: Action, region: Region, k: nat)
    requires OnItsWay(s, region, k) && Enabled(s, a) && !a.Handle?
    ensures OnItsWay(Apply(s, a), region, k)
  {
    var t := Apply(s, a);
    SameMapper(s, a);
    assert t.events[..k] == s.events[..k];
  }

  /** Only the callback moves the boundary, the pending size and the set of pages. */
  lemma SameMapper(s: State, a: Action)
    requires Enabled(s, a) && !a.Handle?
    ensures MapperOf(Apply(s, a)) == MapperOf(s)
    ensures var reports := if a.Touch? then [Fault(a.address)] else if a.Syscall? then a.reports
                           else if a.Trap? then [Signal(SIGTRAP)] else [];
            Apply(s, a).events == s.events + reports
  {
  }

  lemma ArrivesStep(s: State, a: Action, region: Region)
    requires RegionsAhead(s) && Arrives(s, region) && Enabled(s, a)
    ensures Arrives(Apply(s, a), region)
  {
    if region.Pages() <= s.mirror.cached.Keys {
      CachedGrows(s, a);
    } else {
      var k: nat :| OnItsWay(s, region, k);
      if a.Handle? {
        WayHandled(s, region, k);
      } else {
        WayKept(s, a, region, k);
      }
    }
  }

  lemma ArrivesNext(states: seq<State>, actions: seq<Action>, i: nat, region: Region)
    requires IsRun(states, actions) && i < |actions| && Arrives(states[i], region)
    ensures Arrives(states[i + 1], region)
  {
    RunStep(states, actions, i);
    AnnouncedIsGood(states, actions, i);
    ArrivesStep(states[i], actions[i], region);
  }

  lemma AnnouncedIsGood(states: seq<State>, actions: seq<Action>, i: nat)
    requires IsRun(states, actions) && i < |states|
    ensures RegionsAhead(states[i])
  {
    InvRun(states, actions, i);
  }

  lemma {:induction false} ArrivesRun(states: seq<State>, actions: seq<Action>, i: nat, j: nat, region: Region)
    requires IsRun(states, actions) && i <= j < |states| && Arrives(states[i], region)
    ensures Arrives(states[j], region)
    decreases j - i
  {
    if i == j {
    } else {
      ArrivesNext(states, actions, i, region);
      ArrivesRun(states, actions, i + 1, j, region);
    }
  }

  lemma NothingOnItsWay(states: seq<State>, actions: seq<Action>, j: nat)
    requires IsRun(states, actions) && j < |states| && states[j].main.pc == SingleStep
    ensures states[j].events == [] && |states[j].history.stops| > 0
    ensures LastStop(states[j]).pages == states[j].mirror.cached.Keys
  {
    InvRun(states, actions, j);
  }

  /** At a stop nothing is on its way any more: the pages are cached, and shown by the stop. */
  lemma ArrivedAtStop(states: seq<State>, actions: seq<Action>, i: nat, j: nat, region: Region, p: nat)
    requires IsRun(states, actions) && i <= j < |states| && states[j].main.pc == SingleStep
    requires Arrives(states[i], region) && p in region.Pages()
    ensures p in states[j].mirror.cached
    ensures |states[j].history.stops| > 0 && p in LastStop(states[j]).pages
  {
    ArrivesRun(states, actions, i, j, region);
    NothingOnItsWay(states, actions, j);
    Arrived(states[j], region, p);
  }

  lemma Arrived(s: State, region: Region, p: nat)
    requires Arrives(s, region) && s.events == [] && p in region.Pages()
    ensures p in s.mirror.cached
  {
  }

  // mmap

  /** Addresses of a page-aligned region lie in its pages. */
  lemma PageOfRegion(region: Region, p: nat)
    requires Aligned(region.address) && Aligned(region.size)
    requires region.address <= p * PAGE_SIZE < region.address + region.size
    ensures p in region.Pages()
  {
    RegionPages(region, p);
  }

  lemma RegionAtStop(states: seq<State>, actions: seq<Action>, i: nat, j: nat, region: Region, p: nat)
    requires IsRun(states, actions) && i <= j < |states| && states[j].main.pc == SingleStep
    requires Arrives(states[i], region) && Aligned(region.address) && Aligned(region.size)
    requires region.address <= p * PAGE_SIZE < region.address + region.size
    ensures p in states[j].mirror.cached
    ensures |states[j].history.stops| > 0 && p in LastStop(states[j]).pages
  {
    PageOfRegion(region, p);
    ArrivedAtStop(states, actions, i, j, region, p);
  }

  lemma MmapOnItsWay(s: State, size: nat, address: nat, content: Memory)
    requires Enabled(s, Syscall([MmapEntry(size), MmapExit(address)], content))
    ensures var t := Apply(s, Syscall([MmapEntry(size), MmapExit(address)], content));
            Arrives(t, Region(address, size)) && Aligned(address) && Aligned(size)
  {
    var reports := [MmapEntry(size), MmapExit(address)];
    var t := Apply(s, Syscall(reports, content));
    var k := |s.events| + 1;
    assert t.events[..k] == s.events + [MmapEntry(size)];
    AfterAppend(s.events, [MmapEntry(size)], MapperOf(s));
    AfterOne(MmapEntry(size), After(s.events, MapperOf(s)));
    GoodAt(reports, After(s.events, MapperOf(s)), s.child.mem.Keys + content.Keys, 1);
    assert reports[..1] == [MmapEntry(size)];
    assert OnItsWay(t, Region(address, size), k);
  }

  lemma AfterOne(e: Event, m: Mapper)
    ensures After([e], m) == AfterEvent(e, m)
  {
    assert After([e][1..], AfterEvent(e, m)) == AfterEvent(e, m);
  }

  lemma MmapArrives(states: seq<State>, actions: seq<Action>, i: nat, size: nat, address: nat, content: Memory)
    requires IsRun(states, actions) && i < |actions|
    requires actions[i] == Syscall([MmapEntry(size), MmapExit(address)], content)
    ensures Arrives(states[i + 1], Region(address, size)) && Aligned(address) && Aligned(size)
  {
    RunStep(states, actions, i);
    MmapOnItsWay(states[i], size, address, content);
  }

  /**
   Memory mapped by mmap: at every stop after the call, all its pages are cached, and among the pages
   that the stop shows.
   */
  lemma MmapIsCached(states: seq<State>, actions: seq<Action>, i: nat, j: nat, size: nat, address: nat, content: Memory,
                     p: nat)
    requires IsRun(states, actions) && i < |actions| && i < j < |states| && states[j].main.pc == SingleStep
    requires actions[i] == Syscall([MmapEntry(size), MmapExit(address)], content)
    requires address <= p * PAGE_SIZE < address + size
    ensures p in states[j].mirror.cached
    ensures |states[j].history.stops| > 0 && p in LastStop(states[j]).pages
  {
    MmapArrives(states, actions, i, size, address, content);
    RegionAtStop(states, actions, i + 1, j, Region(address, size), p);
  }

  // brk

  /** The program break after an action: the first one announced, then the highest. */
  function BreakAfter(before: nat, a: Action): nat {
    match a
    case Syscall(reports, _) =>
      if |reports| == 1 && reports[0].Brk? && (before == 0 || reports[0].boundary > before)
      then reports[0].boundary else before
    case _ => before
  }

  function Boundary(start: nat, actions: seq<Action>, n: nat): nat
    requires n <= |actions|
  {
    if n == 0 then start else BreakAfter(Boundary(start, actions, n - 1), actions[n - 1])
  }

  /** The boundary the callback will have reached once it has handled everything reported. */
  ghost function BreakAhead(s: State): nat {
    After(s.events, MapperOf(s)).brk
  }

  lemma BoundaryStep(s: State, a: Action)
    requires RegionsAhead(s) && Enabled(s, a)
    ensures BreakAhead(Apply(s, a)) == BreakAfter(BreakAhead(s), a)
  {
    var m := MapperOf(s);
    if a.Handle? {
      HandleMapper(s);
    } else {
      SameMapper(s, a);
      var reports := if a.Touch? then [Fault(a.address)] else if a.Syscall? then a.reports
                     else if a.Trap? then [Signal(SIGTRAP)] else [];
      AfterAppend(s.events, reports, m);
      ReportsMoveBoundary(reports, After(s.events, m), a);
    }
  }

  lemma ReportsMoveBoundary(reports: seq<Event>, m: Mapper, a: Action)
    requires a.Syscall? ==> reports == a.reports && SyscallReports(reports)
    requires !a.Syscall? ==> reports == [] || (|reports| == 1 && (reports[0].Fault? || reports[0].Signal?))
    ensures After(reports, m).brk == BreakAfter(m.brk, a)
  {
    if |reports| == 1 {
      assert reports == [reports[0]];
      AfterOne(reports[0], m);
    } else if |reports| == 2 {
      assert reports == [reports[0]] + [reports[1]];
      AfterAppend([reports[0]], [reports[1]], m);
      AfterOne(reports[0], m);
      AfterOne(reports[1], AfterEvent(reports[0], m));
    }
  }

  lemma BoundaryNext(states: seq<State>, actions: seq<Action>, i: nat)
    requires IsRun(states, actions) && i < |actions|
    ensures BreakAhead(states[i + 1]) == BreakAfter(BreakAhead(states[i]), actions[i])
  {
    RunStep(states, actions, i);
    AnnouncedIsGood(states, actions, i);
    BoundaryStep(states[i], actions[i]);
  }

  lemma {:induction false} BoundaryRun(states: seq<State>, actions: seq<Action>, i: nat)
    requires IsRun(states, actions) && i < |states|
    ensures BreakAhead(states[i]) == Boundary(states[0].callback.brk, actions, i)
  {
    if i == 0 {
    } else {
      BoundaryRun(states, actions, i - 1);
      BoundaryNext(states, actions, i - 1);
    }
  }

  lemma BrkOnItsWay(s: State, b: nat, content: Memory, base: nat)
    requires Enabled(s, Syscall([Brk(b)], content)) && base == BreakAhead(s) && 0 < base < b
    ensures var t := Apply(s, Syscall([Brk(b)], content));
            Arrives(t, Region(base, b - base)) && Aligned(base) && Aligned(b - base)
  {
    var t := Apply(s, Syscall([Brk(b)], content));
    assert t.events[..|s.events|] == s.events;
    GoodAt([Brk(b)], After(s.events, MapperOf(s)), s.child.mem.Keys + content.Keys, 0);
    assert [Brk(b)][..0] == [];
    assert OnItsWay(t, Region(base, b - base), |s.events|);
  }

  /** Memory gained by raising the program break above an earlier one: likewise. */
  lemma BrkIsCached(states: seq<State>, actions: seq<Action>, i: nat, j: nat, b: nat, content: Memory, p: nat)
    requires IsRun(states, actions) && i < |actions| && i < j < |states| && states[j].main.pc == SingleStep
    requires actions[i] == Syscall([Brk(b)], content)
    requires 0 < Boundary(states[0].callback.brk, actions, i) <= p * PAGE_SIZE < b
    ensures p in states[j].mirror.cached
    ensures |states[j].history.stops| > 0 && p in LastStop(states[j]).pages
  {
    var base := Boundary(states[0].callback.brk, actions, i);
    BrkArrives(states, actions, i, b, content, base);
    RegionAtStop(states, actions, i + 1, j, Region(base, b - base), p);
  }

  lemma BrkArrives(states: seq<State>, actions: seq<Action>, i: nat, b: nat, content: Memory, base: nat)
    requires IsRun(states, actions) && i < |actions| && actions[i] == Syscall([Brk(b)], content)
    requires base == Boundary(states[0].callback.brk, actions, i) && 0 < base < b
    ensures Arrives(states[i + 1], Region(base, b - base)) && Aligned(base) && Aligned(b - base)
  {
    RunStep(states, actions, i);
    BoundaryRun(states, actions, i);
    BrkOnItsWay(states[i], b, content, base);
  }

  // Nothing is shown before it was mapped

  /** Rows of pages that a stop did not have are not older than that stop. */
  ghost predicate NotBefore(s: State) {
    forall n, r :: 0 <= n < |s.history.stops| && r in s.mirror.log && PageOf(r.address) !in s.history.stops[n].pages ==>
      r.step >= s.history.first + n
  }

  /** The rows that a step adds carry the step in progress. */
  lemma AddedRows(s: State, a: Action)
    requires Enabled(s, a)
    ensures forall r :: r in Apply(s, a).mirror.log ==> r in s.mirror.log || r.step == s.main.step
  {
    if a.Handle? {
      HandleMirror(s);
      var region := RegionOf(s.events[0], s.callback.mapped, s.callback.brk);
      if region.Some? {
        RegionRowsFacts(region.value.FirstPage(), region.value.PageCount(), s.child.mem, s.main.step);
      }
    } else if a.DrainOne? {
      var p := PageOf(s.queue[0]);
      if p in s.mirror.cached {
        DeltaRows(p, Some(s.mirror.cached[p]), s.child.mem[p], s.main.step, SEGMENTS_PER_PAGE);
      }
      assert Apply(s, a).mirror == ProcessAddress(s.mirror, s.child.mem, s.queue[0], s.main.step);
    } else {
      assert Apply(s, a).mirror == s.mirror;
    }
  }

  lemma AddedStops(s: State, a: Action)
    requires Enabled(s, a)
    ensures var t := Apply(s, a);
            && t.history.first == s.history.first
            && (t.history.stops == s.history.stops ||
                (t.mirror == s.mirror &&
                 exists stop: Stop ::
                   stop.pages == s.mirror.cached.Keys && t.history.stops == s.history.stops + [stop]))
  {
    var t := Apply(s, a);
    if a.Handle? {
      HandleMirror(s);
    } else if a.Found? || a.DrainEnd? {
      if t.history.stops != s.history.stops {
        var stop := t.history.stops[|s.history.stops|];
        assert t.history.stops == s.history.stops + [stop] && stop.pages == s.mirror.cached.Keys;
      }
    } else {
      assert t.history.stops == s.history.stops;
    }
  }

  lemma NotBeforeStep(s: State, a: Action)
    requires Inv(s) && NotBefore(s) && Enabled(s, a)
    ensures NotBefore(Apply(s, a))
  {
    AddedRows(s, a);
    AddedStops(s, a);
    NotBeforeKept(s, Apply(s, a));
  }

  lemma NotBeforeKept(s: State, t: State)
    requires NotBefore(s) && t.history.first == s.history.first
    requires s.main.step + 1 >= s.history.first + |s.history.stops|
    requires forall r :: r in s.mirror.log ==> PageOf(r.address) in s.mirror.cached
    requires forall r :: r in t.mirror.log ==> r in s.mirror.log || r.step == s.main.step
    requires t.history.stops == s.history.stops ||
             (t.mirror == s.mirror &&
              exists stop: Stop :: stop.pages == s.mirror.cached.Keys && t.history.stops == s.history.stops + [stop])
    ensures NotBefore(t)
  {
  }

  lemma {:induction false} NotBeforeRun(states: seq<State>, actions: seq<Action>, i: nat)
    requires IsRun(states, actions) && i < |states|
    ensures NotBefore(states[i])
  {
    if i == 0 {
    } else {
      NotBeforeRun(states, actions, i - 1);
      RunStep(states, actions, i - 1);
      InvRun(states, actions, i - 1);
      NotBeforeStep(states[i - 1], actions[i - 1]);
    }
  }

  /** A segment of a page that was not cached at stop `n` reads as nothing at any step before that stop. */
  lemma NothingBeforeMapping(states: seq<State>, actions: seq<Action>, i: nat, n: nat, step: nat, address: nat)
    requires IsRun(states, actions) && i < |states| && n < |states[i].history.stops|
    requires PageOf(address) !in states[i].history.stops[n].pages && step < states[i].history.first + n
    ensures Newest(states[i].mirror.log, address, step) == None
  {
    NotBeforeRun(states, actions, i);
  }
}
