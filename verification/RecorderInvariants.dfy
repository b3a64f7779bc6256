/**
 What every step of the recorder keeps: the semaphore handshakes, the dirty-page
 protocol, the regions announced but not yet cached, and the log.
 */
module RecorderInvariants {
  import opened Bytes
  import opened SegmentLog
  import opened Recorder

  // The bpf_sem handshake

  ghost function Traps(events: seq<Event>): nat {
    if events == [] then 0
    else Traps(events[1..]) + if events[0] == Signal(SIGTRAP) then 1 else 0
  }

  /** Every event caused so far has been handled. */
  ghost predicate Quiet(s: State) {
    s.events == [] && s.callback.pc == Ready
  }

  ghost predicate Sync(s: State) {
    && Counters(s.history, s.callback.count, s.bpfSem, Traps(s.events))
    && (s.child.mode == Stopped && s.events == [] ==> s.callback.pc == Ready)
    && (s.child.mode == Stopped && s.events != [] ==> s.events[|s.events| - 1] == Signal(SIGTRAP))
    && InStep(s.main.pc, s.child.mode, s.history)
    && (s.main.pc !in {Resume, WaitChild, WaitBpf, WaitStep} ==> Quiet(s))
  }

  /** bpf_sem equals handled breakpoint traps minus completed waits. */
  ghost predicate Counters(h: History, count: bool, bpfSem: nat, pending: nat) {
    && h.handled + pending == h.emitted
    && count == (h.handled % 2 == 1)
    && bpfSem + h.waits == (h.handled + 1) / 2
  }

  /** The main loop and the child keep in step: two traps per stop. */
  ghost predicate InStep(pc: MainPc, mode: ChildMode, h: History) {
    match pc
    case Resume => mode == Stopped && h.emitted == 2 * h.waits
    case WaitChild =>
      (mode == Running && h.emitted == 2 * h.waits) || (mode == Stopped && h.emitted == 2 * h.waits + 1)
    case WaitBpf => mode == Stopped && h.emitted == 2 * h.waits + 1
    case WaitStep =>
      (mode == Stepping && h.emitted == 2 * h.waits - 1) || (mode == Stopped && h.emitted == 2 * h.waits)
    case _ => mode == Stopped && h.emitted == 2 * h.waits - 1
  }

  lemma {:induction false} TrapsAppend(events: seq<Event>, more: seq<Event>)
    ensures Traps(events + more) == Traps(events) + Traps(more)
  {
    if events == [] {
      assert events + more == more;
    } else {
      TrapsAppend(events[1..], more);
      assert (events + more)[1..] == events[1..] + more;
    }
  }

  lemma SyscallHasNoTraps(reports: seq<Event>)
    requires SyscallReports(reports)
    ensures Traps(reports) == 0
  {
    if |reports| == 2 {
      assert Traps(reports[1..][1..]) == 0;
    }
  }

  lemma LastTrapCounts(events: seq<Event>)
    requires events != [] && events[|events| - 1] == Signal(SIGTRAP)
    ensures Traps(events) > 0
  {
    var n := |events| - 1;
    TrapsAppend(events[..n], [events[n]]);
    assert events == events[..n] + [events[n]];
  }

  /** Once bpf_sem lets the main loop through, the trap it waited for was the last event. */
  lemma WaitedForEverything(s: State)
    requires Sync(s) && s.main.pc == WaitBpf && s.bpfSem > 0
    ensures Quiet(s)
  {
    if s.events != [] {
      LastTrapCounts(s.events);
    }
  }

  /** The counters after one trap is handled. */
  lemma CountTrap(s: State)
    requires Sync(s) && s.events != [] && s.events[0] == Signal(SIGTRAP)
    ensures var t := HandleTrap(s); Counters(t.history, t.callback.count, t.bpfSem, Traps(s.events[1..]))
  {
  }

  lemma SyncHandle(s: State)
    requires Sync(s) && Enabled(s, Handle)
    ensures Sync(Apply(s, Handle))
  {
    if s.events[0] == Signal(SIGTRAP) {
      CountTrap(s);
    }
    HandleFrame(s);
    SyncHandled(s, Apply(s, Handle));
  }

  /** Handling an event leaves the main loop and the child alone, and only a trap moves the counters. */
  lemma HandleFrame(s: State)
    requires Enabled(s, Handle)
    ensures var t := Apply(s, Handle);
            && t.events == s.events[1..] && t.main == s.main && t.child == s.child
            && t.callback.pc == (if s.events[0].Fault? then SetDirty else Ready)
            && t.history.emitted == s.history.emitted && t.history.waits == s.history.waits
            && (s.events[0] == Signal(SIGTRAP) ==>
                t.history == HandleTrap(s).history && t.bpfSem == HandleTrap(s).bpfSem
                                                   && t.callback.count == HandleTrap(s).callback.count)
            && (s.events[0] != Signal(SIGTRAP) ==>
                  t.history == s.history && t.bpfSem == s.bpfSem && t.callback.count == s.callback.count)
  {
    match s.events[0] {
      case Fault(_) =>
      case MmapEntry(_) =>
      case MmapExit(_) =>
      case Munmap(_) =>
      case Brk(_) =>
      case Signal(_) =>
    }
  }

  lemma SyncHandled(s: State, t: State)
    requires Sync(s) && s.events != [] && t.events == s.events[1..] && t.main == s.main && t.child == s.child
    requires t.callback.pc == if s.events[0].Fault? then SetDirty else Ready
    requires t.history.emitted == s.history.emitted && t.history.waits == s.history.waits
    requires if s.events[0] == Signal(SIGTRAP)
             then Counters(t.history, t.callback.count, t.bpfSem, Traps(t.events))
             else t.history == s.history && t.bpfSem == s.bpfSem && t.callback.count == s.callback.count
    ensures Sync(t)
  {
  }

  lemma SyncChild(s: State, a: Action)
    requires Sync(s) && Enabled(s, a) && (a.Touch? || a.Syscall? || a.Trap?)
    ensures Sync(Apply(s, a))
  {
    match a {
      case Touch(address) => TrapsAppend(s.events, [Fault(address)]);
      case Syscall(reports, _) => TrapsAppend(s.events, reports); SyscallHasNoTraps(reports);
      case Trap => TrapsAppend(s.events, [Signal(SIGTRAP)]);
    }
  }

  /** Steps that handle no trap and wait for none only move the main loop and the child together. */
  lemma SyncOther(s: State, a: Action)
    requires Sync(s) && Enabled(s, a)
    requires !(a.Touch? || a.Syscall? || a.Trap? || a.Handle? || a.BpfWait?)
    ensures Sync(Apply(s, a))
  {
    var t := Apply(s, a);
    assert t.events == s.events && t.bpfSem == s.bpfSem && t.callback.count == s.callback.count;
    assert t.history == s.history.(stops := t.history.stops);
    assert t.callback == s.callback || t.callback.pc == Ready;
    assert t.child.mode == s.child.mode || ChildRuns(t);
    assert InStep(t.main.pc, t.child.mode, t.history);
  }

  lemma SyncStep(s: State, a: Action)
    requires Sync(s) && Enabled(s, a)
    ensures Sync(Apply(s, a))
  {
    if a.Touch? || a.Syscall? || a.Trap? {
      SyncChild(s, a);
    } else if a.Handle? {
      SyncHandle(s);
    } else if a.BpfWait? {
      WaitedForEverything(s);
    } else {
      SyncOther(s, a);
    }
  }

  // The reset worker

  /** A reset has been triggered and not yet waited for. */
  ghost predicate InReset(m: Main) {
    m.waitReset && m.pc in {Lookup, Drain, AwaitReset}
  }

  /** A triggered reset has not yet closed the pages. */
  ghost predicate ResetAhead(w: Worker) {
    w.startSem > 0 || w.pc == Clearing
  }

  ghost predicate OneReset(s: State) {
    s.worker.startSem + s.worker.endSem + (if s.worker.pc == Idle then 0 else 1) == if InReset(s.main) then 1 else 0
  }

  lemma ResetStep(s: State, a: Action)
    requires OneReset(s) && Enabled(s, a)
    ensures OneReset(Apply(s, a))
  {
  }

  // Dirty pages

  /** A fault address in page `p` is waiting to be processed. */
  ghost predicate Pending(s: State, p: nat) {
    || (exists i :: 0 <= i < |s.queue| && PageOf(s.queue[i]) == p)
    || (exists i :: 0 <= i < |s.events| && s.events[i].Fault? && PageOf(s.events[i].address) == p)
  }

  ghost predicate OpenIsPending(s: State) {
    && (forall p :: p in s.child.open ==> Pending(s, p) || ResetAhead(s.worker))
    && (InReset(s.main) && !ResetAhead(s.worker) ==> s.child.open == {})
  }

  ghost predicate StaleIsPending(s: State) {
    && s.mirror.cached.Keys <= s.child.mem.Keys
    && forall p :: p in s.mirror.cached ==> s.mirror.cached[p] == s.child.mem[p] || Pending(s, p)
  }

  ghost predicate DirtyFlag(s: State) {
    && (s.queue != [] ==> s.dirty || s.callback.pc == SetDirty)
    && (s.main.pc == Lookup ==> s.main.waitReset == s.dirty)
    && (s.main.pc == Drain ==> s.main.waitReset && s.dirty)
  }

  lemma DirtyFlagStep(s: State, a: Action)
    requires Sync(s) && DirtyFlag(s) && Enabled(s, a)
    ensures DirtyFlag(Apply(s, a))
  {
  }

  /** Handling an event moves a fault address from the pipe to the queue; nothing is forgotten. */
  lemma HandleKeepsPending(s: State, p: nat)
    requires Enabled(s, Handle) && Pending(s, p)
    ensures Pending(Apply(s, Handle), p)
  {
    var t := Apply(s, Handle);
    if i :| 0 <= i < |s.queue| && PageOf(s.queue[i]) == p {
      assert t.queue[i] == s.queue[i];
    } else {
      var i :| 0 <= i < |s.events| && s.events[i].Fault? && PageOf(s.events[i].address) == p;
      if i == 0 {
        assert t.queue[|s.queue|] == s.events[0].address;
      } else {
        assert t.events[i - 1] == s.events[i];
      }
    }
  }

  lemma ReportsKeepPending(s: State, t: State, more: seq<Event>, p: nat)
    requires t.queue == s.queue && t.events == s.events + more && Pending(s, p)
    ensures Pending(t, p)
  {
    if i :| 0 <= i < |s.queue| && PageOf(s.queue[i]) == p {
      assert t.queue[i] == s.queue[i];
    } else {
      var i :| 0 <= i < |s.events| && s.events[i].Fault? && PageOf(s.events[i].address) == p;
      assert t.events[i] == s.events[i];
    }
  }

  /** Draining one address forgets only that page. */
  lemma DrainKeepsPending(s: State, p: nat)
    requires Enabled(s, DrainOne) && Pending(s, p) && PageOf(s.queue[0]) != p
    ensures Pending(Apply(s, DrainOne), p)
  {
  }

  /** Every action other than a drain keeps every pending page pending. */
  lemma KeepsPending(s: State, a: Action, p: nat)
    requires Enabled(s, a) && Pending(s, p) && !a.DrainOne?
    ensures Pending(Apply(s, a), p)
  {
    var t := Apply(s, a);
    if a.Handle? {
      HandleKeepsPending(s, p);
    } else {
      var more := if a.Touch? then [Fault(a.address)] else if a.Syscall? then a.reports
                  else if a.Trap? then [Signal(SIGTRAP)] else [];
      assert t.queue == s.queue && t.events == s.events + more;
      ReportsKeepPending(s, t, more, p);
    }
  }

  /** Once a reset has closed the pages, none opens before the child moves again. */
  lemma ClosedStep(s: State, a: Action)
    requires Sync(s) && OneReset(s) && DirtyFlag(s) && OpenIsPending(s) && Enabled(s, a)
    ensures var t := Apply(s, a); InReset(t.main) && !ResetAhead(t.worker) ==> t.child.open == {}
  {
  }

  /** No step opens a page but a touch, which reports it, and no step but a drain or a reset's end forgets one. */
  lemma OpenPage(s: State, a: Action, p: nat)
    requires Sync(s) && OneReset(s) && DirtyFlag(s) && OpenIsPending(s) && Enabled(s, a) && p in Apply(s, a).child.open
    ensures Pending(Apply(s, a), p) || ResetAhead(Apply(s, a).worker)
  {
    var t := Apply(s, a);
    if a.Touch? && p == PageOf(a.address) {
      assert t.events[|s.events|] == Fault(a.address);
    } else {
      StillOpen(s, a, p);
      if Pending(s, p) && !a.DrainOne? {
        KeepsPending(s, a, p);
      }
    }
  }

  lemma StillOpen(s: State, a: Action, p: nat)
    requires Sync(s) && OneReset(s) && DirtyFlag(s) && OpenIsPending(s) && Enabled(s, a) && p in Apply(s, a).child.open
    requires !(a.Touch? && p == PageOf(a.address))
    ensures p in s.child.open
    ensures (Pending(s, p) && !a.DrainOne?) || ResetAhead(Apply(s, a).worker)
  {
    if a.DrainOne? {
      assert InReset(s.main);
    }
  }

  lemma OpenStep(s: State, a: Action)
    requires Sync(s) && OneReset(s) && DirtyFlag(s) && OpenIsPending(s) && Enabled(s, a)
    ensures OpenIsPending(Apply(s, a))
  {
    ClosedStep(s, a);
    forall p | p in Apply(s, a).child.open ensures Pending(Apply(s, a), p) || ResetAhead(Apply(s, a).worker) {
      OpenPage(s, a, p);
    }
  }

  /** A page that was pending stays so, or has just been drained and equals the child's. */
  lemma PendingStep(s: State, a: Action, p: nat)
    requires Enabled(s, a) && StaleIsPending(s) && Pending(s, p) && p in s.mirror.cached
    ensures var t := Apply(s, a);
            Pending(t, p) || (p in t.mirror.cached && p in t.child.mem && t.mirror.cached[p] == t.child.mem[p])
  {
    if !a.DrainOne? {
      KeepsPending(s, a, p);
    } else if PageOf(s.queue[0]) != p {
      DrainKeepsPending(s, p);
    }
  }

  /** A page that is clean and stays cached can only be written if it is open, hence pending. */
  lemma CleanStep(s: State, a: Action, p: nat)
    requires Sync(s) && OneReset(s) && OpenIsPending(s) && StaleIsPending(s) && Enabled(s, a) && !a.Handle?
    requires p in s.mirror.cached && !Pending(s, p)
    ensures var t := Apply(s, a);
            p in t.mirror.cached && p in t.child.mem && t.mirror.cached[p] == t.child.mem[p]
  {
    if a.Syscall? {
      TakenGrows(s.events, MapperOf(s));
    } else if a.Store? {
      assert p != a.page;
    }
  }

  lemma CachedStep(s: State, a: Action)
    requires Enabled(s, a) && !a.Handle? && StaleIsPending(s)
    ensures Apply(s, a).mirror.cached.Keys == s.mirror.cached.Keys && s.child.mem.Keys <= Apply(s, a).child.mem.Keys
  {
  }

  lemma StaleHandle(s: State)
    requires StaleIsPending(s) && Enabled(s, Handle)
    ensures StaleIsPending(Apply(s, Handle))
  {
    var t := Apply(s, Handle);
    assert t.child == s.child;
    forall p | p in t.mirror.cached
      ensures p in t.child.mem && (t.mirror.cached[p] == t.child.mem[p] || Pending(t, p))
    {
      if Pending(s, p) {
        HandleKeepsPending(s, p);
      }
    }
  }

  lemma StaleStep(s: State, a: Action)
    requires Sync(s) && OneReset(s) && OpenIsPending(s) && StaleIsPending(s) && Enabled(s, a)
    ensures StaleIsPending(Apply(s, a))
  {
    if a.Handle? {
      StaleHandle(s);
    } else {
      CachedStep(s, a);
      forall p | p in Apply(s, a).mirror.cached
        ensures Apply(s, a).mirror.cached[p] == Apply(s, a).child.mem[p] || Pending(Apply(s, a), p)
      {
        if Pending(s, p) {
          PendingStep(s, a, p);
        } else {
          CleanStep(s, a, p);
        }
      }
    }
  }

  // Regions announced and not yet cached

  ghost predicate RegionsAhead(s: State) {
    GoodEvents(s.events, MapperOf(s), s.child.mem.Keys) && 0 !in s.mirror.cached
  }

  lemma {:induction false} TakenGrows(events: seq<Event>, m: Mapper)
    ensures m.taken <= After(events, m).taken
  {
    if events == [] {
    } else {
      TakenGrows(events[1..], AfterEvent(events[0], m));
    }
  }

  lemma {:induction false} GoodEventsAppend(events: seq<Event>, more: seq<Event>, m: Mapper, have: set<nat>,
      have': set<nat>)
    requires GoodEvents(events, m, have) && GoodEvents(more, After(events, m), have') && have <= have'
    ensures GoodEvents(events + more, m, have')
  {
    if events == [] {
      assert events + more == more;
    } else {
      GoodEventsAppend(events[1..], more, AfterEvent(events[0], m), have, have');
      assert (events + more)[1..] == events[1..] + more;
    }
  }

  lemma RegionPages(region: Region, p: nat)
    requires Aligned(region.address) && Aligned(region.size)
    ensures p in region.Pages() <==> region.FirstPage() <= p < region.FirstPage() + region.PageCount()
  {
  }

  /** What is added to the cache is exactly the announced region, read from the child. */
  lemma AddRegionKeys(m: Mirror, mem: Memory, region: Region, step: nat)
    requires Aligned(region.address) && Aligned(region.size) && Readable(mem, region)
    ensures AddRegion(m, mem, region, step).cached.Keys == m.cached.Keys + region.Pages()
    ensures forall p :: p in AddRegion(m, mem, region, step).cached ==>
              AddRegion(m, mem, region, step).cached[p] == if p in region.Pages() then mem[p] else m.cached[p]
  {
  }

  lemma HandleMapper(s: State)
    requires RegionsAhead(s) && s.events != []
    ensures CanHandle(s, s.events[0])
    ensures s.callback.pc == Ready ==> MapperOf(Apply(s, Handle)) == AfterEvent(s.events[0], MapperOf(s))
  {
    var region := RegionOf(s.events[0], s.callback.mapped, s.callback.brk);
    if region.Some? {
      forall p | region.value.FirstPage() <= p < region.value.FirstPage() + region.value.PageCount()
        ensures p in s.child.mem
      {
        RegionPages(region.value, p);
      }
      AddRegionKeys(s.mirror, s.child.mem, region.value, s.main.step);
    }
  }

  lemma RegionsStep(s: State, a: Action)
    requires RegionsAhead(s) && Enabled(s, a)
    ensures RegionsAhead(Apply(s, a))
  {
    var m, have := MapperOf(s), s.child.mem.Keys;
    match a {
      case Touch(address) => GoodEventsAppend(s.events, [Fault(address)], m, have, have);
      case Syscall(reports, content) => GoodEventsAppend(s.events, reports, m, have, have + content.Keys);
      case Trap => GoodEventsAppend(s.events, [Signal(SIGTRAP)], m, have, have);
      case Handle => HandleMapper(s);
      case _ => assert Apply(s, a).child.mem.Keys == have && MapperOf(Apply(s, a)) == m;
    }
  }
}
