/**
 The recorder while it traces: the child, the BPF callback thread, the main loop with
 process_breakpoint, and the worker that resets soft-dirty bits, interleaved one atomic
 step at a time.

 Child memory is a map of pages. A page is `open` when the child may write it without
 faulting; resetting the soft-dirty bits closes every page again.
 */
module Recorder {
  import opened Bytes
  import opened SegmentLog
  import opened Replay

  type Memory = map<nat, Page>

  const SIGTRAP: nat := 5

  /** What the BPF programs report, in the order the child caused it. */
  datatype Event =
    | Fault(address: nat)
    | MmapEntry(size: nat)
    | MmapExit(address: nat)
    | Munmap(address: nat)
    | Brk(boundary: nat)
    | Signal(number: nat)

  datatype ChildMode = Running | Stepping | Stopped

  datatype Child = Child(mem: Memory, open: set<nat>, mode: ChildMode)

  datatype CallbackPc = Ready | SetDirty

  /** The statics of bpf_callback. */
  datatype Callback = Callback(pc: CallbackPc, count: bool, mapped: nat, brk: nat)

  /** The page cache, by page number, and the rows sent to the `mem` table. */
  datatype Mirror = Mirror(cached: Memory, log: Log)

  datatype MainPc =
    | Resume      // about to PTRACE_CONT
    | WaitChild   // waitpid for the breakpoint trap
    | WaitBpf     // sem_wait(&bpf_sem)
    | Enter       // process_breakpoint: trigger the reset, count the step
    | Lookup      // find the statement of the trap
    | Drain       // proc_dirty_mem
    | AwaitReset  // wait_reset_dirty
    | SingleStep  // about to PTRACE_SINGLESTEP
    | WaitStep    // waitpid for the single-step trap

  datatype Main = Main(pc: MainPc, step: nat, waitReset: bool)

  datatype WorkerPc = Idle | Clearing | Posting

  datatype Worker = Worker(pc: WorkerPc, startSem: nat, endSem: nat)

  /** What the child really held at a stop, and the pages that were cached by then. */
  datatype Stop = Stop(start: bool, mem: Memory, pages: set<nat>)

  /** Traps caused by the child and handled by the callback, completed waits, the stops so far. */
  datatype History = History(emitted: nat, handled: nat, waits: nat, first: nat, stops: seq<Stop>)

  datatype State = State(
    child: Child,
    events: seq<Event>,   // reported by BPF, not yet handled
    callback: Callback,
    bpfSem: nat,
    dirty: bool,          // mem_dirty
    queue: seq<nat>,      // proc_mem_ch: fault addresses
    mirror: Mirror,
    main: Main,
    worker: Worker,
    history: History)

  // Memory regions announced by mmap and brk

  /** A region as the callback passes it to the cache. */
  datatype Region = Region(address: nat, size: nat) {
    function FirstPage(): nat {
      address / PAGE_SIZE
    }

    function PageCount(): nat {
      size / PAGE_SIZE
    }

    function Pages(): set<nat> {
      PageRange(address, size)
    }
  }

  /** The callback's view of the address space: pending mmap size, brk boundary, pages taken. */
  datatype Mapper = Mapper(mapped: nat, brk: nat, taken: set<nat>)

  /** The region an event adds to the cache, if any. */
  function RegionOf(e: Event, mapped: nat, brk: nat): Option<Region> {
    match e
    case MmapExit(a) => Some(Region(a, mapped))
    case Brk(b) => if brk != 0 && b > brk then Some(Region(brk, b - brk)) else None
    case _ => None
  }

  function AfterEvent(e: Event, m: Mapper): Mapper {
    var region := RegionOf(e, m.mapped, m.brk);
    var taken := if region.Some? then m.taken + region.value.Pages() else m.taken;
    match e
    case MmapEntry(n) => Mapper(n, m.brk, taken)
    case Brk(b) => Mapper(m.mapped, if m.brk == 0 || b > m.brk then b else m.brk, taken)
    case _ => Mapper(m.mapped, m.brk, taken)
  }

  function After(events: seq<Event>, m: Mapper): Mapper {
    if events == [] then m else After(events[1..], AfterEvent(events[0], m))
  }

  /** A region is page-aligned, not at address 0, readable, and disjoint from everything cached. */
  ghost predicate GoodRegion(region: Region, taken: set<nat>, have: set<nat>) {
    && Aligned(region.address) && Aligned(region.size) && region.address >= PAGE_SIZE
    && region.Pages() !! taken
    && region.Pages() <= have
  }

  ghost predicate GoodEvents(events: seq<Event>, m: Mapper, have: set<nat>) {
    events == [] ||
    (&& (RegionOf(events[0], m.mapped, m.brk).Some? ==>
           GoodRegion(RegionOf(events[0], m.mapped, m.brk).value, m.taken, have))
     && GoodEvents(events[1..], AfterEvent(events[0], m), have))
  }

  function MapperOf(s: State): Mapper {
    Mapper(s.callback.mapped, s.callback.brk, s.mirror.cached.Keys)
  }

  // The steps

  datatype Action =
    // child
    | Touch(address: nat)
    | Store(page: nat, bytes: Page)
    | Syscall(reports: seq<Event>, content: Memory)
    | Trap
    // callback
    | Handle
    | MarkDirty
    // main loop
    | Continue
    | SeeStop
    | BpfWait
    | EnterBreakpoint
    | Found(start: bool)
    | DrainOne
    | DrainEnd
    | ResetDone
    | StepInstruction
    | SeeStep
    // reset worker
    | Take
    | Clear
    | Post

  predicate ChildRuns(s: State) {
    s.child.mode != Stopped
  }

  /** The reports of one system call; SIGTRAPs come from traps only. */
  predicate SyscallReports(reports: seq<Event>) {
    match |reports|
    case 1 => reports[0].Brk? || reports[0].Munmap? || (reports[0].Signal? && reports[0].number != SIGTRAP)
    case 2 => reports[0].MmapEntry? && reports[1].MmapExit?
    case _ => false
  }

  /** process_vm_readv of the whole region succeeds. */
  ghost predicate Readable(mem: Memory, region: Region) {
    forall p :: region.FirstPage() <= p < region.FirstPage() + region.PageCount() ==> p in mem
  }

  ghost predicate CanHandle(s: State, e: Event) {
    var region := RegionOf(e, s.callback.mapped, s.callback.brk);
    region.Some? ==> Readable(s.child.mem, region.value)
  }

  ghost predicate Enabled(s: State, a: Action) {
    match a
    case Touch(_) => ChildRuns(s)
    case Store(p, _) => ChildRuns(s) && p in s.child.open && p in s.child.mem
    case Syscall(reports, content) =>
      && ChildRuns(s)
      && SyscallReports(reports)
      && content.Keys !! After(s.events, MapperOf(s)).taken
      && GoodEvents(reports, After(s.events, MapperOf(s)), s.child.mem.Keys + content.Keys)
    case Trap => ChildRuns(s)
    case Handle => s.callback.pc == Ready && s.events != [] && CanHandle(s, s.events[0])
    case MarkDirty => s.callback.pc == SetDirty
    case Continue => s.main.pc == Resume
    case SeeStop => s.main.pc == WaitChild && s.child.mode == Stopped
    case BpfWait => s.main.pc == WaitBpf && s.bpfSem > 0
    case EnterBreakpoint => s.main.pc == Enter
    case Found(_) => s.main.pc == Lookup
    case DrainOne => s.main.pc == Drain && s.queue != [] && CanProcess(s.mirror, s.child.mem, s.queue[0])
    case DrainEnd => s.main.pc == Drain && s.queue == []
    case ResetDone => s.main.pc == AwaitReset && (s.main.waitReset ==> s.worker.endSem > 0)
    case StepInstruction => s.main.pc == SingleStep
    case SeeStep => s.main.pc == WaitStep && s.child.mode == Stopped
    case Take => s.worker.pc == Idle && s.worker.startSem > 0
    case Clear => s.worker.pc == Clearing
    case Post => s.worker.pc == Posting
  }

  ghost function Apply(s: State, a: Action): State
    requires Enabled(s, a)
  {
    match a
    case Touch(address) =>
      s.(child := s.child.(open := s.child.open + {PageOf(address)}), events := s.events + [Fault(address)])
    case Store(p, bytes) => s.(child := s.child.(mem := s.child.mem[p := bytes]))
    case Syscall(reports, content) =>
      s.(child := s.child.(mem := s.child.mem + content), events := s.events + reports)
    case Trap =>
      s.(child := s.child.(mode := Stopped), events := s.events + [Signal(SIGTRAP)],
         history := s.history.(emitted := s.history.emitted + 1))
    case Handle => HandleEvent(s.(events := s.events[1..]), s.events[0])
    case MarkDirty => s.(dirty := true, callback := s.callback.(pc := Ready))
    case Continue => s.(child := s.child.(mode := Running), main := s.main.(pc := WaitChild))
    case SeeStop => s.(main := s.main.(pc := WaitBpf))
    case BpfWait =>
      s.(bpfSem := s.bpfSem - 1, main := s.main.(pc := Enter),
         history := s.history.(waits := s.history.waits + 1))
    case EnterBreakpoint =>
      s.(worker := if s.dirty then s.worker.(startSem := s.worker.startSem + 1) else s.worker,
         main := Main(Lookup, s.main.step + 1, s.dirty))
    case Found(start) =>
      if s.dirty && !start then s.(main := s.main.(pc := Drain)) else RecordStop(s, start)
    case DrainOne =>
      s.(queue := s.queue[1..], mirror := ProcessAddress(s.mirror, s.child.mem, s.queue[0], s.main.step))
    case DrainEnd => RecordStop(s.(dirty := false), false)
    case ResetDone =>
      s.(worker := if s.main.waitReset then s.worker.(endSem := s.worker.endSem - 1) else s.worker,
         main := s.main.(pc := SingleStep))
    case StepInstruction => s.(child := s.child.(mode := Stepping), main := s.main.(pc := WaitStep))
    case SeeStep => s.(main := s.main.(pc := Resume))
    case Take => s.(worker := s.worker.(startSem := s.worker.startSem - 1, pc := Clearing))
    case Clear => s.(child := s.child.(open := {}), worker := s.worker.(pc := Posting))
    case Post => s.(worker := s.worker.(endSem := s.worker.endSem + 1, pc := Idle))
  }

  /** bpf_callback */
  ghost function HandleEvent(s: State, e: Event): State
    requires CanHandle(s, e)
  {
    match e
    case Signal(n) => if n == SIGTRAP then HandleTrap(s) else s
    case Fault(address) => s.(queue := s.queue + [address], callback := s.callback.(pc := SetDirty))
    case MmapEntry(size) => s.(callback := s.callback.(mapped := size))
    case MmapExit(address) =>
      s.(mirror := AddRegion(s.mirror, s.child.mem, Region(address, s.callback.mapped), s.main.step))
    case Munmap(_) => s
    case Brk(b) =>
      if s.callback.brk == 0 then s.(callback := s.callback.(brk := b))
      else if b > s.callback.brk then
        s.(mirror := AddRegion(s.mirror, s.child.mem, Region(s.callback.brk, b - s.callback.brk), s.main.step),
           callback := s.callback.(brk := b))
      else s
  }

  /** Two SIGTRAPs per stop: only the first, for the breakpoint, posts the semaphore. */
  ghost function HandleTrap(s: State): State {
    s.(bpfSem := if s.callback.count then s.bpfSem else s.bpfSem + 1,
       callback := s.callback.(count := !s.callback.count),
       history := s.history.(handled := s.history.handled + 1))
  }

  /** cache_add_region */
  ghost function AddRegion(m: Mirror, mem: Memory, region: Region, step: nat): Mirror
    requires Readable(mem, region)
  {
    var first, count := region.FirstPage(), region.PageCount();
    Mirror(m.cached + map p: nat | p in mem && first <= p < first + count :: mem[p],
           m.log + RegionRows(first, count, mem, step))
  }

  ghost predicate CanProcess(m: Mirror, mem: Memory, address: nat) {
    PageOf(address) in m.cached ==> PageOf(address) in mem
  }

  /** One round of proc_dirty_mem: find_page, then process_page. */
  ghost function ProcessAddress(m: Mirror, mem: Memory, address: nat, step: nat): Mirror
    requires CanProcess(m, mem, address)
  {
    var p := PageOf(address);
    if p !in m.cached then m
    else Mirror(m.cached[p := mem[p]],
                m.log + PageDelta(p, Some(m.cached[p]), mem[p], step, SEGMENTS_PER_PAGE))
  }

  ghost function RecordStop(s: State, start: bool): State {
    s.(main := s.main.(pc := AwaitReset),
       history := s.history.(stops := s.history.stops + [Stop(start, s.child.mem, s.mirror.cached.Keys)]))
  }

  // Runs

  /** The newest row of segment `k` of page `p` at `step` holds that segment of `page`. */
  ghost predicate Replays(log: Log, p: nat, k: nat, step: nat, page: Page)
    requires k < SEGMENTS_PER_PAGE
  {
    var r := Newest(log, SegmentAddress(p, k), step);
    r.Some? && r.value.content == Segment(page, k)
  }

  ghost predicate PageReplays(log: Log, p: nat, step: nat, page: Page) {
    forall k: nat :: k < SEGMENTS_PER_PAGE ==> Replays(log, p, k, step, page)
  }

  /** The state when the main loop starts: the cache equals the child and every page is protected. */
  ghost predicate Init(s: State) {
    && s.child.mode == Stopped && s.child.open == {} && s.events == [] && s.queue == []
    && s.callback.pc == Ready && !s.callback.count && s.bpfSem == 0
    && s.main.pc == Resume
    && s.worker == Worker(Idle, 0, 0)
    && s.history == History(0, 0, 0, s.main.step, [Stop(false, s.child.mem, s.mirror.cached.Keys)])
    && InitMirror(s.mirror, s.child.mem, s.main.step)
  }

  ghost predicate InitMirror(m: Mirror, mem: Memory, step: nat) {
    && m.cached.Keys <= mem.Keys && 0 !in m.cached
    && (forall p :: p in m.cached ==> m.cached[p] == mem[p])
    && Unique(m.log) && WellFormedLog(m.log)
    && (forall r :: r in m.log ==> r.step <= step && PageOf(r.address) in m.cached)
    && (forall p :: p in m.cached ==> PageReplays(m.log, p, step, m.cached[p]))
  }

  ghost predicate Next(s: State, a: Action, t: State) {
    Enabled(s, a) && t == Apply(s, a)
  }

  /** `states` is a run: it starts in an initial state and every state follows from the one before. */
  ghost predicate IsRun(states: seq<State>, actions: seq<Action>) {
    && |states| == |actions| + 1
    && Init(states[0])
    && forall i {:trigger Next(states[i], actions[i], states[i + 1])} ::
         0 <= i < |actions| ==> Next(states[i], actions[i], states[i + 1])
  }

  lemma RunStep(states: seq<State>, actions: seq<Action>, i: nat)
    requires IsRun(states, actions) && i < |actions|
    ensures Next(states[i], actions[i], states[i + 1])
  {
  }
}
