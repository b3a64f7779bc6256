/**
 From the child to the debugger: what the recorder sends over the memory channel, its worker
 stores, and Examine reads back.
 */
module EndToEnd {
  import opened Bytes
  import opened SegmentLog
  import opened Replay
  import opened Recorder
  import opened RecordReplay
  import opened RecorderTheorems
  import opened MappedMemory
  import opened DbWorkers
  import ChannelProtocol

  /** The stop whose bytes Examine shows at stop `n`: itself, or at a function start the latest that was none. */
  ghost function Shown(s: State, n: nat): Stop
    requires n < |s.history.stops|
  {
    s.history.stops[Base(s.history.stops, n)]
  }

  /** What a stop remembers is what the child held when the recorder was about to step over it. */
  lemma StopIsChild(states: seq<State>, actions: seq<Action>, i: nat, j: nat, b: nat)
    requires IsRun(states, actions) && i <= j < |states|
    requires states[i].main.pc == SingleStep && |states[i].history.stops| == b + 1
    ensures b < |states[j].history.stops| && states[j].history.stops[b].mem == states[i].child.mem
  {
    StopStandsInChild(states, actions, i);
    StopsGrow(states, actions, i, j);
  }

  /** The stop shown at `n` is the child as it stood whenever the recorder was about to step over that stop. */
  ghost predicate HeldByChild(states: seq<State>, j: nat, n: nat)
    requires j < |states| && n < |states[j].history.stops|
  {
    forall i :: 0 <= i <= j && states[i].main.pc == SingleStep &&
                |states[i].history.stops| == Base(states[j].history.stops, n) + 1 ==>
      Shown(states[j], n).mem == states[i].child.mem
  }

  lemma ShownIsChild(states: seq<State>, actions: seq<Action>, j: nat, n: nat)
    requires IsRun(states, actions) && j < |states| && n < |states[j].history.stops|
    ensures HeldByChild(states, j, n)
  {
    forall i | 0 <= i <= j && states[i].main.pc == SingleStep &&
               |states[i].history.stops| == Base(states[j].history.stops, n) + 1
      ensures Shown(states[j], n).mem == states[i].child.mem
    {
      StopIsChild(states, actions, i, j, Base(states[j].history.stops, n));
    }
  }

  /** By state k of a run of the channel the log and then ch_finish were written; `messages` are its worker's. */
  ghost predicate SentThrough(messages: seq<Option<Row>>, log: Log, channel: seq<ChannelProtocol.State<Option<Row>>>,
                              moves: seq<(nat, ChannelProtocol.Action<Option<Row>>)>, k: nat, worker: nat)
  {
    && ChannelProtocol.IsRun(channel, moves) && k < |channel| && ChannelProtocol.SoleReader(moves, worker)
    && channel[k].written == Sent(log) && |channel[k].read| == |channel[k].takers|
    && messages == ChannelProtocol.TakenBy(channel[k].read, channel[k].takers, worker) && None in messages
  }

  /** `bytes` are those the child held in the range at the stop shown. */
  ghost predicate IsShown(states: seq<State>, j: nat, n: nat, addr: nat, size: nat, bytes: seq<byte>)
    requires j < |states| && n < |states[j].history.stops|
  {
    && HeldByChild(states, j, n) && InPages(Shown(states[j], n).mem.Keys, addr, size)
    && bytes == ChildBytes(Shown(states[j], n).mem, addr, size)
  }

  lemma Delivered(messages: seq<Option<Row>>, log: Log, channel: seq<ChannelProtocol.State<Option<Row>>>,
                  moves: seq<(nat, ChannelProtocol.Action<Option<Row>>)>, k: nat, worker: nat)
    requires SentThrough(messages, log, channel, moves, k, worker)
    ensures None in messages && ChannelProtocol.BeforeEnd(messages) == log
  {
    ChannelProtocol.FinishedWorkerHasEverything(channel, moves, k, worker);
    SentArrives(log);
  }

  lemma Replayed(states: seq<State>, actions: seq<Action>, j: nat, n: nat, addr: nat, size: nat)
    returns (bytes: seq<byte>)
    requires IsRun(states, actions) && j < |states| && n < |states[j].history.stops|
    requires InPages(Shown(states[j], n).pages, addr, size)
    ensures InPages(Shown(states[j], n).mem.Keys, addr, size)
    ensures bytes == ChildBytes(Shown(states[j], n).mem, addr, size) && |bytes| == size
    ensures var v := ViewAt(states[j].mirror.log, states[j].history.first + n);
            WellFormed(v) && Present(v, addr, addr + size) == bytes
  {
    ReplayIsFaithful(states, actions, j, n, addr, size);
    bytes := ChildBytes(Shown(states[j], n).mem, addr, size);
  }

  /** The range was mapped by one mmap call before the stop shown at `n`. */
  ghost predicate MappedBefore(states: seq<State>, actions: seq<Action>, j: nat, n: nat, addr: nat, size: nat)
    requires |states| == |actions| + 1 && j < |states| && n < |states[j].history.stops|
  {
    exists i: nat, t: nat :: IsMapping(states, actions, i, t, j, n, addr, size)
  }

  /** Action `i` mapped the range, and state `t` is about to step over the stop shown. */
  ghost predicate IsMapping(states: seq<State>, actions: seq<Action>, i: nat, t: nat, j: nat, n: nat, addr: nat,
      size: nat)
    requires |states| == |actions| + 1 && j < |states| && n < |states[j].history.stops|
  {
    && i < t <= j && states[t].main.pc == SingleStep
    && |states[t].history.stops| == Base(states[j].history.stops, n) + 1
    && actions[i].Syscall? && |actions[i].reports| == 2
    && actions[i].reports[0].MmapEntry? && actions[i].reports[1].MmapExit?
    && actions[i].reports[1].address <= addr
    && addr + size <= actions[i].reports[1].address + actions[i].reports[0].size
  }

  /** What was mapped before a stop is in the pages it shows. */
  lemma MappedIsShown(states: seq<State>, actions: seq<Action>, i: nat, t: nat, j: nat, n: nat, addr: nat, size: nat)
    requires IsRun(states, actions) && j < |states| && n < |states[j].history.stops|
    requires IsMapping(states, actions, i, t, j, n, addr, size)
    ensures InPages(Shown(states[j], n).pages, addr, size)
  {
    var length, address := actions[i].reports[0].size, actions[i].reports[1].address;
    assert actions[i].reports == [MmapEntry(length), MmapExit(address)];
    assert actions[i] == Syscall([MmapEntry(length), MmapExit(address)], actions[i].content);
    StopsGrow(states, actions, t, j);
    forall x: nat | addr <= x < addr + size ensures PageOf(x) in Shown(states[j], n).pages {
      MmapCoversByte(states, actions, i, t, x);
    }
  }

  lemma MmapCoversByte(states: seq<State>, actions: seq<Action>, i: nat, t: nat, x: nat)
    requires IsRun(states, actions) && i < t < |states| && states[t].main.pc == SingleStep
    requires actions[i].Syscall? && |actions[i].reports| == 2
    requires actions[i].reports[0].MmapEntry? && actions[i].reports[1].MmapExit?
    requires actions[i].reports[1].address <= x < actions[i].reports[1].address + actions[i].reports[0].size
    ensures |states[t].history.stops| > 0 && PageOf(x) in LastStop(states[t]).pages
  {
    var length, address := actions[i].reports[0].size, actions[i].reports[1].address;
    assert actions[i].reports == [MmapEntry(length), MmapExit(address)];
    MmapArrives(states, actions, i, length, address, actions[i].content);
    assert address <= PageOf(x) * PAGE_SIZE;
    MmapIsCached(states, actions, i, t, length, address, actions[i].content, PageOf(x));
  }

  /** The range lies in pages cached at the stop shown, or was mapped before it. */
  ghost predicate Available(states: seq<State>, actions: seq<Action>, j: nat, n: nat, addr: nat, size: nat)
    requires |states| == |actions| + 1 && j < |states| && n < |states[j].history.stops|
  {
    InPages(Shown(states[j], n).pages, addr, size) || MappedBefore(states, actions, j, n, addr, size)
  }

  lemma AvailableIsShown(states: seq<State>, actions: seq<Action>, j: nat, n: nat, addr: nat, size: nat)
    requires IsRun(states, actions) && j < |states| && n < |states[j].history.stops|
    requires Available(states, actions, j, n, addr, size)
    ensures InPages(Shown(states[j], n).pages, addr, size)
  {
    if MappedBefore(states, actions, j, n, addr, size) {
      var i: nat, t: nat :| IsMapping(states, actions, i, t, j, n, addr, size);
      MappedIsShown(states, actions, i, t, j, n, addr, size);
    }
  }

  /** The worker's part and Examine's: store what came before the end marker, then query and copy. */
  method StoreAndRead(messages: seq<Option<Row>>, step: nat, addr: nat, size: nat, ghost log: Log,
      ghost bytes: seq<byte>)
    returns (buffer: array<byte>)
    requires None in messages && ChannelProtocol.BeforeEnd(messages) == log && WellFormed(ViewAt(log, step))
    requires Present(ViewAt(log, step), addr, addr + size) == bytes && |bytes| == size
    ensures fresh(buffer) && buffer.Length == size + 1 && buffer[..size] == bytes
  {
    var table := new Table<Row>();
    table.Drain(messages);
    assert table.committed == log;
    buffer := GetVarValue(ViewAt(table.committed, step), addr, size);
  }

  /**
   Take any run of the recorder, and any stop recorded in it; any run of the memory channel, by the
   end of which everything logged and then ch_finish was written; and the messages its one worker
   took, the end marker among them. Stored and queried at the step of that stop, they give exactly
   the bytes the child held there, or at a function start those of the latest stop before it that
   was none, for any range in pages cached then or mapped by the child before.
   */
  method RecordThenExamine(messages: seq<Option<Row>>, step: nat, addr: nat, size: nat,
                           ghost states: seq<State>, ghost actions: seq<Action>, ghost j: nat, ghost n: nat,
                           ghost channel: seq<ChannelProtocol.State<Option<Row>>>,
                           ghost moves: seq<(nat, ChannelProtocol.Action<Option<Row>>)>,
                           ghost k: nat, ghost worker: nat)
    returns (buffer: array<byte>)
    requires IsRun(states, actions) && j < |states| && n < |states[j].history.stops|
    requires step == states[j].history.first + n && Available(states, actions, j, n, addr, size)
    requires SentThrough(messages, states[j].mirror.log, channel, moves, k, worker)
    ensures fresh(buffer) && buffer.Length == size + 1
    ensures IsShown(states, j, n, addr, size, buffer[..size])
  {
    ghost var log, bytes := RecordedAndSent(messages, addr, size, states, actions, j, n, channel, moves, k, worker);
    buffer := StoreAndRead(messages, step, addr, size, log, bytes);
  }

  lemma RecordedAndSent(messages: seq<Option<Row>>, addr: nat, size: nat,
                        states: seq<State>, actions: seq<Action>, j: nat, n: nat,
                        channel: seq<ChannelProtocol.State<Option<Row>>>,
                        moves: seq<(nat, ChannelProtocol.Action<Option<Row>>)>, k: nat, worker: nat)
    returns (log: Log, bytes: seq<byte>)
    requires IsRun(states, actions) && j < |states| && n < |states[j].history.stops|
    requires Available(states, actions, j, n, addr, size)
    requires SentThrough(messages, states[j].mirror.log, channel, moves, k, worker)
    ensures None in messages && ChannelProtocol.BeforeEnd(messages) == log
    ensures IsShown(states, j, n, addr, size, bytes) && |bytes| == size
    ensures var v := ViewAt(log, states[j].history.first + n);
            WellFormed(v) && Present(v, addr, addr + size) == bytes
  {
    AvailableIsShown(states, actions, j, n, addr, size);
    log := states[j].mirror.log;
    Delivered(messages, log, channel, moves, k, worker);
    bytes := Replayed(states, actions, j, n, addr, size);
    ShownIsChild(states, actions, j, n);
  }
}
