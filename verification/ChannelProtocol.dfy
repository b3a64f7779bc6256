/**
 Many readers and writers on one channel, every lock, unlock, post and wait its own step.
 Dequeuing from an empty list would follow a null head; here that sets `crashed`.
 */
module ChannelProtocol {
  import opened Bytes

  datatype Pc<T> =
    | Idle
    | Writing(message: T)   // holds the mutex, about to link the message
    | Linked                // holds the mutex, message linked
    | Unposted              // unlocked, about to sem_post
    | Waited                // past sem_wait, about to lock
    | Reading               // holds the mutex, about to take the head
    | Taken                 // holds the mutex, head taken

  datatype State<T> = State(
    threads: map<nat, Pc<T>>,
    owner: Option<nat>,
    sem: nat,
    queue: seq<T>,
    crashed: bool,
    written: seq<T>,   // in the order of enqueuing
    read: seq<T>,      // in the order of dequeuing
    takers: seq<nat>)  // the reader of each

  datatype Action<T> =
    | LockToWrite(message: T)
    | Link
    | UnlockWriter
    | Post
    | Wait
    | LockToRead
    | Take
    | UnlockReader

  ghost predicate Init<T(!new)>(s: State<T>) {
    && (forall t :: t in s.threads ==> s.threads[t] == Idle)
    && s.owner == None && s.sem == 0 && s.queue == [] && !s.crashed && s.written == [] && s.read == [] && s.takers == []
  }

  ghost predicate Enabled<T(!new)>(s: State<T>, t: nat, a: Action<T>) {
    t in s.threads &&
    match a
    case LockToWrite(_) => s.threads[t] == Idle && s.owner == None
    case Link => s.threads[t].Writing?
    case UnlockWriter => s.threads[t] == Linked
    case Post => s.threads[t] == Unposted
    case Wait => s.threads[t] == Idle && s.sem > 0
    case LockToRead => s.threads[t] == Waited && s.owner == None
    case Take => s.threads[t] == Reading
    case UnlockReader => s.threads[t] == Taken
  }

  ghost function Apply<T(!new)>(s: State<T>, t: nat, a: Action<T>): State<T>
    requires Enabled(s, t, a)
  {
    match a
    case LockToWrite(m) => s.(threads := s.threads[t := Writing(m)], owner := Some(t))
    case Link =>
      var m := s.threads[t].message;
      s.(threads := s.threads[t := Linked], queue := s.queue + [m], written := s.written + [m])
    case UnlockWriter => s.(threads := s.threads[t := Unposted], owner := None)
    case Post => s.(threads := s.threads[t := Idle], sem := s.sem + 1)
    case Wait => s.(threads := s.threads[t := Waited], sem := s.sem - 1)
    case LockToRead => s.(threads := s.threads[t := Reading], owner := Some(t))
    case Take =>
      if s.queue == [] then s.(crashed := true)
      else s.(threads := s.threads[t := Taken], queue := s.queue[1..], read := s.read + [s.queue[0]],
              takers := s.takers + [t])
    case UnlockReader => s.(threads := s.threads[t := Idle], owner := None)
  }

  ghost predicate Next<T(!new)>(s: State<T>, t: nat, a: Action<T>, s': State<T>) {
    Enabled(s, t, a) && s' == Apply(s, t, a)
  }

  ghost predicate IsRun<T(!new)>(states: seq<State<T>>, steps: seq<(nat, Action<T>)>) {
    && |states| == |steps| + 1
    && Init(states[0])
    && forall i :: 0 <= i < |steps| ==> Next(states[i], steps[i].0, steps[i].1, states[i + 1])
  }

  /** Writers whose message is linked but not yet posted. */
  ghost function Unannounced<T>(threads: map<nat, Pc<T>>): set<nat> {
    set t | t in threads && (threads[t].Linked? || threads[t].Unposted?)
  }

  /** Readers past the semaphore that have not yet taken their message. */
  ghost function Entitled<T>(threads: map<nat, Pc<T>>): set<nat> {
    set t | t in threads && (threads[t].Waited? || threads[t].Reading?)
  }

  ghost predicate Holds<T>(pc: Pc<T>) {
    pc.Writing? || pc.Linked? || pc.Reading? || pc.Taken?
  }

  ghost predicate Counted<T(!new)>(s: State<T>) {
    |s.queue| == s.sem + |Unannounced(s.threads)| + |Entitled(s.threads)|
  }

  ghost predicate Exclusive<T(!new)>(s: State<T>) {
    && (s.owner.Some? ==> s.owner.value in s.threads)
    && forall t :: t in s.threads ==> (Holds(s.threads[t]) <==> s.owner == Some(t))
  }

  ghost predicate Inv<T(!new)>(s: State<T>) {
    Counted(s) && Exclusive(s) && !s.crashed && s.written == s.read + s.queue && |s.takers| == |s.read|
  }

  lemma ThreadMoves<T>(threads: map<nat, Pc<T>>, t: nat, pc: Pc<T>)
    requires t in threads
    ensures Unannounced(threads[t := pc]) ==
              if pc.Linked? || pc.Unposted? then Unannounced(threads) + {t} else Unannounced(threads) - {t}
    ensures Entitled(threads[t := pc]) ==
              if pc.Waited? || pc.Reading? then Entitled(threads) + {t} else Entitled(threads) - {t}
    ensures t in Unannounced(threads) <==> threads[t].Linked? || threads[t].Unposted?
    ensures t in Entitled(threads) <==> threads[t].Waited? || threads[t].Reading?
  {
  }

  lemma InvInit<T(!new)>(s: State<T>)
    requires Init(s)
    ensures Inv(s)
  {
  }

  /** A reader about to take a message finds one. */
  lemma ReaderFindsMessage<T(!new)>(s: State<T>, t: nat)
    requires Counted(s) && t in s.threads && s.threads[t] == Reading
    ensures s.queue != []
  {
    assert t in Entitled(s.threads);
  }

  lemma CountedStep<T(!new)>(s: State<T>, t: nat, a: Action<T>)
    requires Counted(s) && Enabled(s, t, a)
    ensures Counted(Apply(s, t, a))
  {
    if a.Take? {
      ReaderFindsMessage(s, t);
    }
    var s' := Apply(s, t, a);
    var pc := s'.threads[t];
    ThreadMoves(s.threads, t, pc);
    assert s'.threads == s.threads[t := pc];
    var u, e := |Unannounced(s.threads)|, |Entitled(s.threads)|;
    assert |Unannounced(s'.threads)| ==
           u + (if a.Link? then 1 else if a.Post? then -1 else 0);
    assert |Entitled(s'.threads)| == e + (if a.Wait? then 1 else if a.Take? then -1 else 0);
  }

  lemma InvStep<T(!new)>(s: State<T>, t: nat, a: Action<T>)
    requires Inv(s) && Enabled(s, t, a)
    ensures Inv(Apply(s, t, a))
  {
    CountedStep(s, t, a);
    if a.Take? {
      ReaderFindsMessage(s, t);
      assert s.queue == [s.queue[0]] + s.queue[1..];
    }
    assert Exclusive(Apply(s, t, a));
  }

  lemma {:induction false} InvRun<T(!new)>(states: seq<State<T>>, steps: seq<(nat, Action<T>)>, i: nat)
    requires IsRun(states, steps) && i < |states|
    ensures Inv(states[i])
  {
    if i == 0 {
      InvInit(states[0]);
    } else {
      InvRun(states, steps, i - 1);
      assert Next(states[i - 1], steps[i - 1].0, steps[i - 1].1, states[i]);
      InvStep(states[i - 1], steps[i - 1].0, steps[i - 1].1);
    }
  }

  /**
   In every interleaving the queue holds one message per semaphore unit, per writer yet to post
   and per reader yet to take; no reader meets an empty list; and what is read, in order, is a
   prefix of what was written, in order.
   */
  lemma ChannelIsSafe<T(!new)>(states: seq<State<T>>, steps: seq<(nat, Action<T>)>, i: nat)
    requires IsRun(states, steps) && i < |states|
    ensures var s := states[i];
            && |s.queue| == s.sem + |Unannounced(s.threads)| + |Entitled(s.threads)|
            && !s.crashed
            && s.read <= s.written
            && forall t, u :: t in s.threads && u in s.threads && Holds(s.threads[t]) && Holds(s.threads[u]) ==> t == u
  {
    InvRun(states, steps, i);
  }

  /** Once every thread is idle, no message is stranded: the semaphore counts the whole queue. */
  lemma NothingStranded<T(!new)>(states: seq<State<T>>, steps: seq<(nat, Action<T>)>, i: nat)
    requires IsRun(states, steps) && i < |states|
    requires forall t :: t in states[i].threads ==> states[i].threads[t] == Idle
    ensures states[i].sem == |states[i].queue|
  {
    InvRun(states, steps, i);
    assert Unannounced(states[i].threads) == {} && Entitled(states[i].threads) == {};
  }

  /** No deadlock: while a thread is in the middle of a call, some thread can go on with one. */
  lemma SomeoneMoves<T(!new)>(states: seq<State<T>>, steps: seq<(nat, Action<T>)>, i: nat, t: nat)
    returns (u: nat, a: Action<T>)
    requires IsRun(states, steps) && i < |states| && t in states[i].threads && states[i].threads[t] != Idle
    ensures u in states[i].threads && states[i].threads[u] != Idle && Enabled(states[i], u, a)
    ensures Apply(states[i], u, a).threads[u] != states[i].threads[u]
  {
    InvRun(states, steps, i);
    var s := states[i];
    u := if s.owner.Some? then s.owner.value else t;
    match s.threads[u] {
      case Writing(_) => a := Link;
      case Linked => a := UnlockWriter;
      case Unposted => a := Post;
      case Waited => a := LockToRead;
      case Reading =>
        ReaderFindsMessage(s, u);
        a := Take;
      case Taken => a := UnlockReader;
    }
  }

  /** The messages before the first end marker. */
  function BeforeEnd<T>(messages: seq<Option<T>>): seq<T> {
    if messages == [] || messages[0].None? then [] else [messages[0].value] + BeforeEnd(messages[1..])
  }

  lemma {:induction false} BeforeEndOfPrefix<T>(messages: seq<Option<T>>, more: seq<Option<T>>)
    requires exists i :: 0 <= i < |messages| && messages[i].None?
    ensures BeforeEnd(messages + more) == BeforeEnd(messages)
  {
    if messages[0].Some? {
      assert (messages + more)[1..] == messages[1..] + more;
      var i :| 0 <= i < |messages| && messages[i].None?;
      assert messages[1..][i - 1].None?;
      BeforeEndOfPrefix(messages[1..], more);
    }
  }

  /** Of the messages read, those one reader took, in order. */
  function TakenBy<T>(read: seq<T>, takers: seq<nat>, t: nat): seq<T>
    requires |read| == |takers|
  {
    if read == [] then []
    else
      var last := |read| - 1;
      TakenBy(read[..last], takers[..last], t) + if takers[last] == t then [read[last]] else []
  }

  lemma {:induction false} TakenByOne<T>(read: seq<T>, takers: seq<nat>, t: nat)
    requires |read| == |takers| && forall k :: 0 <= k < |takers| ==> takers[k] == t
    ensures TakenBy(read, takers, t) == read
  {
    if read == [] {
    } else {
      TakenByOne(read[..|read| - 1], takers[..|read| - 1], t);
    }
  }

  /** Only `t` reads: no other thread passes the semaphore. */
  ghost predicate SoleReader<T(!new)>(steps: seq<(nat, Action<T>)>, t: nat) {
    forall k :: 0 <= k < |steps| && steps[k].1.Wait? ==> steps[k].0 == t
  }

  ghost predicate ReadBy<T(!new)>(s: State<T>, t: nat) {
    && (forall u :: u in s.threads && (s.threads[u].Waited? || s.threads[u].Reading?) ==> u == t)
    && (forall k :: 0 <= k < |s.takers| ==> s.takers[k] == t)
  }

  lemma ReadByStep<T(!new)>(s: State<T>, u: nat, a: Action<T>, t: nat)
    requires ReadBy(s, t) && Enabled(s, u, a) && (a.Wait? ==> u == t)
    ensures ReadBy(Apply(s, u, a), t)
  {
  }

  lemma {:induction false} ReadByRun<T(!new)>(states: seq<State<T>>, steps: seq<(nat, Action<T>)>, i: nat, t: nat)
    requires IsRun(states, steps) && i < |states| && SoleReader(steps, t)
    ensures ReadBy(states[i], t)
  {
    if i == 0 {
    } else {
      ReadByRun(states, steps, i - 1, t);
      assert Next(states[i - 1], steps[i - 1].0, steps[i - 1].1, states[i]);
      ReadByStep(states[i - 1], steps[i - 1].0, steps[i - 1].1, t);
    }
  }

  /** A channel's only reader has taken, in order, everything that was read. */
  lemma SoleReaderTakesAll<T(!new)>(states: seq<State<T>>, steps: seq<(nat, Action<T>)>, i: nat, t: nat)
    requires IsRun(states, steps) && i < |states| && SoleReader(steps, t)
    ensures |states[i].read| == |states[i].takers| && TakenBy(states[i].read, states[i].takers, t) == states[i].read
  {
    InvRun(states, steps, i);
    ReadByRun(states, steps, i, t);
    TakenByOne(states[i].read, states[i].takers, t);
  }

  /**
   A channel's worker that has taken the end marker of ch_finish has itself taken exactly the
   messages written before it, each once and in order.
   */
  lemma FinishedWorkerHasEverything<T(!new)>(states: seq<State<Option<T>>>, steps: seq<(nat, Action<Option<T>>)>,
      i: nat, t: nat)
    requires IsRun(states, steps) && i < |states| && SoleReader(steps, t)
    requires |states[i].read| == |states[i].takers| && None in TakenBy(states[i].read, states[i].takers, t)
    ensures BeforeEnd(TakenBy(states[i].read, states[i].takers, t)) == BeforeEnd(states[i].written)
  {
    InvRun(states, steps, i);
    SoleReaderTakesAll(states, steps, i, t);
    BeforeEndOfPrefix(states[i].read, states[i].queue);
  }
}
