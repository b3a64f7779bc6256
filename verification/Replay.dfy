/**
 get_var_value: rebuild a byte range at a step from the newest segments around it.
 */
module Replay {
  import opened Bytes
  import opened SegmentLog

  /** The newest content at each address, as the query sees it at one step. */
  type View = nat -> Option<seq<byte>>

  function ViewAt(log: Log, step: nat): View {
    (x: nat) => var r := Newest(log, x, step); if r.None? then None else Some(r.value.content)
  }

  /** Segments start at multiples of the segment size and hold that many bytes. */
  ghost predicate WellFormedLog(log: Log) {
    forall r :: r in log ==> r.address % SEGMENT_SIZE == 0 && |r.content| == SEGMENT_SIZE
  }

  ghost predicate WellFormed(v: View) {
    forall x: nat :: v(x).Some? ==> x % SEGMENT_SIZE == 0 && |v(x).value| == SEGMENT_SIZE
  }

  lemma ViewIsWellFormed(log: Log, step: nat)
    requires WellFormedLog(log)
    ensures WellFormed(ViewAt(log, step))
  {
  }

  // What the range should read as

  function SegmentStart(x: nat): nat {
    x - x % SEGMENT_SIZE
  }

  /** The recorded value of one byte. */
  ghost function ByteAt(v: View, x: nat): Option<byte>
    requires WellFormed(v)
  {
    var c := v(SegmentStart(x));
    if c.None? then None else Some(c.value[x - SegmentStart(x)])
  }

  /** The bytes a partial function has in [lo, hi), in address order. */
  ghost function Gathered(f: nat -> Option<byte>, lo: nat, hi: nat): (bytes: seq<byte>)
    requires lo <= hi
    ensures |bytes| <= hi - lo
    decreases hi - lo
  {
    if lo == hi then []
    else Gathered(f, lo, hi - 1) + if f(hi - 1).None? then [] else [f(hi - 1).value]
  }

  ghost predicate Total(f: nat -> Option<byte>, lo: nat, hi: nat) {
    forall x: nat :: lo <= x < hi ==> f(x).Some?
  }

  lemma {:induction false} TotalIsGathered(f: nat -> Option<byte>, lo: nat, hi: nat)
    requires lo <= hi
    ensures |Gathered(f, lo, hi)| == hi - lo <==> Total(f, lo, hi)
    ensures Total(f, lo, hi) ==> forall x: nat :: lo <= x < hi ==> Some(Gathered(f, lo, hi)[x - lo]) == f(x)
    decreases hi - lo
  {
    if lo == hi {
    } else {
      TotalIsGathered(f, lo, hi - 1);
      assert Total(f, lo, hi) <==> Total(f, lo, hi - 1) && f(hi - 1).Some?;
    }
  }

  ghost function Bytewise(v: View): nat -> Option<byte>
    requires WellFormed(v)
  {
    (x: nat) => ByteAt(v, x)
  }

  /** The recorded bytes of [lo, hi), in address order. */
  ghost function Present(v: View, lo: nat, hi: nat): (bytes: seq<byte>)
    requires WellFormed(v) && lo <= hi
    ensures |bytes| <= hi - lo
  {
    Gathered(Bytewise(v), lo, hi)
  }

  /** Every byte of [lo, hi) has been recorded. */
  ghost predicate Covered(v: View, lo: nat, hi: nat)
    requires WellFormed(v)
  {
    forall x: nat :: lo <= x < hi ==> ByteAt(v, x).Some?
  }

  /** A covered range reads back byte by byte; a range with a hole reads back too short. */
  lemma CoveredReadsEveryByte(v: View, lo: nat, hi: nat)
    requires WellFormed(v) && lo <= hi
    ensures |Present(v, lo, hi)| == hi - lo <==> Covered(v, lo, hi)
    ensures Covered(v, lo, hi) ==> forall x: nat :: lo <= x < hi ==> Some(Present(v, lo, hi)[x - lo]) == ByteAt(v, x)
  {
    var f := Bytewise(v);
    TotalIsGathered(f, lo, hi);
    assert Covered(v, lo, hi) ==> Total(f, lo, hi);
    assert Total(f, lo, hi) ==> Covered(v, lo, hi) by {
      forall x: nat | lo <= x < hi && Total(f, lo, hi) ensures ByteAt(v, x).Some? {
        assert f(x).Some?;
      }
    }
    if Covered(v, lo, hi) {
      forall x: nat | lo <= x < hi ensures Some(Present(v, lo, hi)[x - lo]) == ByteAt(v, x) {
        assert f(x) == ByteAt(v, x);
      }
    }
  }

  // What the query and the copy loop produce

  datatype Chunk = Chunk(start: nat, content: seq<byte>)

  /** What the query adds at address `x`. */
  function Candidate(v: View, lo: int, x: nat): seq<Chunk> {
    if lo <= x && v(x).Some? then [Chunk(x, v(x).value)] else []
  }

  /** The newest segment of every address in [lo, hi], by ascending address. */
  function Query(v: View, lo: int, hi: nat): seq<Chunk> {
    if hi == 0 then Candidate(v, lo, hi) else Query(v, lo, hi - 1) + Candidate(v, lo, hi)
  }

  ghost predicate Near(c: Chunk, addr: nat, size: nat) {
    |c.content| == SEGMENT_SIZE && addr - SEGMENT_SIZE <= c.start <= addr + size
  }

  ghost predicate AllNear(chunks: seq<Chunk>, addr: nat, size: nat) {
    forall c :: c in chunks ==> Near(c, addr, size)
  }

  /** The part of a segment that lies in [addr, addr + size). */
  ghost function Clip(c: Chunk, addr: nat, size: nat): seq<byte>
    requires Near(c, addr, size)
  {
    var skip := if c.start < addr then addr - c.start else 0;
    var drop := if c.start + SEGMENT_SIZE > addr + size then c.start + SEGMENT_SIZE - (addr + size) else 0;
    c.content[skip..SEGMENT_SIZE - drop]
  }

  ghost function Joined(chunks: seq<Chunk>, addr: nat, size: nat): seq<byte>
    requires AllNear(chunks, addr, size)
  {
    if chunks == [] then []
    else Joined(chunks[..|chunks| - 1], addr, size) + Clip(chunks[|chunks| - 1], addr, size)
  }

  lemma {:induction false} JoinedPrefix(chunks: seq<Chunk>, n: nat, addr: nat, size: nat)
    requires AllNear(chunks, addr, size) && n <= |chunks|
    ensures Joined(chunks[..n], addr, size) <= Joined(chunks, addr, size)
  {
    if n == |chunks| {
      assert chunks[..n] == chunks;
    } else {
      JoinedPrefix(chunks[..|chunks| - 1], n, addr, size);
      assert chunks[..|chunks| - 1][..n] == chunks[..n];
    }
  }

  lemma JoinedSnoc(chunks: seq<Chunk>, c: Chunk, addr: nat, size: nat)
    requires AllNear(chunks, addr, size) && Near(c, addr, size)
    ensures Joined(chunks + [c], addr, size) == Joined(chunks, addr, size) + Clip(c, addr, size)
  {
  }

  lemma JoinedStep(chunks: seq<Chunk>, i: nat, addr: nat, size: nat)
    requires AllNear(chunks, addr, size) && i < |chunks|
    ensures Near(chunks[i], addr, size)
    ensures Joined(chunks[..i + 1], addr, size) == Joined(chunks[..i], addr, size) + Clip(chunks[i], addr, size)
    ensures |Joined(chunks[..i + 1], addr, size)| <= |Joined(chunks, addr, size)|
  {
    JoinedPrefix(chunks, i + 1, addr, size);
    assert chunks[..i + 1] == chunks[..i] + [chunks[i]];
    assert chunks[i] in chunks;
    JoinedSnoc(chunks[..i], chunks[i], addr, size);
  }

  ghost function Clamp(y: nat, addr: nat, size: nat): (z: nat)
    ensures addr <= z <= addr + size
  {
    if y < addr then addr else if y > addr + size then addr + size else y
  }

  /** Where segments starting below `x` end. */
  ghost function Reach(x: nat): nat {
    if x % SEGMENT_SIZE == 0 then x else SegmentStart(x) + SEGMENT_SIZE
  }

  lemma {:induction false} PresentWithinSegment(v: View, lo: nat, mid: nat, hi: nat, x: nat)
    requires WellFormed(v) && x % SEGMENT_SIZE == 0
    requires lo <= mid <= hi && x <= mid && hi <= x + SEGMENT_SIZE
    ensures Present(v, lo, hi) == Present(v, lo, mid) + if v(x).None? then [] else v(x).value[mid - x..hi - x]
    decreases hi
  {
    if mid == hi {
    } else {
      PresentWithinSegment(v, lo, mid, hi - 1, x);
      LastByte(v, lo, hi, x);
      if v(x).Some? {
        SliceSnoc(v(x).value, mid - x, hi - 1 - x);
      }
    }
  }

  lemma LastByte(v: View, lo: nat, hi: nat, x: nat)
    requires WellFormed(v) && x % SEGMENT_SIZE == 0 && lo < hi && x < hi <= x + SEGMENT_SIZE
    ensures Present(v, lo, hi) == Present(v, lo, hi - 1) + if v(x).None? then [] else [v(x).value[hi - 1 - x]]
  {
  }

  lemma SliceSnoc(bytes: seq<byte>, a: nat, b: nat)
    requires a <= b < |bytes|
    ensures bytes[a..b] + [bytes[b]] == bytes[a..b + 1]
  {
  }

  lemma ReachNext(x: nat)
    ensures x % SEGMENT_SIZE == 0 ==> Reach(x) == x && Reach(x + 1) == x + SEGMENT_SIZE
    ensures x % SEGMENT_SIZE != 0 ==> Reach(x + 1) == Reach(x)
  {
  }

  lemma ClipIsClamped(c: Chunk, addr: nat, size: nat)
    requires Near(c, addr, size)
    ensures var y, z := Clamp(c.start, addr, size), Clamp(c.start + SEGMENT_SIZE, addr, size);
            c.start <= y <= z <= c.start + SEGMENT_SIZE && Clip(c, addr, size) == c.content[y - c.start..z - c.start]
  {
  }

  lemma SegmentAdds(v: View, x: nat, addr: nat, size: nat)
    requires WellFormed(v) && x % SEGMENT_SIZE == 0 && addr - SEGMENT_SIZE <= x <= addr + size
    ensures v(x).Some? ==> Near(Chunk(x, v(x).value), addr, size)
    ensures Present(v, addr, Clamp(x + SEGMENT_SIZE, addr, size)) ==
              Present(v, addr, Clamp(x, addr, size)) +
              if v(x).Some? then Clip(Chunk(x, v(x).value), addr, size) else []
  {
    var y, z := Clamp(x, addr, size), Clamp(x + SEGMENT_SIZE, addr, size);
    assert x <= y <= z <= x + SEGMENT_SIZE;
    PresentWithinSegment(v, addr, y, z, x);
    if v(x).Some? {
      ClipIsClamped(Chunk(x, v(x).value), addr, size);
    }
  }

  /** One candidate address of the query contributes exactly the bytes of its segment. */
  lemma CandidateAdds(v: View, x: nat, addr: nat, size: nat)
    requires WellFormed(v) && addr - SEGMENT_SIZE <= x <= addr + size
    ensures v(x).Some? ==> Near(Chunk(x, v(x).value), addr, size)
    ensures Present(v, addr, Clamp(Reach(x + 1), addr, size)) ==
              Present(v, addr, Clamp(Reach(x), addr, size)) +
              if v(x).Some? then Clip(Chunk(x, v(x).value), addr, size) else []
  {
    ReachNext(x);
    if x % SEGMENT_SIZE == 0 {
      SegmentAdds(v, x, addr, size);
    } else {
      assert v(x).None?;
    }
  }

  /** `read(x)` holds what segments starting below `x` contribute: the candidate at `x` makes it `read(x + 1)`. */
  ghost predicate Extends(v: View, addr: nat, size: nat, read: nat -> seq<byte>, x: nat) {
    var here := Candidate(v, addr - SEGMENT_SIZE, x);
    read(x + 1) == read(x) +
      if here == [] then [] else if Near(here[0], addr, size) then Clip(here[0], addr, size) else []
  }

  ghost predicate Extended(v: View, addr: nat, size: nat, read: nat -> seq<byte>, hi: nat) {
    read(0) == [] && forall x: nat {:trigger Extends(v, addr, size, read, x)} :: x <= hi ==>
        Extends(v, addr, size, read, x)
  }

  ghost predicate Reads(chunks: seq<Chunk>, addr: nat, size: nat, bytes: seq<byte>) {
    AllNear(chunks, addr, size) && Joined(chunks, addr, size) == bytes
  }

  lemma {:induction false} QueryJoins(v: View, addr: nat, size: nat, hi: nat, read: nat -> seq<byte>)
    requires hi <= addr + size && Extended(v, addr, size, read, hi)
    requires forall x: nat :: v(x).Some? ==> |v(x).value| == SEGMENT_SIZE
    ensures Reads(Query(v, addr - SEGMENT_SIZE, hi), addr, size, read(hi + 1))
  {
    assert Extends(v, addr, size, read, hi);
    if hi == 0 {
      assert Reads([], addr, size, read(0));
      CandidateJoins(v, addr, size, 0, [], read);
      assert [] + Candidate(v, addr - SEGMENT_SIZE, 0) == Query(v, addr - SEGMENT_SIZE, 0);
    } else {
      QueryJoins(v, addr, size, hi - 1, read);
      CandidateJoins(v, addr, size, hi, Query(v, addr - SEGMENT_SIZE, hi - 1), read);
    }
  }

  lemma CandidateJoins(v: View, addr: nat, size: nat, x: nat, rest: seq<Chunk>, read: nat -> seq<byte>)
    requires x <= addr + size && Extends(v, addr, size, read, x) && Reads(rest, addr, size, read(x))
    requires v(x).Some? ==> |v(x).value| == SEGMENT_SIZE
    ensures Reads(rest + Candidate(v, addr - SEGMENT_SIZE, x), addr, size, read(x + 1))
  {
    var here := Candidate(v, addr - SEGMENT_SIZE, x);
    if here == [] {
      assert rest + here == rest;
    } else {
      assert Near(here[0], addr, size);
      JoinedSnoc(rest, here[0], addr, size);
    }
  }

  /** The recorded bytes of the range that lie in segments starting below `x`. */
  ghost function PresentBelow(v: View, addr: nat, size: nat, x: nat): seq<byte>
    requires WellFormed(v)
  {
    Present(v, addr, Clamp(Reach(x), addr, size))
  }

  lemma PresentExtends(v: View, addr: nat, size: nat, x: nat)
    requires WellFormed(v) && x <= addr + size
    ensures var here := Candidate(v, addr - SEGMENT_SIZE, x);
            PresentBelow(v, addr, size, x + 1) ==
              PresentBelow(v, addr, size, x) +
              if here == [] then [] else if Near(here[0], addr, size) then Clip(here[0], addr, size) else []
  {
    if x < addr - SEGMENT_SIZE {
      ReachNext(x);
      assert Reach(x + 1) <= addr && Reach(x) <= addr;
    } else {
      CandidateAdds(v, x, addr, size);
    }
  }

  ghost function Below(v: View, addr: nat, size: nat): nat -> seq<byte>
    requires WellFormed(v)
  {
    (x: nat) => PresentBelow(v, addr, size, x)
  }

  lemma AllExtend(v: View, addr: nat, size: nat, x: nat)
    requires WellFormed(v) && x <= addr + size
    ensures Extends(v, addr, size, Below(v, addr, size), x)
  {
    PresentExtends(v, addr, size, x);
  }

  lemma BelowEnds(v: View, addr: nat, size: nat)
    requires WellFormed(v)
    ensures Below(v, addr, size)(0) == []
    ensures Below(v, addr, size)(addr + size + 1) == Present(v, addr, addr + size)
  {
  }

  /** The segments the query selects, clipped and joined, are the recorded bytes of the range. */
  lemma QueryReads(v: View, addr: nat, size: nat)
    requires WellFormed(v)
    ensures Reads(Query(v, addr - SEGMENT_SIZE, addr + size), addr, size, Present(v, addr, addr + size))
  {
    forall x: nat | x <= addr + size ensures Extends(v, addr, size, Below(v, addr, size), x) {
      AllExtend(v, addr, size, x);
    }
    BelowEnds(v, addr, size);
    QueryJoins(v, addr, size, addr + size, Below(v, addr, size));
  }

  /** memcpy */
  method Copy(target: array<byte>, at: nat, source: seq<byte>)
    requires at + |source| <= target.Length
    modifies target
    ensures target[..at + |source|] == old(target[..at]) + source
    ensures forall j :: at + |source| <= j < target.Length ==> target[j] == old(target[j])
  {
    for i := 0 to |source|
      invariant target[..at + i] == old(target[..at]) + source[..i]
      invariant forall j :: at + i <= j < target.Length ==> target[j] == old(target[j])
    {
      target[at + i] := source[i];
    }
  }

  /** How much of a fetched segment to copy, and from where, as get_var_value computes it. */
  method Cut(start: nat, addr: nat, size: nat) returns (from: nat, toCopy: nat)
    requires addr - SEGMENT_SIZE <= start <= addr + size
    ensures from + toCopy <= SEGMENT_SIZE
    ensures forall content: seq<byte> :: |content| == SEGMENT_SIZE ==>
              content[from..from + toCopy] == Clip(Chunk(start, content), addr, size)
  {
    var n: int := SEGMENT_SIZE;
    from := 0;
    if start + SEGMENT_SIZE > addr + size {
      n := n - ((start + SEGMENT_SIZE) - (addr + size));
    }
    if start < addr {
      n := n - (addr - start);
      from := from + (addr - start);
    }
    toCopy := n;
  }

  /** The fetch loop: each segment's part is copied to the cursor, which moves past it. */
  method Assemble(chunks: seq<Chunk>, addr: nat, size: nat) returns (buffer: array<byte>)
    requires AllNear(chunks, addr, size) && |Joined(chunks, addr, size)| <= size
    ensures fresh(buffer) && buffer.Length == size + 1
    ensures buffer[..|Joined(chunks, addr, size)|] == Joined(chunks, addr, size)
    ensures forall j :: |Joined(chunks, addr, size)| <= j <= size ==> buffer[j] == 0
  {
    buffer := new byte[size + 1](_ => 0);
    var cur := 0;
    for i := 0 to |chunks|
      invariant cur == |Joined(chunks[..i], addr, size)| <= size
      invariant buffer[..cur] == Joined(chunks[..i], addr, size)
      invariant forall j :: cur <= j <= size ==> buffer[j] == 0
    {
      ghost var done := Joined(chunks[..i], addr, size);
      JoinedStep(chunks, i, addr, size);
      var from, toCopy := Cut(chunks[i].start, addr, size);
      var part := chunks[i].content[from..from + toCopy];
      assert Joined(chunks[..i + 1], addr, size) == done + part;
      Copy(buffer, cur, part);
      cur := cur + toCopy;
    }
    assert chunks[..|chunks|] == chunks;
  }

  /**
   get_var_value: the buffer holds the recorded bytes of the range, packed from its start,
   and zeros after them. The cursor never leaves the buffer.
   */
  method GetVarValue(v: View, addr: nat, size: nat) returns (buffer: array<byte>)
    requires WellFormed(v)
    ensures fresh(buffer) && buffer.Length == size + 1
    ensures buffer[..|Present(v, addr, addr + size)|] == Present(v, addr, addr + size)
    ensures forall j :: |Present(v, addr, addr + size)| <= j <= size ==> buffer[j] == 0
  {
    QueryReads(v, addr, size);
    buffer := Assemble(Query(v, addr - SEGMENT_SIZE, addr + size), addr, size);
  }

  /** A range of two bytes of which the first was never recorded: the second comes first. */
  lemma HoleExample(v: View, content: seq<byte>)
    requires WellFormed(v) && v(0).None? && v(32) == Some(content)
    ensures Present(v, 31, 33) == [content[0]]
  {
  }
}
