/**
 The page cache of memcache.c: an array of regions sorted by start address, with the
 cached bytes of each, and the rows it sends to the `mem` table. Its operations refine
 the abstract mirror of the recorder, in which a linear scan finds the page.
 */
module MemCache {
  import opened Bytes
  import opened SegmentLog
  import opened Memdiff
  import opened Recorder

  /** `struct region`: [start, start + |pages|) with its cached bytes. */
  datatype CachedRegion = CachedRegion(start: nat, pages: seq<byte>) {
    ghost predicate Valid() {
      Aligned(start) && Aligned(|pages|) && start > 0 && |pages| > 0
    }

    function End(): nat {
      start + |pages|
    }

    predicate Contains(address: nat) {
      start <= address < End()
    }
  }

  ghost predicate Sorted(cache: seq<CachedRegion>) {
    && (forall i :: 0 <= i < |cache| ==> cache[i].Valid())
    && (forall i, j :: 0 <= i < j < |cache| ==> cache[i].End() <= cache[j].start)
  }

  /** Page `p` of a region. */
  ghost function PageIn(r: CachedRegion, p: nat): Page
    requires r.Valid() && r.Contains(p * PAGE_SIZE)
  {
    PageFits(r, p);
    r.pages[p * PAGE_SIZE - r.start..p * PAGE_SIZE - r.start + PAGE_SIZE]
  }

  lemma PageFits(r: CachedRegion, p: nat)
    requires r.Valid() && r.Contains(p * PAGE_SIZE)
    ensures p * PAGE_SIZE + PAGE_SIZE <= r.End()
  {
  }

  /** The cached copy of page `p`, by linear scan. */
  ghost function Scan(cache: seq<CachedRegion>, p: nat): Option<Page>
    requires Sorted(cache)
  {
    if cache == [] then None
    else if cache[0].Contains(p * PAGE_SIZE) then Some(PageIn(cache[0], p))
    else Scan(cache[1..], p)
  }

  lemma {:induction false} ScanFinds(cache: seq<CachedRegion>, i: nat, p: nat)
    requires Sorted(cache) && i < |cache| && cache[i].Contains(p * PAGE_SIZE)
    ensures Scan(cache, p) == Some(PageIn(cache[i], p))
  {
    if i == 0 {
    } else {
      assert cache[0].End() <= cache[i].start;
      ScanFinds(cache[1..], i - 1, p);
    }
  }

  lemma {:induction false} ScanMisses(cache: seq<CachedRegion>, p: nat)
    requires Sorted(cache)
    requires forall i :: 0 <= i < |cache| ==> !cache[i].Contains(p * PAGE_SIZE)
    ensures Scan(cache, p) == None
  {
    if cache == [] {
    } else {
      ScanMisses(cache[1..], p);
    }
  }

  lemma ContainsItsPage(r: CachedRegion, address: nat)
    requires r.Valid()
    ensures r.Contains(address) <==> r.Contains(PageOf(address) * PAGE_SIZE)
  {
  }

  /** Replacing the bytes of one region changes only the pages that changed in it. */
  lemma ScanUpdate(cache: seq<CachedRegion>, i: nat, r: CachedRegion, p: nat)
    requires Sorted(cache) && i < |cache| && r.start == cache[i].start && |r.pages| == |cache[i].pages|
    ensures Sorted(cache[i := r])
    ensures Scan(cache[i := r], p) == if r.Contains(p * PAGE_SIZE) then Some(PageIn(r, p)) else Scan(cache, p)
  {
    var next := cache[i := r];
    if j :| 0 <= j < |cache| && cache[j].Contains(p * PAGE_SIZE) {
      ScanFinds(cache, j, p);
      assert next[j].Contains(p * PAGE_SIZE);
      ScanFinds(next, j, p);
    } else {
      ScanMisses(cache, p);
      ScanMisses(next, p);
    }
  }

  function Inserted(cache: seq<CachedRegion>, i: nat, r: CachedRegion): seq<CachedRegion>
    requires i <= |cache|
  {
    cache[..i] + [r] + cache[i..]
  }

  lemma InsertedAt(cache: seq<CachedRegion>, i: nat, r: CachedRegion, j: nat)
    requires i <= |cache| && j < |cache|
    ensures Inserted(cache, i, r)[i] == r
    ensures Inserted(cache, i, r)[if j < i then j else j + 1] == cache[j]
  {
  }

  /** Inserting a region keeps every other page where it was. */
  lemma ScanInsert(cache: seq<CachedRegion>, i: nat, r: CachedRegion, p: nat)
    requires Sorted(cache) && i <= |cache| && r.Valid() && Sorted(Inserted(cache, i, r))
    ensures Scan(Inserted(cache, i, r), p) == if r.Contains(p * PAGE_SIZE) then Some(PageIn(r, p)) else Scan(cache, p)
  {
    if r.Contains(p * PAGE_SIZE) {
      assert Inserted(cache, i, r)[i] == r;
      ScanFinds(Inserted(cache, i, r), i, p);
    } else if j :| 0 <= j < |cache| && cache[j].Contains(p * PAGE_SIZE) {
      ScanFinds(cache, j, p);
      InsertedAt(cache, i, r, j);
      ScanFinds(Inserted(cache, i, r), if j < i then j else j + 1, p);
    } else {
      ScanMisses(cache, p);
      InsertMisses(cache, i, r, p);
    }
  }

  lemma InsertMisses(cache: seq<CachedRegion>, i: nat, r: CachedRegion, p: nat)
    requires i <= |cache| && Sorted(Inserted(cache, i, r)) && !r.Contains(p * PAGE_SIZE)
    requires forall j :: 0 <= j < |cache| ==> !cache[j].Contains(p * PAGE_SIZE)
    ensures Scan(Inserted(cache, i, r), p) == None
  {
    var next := Inserted(cache, i, r);
    forall j | 0 <= j < |next| ensures !next[j].Contains(p * PAGE_SIZE) {
      assert next[j] == if j < i then cache[j] else if j == i then r else cache[j - 1];
    }
    ScanMisses(next, p);
  }

  ghost predicate Represents(cache: seq<CachedRegion>, cached: Memory)
    requires Sorted(cache)
  {
    forall p: nat :: Scan(cache, p) == if p in cached then Some(cached[p]) else None
  }

  // Reading the child

  /** process_vm_readv: the bytes of `count` pages from page `first`. */
  function ReadPages(mem: Memory, first: nat, count: nat): (bytes: seq<byte>)
    requires forall p :: first <= p < first + count ==> p in mem
    ensures |bytes| == count * PAGE_SIZE
  {
    if count == 0 then [] else ReadPages(mem, first, count - 1) + mem[first + count - 1]
  }

  lemma {:induction false} ReadPage(mem: Memory, first: nat, count: nat, i: nat)
    requires forall p :: first <= p < first + count ==> p in mem
    requires i < count
    ensures ReadPages(mem, first, count)[i * PAGE_SIZE..i * PAGE_SIZE + PAGE_SIZE] == mem[first + i]
  {
    var before := ReadPages(mem, first, count - 1);
    if i == count - 1 {
      assert (before + mem[first + i])[|before|..] == mem[first + i];
    } else {
      ReadPage(mem, first, count - 1, i);
      assert (before + mem[first + count - 1])[i * PAGE_SIZE..i * PAGE_SIZE + PAGE_SIZE] ==
             before[i * PAGE_SIZE..i * PAGE_SIZE + PAGE_SIZE];
    }
  }

  /** The rows for the first `n` segments of a region. */
  ghost function RowsUpTo(first: nat, count: nat, mem: Memory, step: nat, n: nat): Log
    requires forall p :: first <= p < first + count ==> p in mem
    requires n <= count * SEGMENTS_PER_PAGE
  {
    var pages, rest := n / SEGMENTS_PER_PAGE, n % SEGMENTS_PER_PAGE;
    RegionRows(first, pages, mem, step) +
    if rest == 0 then [] else PageDelta(first + pages, None, mem[first + pages], step, rest)
  }

  lemma RowsUpToNext(first: nat, count: nat, mem: Memory, step: nat, n: nat)
    requires forall p :: first <= p < first + count ==> p in mem
    requires n < count * SEGMENTS_PER_PAGE
    ensures |ReadPages(mem, first, count)| == count * PAGE_SIZE
    ensures var o := SEGMENT_SIZE * n;
            RowsUpTo(first, count, mem, step, n + 1) ==
              RowsUpTo(first, count, mem, step, n) +
              [Row(first * PAGE_SIZE + o, step, ReadPages(mem, first, count)[o..o + SEGMENT_SIZE])]
  {
    var pages, rest := n / SEGMENTS_PER_PAGE, n % SEGMENTS_PER_PAGE;
    var o := SEGMENT_SIZE * n;
    var bytes := ReadPages(mem, first, count);
    ReadPage(mem, first, count, pages);
    var page := bytes[pages * PAGE_SIZE..pages * PAGE_SIZE + PAGE_SIZE];
    SliceOfSlice(bytes, pages * PAGE_SIZE, pages * PAGE_SIZE + PAGE_SIZE,
      SEGMENT_SIZE * rest, SEGMENT_SIZE * rest + SEGMENT_SIZE);
    assert o == pages * PAGE_SIZE + SEGMENT_SIZE * rest;
    var row := Row(SegmentAddress(first + pages, rest), step, Segment(mem[first + pages], rest));
    assert row.address == first * PAGE_SIZE + o;
    var delta := if rest == 0 then [] else PageDelta(first + pages, None, mem[first + pages], step, rest);
    assert PageDelta(first + pages, None, mem[first + pages], step, rest + 1) == delta + [row];
    assert RowsUpTo(first, count, mem, step, n) + [row] == RegionRows(first, pages, mem, step) + (delta + [row]);
    if rest + 1 == SEGMENTS_PER_PAGE {
      assert (n + 1) / SEGMENTS_PER_PAGE == pages + 1 && (n + 1) % SEGMENTS_PER_PAGE == 0;
    } else {
      assert (n + 1) / SEGMENTS_PER_PAGE == pages && (n + 1) % SEGMENTS_PER_PAGE == rest + 1;
    }
  }

  lemma RowsUpToAll(first: nat, count: nat, mem: Memory, step: nat)
    requires forall p :: first <= p < first + count ==> p in mem
    ensures RowsUpTo(first, count, mem, step, 0) == []
    ensures RowsUpTo(first, count, mem, step, count * SEGMENTS_PER_PAGE) == RegionRows(first, count, mem, step)
  {
    assert count * SEGMENTS_PER_PAGE / SEGMENTS_PER_PAGE == count && count * SEGMENTS_PER_PAGE % SEGMENTS_PER_PAGE == 0;
  }

  // Updating a page in place

  function Splice(bytes: seq<byte>, at: nat, part: seq<byte>): (r: seq<byte>)
    requires at + |part| <= |bytes|
    ensures |r| == |bytes|
  {
    bytes[..at] + part + bytes[at + |part|..]
  }

  /** A page whose first `n` bytes have been brought up to date. */
  ghost function Updated(was: Page, now: Page, n: nat): Page
    requires n <= PAGE_SIZE
  {
    now[..n] + was[n..]
  }

  /** What one round of process_page must do to the cached page and to the log. */
  lemma ProcessSegment(p: nat, was: Page, now: Page, step: nat, k: nat)
    requires k < SEGMENTS_PER_PAGE
    ensures var n := SEGMENT_SIZE * k;
            && Updated(was, now, n)[n..n + SEGMENT_SIZE] == Segment(was, k)
            && (Changed(Some(was), now, k) ==>
                  && Splice(Updated(was, now, n), n, Segment(now, k)) == Updated(was, now, n + SEGMENT_SIZE)
                  && PageDelta(p, Some(was), now, step, k + 1) ==
                       PageDelta(p, Some(was), now, step, k) + [Row(SegmentAddress(p, k), step, Segment(now, k))])
            && (!Changed(Some(was), now, k) ==>
                  && Updated(was, now, n + SEGMENT_SIZE) == Updated(was, now, n)
                  && PageDelta(p, Some(was), now, step, k + 1) == PageDelta(p, Some(was), now, step, k))
  {
  }

  /** The mirror after the whole queue has been processed. */
  ghost function DrainAll(m: Mirror, mem: Memory, queue: seq<nat>, step: nat): Mirror
    requires m.cached.Keys <= mem.Keys
    decreases |queue|
  {
    if queue == [] then m
    else
      var n := ProcessAddress(m, mem, queue[0], step);
      assert n.cached.Keys == m.cached.Keys;
      DrainAll(n, mem, queue[1..], step)
  }

  /** The binary search of find_page. */
  method FindRegion(cache: seq<CachedRegion>, address: nat) returns (found: bool, index: nat)
    requires Sorted(cache)
    ensures found ==> index < |cache| && cache[index].Contains(address)
    ensures !found ==> forall i :: 0 <= i < |cache| ==> !cache[i].Contains(address)
  {
    var left, right := 0, |cache|;
    index := right / 2;
    while right > left
      invariant 0 <= left <= right <= |cache| && index == (left + right) / 2
      invariant forall i :: 0 <= i < left ==> cache[i].End() <= address
      invariant forall i :: right <= i < |cache| ==> address < cache[i].start
    {
      if address < cache[index].start {
        right := index;
      } else if address >= cache[index].End() {
        left := index + 1;
      } else {
        break;
      }
      index := (left + right) / 2;
    }
    found := left != right;
  }

  /** The loop of process_page over the segments of one page. */
  method UpdatePage(p: nat, was: Page, buffer: Page, step: nat) returns (cached: Page, rows: Log)
    ensures cached == buffer
    ensures rows == PageDelta(p, Some(was), buffer, step, SEGMENTS_PER_PAGE)
  {
    UpdatedEnds(was, buffer);
    cached, rows := was, [];
    for k := 0 to SEGMENTS_PER_PAGE
      invariant cached == Updated(was, buffer, SEGMENT_SIZE * k)
      invariant rows == PageDelta(p, Some(was), buffer, step, k)
    {
      cached, rows := UpdateOne(p, was, buffer, step, k, cached, rows);
    }
  }

  /** One round: compare a segment, and if it changed copy it and log it. */
  method UpdateOne(p: nat, ghost was: Page, buffer: Page, step: nat, k: nat, before: Page, rows: Log)
    returns (cached: Page, log: Log)
    requires k < SEGMENTS_PER_PAGE && before == Updated(was, buffer, SEGMENT_SIZE * k)
    requires rows == PageDelta(p, Some(was), buffer, step, k)
    ensures cached == Updated(was, buffer, SEGMENT_SIZE * k + SEGMENT_SIZE)
    ensures log == PageDelta(p, Some(was), buffer, step, k + 1)
  {
    ProcessSegment(p, was, buffer, step, k);
    var at := SEGMENT_SIZE * k;
    var segment := Segment(buffer, k);
    var differ := Memdiff32(segment, before[at..at + SEGMENT_SIZE]);
    if differ {
      cached := Splice(before, at, segment);
      log := rows + [Row(p * PAGE_SIZE + at, step, segment)];
    } else {
      cached, log := before, rows;
    }
  }

  lemma UpdatedEnds(was: Page, now: Page)
    ensures Updated(was, now, 0) == was && Updated(was, now, PAGE_SIZE) == now
  {
  }

  /** The loop of cache_add_region: every segment of a new region is logged. */
  method RowsOfRegion(added: CachedRegion, step: nat, ghost mem: Memory, ghost count: nat) returns (rows: Log)
    requires Aligned(added.start)
    requires forall p :: added.start / PAGE_SIZE <= p < added.start / PAGE_SIZE + count ==> p in mem
    requires added.pages == ReadPages(mem, added.start / PAGE_SIZE, count)
    ensures rows == RegionRows(added.start / PAGE_SIZE, count, mem, step)
  {
    ghost var first := added.start / PAGE_SIZE;
    RowsUpToAll(first, count, mem, step);
    rows := [];
    var offset := 0;
    ghost var n, total := 0, count * SEGMENTS_PER_PAGE;
    assert |added.pages| == SEGMENT_SIZE * total;
    while offset < |added.pages|
      invariant offset == SEGMENT_SIZE * n && n <= total
      invariant rows == RowsUpTo(first, count, mem, step, n)
    {
      RowsUpToNext(first, count, mem, step, n);
      rows := rows + [Row(added.start + offset, step, added.pages[offset..offset + SEGMENT_SIZE])];
      offset, n := offset + SEGMENT_SIZE, n + 1;
    }
  }

  class PageCache {
    var cache: seq<CachedRegion>
    var log: Log

    /** The array and the rows sent so far stand for an abstract mirror. */
    ghost predicate Refines(m: Mirror)
      reads this
    {
      Sorted(cache) && Represents(cache, m.cached) && log == m.log
    }

    constructor ()
      ensures Refines(Mirror(map[], []))
    {
      cache := [];
      log := [];
    }

    /**
     find_page: the start of the page holding `address` and where its cached copy lies,
     or 0 exactly when a linear scan finds no region with that page.
     */
    method FindPage(address: nat) returns (page: nat, region: nat, offset: nat)
      requires Sorted(cache)
      ensures page == 0 <==> Scan(cache, PageOf(address)).None?
      ensures page != 0 ==>
                && page == PageOf(address) * PAGE_SIZE
                && region < |cache| && offset + PAGE_SIZE <= |cache[region].pages|
                && cache[region].start + offset == page
                && Scan(cache, PageOf(address)) == Some(cache[region].pages[offset..offset + PAGE_SIZE])
    {
      var found, index := FindRegion(cache, address);
      if !found {
        AddressMisses(cache, address);
        return 0, 0, 0;
      }
      var pageNum := (address - cache[index].start) / PAGE_SIZE;
      AddressFinds(cache, index, address);
      return cache[index].start + pageNum * PAGE_SIZE, index, pageNum * PAGE_SIZE;
    }

    /** process_page: log the changed segments of a page and bring the cached copy up to date. */
    method ProcessPage(page: nat, region: nat, offset: nat, buffer: Page, step: nat)
      requires Sorted(cache) && region < |cache| && offset + PAGE_SIZE <= |cache[region].pages|
      requires page % PAGE_SIZE == 0
      modifies this
      ensures var was := old(cache[region]);
              cache == old(cache)[region := was.(pages := Splice(was.pages, offset, buffer))]
      ensures log == old(log) +
                PageDelta(page / PAGE_SIZE, Some(old(cache[region].pages)[offset..offset + PAGE_SIZE]),
                          buffer, step, SEGMENTS_PER_PAGE)
    {
      var cached, rows := UpdatePage(page / PAGE_SIZE, cache[region].pages[offset..offset + PAGE_SIZE], buffer, step);
      log := log + rows;
      cache := cache[region := cache[region].(pages := Splice(cache[region].pages, offset, cached))];
    }

    /** proc_dirty_mem: drain the fault addresses; the abstract mirror takes the same rounds. */
    method ProcDirtyMem(queue: seq<nat>, mem: Memory, step: nat, ghost m: Mirror)
      requires Refines(m) && m.cached.Keys <= mem.Keys
      modifies this
      ensures Refines(DrainAll(m, mem, queue, step))
    {
      ghost var now := m;
      var left := queue;
      while left != []
        invariant Refines(now) && now.cached.Keys <= mem.Keys
        invariant DrainAll(m, mem, queue, step) == DrainAll(now, mem, left, step)
        decreases |left|
      {
        ghost var next := ProcessAddress(now, mem, left[0], step);
        ProcessOne(left[0], mem, step, now);
        assert next.cached.Keys == now.cached.Keys;
        left := left[1..];
        now := next;
      }
    }

    method ProcessOne(address: nat, mem: Memory, step: nat, ghost m: Mirror)
      requires Refines(m) && m.cached.Keys <= mem.Keys
      modifies this
      ensures Refines(ProcessAddress(m, mem, address, step))
    {
      ghost var p := PageOf(address);
      var page, region, offset := FindPage(address);
      if page != 0 {
        ghost var was := cache;
        ProcessPage(page, region, offset, mem[page / PAGE_SIZE], step);
        ghost var r := cache[region];
        forall q: nat ensures Sorted(cache) && Scan(cache, q) == if q == p then Some(mem[p]) else Scan(was, q) {
          ScanUpdate(was, region, r, q);
          if r.Contains(q * PAGE_SIZE) {
            ScanFinds(was, region, q);
            SplicedPage(was[region], offset, mem[p], p, q);
          }
        }
      }
    }

    /** cache_add_region: the array stays sorted, loses no region and gains the new one. */
    method AddRegion(address: nat, size: nat, step: nat, mem: Memory, ghost m: Mirror)
      requires Refines(m)
      requires size > 0 && GoodRegion(Region(address, size), m.cached.Keys, mem.Keys)
      requires Readable(mem, Region(address, size))
      modifies this
      ensures Refines(Recorder.AddRegion(m, mem, Region(address, size), step))
    {
      var first, count := address / PAGE_SIZE, size / PAGE_SIZE;
      var index := 0;
      while index < |cache| && cache[index].start <= address
        invariant index <= |cache|
        invariant forall i :: 0 <= i < index ==> cache[i].start <= address
      {
        index := index + 1;
      }
      var added := CachedRegion(address, ReadPages(mem, first, count));
      InsertIsSorted(cache, index, added, m.cached.Keys);
      InsertRepresents(cache, index, added, m, mem, Region(address, size), step);
      cache := Inserted(cache, index, added);
      var rows := RowsOfRegion(added, step, mem, count);
      log := log + rows;
    }
  }

  /** The array with the new region stands for the mirror with its pages. */
  lemma InsertRepresents(cache: seq<CachedRegion>, index: nat, added: CachedRegion, m: Mirror, mem: Memory,
      region: Region, step: nat)
    requires Sorted(cache) && Represents(cache, m.cached) && index <= |cache| && Sorted(Inserted(cache, index, added))
    requires Readable(mem, region) && added.Valid()
    requires added == CachedRegion(region.FirstPage() * PAGE_SIZE,
                                   ReadPages(mem, region.FirstPage(), region.PageCount()))
    ensures Represents(Inserted(cache, index, added), Recorder.AddRegion(m, mem, region, step).cached)
  {
    var first, count := region.FirstPage(), region.PageCount();
    var next := Recorder.AddRegion(m, mem, region, step).cached;
    forall p: nat ensures Scan(Inserted(cache, index, added), p) == if p in next then Some(next[p]) else None {
      ScanInsert(cache, index, added, p);
      AddedPage(added, mem, first, count, p);
    }
  }

  /** The pages of a region just read are the child's. */
  lemma AddedPage(r: CachedRegion, mem: Memory, first: nat, count: nat, p: nat)
    requires forall q :: first <= q < first + count ==> q in mem
    requires r.Valid() && r.start == first * PAGE_SIZE && r.pages == ReadPages(mem, first, count)
    ensures r.Contains(p * PAGE_SIZE) <==> first <= p < first + count
    ensures first <= p < first + count ==> PageIn(r, p) == mem[p]
  {
    if first <= p < first + count {
      ReadPage(mem, first, count, p - first);
    }
  }

  lemma AddressMisses(cache: seq<CachedRegion>, address: nat)
    requires Sorted(cache) && forall i :: 0 <= i < |cache| ==> !cache[i].Contains(address)
    ensures Scan(cache, PageOf(address)).None?
  {
    forall i | 0 <= i < |cache| ensures !cache[i].Contains(PageOf(address) * PAGE_SIZE) {
      ContainsItsPage(cache[i], address);
    }
    ScanMisses(cache, PageOf(address));
  }

  lemma AddressFinds(cache: seq<CachedRegion>, i: nat, address: nat)
    requires Sorted(cache) && i < |cache| && cache[i].Contains(address)
    ensures var r, offset := cache[i], (address - cache[i].start) / PAGE_SIZE * PAGE_SIZE;
            && r.start + offset == PageOf(address) * PAGE_SIZE > 0 && offset + PAGE_SIZE <= |r.pages|
            && Scan(cache, PageOf(address)) == Some(r.pages[offset..offset + PAGE_SIZE])
  {
    PageWithin(cache[i], address);
    PageFits(cache[i], PageOf(address));
    ScanFinds(cache, i, PageOf(address));
  }

  lemma PageWithin(r: CachedRegion, address: nat)
    requires r.Valid() && r.Contains(address)
    ensures r.Contains(PageOf(address) * PAGE_SIZE)
    ensures r.start + (address - r.start) / PAGE_SIZE * PAGE_SIZE == PageOf(address) * PAGE_SIZE
  {
  }

  lemma SplicedPage(r: CachedRegion, offset: nat, page: Page, p: nat, q: nat)
    requires r.Valid() && offset + PAGE_SIZE <= |r.pages| && r.start + offset == p * PAGE_SIZE
    requires r.Contains(q * PAGE_SIZE)
    ensures var s := r.(pages := Splice(r.pages, offset, page));
            PageIn(s, q) == if q == p then page else PageIn(r, q)
  {
  }

  /** Two regions that overlap share a whole page. */
  lemma OverlapSharesPage(a: CachedRegion, b: CachedRegion) returns (p: nat)
    requires a.Valid() && b.Valid() && a.End() > b.start && b.End() > a.start
    ensures a.Contains(p * PAGE_SIZE) && b.Contains(p * PAGE_SIZE)
  {
    p := (if a.start > b.start then a.start else b.start) / PAGE_SIZE;
  }

  lemma ContainedPage(r: CachedRegion, p: nat)
    requires r.Valid() && r.Contains(p * PAGE_SIZE)
    ensures p in PageRange(r.start, |r.pages|)
  {
  }

  lemma InsertBetween(cache: seq<CachedRegion>, index: nat, r: CachedRegion)
    requires Sorted(cache) && index <= |cache| && r.Valid()
    requires forall i :: 0 <= i < index ==> cache[i].End() <= r.start
    requires forall i :: index <= i < |cache| ==> r.End() <= cache[i].start
    ensures Sorted(Inserted(cache, index, r))
  {
  }

  lemma NewIsDisjoint(cache: seq<CachedRegion>, i: nat, r: CachedRegion, keys: set<nat>)
    requires Sorted(cache) && i < |cache| && r.Valid()
    requires forall p: nat :: Scan(cache, p).Some? ==> p in keys
    requires PageRange(r.start, |r.pages|) !! keys
    ensures cache[i].End() <= r.start || r.End() <= cache[i].start
  {
    if cache[i].End() > r.start && r.End() > cache[i].start {
      var p := OverlapSharesPage(cache[i], r);
      ScanFinds(cache, i, p);
      ContainedPage(r, p);
    }
  }

  lemma LaterRegions(cache: seq<CachedRegion>, index: nat, r: CachedRegion)
    requires Sorted(cache) && index < |cache| && r.End() <= cache[index].start
    ensures forall i :: index <= i < |cache| ==> r.End() <= cache[i].start
  {
  }

  lemma InsertIsSorted(cache: seq<CachedRegion>, index: nat, r: CachedRegion, keys: set<nat>)
    requires Sorted(cache) && index <= |cache| && r.Valid()
    requires forall i :: 0 <= i < index ==> cache[i].start <= r.start
    requires index < |cache| ==> cache[index].start > r.start
    requires forall p: nat :: Scan(cache, p).Some? ==> p in keys
    requires PageRange(r.start, |r.pages|) !! keys
    ensures Sorted(Inserted(cache, index, r))
  {
    forall i | 0 <= i < index ensures cache[i].End() <= r.start {
      NewIsDisjoint(cache, i, r, keys);
    }
    if index < |cache| {
      NewIsDisjoint(cache, index, r, keys);
      LaterRegions(cache, index, r);
    }
    InsertBetween(cache, index, r);
  }
}
