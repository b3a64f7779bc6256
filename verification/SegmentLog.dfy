/**
 The `mem` table: rows (address, step, content), one per changed segment, and the
 query that picks the newest row of a segment at a step.
 */
module SegmentLog {
  import opened Bytes

  datatype Row = Row(address: nat, step: nat, content: seq<byte>)

  type Log = seq<Row>

  /**
   The row of `address` with the greatest step not after `step`
   (GROUP BY address HAVING step_id = MAX(step_id)).
   */
  function Newest(log: Log, address: nat, step: nat): (r: Option<Row>)
    ensures r.Some? ==> r.value in log && r.value.address == address && r.value.step <= step
  {
    if log == [] then None
    else
      var last := log[|log| - 1];
      assert log == log[..|log| - 1] + [last];
      var r := Newest(log[..|log| - 1], address, step);
      if last.address == address && last.step <= step && (r.None? || r.value.step < last.step)
      then Some(last) else r
  }

  lemma {:induction false} NewestIsMaximal(log: Log, address: nat, step: nat)
    ensures forall x :: x in log && x.address == address && x.step <= step ==>
              Newest(log, address, step).Some? && x.step <= Newest(log, address, step).value.step
  {
    if log == [] {
    } else {
      NewestIsMaximal(log[..|log| - 1], address, step);
      assert log == log[..|log| - 1] + [log[|log| - 1]];
    }
  }

  /** No two rows share an address and a step: the unique index on (address, step_id) builds. */
  ghost predicate Unique(log: Log) {
    forall i, j :: 0 <= i < j < |log| ==> log[i].address != log[j].address || log[i].step != log[j].step
  }

  /** With a unique index the query's answer does not depend on how the engine breaks ties. */
  lemma NewestIsDetermined(log: Log, address: nat, step: nat, r: Row)
    requires Unique(log)
    requires r in log && r.address == address && r.step <= step
    requires forall x :: x in log && x.address == address && x.step <= step ==> x.step <= r.step
    ensures Newest(log, address, step) == Some(r)
  {
    NewestIsMaximal(log, address, step);
    var n := Newest(log, address, step).value;
    var i :| 0 <= i < |log| && log[i] == r;
    var j :| 0 <= j < |log| && log[j] == n;
  }

  /** The rows emitted for the first `n` segments of a page whose cached copy was `was`. */
  function PageDelta(p: nat, was: Option<Page>, now: Page, step: nat, n: nat): (rows: Log)
    requires n <= SEGMENTS_PER_PAGE
    ensures |rows| <= n
  {
    if n == 0 then []
    else
      var rows := PageDelta(p, was, now, step, n - 1);
      if Changed(was, now, n - 1)
      then rows + [Row(SegmentAddress(p, n - 1), step, Segment(now, n - 1))]
      else rows
  }

  predicate Changed(was: Option<Page>, now: Page, k: nat)
    requires k < SEGMENTS_PER_PAGE
  {
    was.None? || Segment(was.value, k) != Segment(now, k)
  }

  /** A page of a region that is new to the cache logs all its segments. */
  function RegionRows(first: nat, count: nat, mem: map<nat, Page>, step: nat): (rows: Log)
    requires forall p :: first <= p < first + count ==> p in mem
  {
    if count == 0 then []
    else
      RegionRows(first, count - 1, mem, step) +
      PageDelta(first + count - 1, None, mem[first + count - 1], step, SEGMENTS_PER_PAGE)
  }

  // What the rows of a delta are

  lemma {:induction false} DeltaRows(p: nat, was: Option<Page>, now: Page, step: nat, n: nat)
    requires n <= SEGMENTS_PER_PAGE
    ensures forall r :: r in PageDelta(p, was, now, step, n) ==>
              r.step == step && PageOf(r.address) == p && r.address % SEGMENT_SIZE == 0 &&
              |r.content| == SEGMENT_SIZE && p * PAGE_SIZE <= r.address < SegmentAddress(p, n)
  {
    if n == 0 {
    } else {
      DeltaRows(p, was, now, step, n - 1);
      SegmentInPage(p, n - 1);
      var rest := PageDelta(p, was, now, step, n - 1);
      forall r | r in PageDelta(p, was, now, step, n)
        ensures r in rest || (r.address == SegmentAddress(p, n - 1) && r.step == step && |r.content| == SEGMENT_SIZE)
      {
      }
    }
  }

  /** A delta holds a row for a segment if and only if the segment changed, and then its new content. */
  lemma {:induction false} DeltaIsExact(p: nat, was: Option<Page>, now: Page, step: nat, n: nat, k: nat)
    requires k < n <= SEGMENTS_PER_PAGE
    ensures Changed(was, now, k) <==>
              Row(SegmentAddress(p, k), step, Segment(now, k)) in PageDelta(p, was, now, step, n)
    ensures forall r :: r in PageDelta(p, was, now, step, n) && r.address == SegmentAddress(p, k) ==>
              r == Row(SegmentAddress(p, k), step, Segment(now, k))
  {
    if k < n - 1 {
      DeltaIsExact(p, was, now, step, n - 1, k);
    } else {
      DeltaRows(p, was, now, step, n - 1);
    }
  }

  lemma {:induction false} UnchangedPageHasNoDelta(p: nat, page: Page, step: nat, n: nat)
    requires n <= SEGMENTS_PER_PAGE
    ensures PageDelta(p, Some(page), page, step, n) == []
  {
    if n == 0 {
    } else {
      UnchangedPageHasNoDelta(p, page, step, n - 1);
    }
  }

  lemma {:induction false} RegionRowsFacts(first: nat, count: nat, mem: map<nat, Page>, step: nat)
    requires forall p :: first <= p < first + count ==> p in mem
    ensures forall r :: r in RegionRows(first, count, mem, step) ==>
              r.step == step && first <= PageOf(r.address) < first + count &&
              r.address % SEGMENT_SIZE == 0 && |r.content| == SEGMENT_SIZE
  {
    if count == 0 {
    } else {
      RegionRowsFacts(first, count - 1, mem, step);
      DeltaRows(first + count - 1, None, mem[first + count - 1], step, SEGMENTS_PER_PAGE);
    }
  }

  // Appending rows

  lemma NewestSnoc(log: Log, row: Row, address: nat, step: nat)
    ensures Newest(log + [row], address, step) ==
              var r := Newest(log, address, step);
              if row.address == address && row.step <= step && (r.None? || r.value.step < row.step)
              then Some(row) else r
  {
  }

  lemma NewestOfLast(log: Log, rows: Log, row: Row, address: nat, step: nat)
    ensures Newest(log + (rows + [row]), address, step) ==
              var r := Newest(log + rows, address, step);
              if row.address == address && row.step <= step && (r.None? || r.value.step < row.step)
              then Some(row) else r
  {
    assert log + (rows + [row]) == (log + rows) + [row];
    NewestSnoc(log + rows, row, address, step);
  }

  lemma {:induction false} NewestSkips(log: Log, rows: Log, address: nat, step: nat)
    requires forall r :: r in rows ==> r.address != address || r.step > step
    ensures Newest(log + rows, address, step) == Newest(log, address, step)
  {
    if rows == [] {
      assert log + rows == log;
    } else {
      var last := rows[|rows| - 1];
      NewestSkips(log, rows[..|rows| - 1], address, step);
      assert log + rows == (log + rows[..|rows| - 1]) + [last];
      NewestSnoc(log + rows[..|rows| - 1], last, address, step);
    }
  }

  /** Once every row is at or before `step`, later steps see the same rows. */
  lemma {:induction false} NewestAfterLast(log: Log, address: nat, step: nat, later: nat)
    requires step <= later
    requires forall r :: r in log && r.address == address ==> r.step <= step
    ensures Newest(log, address, later) == Newest(log, address, step)
  {
    if log == [] {
    } else {
      assert log[|log| - 1] in log;
      NewestAfterLast(log[..|log| - 1], address, step, later);
    }
  }

  /** A delta replaces the newest content of exactly the segments that changed. */
  lemma {:induction false} NewestOfDelta(log: Log, p: nat, was: Option<Page>, now: Page, at: nat, n: nat, k: nat,
      step: nat)
    requires n <= SEGMENTS_PER_PAGE && k < SEGMENTS_PER_PAGE && at <= step
    requires Changed(was, now, k) ==> forall r :: r in log && r.address == SegmentAddress(p, k) ==> r.step < at
    ensures Newest(log + PageDelta(p, was, now, at, n), SegmentAddress(p, k), step) ==
              if k < n && Changed(was, now, k) then Some(Row(SegmentAddress(p, k), at, Segment(now, k)))
              else Newest(log, SegmentAddress(p, k), step)
  {
    if n == 0 {
      assert log + PageDelta(p, was, now, at, 0) == log;
    } else {
      NewestOfDelta(log, p, was, now, at, n - 1, k, step);
      if Changed(was, now, n - 1) {
        NewestOfLastSegment(log, p, was, now, at, n, k, step);
      }
    }
  }

  lemma NewestOfLastSegment(log: Log, p: nat, was: Option<Page>, now: Page, at: nat, n: nat, k: nat, step: nat)
    requires 0 < n <= SEGMENTS_PER_PAGE && k < SEGMENTS_PER_PAGE && at <= step && Changed(was, now, n - 1)
    ensures var r := Newest(log + PageDelta(p, was, now, at, n - 1), SegmentAddress(p, k), step);
            Newest(log + PageDelta(p, was, now, at, n), SegmentAddress(p, k), step) ==
              if k == n - 1 && (r.None? || r.value.step < at) then Some(Row(SegmentAddress(p, k), at, Segment(now, k)))
              else r
  {
    var rows := PageDelta(p, was, now, at, n - 1);
    var row := Row(SegmentAddress(p, n - 1), at, Segment(now, n - 1));
    assert PageDelta(p, was, now, at, n) == rows + [row];
    NewestOfLast(log, rows, row, SegmentAddress(p, k), step);
  }

  // Uniqueness

  lemma UniqueAppend(log: Log, rows: Log)
    requires Unique(log) && Unique(rows)
    requires forall x, y :: x in log && y in rows ==> x.address != y.address || x.step != y.step
    ensures Unique(log + rows)
  {
  }

  lemma {:induction false} DeltaUnique(p: nat, was: Option<Page>, now: Page, step: nat, n: nat)
    requires n <= SEGMENTS_PER_PAGE
    ensures Unique(PageDelta(p, was, now, step, n))
  {
    if n == 0 {
    } else {
      DeltaUnique(p, was, now, step, n - 1);
      DeltaRows(p, was, now, step, n - 1);
    }
  }

  lemma {:induction false} RegionUnique(first: nat, count: nat, mem: map<nat, Page>, step: nat)
    requires forall p :: first <= p < first + count ==> p in mem
    ensures Unique(RegionRows(first, count, mem, step))
  {
    if count == 0 {
    } else {
      var p := first + count - 1;
      RegionUnique(first, count - 1, mem, step);
      RegionRowsFacts(first, count - 1, mem, step);
      DeltaUnique(p, None, mem[p], step, SEGMENTS_PER_PAGE);
      DeltaRows(p, None, mem[p], step, SEGMENTS_PER_PAGE);
      UniqueAppend(RegionRows(first, count - 1, mem, step), PageDelta(p, None, mem[p], step, SEGMENTS_PER_PAGE));
    }
  }

  /** After a region is added its newest contents are the bytes just read. */
  lemma {:induction false} NewestOfRegion(log: Log, first: nat, count: nat, mem: map<nat, Page>, at: nat, p: nat,
      k: nat, step: nat)
    requires forall q :: first <= q < first + count ==> q in mem
    requires forall r :: r in log ==> r.address != SegmentAddress(p, k)
    requires first <= p < first + count && k < SEGMENTS_PER_PAGE && at <= step
    ensures Newest(log + RegionRows(first, count, mem, at), SegmentAddress(p, k), step) ==
              Some(Row(SegmentAddress(p, k), at, Segment(mem[p], k)))
  {
    var last := first + count - 1;
    var before := RegionRows(first, count - 1, mem, at);
    var delta := PageDelta(last, None, mem[last], at, SEGMENTS_PER_PAGE);
    assert log + RegionRows(first, count, mem, at) == (log + before) + delta;
    SegmentInPage(p, k);
    if p == last {
      RegionRowsFacts(first, count - 1, mem, at);
      NewestOfDelta(log + before, p, None, mem[p], at, SEGMENTS_PER_PAGE, k, step);
    } else {
      NewestOfRegion(log, first, count - 1, mem, at, p, k, step);
      DeltaRows(last, None, mem[last], at, SEGMENTS_PER_PAGE);
      NewestSkips(log + before, delta, SegmentAddress(p, k), step);
    }
  }
}
