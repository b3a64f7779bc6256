/**
 The interpolation search of lookup_cache over the lines of one unit.
 */
module LineSearch {
  import opened Bytes
  import opened Arithmetic
  import opened Breakpoints

  const TWO31: nat := 0x8000_0000
  const TWO32: nat := 0x1_0000_0000
  const TWO64: nat := 0x1_0000_0000_0000_0000

  /** Line numbers fit an int, and the interpolation's products a 64-bit word. */
  ghost predicate Fits(u: CachedUnit) {
    |u.lines| < TWO31 && u.start <= u.end && (u.end - u.start) * |u.lines| < TWO64
  }

  // The guess

  /** An interpolated offset x * m / d reaches m only when x reaches d. */
  lemma Interpolation(x: nat, m: nat, d: nat)
    requires x <= d && 0 < d && 0 < m
    ensures x == 0 ==> x * m / d == 0
    ensures x == d ==> x * m / d == m
    ensures x < d ==> x * m / d < m
  {
    if x == d {
      QuotientExact(d, m);
    } else {
      ProductBelow(x, d, m);
      QuotientBelow(x * m, d, m);
    }
  }

  /** x * m / d as the code computes it, in 64-bit arithmetic; x may be negative. */
  function Offset(x: int, m: nat, d: nat): nat
    requires d > 0
  {
    x % TWO64 * m % TWO64 / d
  }

  /** Inside the interval the offset does not wrap, stays within and is exact at the ends. */
  lemma InterpolatedOffset(x: nat, m: nat, d: nat)
    requires x <= d && 0 < d < TWO64 && 0 < m && d * m < TWO64
    ensures Offset(x, m, d) <= m && (x < d ==> Offset(x, m, d) < m)
    ensures (x == 0 ==> Offset(x, m, d) == 0) && (x == d ==> Offset(x, m, d) == m)
  {
    ProductFits(x, m, d, m);
    Interpolation(x, m, d);
    NoWrap(x);
    NoWrap(x * m);
  }

  lemma NoWrap(x: nat)
    requires x < TWO64
    ensures x % TWO64 == x
  {
  }

  lemma ProductFits(x: nat, m: nat, span: nat, count: nat)
    requires x <= span && m <= count && span * count < TWO64
    ensures x * m < TWO64
  {
  }

  /** A 64-bit word stored in an int. */
  function ToInt(w: int): int {
    if w % TWO32 >= TWO31 then w % TWO32 - TWO32 else w % TWO32
  }

  /** The index guessed by linear interpolation; the address may lie outside the interval. */
  function Guess(address: nat, left: nat, right: nat, leftAddr: nat, rightAddr: nat): int
    requires left <= right && leftAddr < rightAddr
  {
    ToInt(left + Offset(address - leftAddr, right - left, rightAddr - leftAddr))
  }

  /** Inside the interval the guess is too, and is exact at the ends. */
  lemma GuessInside(address: nat, left: nat, right: nat, leftAddr: nat, rightAddr: nat)
    requires left < right < TWO31 && leftAddr <= address <= rightAddr && leftAddr < rightAddr
    requires (rightAddr - leftAddr) * (right - left) < TWO64 && rightAddr - leftAddr < TWO64
    ensures var index := Guess(address, left, right, leftAddr, rightAddr);
            && left <= index <= right && (address < rightAddr ==> index < right)
            && (address == leftAddr ==> index == left) && (address == rightAddr ==> index == right)
  {
    InterpolatedOffset(address - leftAddr, right - left, rightAddr - leftAddr);
    SmallInt(left + Offset(address - leftAddr, right - left, rightAddr - leftAddr));
  }

  lemma SmallInt(w: nat)
    requires w < TWO31
    ensures ToInt(w) == w
  {
  }

  /** The interval still to be searched, both ends included. */
  datatype Bounds = Bounds(left: nat, right: nat)

  /** What one round of the search comes to. */
  datatype Probe = Hit(index: nat) | Narrowed(left: nat, right: nat) | ZeroDivisor | Outside

  predicate Within(lines: seq<Line>, b: Bounds) {
    b.left <= b.right < |lines|
  }

  /** One round: guess, compare, move a bound and read the address there. */
  function ProbeAt(lines: seq<Line>, address: nat, b: Bounds): (r: Probe)
    requires Within(lines, b)
    ensures r.Hit? ==> r.index < |lines| && lines[r.index].address == address
    ensures r.Narrowed? ==> r.left < |lines| && r.right < |lines|
  {
    var leftAddr, rightAddr := lines[b.left].address, lines[b.right].address;
    if leftAddr >= rightAddr then ZeroDivisor
    else Compared(lines, address, b, Guess(address, b.left, b.right, leftAddr, rightAddr))
  }

  function Compared(lines: seq<Line>, address: nat, b: Bounds, index: int): (r: Probe)
    requires Within(lines, b)
    ensures r.Hit? ==> r.index < |lines| && lines[r.index].address == address
    ensures r.Narrowed? ==> r.left < |lines| && r.right < |lines|
  {
    if index < 0 || index >= |lines| then Outside
    else if address < lines[index].address then
      if index == 0 then Outside else Narrowed(b.left, index - 1)
    else if address > lines[index].address then
      if index + 1 == |lines| then Outside else Narrowed(index + 1, b.right)
    else Hit(index)
  }

  datatype SearchResult = AtLine(index: nat) | Absent | DivisionByZero | OutOfBounds | Endless

  function AllBounds(n: nat): set<Bounds> {
    set l, r | 0 <= l < n && 0 <= r < n :: Bounds(l, r)
  }

  /** The rounds from `b` on; an interval that comes up a second time comes up for ever. */
  function Search(lines: seq<Line>, address: nat, b: Bounds, seen: set<Bounds>): (r: SearchResult)
    requires b.right < |lines|
    ensures r.AtLine? ==> r.index < |lines| && lines[r.index].address == address
    decreases AllBounds(|lines|) - seen
  {
    if b.right < b.left then Absent
    else if b in seen then Endless
    else
      assert b in AllBounds(|lines|) - seen;
      match ProbeAt(lines, address, b)
      case Hit(i) => AtLine(i)
      case Narrowed(l, r) => Search(lines, address, Bounds(l, r), seen + {b})
      case ZeroDivisor => DivisionByZero
      case Outside => OutOfBounds
  }

  /** One round of the search. */
  lemma SearchOn(lines: seq<Line>, address: nat, b: Bounds, seen: set<Bounds>)
    requires Within(lines, b) && b !in seen
    ensures var r := ProbeAt(lines, address, b);
            Search(lines, address, b, seen) ==
              match r
              case Hit(i) => AtLine(i)
              case Narrowed(l, r) => Search(lines, address, Bounds(l, r), seen + {b})
              case ZeroDivisor => DivisionByZero
              case Outside => OutOfBounds
  {
  }

  function SearchLines(lines: seq<Line>, address: nat): (r: SearchResult)
    requires lines != []
    ensures r.AtLine? ==> r.index < |lines| && lines[r.index].address == address
  {
    Search(lines, address, Bounds(0, |lines| - 1), {})
  }

  // A cached address is found

  /** The round found line k, or keeps it between closer bounds. */
  ghost predicate Closes(r: Probe, k: nat, b: Bounds) {
    r == Hit(k) ||
    (r.Narrowed? && b.left <= r.left <= k <= r.right <= b.right && r.left < r.right &&
        r.right - r.left < b.right - b.left)
  }

  lemma ComparedCloses(u: CachedUnit, k: nat, b: Bounds, index: int)
    requires WellFormedUnit(u) && b.left <= k <= b.right < |u.lines| && b.left < b.right
    requires b.left <= index <= b.right && (k < b.right ==> index < b.right)
    requires (k == b.left ==> index == b.left) && (k == b.right ==> index == b.right)
    ensures Closes(Compared(u.lines, u.lines[k].address, b, index), k, b)
  {
  }

  lemma ProbeCloses(u: CachedUnit, k: nat, b: Bounds)
    requires WellFormedUnit(u) && Fits(u) && b.left <= k <= b.right < |u.lines| && b.left < b.right
    ensures Closes(ProbeAt(u.lines, u.lines[k].address, b), k, b)
  {
    var address, leftAddr, rightAddr := u.lines[k].address, u.lines[b.left].address, u.lines[b.right].address;
    LineInUnit(u, b.left);
    LineInUnit(u, b.right);
    ProductFits(rightAddr - leftAddr, b.right - b.left, u.end - u.start, |u.lines|);
    ProductFits(rightAddr - leftAddr, 1, u.end - u.start, |u.lines|);
    GuessInside(address, b.left, b.right, leftAddr, rightAddr);
    ComparedCloses(u, k, b, Guess(address, b.left, b.right, leftAddr, rightAddr));
  }

  lemma {:induction false} SearchFinds(u: CachedUnit, k: nat, b: Bounds, seen: set<Bounds>)
    requires WellFormedUnit(u) && Fits(u) && b.left <= k <= b.right < |u.lines| && b.left < b.right
    requires forall s :: s in seen ==> s.left + (b.right - b.left) < s.right
    ensures Search(u.lines, u.lines[k].address, b, seen) == AtLine(k)
    decreases b.right - b.left
  {
    ProbeCloses(u, k, b);
    var r := ProbeAt(u.lines, u.lines[k].address, b);
    if r.Narrowed? {
      SearchFinds(u, k, Bounds(r.left, r.right), seen + {b});
    }
  }

  /** A cached address is found at its own line, if and only if the unit has more than that line. */
  lemma CachedIsFound(u: CachedUnit, k: nat)
    requires WellFormedUnit(u) && Fits(u) && k < |u.lines|
    ensures SearchLines(u.lines, u.lines[k].address) == if |u.lines| == 1 then DivisionByZero else AtLine(k)
  {
    if |u.lines| > 1 {
      SearchFinds(u, k, Bounds(0, |u.lines| - 1), {});
    }
  }

  // Endless is for ever

  type Rounds = Bounds -> Option<Bounds>

  /** One round as a step from interval to interval, while the search is on. */
  function Round(lines: seq<Line>, address: nat): Rounds {
    (b: Bounds) =>
      if !Within(lines, b) then None
      else
        var r := ProbeAt(lines, address, b);
        if r.Narrowed? && r.left <= r.right then Some(Bounds(r.left, r.right)) else None
  }

  /** The interval after n rounds, if the search is still on. */
  function After(round: Rounds, b: Bounds, n: nat): Option<Bounds> {
    if n == 0 then Some(b)
    else
      var c := After(round, b, n - 1);
      if c.None? then None else round(c.value)
  }

  lemma {:induction false} StillOn(round: Rounds, b: Bounds, m: nat, n: nat)
    requires m <= n && After(round, b, n).Some?
    ensures After(round, b, m).Some?
  {
    if m == n {
    } else {
      StillOn(round, b, m, n - 1);
    }
  }

  /** Equal intervals go on equally. */
  lemma {:induction false} SameFuture(round: Rounds, b: Bounds, m: nat, n: nat, k: nat)
    requires After(round, b, m) == After(round, b, n)
    ensures After(round, b, m + k) == After(round, b, n + k)
  {
    if k == 0 {
    } else {
      SameFuture(round, b, m, n, k - 1);
    }
  }

  lemma {:induction false} RepeatGoesOn(round: Rounds, b: Bounds, m: nat, n: nat, k: nat)
    requires m < n && After(round, b, m) == After(round, b, n) && After(round, b, n).Some?
    ensures After(round, b, k).Some?
  {
    if k <= n {
      StillOn(round, b, k, n);
    } else {
      RepeatGoesOn(round, b, m, n, k - (n - m));
      SameFuture(round, b, m, n, k - n);
    }
  }

  ghost predicate Visited(round: Rounds, b: Bounds, n: nat, seen: set<Bounds>) {
    forall s {:trigger VisitedAt(round, b, n, s)} :: s in seen ==> VisitedAt(round, b, n, s)
  }

  ghost predicate VisitedAt(round: Rounds, b: Bounds, n: nat, s: Bounds) {
    exists m: nat :: m < n && After(round, b, m) == Some(s)
  }

  lemma VisitedNext(round: Rounds, b: Bounds, n: nat, seen: set<Bounds>, c: Bounds)
    requires After(round, b, n) == Some(c) && Visited(round, b, n, seen)
    ensures After(round, b, n + 1) == round(c)
    ensures Visited(round, b, n + 1, seen + {c})
  {
    forall s | s in seen + {c} ensures VisitedAt(round, b, n + 1, s) {
      if s in seen {
        assert VisitedAt(round, b, n, s);
        var m: nat :| m < n && After(round, b, m) == Some(s);
        assert m < n + 1;
      }
    }
  }

  lemma VisitedBefore(round: Rounds, b: Bounds, n: nat, seen: set<Bounds>, c: Bounds) returns (i: nat)
    requires After(round, b, n) == Some(c) && Visited(round, b, n, seen) && c in seen
    ensures i < n && After(round, b, i) == After(round, b, n)
  {
    assert VisitedAt(round, b, n, c);
    i :| i < n && After(round, b, i) == Some(c);
  }

  /** A search that is endless repeats an interval; any other ends after some round. */
  ghost predicate EndsOrRepeats(round: Rounds, b: Bounds, endless: bool, i: nat, j: nat) {
    if endless then i < j && After(round, b, i) == After(round, b, j) && After(round, b, j).Some?
    else After(round, b, j).None?
  }

  /** A search goes on as its rounds do. */
  ghost predicate Follows(lines: seq<Line>, address: nat, round: Rounds) {
    forall c, seen {:trigger FollowsAt(lines, address, round, c, seen)} ::
      Within(lines, c) && c !in seen ==> FollowsAt(lines, address, round, c, seen)
  }

  ghost predicate FollowsAt(lines: seq<Line>, address: nat, round: Rounds, c: Bounds, seen: set<Bounds>)
    requires Within(lines, c)
  {
    if round(c).Some?
    then Within(lines, round(c).value) &&
         Search(lines, address, c, seen) == Search(lines, address, round(c).value, seen + {c})
    else Search(lines, address, c, seen) != Endless
  }

  lemma SearchFollows(lines: seq<Line>, address: nat)
    ensures Follows(lines, address, Round(lines, address))
  {
    forall c, seen | Within(lines, c) && c !in seen ensures FollowsAt(lines, address, Round(lines, address), c, seen) {
      SearchOn(lines, address, c, seen);
    }
  }

  lemma {:induction false} EndOrRepeat(lines: seq<Line>, address: nat, round: Rounds, b: Bounds, n: nat, c: Bounds,
                                       seen: set<Bounds>, left: set<Bounds>) returns (i: nat, j: nat)
    requires Follows(lines, address, round) && Within(lines, c) && After(round, b, n) == Some(c)
    requires Visited(round, b, n, seen) && left == AllBounds(|lines|) - seen
    ensures EndsOrRepeats(round, b, Search(lines, address, c, seen) == Endless, i, j)
    decreases left
  {
    if c in seen {
      i := VisitedBefore(round, b, n, seen, c);
      j := n;
    } else {
      assert FollowsAt(lines, address, round, c, seen);
      VisitedNext(round, b, n, seen, c);
      if round(c).Some? {
        InAllBounds(lines, c);
        i, j := EndOrRepeat(lines, address, round, b, n + 1, round(c).value, seen + {c}, left - {c});
      } else {
        i, j := 0, n + 1;
      }
    }
  }

  lemma InAllBounds(lines: seq<Line>, b: Bounds)
    requires Within(lines, b)
    ensures b in AllBounds(|lines|)
  {
  }

  /** No number of rounds ends the search. */
  ghost predicate Forever(round: Rounds, b: Bounds) {
    forall n: nat :: After(round, b, n).Some?
  }

  lemma {:induction false} ForeverIffRepeats(round: Rounds, b: Bounds, endless: bool, i: nat, j: nat)
    requires EndsOrRepeats(round, b, endless, i, j)
    ensures endless <==> Forever(round, b)
  {
    if endless {
      forall n: nat ensures After(round, b, n).Some? {
        RepeatGoesOn(round, b, i, j, n);
      }
    }
  }

  /** The search is endless if and only if no number of rounds ends it. */
  lemma EndlessIffForever(lines: seq<Line>, address: nat)
    requires lines != []
    ensures SearchLines(lines, address) == Endless <==> Forever(Round(lines, address), Bounds(0, |lines| - 1))
  {
    var round, b := Round(lines, address), Bounds(0, |lines| - 1);
    SearchFollows(lines, address);
    var i, j := EndOrRepeat(lines, address, round, b, 0, b, {}, AllBounds(|lines|));
    ForeverIffRepeats(round, b, SearchLines(lines, address) == Endless, i, j);
  }

  // Inputs between two statements

  ghost predicate HasAddresses(lines: seq<Line>, addresses: seq<nat>) {
    |lines| == |addresses| && forall i :: 0 <= i < |lines| ==> lines[i].address == addresses[i]
  }

  /** One line, asked for: the interval has no width to divide by. */
  lemma OneLineExample(lines: seq<Line>)
    requires HasAddresses(lines, [10])
    ensures SearchLines(lines, 10) == DivisionByZero
  {
  }

  /** 15 between 10 and 20: the interval shrinks to one line. */
  lemma GapDividesByZero(lines: seq<Line>)
    requires HasAddresses(lines, [10, 20])
    ensures SearchLines(lines, 15) == DivisionByZero
  {
    assert ProbeAt(lines, 15, Bounds(0, 1)) == Narrowed(1, 1);
    SearchOn(lines, 15, Bounds(0, 1), {});
    SearchOn(lines, 15, Bounds(1, 1), {} + {Bounds(0, 1)});
  }

  /** 11 between 10 and 12: the left address passes it, and the difference wraps. */
  lemma GapLeavesArray(lines: seq<Line>)
    requires HasAddresses(lines, [10, 12, 15])
    ensures SearchLines(lines, 11) == OutOfBounds
  {
    assert ProbeAt(lines, 11, Bounds(0, 2)) == Narrowed(1, 2);
    assert Guess(11, 1, 2, 12, 15) == 1431655766;
    SearchOn(lines, 11, Bounds(0, 2), {});
    SearchOn(lines, 11, Bounds(1, 2), {} + {Bounds(0, 2)});
  }

  /** The same with 13 for 15: the wrapped guess comes back to line 0, round after round. */
  lemma GapNeverEnds(lines: seq<Line>)
    requires HasAddresses(lines, [10, 12, 13])
    ensures SearchLines(lines, 11) == Endless
  {
    assert ProbeAt(lines, 11, Bounds(0, 2)) == Narrowed(1, 2);
    assert Guess(11, 1, 2, 12, 13) == 0;
    SearchOn(lines, 11, Bounds(0, 2), {});
    SearchOn(lines, 11, Bounds(1, 2), {} + {Bounds(0, 2)});
  }

  /** 90 between 89 and 100 is reported as not found. */
  lemma GapIsAbsent(lines: seq<Line>)
    requires HasAddresses(lines, [10, 89, 100, 110])
    ensures SearchLines(lines, 90) == Absent
  {
    assert ProbeAt(lines, 90, Bounds(0, 3)) == Narrowed(0, 1);
    assert ProbeAt(lines, 90, Bounds(0, 1)) == Narrowed(2, 1);
    SearchOn(lines, 90, Bounds(0, 3), {});
    SearchOn(lines, 90, Bounds(0, 1), {} + {Bounds(0, 3)});
  }
}
