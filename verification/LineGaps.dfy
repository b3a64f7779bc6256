/**
 Searching for an address that is no statement but lies between two statements of a unit: when
 lookup_cache answers NULL, as it says it does, and when it divides by zero.
 */
module LineGaps {
  import opened Bytes
  import opened Arithmetic
  import opened Breakpoints
  import opened LineSearch

  /** The address lies after line k and before line k + 1. */
  ghost predicate InGap(u: CachedUnit, k: nat, address: nat) {
    k + 1 < |u.lines| && u.lines[k].address < address < u.lines[k + 1].address
  }

  /** The interval has lost no line next to the gap that it may not lose. */
  ghost predicate Around(b: Bounds, k: nat) {
    b.left <= k + 1 && k <= b.right
  }

  ghost predicate Inside(b: Bounds, k: nat) {
    b.left <= k < b.right
  }

  // The guess on either side of the gap

  lemma QuotientPlus(d: nat, m: nat, z: nat)
    requires d > 0
    ensures (d * m + z) / d == m + z / d
  {
    assert d * (m + z / d) == d * m + d * (z / d);
    QuotientIs(d * m + z, d, m + z / d);
  }

  /** How far past its right end an interval of m lines over d addresses is left, for an address y past it. */
  function PastBy(y: nat, m: nat, d: nat): nat
    requires d > 0
  {
    y * m / d
  }

  /** The offset for an address y before the left end: the difference wraps. */
  function WrapsTo(y: nat, m: nat, d: nat): int
    requires d > 0
  {
    (TWO64 - y * m) / d
  }

  lemma OffsetPast(y: nat, m: nat, d: nat)
    requires 0 < d && d + y < TWO64 && (d + y) * m < TWO64
    ensures Offset(d + y, m, d) == m + PastBy(y, m, d)
  {
    NoWrap(d + y);
    NoWrap((d + y) * m);
    assert (d + y) * m == d * m + y * m;
    QuotientPlus(d, m, y * m);
  }

  lemma OffsetBefore(y: int, m: nat, d: nat)
    requires 0 < d && 0 < m && 0 < y < TWO64 && y * m < TWO64
    ensures Offset(-y, m, d) == WrapsTo(y, m, d)
  {
    var x := (TWO64 - y) * m;
    assert (-y) % TWO64 == TWO64 - y;
    assert x - (m - 1) * TWO64 == TWO64 - y * m;
    assert y * m > 0;
    WholeMultiple(x, m - 1, TWO64);
    NoWrap(TWO64 - y * m);
  }

  /** An offset leads to its origin if and only if it is 0 in 32 bits. */
  lemma BackToOrigin(origin: nat, q: nat)
    requires origin < TWO31
    ensures ToInt(origin + q) == origin <==> q % TWO32 == 0
  {
  }

  /** How far the guess goes from the line next to the gap, before it is cut to 32 bits. */
  function Overshoot(u: CachedUnit, k: nat, address: nat, b: Bounds): int
    requires WellFormedUnit(u) && InGap(u, k, address) && Within(u.lines, b) && b.left < b.right
  {
    LinesIncrease(u, b.left, b.right);
    var d := u.lines[b.right].address - u.lines[b.left].address;
    if b.right == k then PastBy(address - u.lines[k].address, b.right - b.left, d)
    else WrapsTo(u.lines[k + 1].address - address, b.right - b.left, d)
  }

  lemma LinesIncrease(u: CachedUnit, i: nat, j: nat)
    requires WellFormedUnit(u) && i < j < |u.lines|
    ensures u.lines[i].address < u.lines[j].address
  {
  }

  /**
   The guard of the answer NULL: the interval ends next to the gap, has more lines than one, and the
   guess overshoots by nothing, in 32 bits.
   */
  ghost predicate AnswersNull(u: CachedUnit, k: nat, address: nat, b: Bounds) {
    && WellFormedUnit(u) && InGap(u, k, address) && Within(u.lines, b) && Around(b, k)
    && b.left < b.right && !Inside(b, k)
    && Overshoot(u, k, address, b) % TWO32 == 0
  }

  // One round

  /** The products of the interpolation stay within 64 bits on either side of the gap. */
  lemma GapFits(u: CachedUnit, k: nat, address: nat, b: Bounds)
    requires WellFormedUnit(u) && Fits(u) && InGap(u, k, address) && Within(u.lines, b)
    ensures u.start <= u.lines[b.left].address <= u.lines[b.right].address <= u.end
    ensures u.start < address < u.end
    ensures u.end - u.start < TWO64 && (u.end - u.start) * (b.right - b.left) < TWO64
  {
    LineInUnit(u, b.left);
    LineInUnit(u, b.right);
    LineInUnit(u, k);
    LineInUnit(u, k + 1);
    ProductFits(u.end - u.start, 1, u.end - u.start, |u.lines|);
    ProductFits(u.end - u.start, b.right - b.left, u.end - u.start, |u.lines|);
  }

  /** The guess from an interval that ends at the gap. */
  lemma GuessFromBelow(u: CachedUnit, k: nat, address: nat, b: Bounds)
    requires WellFormedUnit(u) && Fits(u) && InGap(u, k, address) && Within(u.lines, b) && b.left < b.right == k
    ensures u.lines[b.left].address < u.lines[b.right].address
    ensures Guess(address, b.left, b.right, u.lines[b.left].address, u.lines[b.right].address)
              == ToInt(k + Overshoot(u, k, address, b))
  {
    LinesIncrease(u, b.left, b.right);
    GapFits(u, k, address, b);
    var y, m, d := address - u.lines[k].address, b.right - b.left, u.lines[k].address - u.lines[b.left].address;
    ProductFits(d + y, m, u.end - u.start, m);
    OffsetPast(y, m, d);
  }

  /** The guess from an interval that starts after the gap. */
  lemma GuessFromAbove(u: CachedUnit, k: nat, address: nat, b: Bounds)
    requires WellFormedUnit(u) && Fits(u) && InGap(u, k, address) && Within(u.lines, b) && k + 1 == b.left < b.right
    ensures u.lines[b.left].address < u.lines[b.right].address
    ensures Overshoot(u, k, address, b) >= 0
    ensures Guess(address, b.left, b.right, u.lines[b.left].address, u.lines[b.right].address)
              == ToInt(k + 1 + Overshoot(u, k, address, b))
  {
    LinesIncrease(u, b.left, b.right);
    GapFits(u, k, address, b);
    var y, m, d := u.lines[k + 1].address - address, b.right - b.left,
        u.lines[b.right].address - u.lines[b.left].address;
    ProductFits(y, m, u.end - u.start, m);
    OffsetBefore(y, m, d);
  }

  /**
   A round of a search in a gap: it never hits; it keeps the interval around the gap; inside it
   shrinks the interval and does not end the search; at one line it divides by zero; otherwise it
   answers NULL exactly under the guard.
   */
  ghost predicate GapRound(u: CachedUnit, k: nat, address: nat, b: Bounds)
    requires Within(u.lines, b)
  {
    var r := ProbeAt(u.lines, address, b);
    && !r.Hit?
    && (r.Narrowed? ==> Around(Bounds(r.left, r.right), k))
    && (Inside(b, k) ==> r.Narrowed? && b.left <= r.left <= r.right <= b.right && r.right - r.left < b.right - b.left)
    && (r == ZeroDivisor <==> b.left == b.right)
    && (r == Narrowed(k + 1, k) <==> AnswersNull(u, k, address, b))
  }

  lemma ComparedInGap(u: CachedUnit, k: nat, address: nat, b: Bounds, index: int)
    requires WellFormedUnit(u) && InGap(u, k, address) && Within(u.lines, b) && Around(b, k)
    ensures var r := Compared(u.lines, address, b, index);
            && (index < 0 || index >= |u.lines| ==> r == Outside)
            && (0 <= index <= k ==> r == Narrowed(index + 1, b.right))
            && (k < index < |u.lines| ==> r == Narrowed(b.left, index - 1))
  {
    if 0 <= index <= k {
      assert index < k ==> u.lines[index].address < u.lines[k].address;
    } else if k < index < |u.lines| {
      assert k + 1 < index ==> u.lines[k + 1].address < u.lines[index].address;
    }
  }

  lemma RoundInside(u: CachedUnit, k: nat, address: nat, b: Bounds)
    requires WellFormedUnit(u) && Fits(u) && InGap(u, k, address) && Within(u.lines, b) && Inside(b, k)
    ensures GapRound(u, k, address, b)
  {
    LinesIncrease(u, b.left, b.right);
    assert b.left < k ==> u.lines[b.left].address < u.lines[k].address;
    assert k + 1 < b.right ==> u.lines[k + 1].address < u.lines[b.right].address;
    GapFits(u, k, address, b);
    var leftAddr, rightAddr := u.lines[b.left].address, u.lines[b.right].address;
    ProductFits(rightAddr - leftAddr, b.right - b.left, u.end - u.start, b.right - b.left);
    GuessInside(address, b.left, b.right, leftAddr, rightAddr);
    ComparedInGap(u, k, address, b, Guess(address, b.left, b.right, leftAddr, rightAddr));
  }

  lemma RoundBeside(u: CachedUnit, k: nat, address: nat, b: Bounds)
    requires WellFormedUnit(u) && Fits(u) && InGap(u, k, address) && Within(u.lines, b) && Around(b, k) && !Inside(b, k)
    ensures GapRound(u, k, address, b)
  {
    if b.left < b.right {
      var index := Guess(address, b.left, b.right, u.lines[b.left].address, u.lines[b.right].address);
      if b.right == k {
        GuessFromBelow(u, k, address, b);
        BackToOrigin(k, Overshoot(u, k, address, b));
      } else {
        GuessFromAbove(u, k, address, b);
        BackToOrigin(k + 1, Overshoot(u, k, address, b));
      }
      ComparedInGap(u, k, address, b, index);
    }
  }

  lemma GapRounds(u: CachedUnit, k: nat, address: nat, b: Bounds)
    requires WellFormedUnit(u) && Fits(u) && InGap(u, k, address) && Within(u.lines, b) && Around(b, k)
    ensures GapRound(u, k, address, b)
  {
    if Inside(b, k) {
      RoundInside(u, k, address, b);
    } else {
      RoundBeside(u, k, address, b);
    }
  }

  // The whole search

  /** The interval of the search after n rounds, if it is still on. */
  ghost function Interval(u: CachedUnit, address: nat, n: nat): Option<Bounds>
    requires u.lines != []
  {
    After(Round(u.lines, address), Bounds(0, |u.lines| - 1), n)
  }

  lemma IntervalNext(u: CachedUnit, address: nat, n: nat)
    requires u.lines != [] && Interval(u, address, n).Some?
    ensures Interval(u, address, n + 1) == Round(u.lines, address)(Interval(u, address, n).value)
  {
  }

  /** A round keeps an interval around the gap, and while inside brings its ends closer. */
  ghost predicate KeepsAt(lines: seq<Line>, k: nat, round: Rounds, b: Bounds) {
    && (round(b).Some? ==> Within(lines, round(b).value) && Around(round(b).value, k))
    && (Inside(b, k) ==> round(b).Some? && Closer(b, round(b).value))
  }

  ghost predicate Keeps(lines: seq<Line>, k: nat, round: Rounds) {
    forall b {:trigger KeepsAt(lines, k, round, b)} :: Within(lines, b) && Around(b, k) ==> KeepsAt(lines, k, round, b)
  }

  ghost predicate Closer(b: Bounds, c: Bounds) {
    b.left <= c.left <= c.right <= b.right && c.right - c.left < b.right - b.left
  }

  /** The rounds of a search in a gap. */
  lemma GapSearch(u: CachedUnit, k: nat, address: nat) returns (round: Rounds)
    requires WellFormedUnit(u) && Fits(u) && InGap(u, k, address)
    ensures Keeps(u.lines, k, round) && AreRounds(u, address, round, Bounds(0, |u.lines| - 1))
  {
    round := RoundsOf(u, address);
    forall b | Within(u.lines, b) && Around(b, k) ensures KeepsAt(u.lines, k, round, b) {
      RoundKeeps(u, k, address, round, b);
    }
  }

  ghost predicate AreRounds(u: CachedUnit, address: nat, round: Rounds, start: Bounds)
    requires u.lines != []
  {
    forall n: nat :: Interval(u, address, n) == After(round, start, n)
  }

  lemma RoundsOf(u: CachedUnit, address: nat) returns (round: Rounds)
    requires u.lines != []
    ensures round == Round(u.lines, address) && AreRounds(u, address, round, Bounds(0, |u.lines| - 1))
  {
    round := Round(u.lines, address);
  }

  lemma RoundKeeps(u: CachedUnit, k: nat, address: nat, round: Rounds, b: Bounds)
    requires WellFormedUnit(u) && Fits(u) && InGap(u, k, address) && Within(u.lines, b) && Around(b, k)
    requires round == Round(u.lines, address)
    ensures KeepsAt(u.lines, k, round, b)
  {
    GapRounds(u, k, address, b);
    var r := ProbeAt(u.lines, address, b);
    assert round(b) == if r.Narrowed? && r.left <= r.right then Some(Bounds(r.left, r.right)) else None;
  }

  lemma {:induction false} StaysAround(lines: seq<Line>, k: nat, round: Rounds, start: Bounds, n: nat, b: Bounds)
    requires Keeps(lines, k, round) && Within(lines, start) && Around(start, k) && After(round, start, n) == Some(b)
    ensures Within(lines, b) && Around(b, k)
  {
    if n == 0 {
    } else {
      var c := After(round, start, n - 1).value;
      StaysAround(lines, k, round, start, n - 1, c);
      assert KeepsAt(lines, k, round, c);
    }
  }

  /** Every interval of a search in a gap is around the gap. */
  lemma GapStays(u: CachedUnit, k: nat, address: nat, n: nat, b: Bounds)
    requires WellFormedUnit(u) && Fits(u) && InGap(u, k, address) && Interval(u, address, n) == Some(b)
    ensures Within(u.lines, b) && Around(b, k)
  {
    var round := GapSearch(u, k, address);
    var start := Bounds(0, |u.lines| - 1);
    StaysAround(u.lines, k, round, start, n, b);
  }

  /** A search that ends comes to what the rest of it after any n rounds comes to. */
  lemma {:induction false} Following(lines: seq<Line>, address: nat, round: Rounds, b: Bounds, n: nat)
    returns (seen: set<Bounds>)
    requires Within(lines, b) && Follows(lines, address, round) && After(round, b, n).Some?
    requires Search(lines, address, b, {}) != Endless
    ensures Within(lines, After(round, b, n).value) && After(round, b, n).value !in seen
    ensures Search(lines, address, b, {}) == Search(lines, address, After(round, b, n).value, seen)
  {
    if n == 0 {
      seen := {};
    } else {
      StillOn(round, b, n - 1, n);
      var before := Following(lines, address, round, b, n - 1);
      var c := After(round, b, n - 1).value;
      assert FollowsAt(lines, address, round, c, before);
      seen := before + {c};
    }
  }

  /** What the last round of a search decides. */
  ghost predicate Decides(r: Probe, result: SearchResult) {
    match r
    case Hit(i) => result == AtLine(i)
    case Narrowed(l, r) => l > r && result == Absent
    case ZeroDivisor => result == DivisionByZero
    case Outside => result == OutOfBounds
  }

  /** A round that ends the search ends it. */
  lemma NotForever(round: Rounds, start: Bounds, n: nat, b: Bounds)
    requires After(round, start, n) == Some(b) && round(b).None?
    ensures !Forever(round, start)
  {
    assert After(round, start, n + 1).None?;
  }

  lemma {:induction false} DecidesFrom(lines: seq<Line>, address: nat, round: Rounds, start: Bounds, n: nat, b: Bounds)
    returns (seen: set<Bounds>)
    requires Within(lines, start) && Follows(lines, address, round) && After(round, start, n) == Some(b)
    requires Search(lines, address, start, {}) != Endless
    ensures Within(lines, b) && b !in seen && Search(lines, address, start, {}) == Search(lines, address, b, seen)
  {
    seen := Following(lines, address, round, start, n);
  }

  /** Whichever round ends the search decides its result. */
  lemma LastDecides(u: CachedUnit, address: nat, n: nat, b: Bounds)
    requires u.lines != [] && Interval(u, address, n) == Some(b) && Within(u.lines, b)
    requires Round(u.lines, address)(b).None?
    ensures Decides(ProbeAt(u.lines, address, b), SearchLines(u.lines, address))
  {
    var round, start := Round(u.lines, address), Bounds(0, |u.lines| - 1);
    EndlessIffForever(u.lines, address);
    NotForever(round, start, n, b);
    SearchFollows(u.lines, address);
    var seen := DecidesFrom(u.lines, address, round, start, n, b);
    Decided(u.lines, address, b, seen);
  }

  lemma Decided(lines: seq<Line>, address: nat, b: Bounds, seen: set<Bounds>)
    requires Within(lines, b) && b !in seen && Round(lines, address)(b).None?
    ensures Decides(ProbeAt(lines, address, b), Search(lines, address, b, seen))
  {
    SearchOn(lines, address, b, seen);
  }

  /** Rounds that do not go on for ever have a last one. */
  lemma {:induction false} LastOf(round: Rounds, b: Bounds, m: nat) returns (n: nat)
    requires After(round, b, m).None?
    ensures After(round, b, n).Some? && After(round, b, n + 1).None?
  {
    if After(round, b, m - 1).Some? {
      n := m - 1;
    } else {
      n := LastOf(round, b, m - 1);
    }
  }

  /** A search that is not endless has a last round. */
  lemma LastRound(u: CachedUnit, address: nat) returns (n: nat, b: Bounds)
    requires u.lines != [] && SearchLines(u.lines, address) != Endless
    ensures Interval(u, address, n) == Some(b) && Interval(u, address, n + 1).None?
  {
    EndlessIffForever(u.lines, address);
    var m: nat :| After(Round(u.lines, address), Bounds(0, |u.lines| - 1), m).None?;
    n := LastOf(Round(u.lines, address), Bounds(0, |u.lines| - 1), m);
    b := Interval(u, address, n).value;
  }

  ghost predicate NullAt(u: CachedUnit, k: nat, address: nat, n: nat)
    requires u.lines != []
  {
    Interval(u, address, n).Some? && AnswersNull(u, k, address, Interval(u, address, n).value)
  }

  ghost predicate OneLineAt(u: CachedUnit, address: nat, n: nat)
    requires u.lines != []
  {
    Interval(u, address, n).Some? && Interval(u, address, n).value.left == Interval(u, address, n).value.right
  }

  /** An interval met by the search satisfies the guard. */
  ghost predicate ReachesNull(u: CachedUnit, k: nat, address: nat)
    requires u.lines != []
  {
    exists n: nat :: NullAt(u, k, address, n)
  }

  ghost predicate ReachesOneLine(u: CachedUnit, address: nat)
    requires u.lines != []
  {
    exists n: nat :: OneLineAt(u, address, n)
  }

  /**
   Between two statements lookup_cache finds nothing. It answers NULL, as it says it does, if and
   only if the search meets an interval under the guard; it divides by zero if and only if it meets
   one of a single line.
   */
  lemma GapOutcome(u: CachedUnit, k: nat, address: nat)
    requires WellFormedUnit(u) && Fits(u) && InGap(u, k, address)
    ensures !SearchLines(u.lines, address).AtLine?
    ensures SearchLines(u.lines, address) == Absent <==> ReachesNull(u, k, address)
    ensures SearchLines(u.lines, address) == DivisionByZero <==> ReachesOneLine(u, address)
  {
    if n: nat :| NullAt(u, k, address, n) {
      EndsAt(u, k, address, n, Interval(u, address, n).value);
    }
    if n: nat :| OneLineAt(u, address, n) {
      EndsAt(u, k, address, n, Interval(u, address, n).value);
    }
    if SearchLines(u.lines, address) != Endless {
      var n, b := LastRound(u, address);
      IntervalNext(u, address, n);
      EndsAt(u, k, address, n, b);
      assert NullAt(u, k, address, n) <==> AnswersNull(u, k, address, b);
      assert OneLineAt(u, address, n) <==> b.left == b.right;
    }
  }

  /** A search that ends in a round from `b` on ends as that round does. */
  lemma EndsAt(u: CachedUnit, k: nat, address: nat, n: nat, b: Bounds)
    requires WellFormedUnit(u) && Fits(u) && InGap(u, k, address) && Interval(u, address, n) == Some(b)
    requires Round(u.lines, address)(b).None? || AnswersNull(u, k, address, b) || b.left == b.right
    ensures !SearchLines(u.lines, address).AtLine?
    ensures SearchLines(u.lines, address) == Absent <==> AnswersNull(u, k, address, b)
    ensures SearchLines(u.lines, address) == DivisionByZero <==> b.left == b.right
  {
    GapStays(u, k, address, n, b);
    GapRounds(u, k, address, b);
    LastDecides(u, address, n, b);
  }

  // Where the search leaves the gap

  lemma {:induction false} Crosses(lines: seq<Line>, k: nat, round: Rounds, start: Bounds, m: nat, b: Bounds)
    returns (n: nat, c: Bounds)
    requires Keeps(lines, k, round) && Within(lines, b) && Around(b, k) && After(round, start, m) == Some(b)
    ensures m <= n <= m + (b.right - b.left) && After(round, start, n) == Some(c)
    ensures Within(lines, c) && Around(c, k) && !Inside(c, k)
    decreases b.right - b.left
  {
    if !Inside(b, k) {
      n, c := m, b;
    } else {
      assert KeepsAt(lines, k, round, b);
      assert After(round, start, m + 1) == round(b);
      n, c := Crosses(lines, k, round, start, m + 1, round(b).value);
    }
  }

  /** The search leaves the gap: within as many rounds as there are lines it comes to an interval beside it. */
  lemma GapCrosses(u: CachedUnit, k: nat, address: nat) returns (n: nat, c: Bounds)
    requires WellFormedUnit(u) && Fits(u) && InGap(u, k, address)
    ensures n < |u.lines| && Interval(u, address, n) == Some(c)
    ensures Within(u.lines, c) && (c.right == k || c.left == k + 1)
  {
    var round := GapSearch(u, k, address);
    var start := Bounds(0, |u.lines| - 1);
    n, c := Crosses(u.lines, k, round, start, 0, start);
  }

  /** Between the last two statements of a unit the search always divides by zero. */
  lemma LastGapDividesByZero(u: CachedUnit, address: nat)
    requires WellFormedUnit(u) && Fits(u) && |u.lines| > 1 && InGap(u, |u.lines| - 2, address)
    ensures SearchLines(u.lines, address) == DivisionByZero
  {
    var n := LastGapCrosses(u, address, 0, Bounds(0, |u.lines| - 1));
    assert OneLineAt(u, address, n);
    GapOutcome(u, |u.lines| - 2, address);
  }

  lemma {:induction false} LastGapCrosses(u: CachedUnit, address: nat, m: nat, b: Bounds) returns (n: nat)
    requires WellFormedUnit(u) && Fits(u) && |u.lines| > 1 && InGap(u, |u.lines| - 2, address)
    requires Interval(u, address, m) == Some(b) && b.left <= b.right == |u.lines| - 1
    ensures OneLineAt(u, address, n)
    decreases |u.lines| - b.left
  {
    if b.left == b.right {
      n := m;
    } else {
      LastGapRound(u, address, b);
      IntervalNext(u, address, m);
      n := LastGapCrosses(u, address, m + 1, Interval(u, address, m + 1).value);
    }
  }

  /** There the right end stays, since the guess stays below it. */
  lemma LastGapRound(u: CachedUnit, address: nat, b: Bounds)
    requires WellFormedUnit(u) && Fits(u) && |u.lines| > 1 && InGap(u, |u.lines| - 2, address)
    requires Within(u.lines, b) && b.left < b.right == |u.lines| - 1
    ensures var c := Round(u.lines, address)(b);
            c.Some? && b.left < c.value.left <= c.value.right == b.right
  {
    var k := |u.lines| - 2;
    assert b.left < k ==> u.lines[b.left].address < u.lines[k].address;
    GapFits(u, k, address, b);
    var leftAddr, rightAddr := u.lines[b.left].address, u.lines[b.right].address;
    ProductFits(rightAddr - leftAddr, b.right - b.left, u.end - u.start, b.right - b.left);
    GuessInside(address, b.left, b.right, leftAddr, rightAddr);
    ComparedInGap(u, k, address, b, Guess(address, b.left, b.right, leftAddr, rightAddr));
  }
}
