/**
 Finding the statement of a trap: lookup_cache with its binary search over units and its
 interpolation search over the lines of one.
 */
module StatementLookup {
  import opened Bytes
  import opened Breakpoints
  import opened LineSearch
  import opened LineGaps

  ghost predicate OutsideAll(units: seq<CachedUnit>, address: nat) {
    forall u :: 0 <= u < |units| ==> address < units[u].start || units[u].end < address
  }

  /** What lookup_cache returns, or how it fails. */
  datatype LookupResult = Found(unit: nat, line: nat) | NotFound | Fails(how: SearchResult)

  function Reported(unit: nat, r: SearchResult): LookupResult {
    match r
    case AtLine(i) => Found(unit, i)
    case Absent => NotFound
    case _ => Fails(r)
  }

  ghost predicate InUnit(units: seq<CachedUnit>, u: nat, address: nat) {
    u < |units| && units[u].start <= address <= units[u].end
  }

  /** What comes of an address between two statements. */
  ghost predicate GapResult(u: CachedUnit, k: nat, address: nat, r: LookupResult) {
    && u.lines != [] && !r.Found?
    && (r == NotFound <==> ReachesNull(u, k, address))
    && (r == Fails(DivisionByZero) <==> ReachesOneLine(u, address))
  }

  class StatementCache {
    var units: seq<CachedUnit>
    var unit: nat   // the unit of the previous lookup

    constructor (units: seq<CachedUnit>)
      requires units != []
      ensures this.units == units && unit == 0
    {
      this.units := units;
      unit := 0;
    }

    /**
     lookup_cache, for any address. What it finds has the address asked for. A cached address is
     found, whatever unit was remembered, unless its unit has a single line: then the interpolation
     divides by zero. An address outside every unit is not found. One between two statements of a unit
     is never found: the answer is NULL if and only if the search meets an interval under the guard
     AnswersNull, and a division by zero if and only if it meets an interval of one line.
     */
    method Lookup(address: nat) returns (r: LookupResult)
      requires WellFormed(units) && unit < |units| && forall u :: 0 <= u < |units| ==> Fits(units[u])
      modifies this`unit
      ensures unit < |units|
      ensures r.Found? ==> HasLine(units, r.unit, r.line, address)
      ensures OutsideAll(units, address) ==> r == NotFound
      ensures forall u: nat, i: nat :: HasLine(units, u, i, address) ==>
                r == if |units[u].lines| == 1 then Fails(DivisionByZero) else Found(u, i)
      ensures forall u: nat :: InUnit(units, u, address) ==> r == Reported(u, SearchLines(units[u].lines, address))
      ensures forall u: nat, k: nat :: u < |units| && InGap(units[u], k, address) ==> GapResult(units[u], k, address, r)
    {
      if units[unit].start > address || units[unit].end < address {
        var found, index := FindUnit(address);
        if !found {
          LinesAreInside(units, address);
          return NotFound;
        }
        unit := index;
      }
      var s := FindLine(address);
      r := Reported(unit, s);
      OneUnit(units, unit, address);
      GapInUnit(units, unit, address, r);
    }

    /** The binary search over units. */
    method FindUnit(address: nat) returns (found: bool, index: nat)
      requires WellFormed(units)
      ensures found <==> !OutsideAll(units, address)
      ensures found ==> index < |units| && units[index].start <= address <= units[index].end
    {
      var left, right := 0, |units|;
      index := right / 2;
      while right > left
        invariant 0 <= left <= right <= |units| && index == (left + right) / 2
        invariant forall v :: 0 <= v < left ==> units[v].end < address
        invariant forall v :: right <= v < |units| ==> address < units[v].start
      {
        if address < units[index].start {
          right := index;
        } else if address > units[index].end {
          left := index + 1;
        } else {
          break;
        }
        index := (left + right) / 2;
      }
      found := left != right;
    }

    /** The interpolation search within the remembered unit; intervals already met are kept to tell an endless one. */
    method FindLine(address: nat) returns (r: SearchResult)
      requires unit < |units| && units[unit].lines != []
      ensures r == SearchLines(units[unit].lines, address)
    {
      var lines := units[unit].lines;
      var left, right := 0, |lines| - 1;
      var seen: set<Bounds> := {};
      while right >= left
        invariant 0 <= left < |lines| && 0 <= right < |lines|
        invariant SearchLines(lines, address) == Search(lines, address, Bounds(left, right), seen)
        decreases AllBounds(|lines|) - seen
      {
        if Bounds(left, right) in seen {
          return Endless;
        }
        assert Bounds(left, right) in AllBounds(|lines|) - seen;
        seen := seen + {Bounds(left, right)};
        if lines[right].address <= lines[left].address {
          return DivisionByZero;
        }
        var index := Guess(address, left, right, lines[left].address, lines[right].address);
        if index < 0 || index >= |lines| {
          return OutOfBounds;
        }
        if address < lines[index].address {
          if index == 0 {
            return OutOfBounds;
          }
          right := index - 1;
        } else if address > lines[index].address {
          if index + 1 == |lines| {
            return OutOfBounds;
          }
          left := index + 1;
        } else {
          return AtLine(index);
        }
      }
      return Absent;
    }
  }

  lemma LinesAreInside(units: seq<CachedUnit>, address: nat)
    requires WellFormed(units) && OutsideAll(units, address)
    ensures forall u: nat, i: nat :: !HasLine(units, u, i, address)
    ensures forall u: nat :: !InUnit(units, u, address)
    ensures forall u: nat, k: nat :: u < |units| ==> !InGap(units[u], k, address)
  {
    forall u: nat, k: nat | u < |units| ensures !InGap(units[u], k, address) {
      if InGap(units[u], k, address) {
        GapIsInside(units, u, k, address);
      }
    }
  }

  lemma GapInUnit(units: seq<CachedUnit>, v: nat, address: nat, r: LookupResult)
    requires WellFormed(units) && InUnit(units, v, address) && Fits(units[v])
    requires r == Reported(v, SearchLines(units[v].lines, address))
    ensures forall u: nat, k: nat :: u < |units| && InGap(units[u], k, address) ==> GapResult(units[u], k, address, r)
  {
    forall u: nat, k: nat | u < |units| && InGap(units[u], k, address) ensures GapResult(units[u], k, address, r) {
      GapIsInside(units, u, k, address);
      GapOutcome(units[v], k, address);
    }
  }

  lemma GapIsInside(units: seq<CachedUnit>, u: nat, k: nat, address: nat)
    requires WellFormed(units) && u < |units| && InGap(units[u], k, address)
    ensures InUnit(units, u, address)
  {
    LineInUnit(units[u], k);
    LineInUnit(units[u], k + 1);
  }

  /** In one unit's range no other unit's lines, nor range, hold the address. */
  lemma OneUnit(units: seq<CachedUnit>, v: nat, address: nat)
    requires WellFormed(units) && InUnit(units, v, address) && forall u :: 0 <= u < |units| ==> Fits(units[u])
    ensures forall u: nat :: InUnit(units, u, address) ==> u == v
    ensures forall u: nat, i: nat :: HasLine(units, u, i, address) ==>
              u == v && SearchLines(units[v].lines, address) ==
                          if |units[v].lines| == 1 then DivisionByZero else AtLine(i)
  {
    forall u: nat, i: nat | HasLine(units, u, i, address)
      ensures u == v && SearchLines(units[v].lines, address) ==
                          if |units[v].lines| == 1 then DivisionByZero else AtLine(i)
    {
      LineInUnit(units[u], i);
      CachedIsFound(units[u], i);
    }
  }
}
