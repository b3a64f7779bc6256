/**
 Trap bytes in the child's code: set_breakpoints puts one at every cached statement and
 saves the byte it replaced; process_breakpoint lifts one for a single step.
 */
module TrapPatching {
  import opened Bytes
  import opened Breakpoints
  import opened LineSearch
  import opened StatementLookup

  ghost predicate HasAddress(lines: seq<Line>, n: nat, x: nat)
    requires n <= |lines|
  {
    exists i :: 0 <= i < n && lines[i].address == x
  }

  ghost predicate InUnits(units: seq<CachedUnit>, n: nat, x: nat)
    requires n <= |units|
  {
    exists u :: 0 <= u < n && HasAddress(units[u].lines, |units[u].lines|, x)
  }

  /** A word can be read at every statement. */
  ghost predicate Mapped(lines: seq<Line>, code: seq<byte>) {
    forall i :: 0 <= i < |lines| ==> lines[i].address + WORD_SIZE <= |code|
  }

  /** `code` is `original` with a trap at each of the first `n` lines. */
  ghost predicate LinesPatched(code: seq<byte>, original: seq<byte>, lines: seq<Line>, n: nat)
    requires n <= |lines|
  {
    && |code| == |original|
    && forall x: nat :: x < |code| ==> code[x] == if HasAddress(lines, n, x) then INT3 else original[x]
  }

  ghost predicate UnitsPatched(code: seq<byte>, original: seq<byte>, units: seq<CachedUnit>, n: nat)
    requires n <= |units|
  {
    && |code| == |original|
    && forall x: nat :: x < |code| ==> code[x] == if InUnits(units, n, x) then INT3 else original[x]
  }

  /** The lines as cached: each with the byte of the original code at its address. */
  ghost predicate Saved(saved: seq<Line>, lines: seq<Line>, original: seq<byte>)
    requires Mapped(lines, original)
  {
    && |saved| == |lines|
    && forall i :: 0 <= i < |lines| ==> saved[i] == lines[i].(orgByte := original[lines[i].address])
  }

  ghost predicate UnitSaved(cached: CachedUnit, u: CachedUnit, original: seq<byte>)
    requires Mapped(u.lines, original)
  {
    cached == u.(lines := cached.lines) && Saved(cached.lines, u.lines, original)
  }

  lemma PatchNext(code: seq<byte>, original: seq<byte>, lines: seq<Line>, n: nat)
    requires n < |lines| && LinesPatched(code, original, lines, n) && lines[n].address < |code|
    ensures LinesPatched(code[lines[n].address := INT3], original, lines, n + 1)
  {
  }

  lemma UnitNext(middle: seq<byte>, code: seq<byte>, original: seq<byte>, units: seq<CachedUnit>, n: nat)
    requires n < |units| && UnitsPatched(middle, original, units, n)
    requires LinesPatched(code, middle, units[n].lines, |units[n].lines|)
    ensures UnitsPatched(code, original, units, n + 1)
  {
  }

  lemma NotYetPatched(units: seq<CachedUnit>, n: nat, i: nat)
    requires WellFormed(units) && n < |units| && i < |units[n].lines|
    ensures !InUnits(units, n, units[n].lines[i].address)
    ensures !HasAddress(units[n].lines, i, units[n].lines[i].address)
  {
  }

  class Tracee {
    var code: seq<byte>

    constructor (code: seq<byte>)
      ensures this.code == code
    {
      this.code := code;
    }

    /** The line loop of set_breakpoints. */
    method PatchLines(lines: seq<Line>) returns (saved: seq<Line>)
      requires Mapped(lines, code)
      requires forall i, j :: 0 <= i < j < |lines| ==> lines[i].address < lines[j].address
      modifies this
      ensures LinesPatched(code, old(code), lines, |lines|)
      ensures Saved(saved, lines, old(code))
    {
      saved := [];
      for i := 0 to |lines|
        invariant LinesPatched(code, old(code), lines, i)
        invariant |saved| == i
        invariant forall j :: 0 <= j < i ==> saved[j] == lines[j].(orgByte := old(code)[lines[j].address])
      {
        var a := lines[i].address;
        assert !HasAddress(lines, i, a);
        var instr := Peek(code, a);
        PokeSame(code, a, INT3);
        PatchNext(code, old(code), lines, i);
        saved := saved + [lines[i].(orgByte := (instr % 256) as byte)];
        code := Poke(code, a, WithLowByte(instr, INT3));
      }
    }

    /**
     set_breakpoints: with distinct addresses, even when their words overlap, the code becomes the
     original with a trap at every cached address, and the true original byte is saved.
     */
    method SetBreakpoints(units: seq<CachedUnit>) returns (cache: seq<CachedUnit>)
      requires WellFormed(units)
      requires forall u :: 0 <= u < |units| ==> Mapped(units[u].lines, code)
      modifies this
      ensures UnitsPatched(code, old(code), units, |units|)
      ensures |cache| == |units|
      ensures forall u :: 0 <= u < |units| ==>
                UnitSaved(cache[u], units[u], old(code))
    {
      cache := [];
      for n := 0 to |units|
        invariant UnitsPatched(code, old(code), units, n)
        invariant |cache| == n
        invariant forall u :: 0 <= u < n ==>
                    UnitSaved(cache[u], units[u], old(code))
      {
        ghost var middle := code;
        assert WellFormedUnit(units[n]);
        var saved := PatchLines(units[n].lines);
        UnitNext(middle, code, old(code), units, n);
        forall i | 0 <= i < |saved|
          ensures saved[i] == units[n].lines[i].(orgByte := old(code)[units[n].lines[i].address])
        {
          NotYetPatched(units, n, i);
        }
        assert UnitSaved(units[n].(lines := saved), units[n], old(code));
        cache := cache + [units[n].(lines := saved)];
      }
    }

    /**
     The code side of process_breakpoint: put the original byte back, let the child execute one
     instruction, put the trap back. `after` is the code once the instruction has run. The code left
     is that of the instruction with the trap in it if and only if the instruction did not write the
     seven bytes after the trap: those are restored from the word read before the step.
     */
    method StepOver(pc: nat, orgByte: byte, after: seq<byte>) returns (during: seq<byte>)
      requires pc + WORD_SIZE <= |code| && |after| == |code|
      modifies this
      ensures during == old(code)[pc := orgByte]
      ensures code == after[..pc] + [INT3] + old(code)[pc + 1..pc + WORD_SIZE] + after[pc + WORD_SIZE..]
      ensures code == after[pc := INT3] <==> after[pc + 1..pc + WORD_SIZE] == old(code)[pc + 1..pc + WORD_SIZE]
    {
      var instr := Peek(code, pc);
      PokeSame(code, pc, orgByte);
      during := Poke(code, pc, WithLowByte(instr, orgByte));
      PokeLowByte(after, pc, code[pc..pc + WORD_SIZE], INT3);
      assert code[pc..pc + WORD_SIZE][1..] == code[pc + 1..pc + WORD_SIZE];
      RestoredIff(code, after, pc);
      code := Poke(after, pc, WithLowByte(instr, INT3));
    }

    /**
     One breakpoint of process_breakpoint in a child that does not write its own code: the statement
     is looked up by the address of the trap, and the child steps with exactly the original byte there
     and the rest of the patched image, which is the same afterwards. Nothing is executed if and only if
     the statement is the only one of its unit: then the lookup divides by zero.
     */
    method StepAt(cache: StatementCache, pc: nat, ghost original: seq<byte>) returns (executed: Option<seq<byte>>)
      requires Armed(code, original, cache.units) && cache.unit < |cache.units| && IsStop(cache.units, pc)
      modifies this, cache`unit
      ensures code == old(code) && cache.unit < |cache.units|
      ensures executed.Some? <==> HasCompany(cache.units, pc)
      ensures executed.Some? ==> pc < |original| == |code| && executed.value == Lifted(pc, original, code)
    {
      ghost var image := code;
      ghost var u: nat, i: nat :| HasLine(cache.units, u, i, pc);
      OnlyLine(cache.units, u, i, pc);
      StopHasTrap(code, original, cache.units, u, i, pc);
      var found := cache.Lookup(pc);
      if !found.Found? {
        return None;
      }
      var orgByte := cache.units[found.unit].lines[found.line].orgByte;
      var during := StepOver(pc, orgByte, code[pc := orgByte]);
      LiftAndReturn(image, pc, orgByte);
      return Some(during);
    }

    /** A run of breakpoints goes through if and only if each of its statements shares its unit with another. */
    method StepAll(cache: StatementCache, pcs: seq<nat>, ghost original: seq<byte>) returns (executed: seq<seq<byte>>)
      requires Armed(code, original, cache.units) && cache.unit < |cache.units|
      requires forall k :: 0 <= k < |pcs| ==> IsStop(cache.units, pcs[k])
      modifies this, cache`unit
      ensures code == old(code) && cache.unit < |cache.units| && |executed| <= |pcs|
      ensures forall k :: 0 <= k < |executed| ==> executed[k] == Lifted(pcs[k], original, code)
      ensures |executed| == |pcs| <==> AllHaveCompany(cache.units, pcs)
    {
      executed := [];
      ghost var image, units := code, cache.units;
      for k := 0 to |pcs|
        invariant code == image && cache.units == units && |executed| == k && cache.unit < |units|
        invariant forall j :: 0 <= j < k ==> executed[j] == Lifted(pcs[j], original, image)
        invariant AllHaveCompany(units, pcs) == AllHaveCompany(units, pcs[k..])
      {
        var during := StepAt(cache, pcs[k], original);
        if during.None? {
          return;
        }
        executed := executed + [during.value];
      }
    }

    /** set_breakpoints, and then a run of breakpoints on the cache it filled. */
    method PatchAndStep(units: seq<CachedUnit>, pcs: seq<nat>) returns (executed: seq<seq<byte>>)
      requires Ready(units) && units != [] && forall u :: 0 <= u < |units| ==> Mapped(units[u].lines, code)
      requires AllHaveCompany(units, pcs)
      modifies this
      ensures UnitsPatched(code, old(code), units, |units|) && |executed| == |pcs|
      ensures forall k :: 0 <= k < |pcs| ==> executed[k] == Lifted(pcs[k], old(code), code)
    {
      var filled := SetBreakpoints(units);
      CacheIsPatched(code, old(code), units, filled);
      SameStops(units, filled, pcs);
      var cache := new StatementCache(filled);
      executed := StepAll(cache, pcs, old(code));
    }
  }

  /** A cache that lookup_cache can search. */
  ghost predicate Ready(units: seq<CachedUnit>) {
    WellFormed(units) && forall u :: 0 <= u < |units| ==> Fits(units[u])
  }

  /** The code has its traps, and a cache that can be searched the bytes under them. */
  ghost predicate Armed(image: seq<byte>, original: seq<byte>, units: seq<CachedUnit>) {
    Ready(units) && UnitsPatched(image, original, units, |units|) && BytesSaved(units, original)
  }

  ghost predicate IsStop(units: seq<CachedUnit>, pc: nat) {
    exists u: nat, i: nat :: HasLine(units, u, i, pc)
  }

  /** A statement is at the address, and its unit has another. */
  ghost predicate HasCompany(units: seq<CachedUnit>, pc: nat) {
    exists u: nat, i: nat :: HasLine(units, u, i, pc) && |units[u].lines| > 1
  }

  lemma OnlyLine(units: seq<CachedUnit>, u: nat, i: nat, pc: nat)
    requires WellFormed(units) && HasLine(units, u, i, pc)
    ensures HasCompany(units, pc) <==> |units[u].lines| > 1
  {
    if v: nat, j: nat :| HasLine(units, v, j, pc) && |units[v].lines| > 1 {
      LineInUnit(units[u], i);
      LineInUnit(units[v], j);
    }
  }

  lemma {:induction false} SameStops(units: seq<CachedUnit>, cache: seq<CachedUnit>, pcs: seq<nat>)
    requires |units| == |cache| && forall u :: 0 <= u < |units| ==> |units[u].lines| == |cache[u].lines|
    requires forall u: nat, i: nat, pc: nat :: HasLine(units, u, i, pc) <==> HasLine(cache, u, i, pc)
    requires AllHaveCompany(units, pcs)
    ensures AllHaveCompany(cache, pcs) && forall k :: 0 <= k < |pcs| ==> IsStop(cache, pcs[k])
  {
    if pcs == [] {
    } else {
      var u: nat, i: nat :| HasLine(units, u, i, pcs[0]) && |units[u].lines| > 1;
      assert HasLine(cache, u, i, pcs[0]) && |cache[u].lines| > 1;
      SameStops(units, cache, pcs[1..]);
      assert forall k :: 1 <= k < |pcs| ==> pcs[k] == pcs[1..][k - 1];
    }
  }

  /** Each entry holds the byte of the original code at its address. */
  ghost predicate BytesSaved(cache: seq<CachedUnit>, original: seq<byte>) {
    forall u: nat, i: nat :: u < |cache| && i < |cache[u].lines| ==>
      cache[u].lines[i].address + WORD_SIZE <= |original| &&
      cache[u].lines[i].orgByte == original[cache[u].lines[i].address]
  }

  /**
   The code to be executed at a stop, whose word is mapped: the patched image with the original byte at
   the stop's address.
   */
  ghost function Lifted(pc: nat, original: seq<byte>, image: seq<byte>): seq<byte> {
    if pc < |original| == |image| then image[pc := original[pc]] else []
  }

  /** Every stop has company. */
  ghost predicate AllHaveCompany(units: seq<CachedUnit>, pcs: seq<nat>) {
    pcs == [] || (HasCompany(units, pcs[0]) && AllHaveCompany(units, pcs[1..]))
  }

  /** What StepOver leaves, next to the code with the trap in it. */
  lemma RestoredIff(before: seq<byte>, after: seq<byte>, pc: nat)
    requires pc + WORD_SIZE <= |before| == |after|
    ensures after[..pc] + [INT3] + before[pc + 1..pc + WORD_SIZE] + after[pc + WORD_SIZE..] == after[pc := INT3]
            <==> after[pc + 1..pc + WORD_SIZE] == before[pc + 1..pc + WORD_SIZE]
  {
    var restored := after[..pc] + [INT3] + before[pc + 1..pc + WORD_SIZE] + after[pc + WORD_SIZE..];
    assert restored[pc + 1..pc + WORD_SIZE] == before[pc + 1..pc + WORD_SIZE];
    assert after[pc := INT3][pc + 1..pc + WORD_SIZE] == after[pc + 1..pc + WORD_SIZE];
    if after[pc + 1..pc + WORD_SIZE] == before[pc + 1..pc + WORD_SIZE] {
      assert after[pc := INT3] == after[..pc] + [INT3] + after[pc + 1..pc + WORD_SIZE] + after[pc + WORD_SIZE..];
    }
  }

  /** Every cached statement holds a trap, and its entry the byte under it. */
  lemma StopHasTrap(image: seq<byte>, original: seq<byte>, cache: seq<CachedUnit>, u: nat, i: nat, pc: nat)
    requires UnitsPatched(image, original, cache, |cache|) && BytesSaved(cache, original) && HasLine(cache, u, i, pc)
    ensures pc + WORD_SIZE <= |image| && image[pc] == INT3 && cache[u].lines[i].orgByte == original[pc]
  {
    assert HasAddress(cache[u].lines, |cache[u].lines|, pc);
    assert InUnits(cache, |cache|, pc);
  }

  /** The cache that set_breakpoints fills has the addresses of the statements it was given. */
  lemma CacheIsPatched(image: seq<byte>, original: seq<byte>, units: seq<CachedUnit>, cache: seq<CachedUnit>)
    requires WellFormed(units) && UnitsPatched(image, original, units, |units|) && |cache| == |units|
    requires forall u :: 0 <= u < |units| ==> Mapped(units[u].lines, original)
    requires forall u :: 0 <= u < |units| ==> UnitSaved(cache[u], units[u], original)
    ensures WellFormed(cache) && UnitsPatched(image, original, cache, |cache|) && BytesSaved(cache, original)
    ensures forall u :: 0 <= u < |units| ==> Fits(units[u]) ==> Fits(cache[u])
    ensures forall u: nat, i: nat, pc: nat :: HasLine(units, u, i, pc) <==> HasLine(cache, u, i, pc)
  {
    forall x: nat | x < |image| ensures InUnits(units, |units|, x) <==> InUnits(cache, |cache|, x) {
      SameAddresses(units, cache, original, x);
    }
  }

  lemma SameAddresses(units: seq<CachedUnit>, cache: seq<CachedUnit>, original: seq<byte>, x: nat)
    requires |cache| == |units| && forall u :: 0 <= u < |units| ==> Mapped(units[u].lines, original)
    requires forall u :: 0 <= u < |units| ==> UnitSaved(cache[u], units[u], original)
    ensures InUnits(units, |units|, x) <==> InUnits(cache, |cache|, x)
  {
    forall u | 0 <= u < |units|
      ensures HasAddress(units[u].lines, |units[u].lines|, x) <==> HasAddress(cache[u].lines, |cache[u].lines|, x)
    {
      assert UnitSaved(cache[u], units[u], original);
    }
  }

  /** Lifting a trap and putting it back leaves the image. */
  lemma LiftAndReturn(image: seq<byte>, pc: nat, b: byte)
    requires pc + WORD_SIZE <= |image| && image[pc] == INT3
    ensures var during := image[pc := b];
            during[..pc] + [INT3] + image[pc + 1..pc + WORD_SIZE] + during[pc + WORD_SIZE..] == image
  {
  }

  /** An instruction at 0 that writes 7 at address 1: the trap's word brings the old byte back. */
  method SelfWriteExample() returns (left: byte)
    ensures left == 0x90
  {
    var code: seq<byte> := [INT3, 0x90, 0x90, 0x90, 0x90, 0x90, 0x90, 0x90];
    var tracee := new Tracee(code);
    var during := tracee.StepOver(0, 0x90, [0x90, 7, 0x90, 0x90, 0x90, 0x90, 0x90, 0x90]);
    left := tracee.code[1];
  }
}
