/**
 The statement cache of run.c, and the 8-byte words through which trap bytes are written into
 the child's code.
 */
module Breakpoints {
  import opened Bytes

  const INT3: byte := 0xCC
  const WORD_SIZE: nat := 8

  // Words of child code, as PEEKDATA and POKEDATA exchange them

  function WordBytes(w: nat, n: nat): (bytes: seq<byte>)
    ensures |bytes| == n
  {
    if n == 0 then [] else [(w % 256) as byte] + WordBytes(w / 256, n - 1)
  }

  /** (w & ~0xFF) | b */
  function WithLowByte(w: nat, b: byte): nat {
    w - w % 256 + b as nat
  }

  lemma LowByte(b: byte, rest: nat)
    ensures (b as nat + 256 * rest) % 256 == b as nat && (b as nat + 256 * rest) / 256 == rest
  {
  }

  lemma {:induction false} WordRoundTrip(bytes: seq<byte>)
    ensures WordBytes(LittleEndian(bytes), |bytes|) == bytes
  {
    if bytes == [] {
    } else {
      WordRoundTrip(bytes[1..]);
      LowByte(bytes[0], LittleEndian(bytes[1..]));
    }
  }

  lemma LowByteWord(bytes: seq<byte>, b: byte)
    requires bytes != []
    ensures WithLowByte(LittleEndian(bytes), b) == LittleEndian(bytes[0 := b])
    ensures LittleEndian(bytes) % 256 == bytes[0] as nat
  {
  }

  /** Changing the low byte of a word changes the first byte in memory and no other. */
  lemma LowByteIsFirst(bytes: seq<byte>, b: byte)
    requires bytes != []
    ensures WordBytes(WithLowByte(LittleEndian(bytes), b), |bytes|) == bytes[0 := b]
  {
    LowByteWord(bytes, b);
    WordRoundTrip(bytes[0 := b]);
  }

  function Peek(code: seq<byte>, a: nat): nat
    requires a + WORD_SIZE <= |code|
  {
    LittleEndian(code[a..a + WORD_SIZE])
  }

  function Poke(code: seq<byte>, a: nat, w: nat): (r: seq<byte>)
    requires a + WORD_SIZE <= |code|
    ensures |r| == |code|
  {
    code[..a] + WordBytes(w, WORD_SIZE) + code[a + WORD_SIZE..]
  }

  /** Writing back a word read from other code: its low byte is `b`, the rest is as read. */
  lemma PokeLowByte(code: seq<byte>, a: nat, read: seq<byte>, b: byte)
    requires a + WORD_SIZE <= |code| && |read| == WORD_SIZE
    ensures Poke(code, a, WithLowByte(LittleEndian(read), b)) == code[..a] + [b] + read[1..] + code[a + WORD_SIZE..]
  {
    LowByteIsFirst(read, b);
    assert code[..a] + read[0 := b] == code[..a] + [b] + read[1..];
  }

  lemma PokeSame(code: seq<byte>, a: nat, b: byte)
    requires a + WORD_SIZE <= |code|
    ensures Poke(code, a, WithLowByte(Peek(code, a), b)) == code[a := b]
    ensures Peek(code, a) % 256 == code[a] as nat
  {
    var word := code[a..a + WORD_SIZE];
    LowByteWord(word, b);
    PokeLowByte(code, a, word, b);
    SliceOfSlice(code, a, a + WORD_SIZE, 1, WORD_SIZE);
    assert code[a := b] == code[..a] + [b] + code[a + 1..a + WORD_SIZE] + code[a + WORD_SIZE..];
  }

  // The statement cache

  datatype Line = Line(address: nat, funcId: nat, flag: nat, orgByte: byte)

  datatype CachedUnit = CachedUnit(start: nat, end: nat, lines: seq<Line>)

  /** Lines come ordered by address; the unit spans from its first to its last line. */
  ghost predicate WellFormedUnit(u: CachedUnit) {
    && u.lines != []
    && (forall i, j :: 0 <= i < j < |u.lines| ==> u.lines[i].address < u.lines[j].address)
    && u.start == u.lines[0].address && u.end == u.lines[|u.lines| - 1].address
  }

  ghost predicate WellFormed(units: seq<CachedUnit>) {
    && (forall u :: 0 <= u < |units| ==> WellFormedUnit(units[u]))
    && (forall u, v :: 0 <= u < v < |units| ==> units[u].end < units[v].start)
  }

  predicate HasLine(units: seq<CachedUnit>, u: nat, i: nat, address: nat) {
    u < |units| && i < |units[u].lines| && units[u].lines[i].address == address
  }

  lemma LineInUnit(u: CachedUnit, i: nat)
    requires WellFormedUnit(u) && i < |u.lines|
    ensures u.start <= u.lines[i].address <= u.end
  {
  }
}
