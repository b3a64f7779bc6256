/**
 Bytes, pages and segments, and the sizes the recorder is built around: a page of
 child memory is diffed in segments of MEM_SEGMENT_SIZE bytes.
 */
module Bytes {

  newtype byte = x: int | 0 <= x < 256

  const SEGMENT_SIZE: nat := 32
  const PAGE_SIZE: nat := 4096
  const SEGMENTS_PER_PAGE: nat := 128

  type Page = s: seq<byte> | |s| == PAGE_SIZE witness seq(PAGE_SIZE, _ => 0)

  datatype Option<+T> = None | Some(value: T)

  /** The number of the page an address falls in. */
  function PageOf(address: nat): nat {
    address / PAGE_SIZE
  }

  /** Segment `k` of a page. */
  function Segment(page: Page, k: nat): seq<byte>
    requires k < SEGMENTS_PER_PAGE
  {
    page[SEGMENT_SIZE * k..SEGMENT_SIZE * k + SEGMENT_SIZE]
  }

  /** The address of segment `k` of page `p`. */
  function SegmentAddress(p: nat, k: nat): nat {
    p * PAGE_SIZE + SEGMENT_SIZE * k
  }

  lemma SliceOfSlice<T>(s: seq<T>, a: nat, b: nat, c: nat, d: nat)
    requires a <= b <= |s| && c <= d <= b - a
    ensures s[a..b][c..d] == s[a + c..a + d]
  {
    var part := s[a..b];
    forall i | 0 <= i < d - c ensures part[c..d][i] == s[a + c..a + d][i] {
      assert part[c..d][i] == part[c + i] == s[a + c + i];
    }
  }

  /** The pages of a region given by its byte address and size. */
  function PageRange(address: nat, size: nat): set<nat> {
    set p: nat {:trigger Between(address / PAGE_SIZE, p, (address + size) / PAGE_SIZE)}
      | address / PAGE_SIZE <= p < (address + size) / PAGE_SIZE &&
          Between(address / PAGE_SIZE, p, (address + size) / PAGE_SIZE)
  }

  predicate Between(lo: nat, p: nat, hi: nat) {
    lo <= p < hi
  }

  /** The number a little-endian machine reads from memory. */
  function LittleEndian(bytes: seq<byte>): nat {
    if bytes == [] then 0 else bytes[0] as nat + 256 * LittleEndian(bytes[1..])
  }

  predicate Aligned(n: nat) {
    n % PAGE_SIZE == 0
  }

  lemma SegmentInPage(p: nat, k: nat)
    requires k < SEGMENTS_PER_PAGE
    ensures PageOf(SegmentAddress(p, k)) == p
    ensures SegmentAddress(p, k) % SEGMENT_SIZE == 0
  {
  }
}
