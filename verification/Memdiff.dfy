/**
 The comparison chain of memdiff.c: vectors of 32, then 16 bytes, then 8-byte words,
 then single bytes. A vector or word comparison is equality of that many bytes.
 */
module Memdiff {
  import opened Bytes

  method Memdiff32(buf1: seq<byte>, buf2: seq<byte>) returns (differ: bool)
    requires |buf1| == |buf2|
    ensures differ <==> buf1 != buf2
  {
    var a, b := buf1, buf2;
    while |a| >= 32
      invariant |a| == |b| && (buf1 == buf2 <==> a == b)
      decreases |a|
    {
      if a[..32] != b[..32] {
        return true;
      }
      assert a == a[..32] + a[32..] && b == b[..32] + b[32..];
      a, b := a[32..], b[32..];
    }
    if |a| > 0 {
      differ := Memdiff16(a, b);
      return;
    }
    return false;
  }

  method Memdiff16(buf1: seq<byte>, buf2: seq<byte>) returns (differ: bool)
    requires |buf1| == |buf2|
    ensures differ <==> buf1 != buf2
  {
    var a, b := buf1, buf2;
    while |a| >= 16
      invariant |a| == |b| && (buf1 == buf2 <==> a == b)
      decreases |a|
    {
      if a[..16] != b[..16] {
        return true;
      }
      assert a == a[..16] + a[16..] && b == b[..16] + b[16..];
      a, b := a[16..], b[16..];
    }
    if |a| > 0 {
      differ := Memdiff8(a, b);
      return;
    }
    return false;
  }

  method Memdiff8(buf1: seq<byte>, buf2: seq<byte>) returns (differ: bool)
    requires |buf1| == |buf2|
    ensures differ <==> buf1 != buf2
  {
    var size := |buf1|;
    var limit := size / 8;
    var cur := 0;
    while cur < limit
      invariant 0 <= cur <= limit
      invariant buf1[..8 * cur] == buf2[..8 * cur]
    {
      if buf1[8 * cur..8 * cur + 8] != buf2[8 * cur..8 * cur + 8] {
        return true;
      }
      assert buf1[..8 * cur + 8] == buf1[..8 * cur] + buf1[8 * cur..8 * cur + 8];
      assert buf2[..8 * cur + 8] == buf2[..8 * cur] + buf2[8 * cur..8 * cur + 8];
      cur := cur + 1;
    }
    if limit * 8 < size {
      for pos := cur * 8 to size
        invariant buf1[..pos] == buf2[..pos]
      {
        if buf1[pos] != buf2[pos] {
          return true;
        }
      }
    }
    assert buf1 == buf1[..size] && buf2 == buf2[..size];
    return false;
  }
}
