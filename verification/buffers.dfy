/**
 * Copies into byte arrays in place, as `Array.CopyTo`, `Array.Copy`,
 * `Buffer.BlockCopy` and `BinaryPrimitives.WriteInt32BigEndian` perform them.
 */
module Buffers {
  import opened Bytes

  /** The buffer `buf` with `src` written over it from offset `off`. */
  function Place(buf: seq<byte>, off: nat, src: seq<byte>): (r: seq<byte>)
    requires off + |src| <= |buf|
    ensures |r| == |buf|
  {
    buf[..off] + src + buf[off + |src|..]
  }

  /** Placing writes exactly the bytes of `src`, at their offsets, and leaves every other byte as it was. */
  lemma {:induction false} PlaceAt(buf: seq<byte>, off: nat, src: seq<byte>, k: nat)
    requires off + |src| <= |buf| && k < |buf|
    ensures off <= k < off + |src| ==> Place(buf, off, src)[k] == src[k - off]
    ensures !(off <= k < off + |src|) ==> Place(buf, off, src)[k] == buf[k]
  {
    var r := Place(buf, off, src);
    if k < off {
      assert r[k] == buf[..off][k];
    } else if k < off + |src| {
      assert r[k] == (buf[..off] + src)[k];
    } else {
      assert r[k] == buf[off + |src|..][k - off - |src|];
    }
  }

  /** Placing at the end of what is already there, then more right after it, is placing both at once. */
  lemma {:induction false} PlaceTwice(buf: seq<byte>, off: nat, a: seq<byte>, b: seq<byte>)
    requires off + |a| + |b| <= |buf|
    ensures Place(Place(buf, off, a), off + |a|, b) == Place(buf, off, a + b)
  {
    var once := Place(buf, off, a);
    assert once[..off + |a|] == buf[..off] + a;
    assert once[off + |a| + |b|..] == buf[off + |a| + |b|..];
  }

  /** A buffer that agrees with `Place` byte by byte is `Place`. */
  lemma {:induction false} PlaceByBytes(buf: seq<byte>, off: nat, src: seq<byte>, r: seq<byte>)
    requires off + |src| <= |buf| && |r| == |buf|
    requires forall j :: 0 <= j < |r| ==> r[j] == if off <= j < off + |src| then src[j - off] else buf[j]
    ensures r == Place(buf, off, src)
  {
    forall j | 0 <= j < |r| ensures r[j] == Place(buf, off, src)[j] {
      PlaceAt(buf, off, src, j);
    }
  }

  /** Copy `src` into `dst` from offset `off`, one byte at a time. */
  method CopyInto(src: seq<byte>, dst: array<byte>, off: nat)
    requires off + |src| <= dst.Length
    modifies dst
    ensures dst[..] == Place(old(dst[..]), off, src)
  {
    var k := 0;
    while k < |src|
      invariant 0 <= k <= |src|
      invariant forall j :: 0 <= j < dst.Length ==> dst[j] == if off <= j < off + k then src[j - off] else old(dst[j])
    {
      dst[off + k] := src[k];
      k := k + 1;
    }
    PlaceByBytes(old(dst[..]), off, src, dst[..]);
  }

  /** `BinaryPrimitives.WriteInt32BigEndian` into `dst` at offset `off`. */
  method WriteInt32BigEndian(dst: array<byte>, off: nat, x: int32)
    requires off + 4 <= dst.Length
    modifies dst
    ensures dst[..] == Place(old(dst[..]), off, BigEndian32(x))
  {
    CopyInto(BigEndian32(x), dst, off);
  }
}
