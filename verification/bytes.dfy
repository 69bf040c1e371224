/**
 * Machine-level building blocks shared by the codecs: bytes, the 32-bit
 * two's-complement integers of C#, big-endian encodings and the
 * first-occurrence search that `Array.IndexOf` and `string.IndexOf` perform.
 */
module Bytes {

  type byte = b: int | 0 <= b < 0x100
  type int32 = x: int | -0x8000_0000 <= x < 0x8000_0000
  type int64 = x: int | -0x8000_0000_0000_0000 <= x < 0x8000_0000_0000_0000

  const INT32_MAX: int := 0x7FFF_FFFF
  const INT32_MIN: int := -0x8000_0000
  const INT64_MAX: int := 0x7FFF_FFFF_FFFF_FFFF
  const INT64_MIN: int := -0x8000_0000_0000_0000

  /** The longest byte array the .NET runtime allocates. */
  const MAX_ARRAY: int := 0x7FFF_FFC7

  /** The ASCII codes the wire formats are built from. */
  const ZERO_DIGIT: byte := 48   // '0'
  const MINUS: byte := 45        // '-'
  const PLUS: byte := 43         // '+'
  const COLON: byte := 58        // ':'
  const LOWER_D: byte := 100     // 'd'
  const LOWER_E: byte := 101     // 'e'
  const LOWER_I: byte := 105     // 'i'
  const LOWER_L: byte := 108     // 'l'

  /** The bytes of an ASCII text literal. */
  function Ascii(s: string): (r: seq<byte>)
    requires forall k :: 0 <= k < |s| ==> s[k] as int < 0x80
    ensures |r| == |s|
    ensures forall k :: 0 <= k < |s| ==> r[k] == s[k] as int
  {
    seq(|s|, k requires 0 <= k < |s| => s[k] as int)
  }

  /** A buffer freshly allocated by `new byte[n]`: all zero. */
  function Zeros(n: nat): (r: seq<byte>)
    ensures |r| == n && forall k :: 0 <= k < n ==> r[k] == 0
  {
    seq(n, _ => 0)
  }

  /** The conversion `(int)x` of C#: keep the low 32 bits, read them as two's complement. */
  function Wrap32(x: int): (r: int32)
    ensures (r - x) % 0x1_0000_0000 == 0
    ensures INT32_MIN <= x <= INT32_MAX ==> r == x
  {
    var m := x % 0x1_0000_0000;
    if m < 0x8000_0000 then m else m - 0x1_0000_0000
  }

  /** Unchecked 64-bit arithmetic of C#: keep the low 64 bits, read them as two's complement. */
  function Wrap64(x: int): (r: int64)
    ensures (r - x) % 0x1_0000_0000_0000_0000 == 0
    ensures INT64_MIN <= x <= INT64_MAX ==> r == x
  {
    var m := x % 0x1_0000_0000_0000_0000;
    if m < 0x8000_0000_0000_0000 then m else m - 0x1_0000_0000_0000_0000
  }

  /** `BinaryPrimitives.WriteInt32BigEndian`: the two's-complement bytes, most significant first. */
  function BigEndian32(x: int32): (r: seq<byte>)
    ensures |r| == 4
  {
    var u := x % 0x1_0000_0000;
    var r1 := u / 0x100;
    var r2 := r1 / 0x100;
    [r2 / 0x100, r2 % 0x100, r1 % 0x100, u % 0x100]
  }

  /** `BinaryPrimitives.ReadInt32BigEndian` over the first four bytes. */
  function ReadBigEndian32(b: seq<byte>): (r: int32)
    requires |b| >= 4
  {
    var u := b[0] as int * 0x100_0000 + b[1] as int * 0x1_0000 + b[2] as int * 0x100 + b[3] as int;
    if u < 0x8000_0000 then u else u - 0x1_0000_0000
  }

  /** Reading back what was written gives the same integer. */
  lemma {:induction false} ReadWriteBigEndian32(x: int32)
    ensures ReadBigEndian32(BigEndian32(x)) == x
  {
    var u := x % 0x1_0000_0000;
    var r1 := u / 0x100;
    var r2 := r1 / 0x100;
    assert u == r1 * 0x100 + u % 0x100;
    assert r1 == r2 * 0x100 + r1 % 0x100;
    assert r2 == (r2 / 0x100) * 0x100 + r2 % 0x100;
  }

  /** Writing back what was read gives the same four bytes. */
  lemma {:induction false} WriteReadBigEndian32(b: seq<byte>)
    requires |b| == 4
    ensures BigEndian32(ReadBigEndian32(b)) == b
  {
    var u := b[0] as int * 0x100_0000 + b[1] as int * 0x1_0000 + b[2] as int * 0x100 + b[3] as int;
    assert ReadBigEndian32(b) % 0x1_0000_0000 == u;
    DivModOf(b[0], b[1] as int * 0x1_0000 + b[2] as int * 0x100 + b[3] as int, 0x100_0000);
    DivModOf(b[0] as int * 0x100 + b[1] as int, b[2] as int * 0x100 + b[3] as int, 0x1_0000);
    DivModOf(b[0], b[1], 0x100);
    DivModOf(b[0] as int * 0x1_0000 + b[1] as int * 0x100 + b[2] as int, b[3], 0x100);
    DivModOf(b[0] as int * 0x100 + b[1] as int, b[2], 0x100);
  }

  /** Division by a positive constant recovers quotient and remainder. */
  lemma {:induction false} DivModOf(q: int, r: int, m: int)
    requires 0 <= r < m
    ensures (q * m + r) / m == q && (q * m + r) % m == r
  {
    var a := q * m + r;
    var d := a / m - q;
    assert d * m == r - a % m by {
      assert a == (a / m) * m + a % m;
      assert (a / m) * m == (d + q) * m == d * m + q * m;
    }
  }

  /** A 16-bit unsigned big-endian value, as `(hi << 8) | lo`. */
  function BigEndian16(hi: byte, lo: byte): (r: int)
    ensures 0 <= r < 0x1_0000
    ensures r / 0x100 == hi && r % 0x100 == lo
  {
    hi as int * 0x100 + lo as int
  }

  /**
   * The index of the first occurrence of `x` in `s`, or -1 when there is none,
   * as `Array.IndexOf` and the ordinal `string.IndexOf(char)` return it.
   * `IndexOfIsFirst` proves that this is the first occurrence.
   */
  function IndexOf<T(==)>(s: seq<T>, x: T): (r: int)
    ensures -1 <= r < |s|
  {
    IndexFrom(s, x, 0)
  }

  /** The scan behind `IndexOf`, from position `i` on. */
  function IndexFrom<T(==)>(s: seq<T>, x: T, i: nat): (r: int)
    ensures r == -1 || i <= r < |s|
    decreases |s| - i
  {
    if i >= |s| then -1
    else if s[i] == x then i
    else IndexFrom(s, x, i + 1)
  }

  lemma {:induction false} IndexFromIsFirst<T>(s: seq<T>, x: T, i: nat)
    requires i <= |s|
    ensures IndexFrom(s, x, i) == -1 <==> x !in s[i..]
    ensures IndexFrom(s, x, i) >= 0 ==> i <= IndexFrom(s, x, i) && s[IndexFrom(s, x, i)] == x && x !in s[i..IndexFrom(s, x, i)]
    decreases |s| - i
  {
    if i < |s| && s[i] != x {
      IndexFromIsFirst(s, x, i + 1);
      assert s[i..] == [s[i]] + s[i + 1..];
      var r := IndexFrom(s, x, i + 1);
      if r >= 0 {
        assert s[i..r] == [s[i]] + s[i + 1..r];
      }
    }
  }

  /** `IndexOf` finds `x` exactly when `x` occurs, and then at its first occurrence. */
  lemma {:induction false} IndexOfIsFirst<T>(s: seq<T>, x: T)
    ensures IndexOf(s, x) == -1 <==> x !in s
    ensures IndexOf(s, x) >= 0 ==> s[IndexOf(s, x)] == x && x !in s[..IndexOf(s, x)]
  {
    IndexFromIsFirst(s, x, 0);
    assert s[0..] == s;
  }

  lemma {:induction false} IndexFromCommonPrefix<T>(s: seq<T>, t: seq<T>, x: T, n: nat, i: nat)
    requires n <= |s| && n <= |t| && s[..n] == t[..n]
    requires 0 <= IndexFrom(s, x, i) < n
    ensures IndexFrom(t, x, i) == IndexFrom(s, x, i)
    decreases |s| - i
  {
    assert t[i] == s[i] by { assert t[..n][i] == s[..n][i]; }
    if s[i] != x {
      IndexFromCommonPrefix(s, t, x, n, i + 1);
    }
  }

  /** The search only looks as far as the first occurrence: a common prefix that contains it gives the same answer. */
  lemma {:induction false} IndexOfCommonPrefix<T>(s: seq<T>, t: seq<T>, x: T, n: nat)
    requires n <= |s| && n <= |t| && s[..n] == t[..n]
    requires 0 <= IndexOf(s, x) < n
    ensures IndexOf(t, x) == IndexOf(s, x)
  {
    IndexFromCommonPrefix(s, t, x, n, 0);
  }

  lemma {:induction false} IndexFromAt<T>(s: seq<T>, x: T, i: nat, k: nat)
    requires i <= k < |s| && s[k] == x
    requires forall j :: i <= j < k ==> s[j] != x
    ensures IndexFrom(s, x, i) == k
    decreases k - i
  {
    if i < k {
      IndexFromAt(s, x, i + 1, k);
    }
  }

  /** A first occurrence at `k` is what `IndexOf` reports. */
  lemma {:induction false} IndexOfAt<T>(s: seq<T>, x: T, k: nat)
    requires k < |s| && s[k] == x
    requires forall j :: 0 <= j < k ==> s[j] != x
    ensures IndexOf(s, x) == k
  {
    IndexFromAt(s, x, 0, k);
  }

  /** Byte strings laid end to end. */
  function Joined(parts: seq<seq<byte>>): (r: seq<byte>)
    decreases |parts|
  {
    if parts == [] then [] else parts[0] + Joined(parts[1..])
  }
}
