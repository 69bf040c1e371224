/**
 * The peer list `Tracker.GetPeersAsync` cuts out of a tracker response
 * without decoding it: it finds the first `5:peers` in the ASCII text of the
 * response, takes the bytes after the next `:` up to the last byte but one,
 * and reads them 6 at a time as an IPv4 address and a big-endian port.
 */
module TrackerPeers {
  import opened Wrappers
  import opened Bytes
  import opened Streams
  import opened Decimal
  import opened ClientCodec

  /** Why the extraction throws. */
  datatype TrackerError =
    | OutOfRange   // a range outside the response: `ArgumentOutOfRangeException`
    | BadAddress   // `new IPAddress` of fewer than 4 bytes: `ArgumentException`

  /** The character `Encoding.ASCII` decodes a byte to: itself below 0x80, else `?`. */
  function AsciiChar(b: byte): char {
    if b < 0x80 then b as char else '?'
  }

  /** `Encoding.ASCII.GetString`: one character per byte. */
  function AsciiText(content: seq<byte>): (r: string)
    ensures |r| == |content|
    decreases |content|
  {
    if content == [] then [] else [AsciiChar(content[0])] + AsciiText(content[1..])
  }

  /** Byte `k` and character `k` agree: the byte and character positions are the same. */
  lemma {:induction false} AsciiTextAt(content: seq<byte>, k: nat)
    requires k < |content|
    ensures AsciiText(content)[k] == AsciiChar(content[k])
    decreases k
  {
    if k > 0 {
      AsciiTextAt(content[1..], k - 1);
    }
  }

  /** The marker: the key `peers` as bencoding writes it. */
  const MARK: string := "5:peers"

  predicate OccursAt(text: string, mark: string, k: nat) {
    k + |mark| <= |text| && text[k..k + |mark|] == mark
  }

  /** The ordinal `string.IndexOf(mark)` from position `i` on: the first occurrence, or -1. */
  function FindFrom(text: string, mark: string, i: nat): (r: int)
    ensures r == -1 || (i <= r && OccursAt(text, mark, r))
    decreases |text| - i
  {
    if i + |mark| > |text| then -1
    else if OccursAt(text, mark, i) then i
    else FindFrom(text, mark, i + 1)
  }

  // ---------------------------------------------------------------- LINQ

  /** `Take(n)`: the first `n` elements, or all of them when there are fewer. */
  function Take(s: seq<byte>, n: nat): seq<byte>
  {
    if n <= |s| then s[..n] else s
  }

  /** `Skip(n)`: all but the first `n` elements. */
  function Skip(s: seq<byte>, n: nat): seq<byte>
  {
    if n <= |s| then s[n..] else []
  }

  /** `Chunk(n)`: consecutive pieces of `n` elements; the last one may be shorter. */
  function Chunks(s: seq<byte>, n: nat): (r: seq<seq<byte>>)
    requires n > 0
    decreases |s|
  {
    if s == [] then [] else [Take(s, n)] + Chunks(Skip(s, n), n)
  }

  /** The bitwise OR of two non-negative integers, bit by bit from the lowest. */
  function BitOr(x: nat, y: nat): nat
    decreases x + y
  {
    if x == 0 && y == 0 then 0
    else 2 * BitOr(x / 2, y / 2) + (if x % 2 == 1 || y % 2 == 1 then 1 else 0)
  }

  /** `acc << 8` on a C# `int`: the bits shifted past bit 31 are lost. */
  function ShiftLeft8(acc: int32): int32 {
    Wrap32(acc * 0x100)
  }

  /** `a | b` for an `int` and a byte: only the low byte of `a` meets `b`. */
  function OrByte(a: int32, b: byte): int32 {
    Wrap32(a - a % 0x100 + BitOr(a % 0x100, b))
  }

  /** `Aggregate(acc, (acc, portByte) => (acc << 8) | portByte)`. */
  function Aggregate(acc: int32, bs: seq<byte>): int32
    decreases |bs|
  {
    if bs == [] then acc else Aggregate(OrByte(ShiftLeft8(acc), bs[0]), bs[1..])
  }

  /** The port of a chunk: its bytes 4 and 5, folded from 0. */
  function PortOf(chunk: seq<byte>): int32 {
    Aggregate(0, Take(Skip(chunk, 4), 2))
  }

  /** One peer: `new IPAddress` of the first 4 bytes, which must be 4, and the port. */
  function PeerOf(chunk: seq<byte>): (r: Result<Endpoint, TrackerError>)
    ensures r.Success? <==> |chunk| >= 4
    ensures r.Success? ==> r.value.ip == chunk[..4]
  {
    var ip := Take(chunk, 4);
    if |ip| != 4 then Failure(BadAddress) else Success(Endpoint(ip, PortOf(chunk)))
  }

  /** `ToList()` of the query: the peers of the chunks in order; the first bad chunk throws. */
  function PeersOfChunks(chunks: seq<seq<byte>>): (r: Result<seq<Endpoint>, TrackerError>)
    ensures r.Success? ==> |r.value| == |chunks|
    decreases |chunks|
  {
    if chunks == [] then Success([])
    else
      var e :- PeerOf(chunks[0]);
      var rest :- PeersOfChunks(chunks[1..]);
      Success([e] + rest)
  }

  // ---------------------------------------------------------------- the extraction

  /**
   * `peersIpBytes` of `GetPeersAsync`: the bytes from the last character of
   * the first `5:peers` on (from byte 5 when there is none), then from just
   * after the first `:` in them to the last byte but one of the response.
   */
  function PeerBytesAsWritten(content: seq<byte>): (r: Result<seq<byte>, TrackerError>)
  {
    var text := AsciiText(content);
    var start := FindFrom(text, MARK, 0) + |MARK| - 1;
    if start > |content| then Failure(OutOfRange)
    else
      var bytes := content[start..];
      var from := IndexOf(text[start..], ':') + 1;
      if from > |bytes| - 1 then Failure(OutOfRange)
      else Success(bytes[from..|bytes| - 1])
  }

  /** `GetPeersAsync` once the tracker has answered with `content`. */
  function ExtractPeers(content: seq<byte>): (r: Result<seq<Endpoint>, TrackerError>)
  {
    var peers :- PeerBytesAsWritten(content);
    PeersOfChunks(Chunks(peers, 6))
  }

  /**
   * The same cut, but taking as many bytes after the `:` as the digits
   * before it declare, so that whatever follows the peer string in the
   * response stays out of it.
   */
  function DeclaredPeerBytes(content: seq<byte>): (r: Result<seq<byte>, TrackerError>)
  {
    var text := AsciiText(content);
    var start := FindFrom(text, MARK, 0) + |MARK| - 1;
    if start > |content| then Failure(OutOfRange)
    else
      var bytes := content[start..];
      var colon := IndexOf(text[start..], ':');
      if colon < 1 || !AllDigits(bytes[1..colon]) then Failure(OutOfRange)
      else
        var n := DigitsValue(bytes[1..colon]);
        if colon + 1 + n > |bytes| then Failure(OutOfRange)
        else Success(bytes[colon + 1..colon + 1 + n])
  }

  /** The corrected `GetPeersAsync`. */
  function ExtractDeclaredPeers(content: seq<byte>): (r: Result<seq<Endpoint>, TrackerError>)
  {
    var peers :- DeclaredPeerBytes(content);
    PeersOfChunks(Chunks(peers, 6))
  }

  // ---------------------------------------------------------------- the marker search

  /** `FindFrom` gives the first occurrence at or after `i`. */
  lemma {:induction false} FindFromFirst(text: string, mark: string, i: nat, k: nat)
    requires i <= k && OccursAt(text, mark, k)
    requires forall j :: i <= j < k ==> !OccursAt(text, mark, j)
    ensures FindFrom(text, mark, i) == k
    decreases k - i
  {
    if i < k {
      FindFromFirst(text, mark, i + 1, k);
    }
  }

  // ---------------------------------------------------------------- chunks

  /** Putting the chunks back together gives the sequence. */
  lemma {:induction false} ChunksJoined(s: seq<byte>, n: nat)
    requires n > 0
    ensures Joined(Chunks(s, n)) == s
    decreases |s|
  {
    if s != [] {
      var c := Chunks(s, n);
      ChunksJoined(Skip(s, n), n);
      assert c[0] == Take(s, n) && c[1..] == Chunks(Skip(s, n), n);
      assert Joined(c) == Take(s, n) + Joined(c[1..]);
      assert Take(s, n) + Skip(s, n) == s;
    }
  }

  /** Chunk `k` of 6 is the 6 bytes from `6 * k` on, or what is left of them. */
  lemma {:induction false} ChunksAt(s: seq<byte>, k: nat)
    requires k < |Chunks(s, 6)|
    ensures 6 * k < |s| && Chunks(s, 6)[k] == s[6 * k..Min(6 * k + 6, |s|)]
    decreases k
  {
    var c := Chunks(s, 6);
    var t := Skip(s, 6);
    assert c == [Take(s, 6)] + Chunks(t, 6);
    if k > 0 {
      assert 6 <= |s| && t == s[6..];
      ChunksAt(t, k - 1);
      var j := 6 * (k - 1);
      var hi := Min(j + 6, |t|);
      assert c[k] == t[j..hi];
      assert t[j..hi] == s[6 + j..6 + hi] by {
        assert |t[j..hi]| == |s[6 + j..6 + hi]|;
        forall i | 0 <= i < hi - j ensures t[j..hi][i] == s[6 + j..6 + hi][i] {
          assert t[j + i] == s[6 + j + i];
        }
      }
    }
  }

  /** There are as many chunks of 6 as 6 goes into the length, rounded up. */
  lemma {:induction false} ChunksCount(s: seq<byte>)
    ensures |Chunks(s, 6)| == (|s| + 5) / 6
    decreases |s|
  {
    if s != [] {
      ChunksCount(Skip(s, 6));
    }
  }

  // ---------------------------------------------------------------- ports and peers

  /** OR with zero leaves a number as it is. */
  lemma {:induction false} BitOrZero(y: nat)
    ensures BitOr(0, y) == y
  {
    if y > 0 {
      BitOrZero(y / 2);
    }
  }

  /** Shifting a byte into a small non-negative value appends it as a base-256 digit. */
  lemma {:induction false} ShiftInValue(acc: int32, b: byte)
    requires 0 <= acc < 0x80_0000
    ensures OrByte(ShiftLeft8(acc), b) == acc * 0x100 + b
  {
    assert ShiftLeft8(acc) == acc * 0x100;
    assert (acc * 0x100) % 0x100 == 0;
    BitOrZero(b);
  }

  /** The port fold reads the two bytes after the address big-endian, so a full chunk's port is in 0..65535. */
  lemma {:induction false} PortOfFullChunk(chunk: seq<byte>)
    requires |chunk| >= 6
    ensures PortOf(chunk) == BigEndian16(chunk[4], chunk[5])
  {
    var p := Take(Skip(chunk, 4), 2);
    assert p == [chunk[4], chunk[5]];
    ShiftInValue(0, chunk[4]);
    var hi := OrByte(ShiftLeft8(0), chunk[4]);
    assert Aggregate(0, p) == Aggregate(hi, p[1..]);
    ShiftInValue(chunk[4], chunk[5]);
    assert p[1..][1..] == [];
    assert Aggregate(hi, p[1..]) == Aggregate(OrByte(ShiftLeft8(hi), chunk[5]), []);
  }

  /** A chunk of 5 gets its one port byte as the port; a chunk of 4 gets port 0. */
  lemma {:induction false} PortOfShortChunk(chunk: seq<byte>)
    requires 4 <= |chunk| < 6
    ensures PortOf(chunk) == if |chunk| == 5 then chunk[4] else 0
  {
    var p := Take(Skip(chunk, 4), 2);
    if |chunk| == 5 {
      assert p == [chunk[4]];
      ShiftInValue(0, chunk[4]);
      assert Aggregate(0, p) == Aggregate(OrByte(ShiftLeft8(0), chunk[4]), []);
    } else {
      assert p == [];
    }
  }

  /** Chunks of at least 4 bytes all become endpoints; the first shorter one fails the whole list. */
  lemma {:induction false} PeersOfChunksAt(chunks: seq<seq<byte>>)
    ensures (forall k :: 0 <= k < |chunks| ==> |chunks[k]| >= 4) <==> PeersOfChunks(chunks).Success?
    ensures PeersOfChunks(chunks).Failure? ==> PeersOfChunks(chunks).error == BadAddress
    ensures PeersOfChunks(chunks).Success? ==>
      forall k :: 0 <= k < |chunks| ==> PeersOfChunks(chunks).value[k] == Endpoint(chunks[k][..4], PortOf(chunks[k]))
    decreases |chunks|
  {
    if chunks != [] {
      PeersOfChunksAt(chunks[1..]);
      if PeersOfChunks(chunks).Success? {
        var r := PeersOfChunks(chunks).value;
        assert r == [PeerOf(chunks[0]).value] + PeersOfChunks(chunks[1..]).value;
        forall k | 0 <= k < |chunks| ensures r[k] == Endpoint(chunks[k][..4], PortOf(chunks[k])) {
          if k > 0 { assert chunks[k] == chunks[1..][k - 1]; }
        }
      }
      if forall k :: 0 <= k < |chunks| ==> |chunks[k]| >= 4 {
        assert forall k :: 0 <= k < |chunks[1..]| ==> |chunks[1..][k]| >= 4 by {
          forall k | 0 <= k < |chunks[1..]| ensures |chunks[1..][k]| >= 4 { assert chunks[1..][k] == chunks[k + 1]; }
        }
      } else {
        var k :| 0 <= k < |chunks| && |chunks[k]| < 4;
        if k > 0 { assert chunks[1..][k - 1] == chunks[k]; }
      }
    }
  }

  /** Six bytes from `6 * k` on are chunk `k`. */
  lemma {:induction false} ChunkOfSix(peers: seq<byte>, k: nat)
    requires 6 * k + 6 <= |peers|
    ensures k < |Chunks(peers, 6)| && Chunks(peers, 6)[k] == peers[6 * k..6 * k + 6]
  {
    ChunksCount(peers);
    ChunksAt(peers, k);
  }

  /** Entry `k` of a whole peer string: its chunk is 6 bytes, read as the compact decoder reads them. */
  lemma {:induction false} EntryAgrees(peers: seq<byte>, k: nat)
    requires |peers| % 6 == 0 && k < |peers| / 6
    ensures k < |Chunks(peers, 6)|
    ensures var chunk := Chunks(peers, 6)[k];
      |chunk| == 6 && Endpoint(chunk[..4], PortOf(chunk)) == CompactPeers(peers).value[k]
  {
    assert 6 * k + 6 <= |peers|;
    ChunkOfSix(peers, k);
    var chunk := peers[6 * k..6 * k + 6];
    PortOfFullChunk(chunk);
    assert chunk[..4] == peers[6 * k..6 * k + 4];
  }

  /** On a whole number of 6-byte entries the query reads the same peers as the compact decoder. */
  lemma {:induction false} ChunkedPeersAgree(peers: seq<byte>)
    requires |peers| % 6 == 0
    ensures CompactPeers(peers).Success?
    ensures PeersOfChunks(Chunks(peers, 6)) == Success(CompactPeers(peers).value)
  {
    var chunks := Chunks(peers, 6);
    var expected := CompactPeers(peers).value;
    ChunksCount(peers);
    assert |chunks| == |peers| / 6 == |expected|;
    forall k | 0 <= k < |chunks| ensures |chunks[k]| == 6 {
      EntryAgrees(peers, k);
    }
    PeersOfChunksAt(chunks);
    var r := PeersOfChunks(chunks).value;
    forall k | 0 <= k < |chunks| ensures r[k] == expected[k] {
      EntryAgrees(peers, k);
    }
    assert r == expected;
  }

  /** After a whole number of 6-byte entries the chunks start afresh. */
  lemma {:induction false} ChunksAppend(a: seq<byte>, b: seq<byte>)
    requires |a| % 6 == 0
    ensures Chunks(a + b, 6) == Chunks(a, 6) + Chunks(b, 6)
    decreases |a|
  {
    if a != [] {
      assert Take(a + b, 6) == Take(a, 6) == a[..6];
      assert Skip(a + b, 6) == Skip(a, 6) + b;
      ChunksAppend(Skip(a, 6), b);
    } else {
      assert a + b == b;
    }
  }

  /** The query over two lists of chunks: the first failure wins, else the peers of both in order. */
  lemma {:induction false} PeersOfChunksAppend(x: seq<seq<byte>>, y: seq<seq<byte>>)
    ensures PeersOfChunks(x + y) ==
      if PeersOfChunks(x).Failure? then PeersOfChunks(x)
      else if PeersOfChunks(y).Failure? then PeersOfChunks(y)
      else Success(PeersOfChunks(x).value + PeersOfChunks(y).value)
    decreases |x|
  {
    if x == [] {
      assert x + y == y;
      if PeersOfChunks(y).Success? {
        assert PeersOfChunks(x).value + PeersOfChunks(y).value == PeersOfChunks(y).value;
      }
    } else {
      assert (x + y)[0] == x[0] && (x + y)[1..] == x[1..] + y;
      PeersOfChunksAppend(x[1..], y);
      var head := PeerOf(x[0]);
      if head.Failure? {
        assert PeersOfChunks(x + y) == Failure(head.error) == PeersOfChunks(x);
      } else if PeersOfChunks(x[1..]).Failure? {
        assert PeersOfChunks(x + y) == Failure(PeersOfChunks(x[1..]).error) == PeersOfChunks(x);
      } else if PeersOfChunks(y).Failure? {
        assert PeersOfChunks(x + y) == Failure(PeersOfChunks(y).error);
      } else {
        var t, u := PeersOfChunks(x[1..]).value, PeersOfChunks(y).value;
        assert PeersOfChunks(x + y) == Success([head.value] + (t + u));
        assert PeersOfChunks(x) == Success([head.value] + t);
        AppendAssoc([head.value], t, u);
      }
    }
  }

  /**
   * A peer string that is not a whole number of entries: the compact decoder
   * fails, while the query reads a last chunk of 4 or 5 bytes as one more
   * endpoint and fails on a last chunk of 1 to 3 bytes.
   */
  lemma {:induction false} ShortLastChunk(peers: seq<byte>)
    requires |peers| % 6 != 0
    ensures CompactPeers(peers).Failure?
    ensures |peers| % 6 < 4 ==> PeersOfChunks(Chunks(peers, 6)) == Failure(BadAddress)
    ensures var m := |peers| / 6 * 6;
      |peers| % 6 >= 4 ==>
        PeersOfChunks(Chunks(peers, 6)) ==
        Success(CompactPeers(peers[..m]).value + [Endpoint(peers[m..m + 4], if |peers| % 6 == 5 then peers[m + 4] else 0)])
  {
    var m := |peers| / 6 * 6;
    var whole, last := peers[..m], peers[m..];
    assert peers == whole + last;
    ChunksAppend(whole, last);
    assert Chunks(last, 6) == [last] by {
      assert Take(last, 6) == last && Skip(last, 6) == [];
    }
    ChunkedPeersAgree(whole);
    PeersOfChunksAppend(Chunks(whole, 6), [last]);
    var one: Result<seq<Endpoint>, TrackerError> := if |last| < 4 then Failure(BadAddress) else Success([PeerOf(last).value]);
    var lastOnly: seq<seq<byte>> := [last];
    assert PeersOfChunks(lastOnly) == one by {
      var none: seq<Endpoint> := [];
      assert PeersOfChunks(lastOnly[1..]) == Success(none);
      if |last| >= 4 {
        assert [PeerOf(last).value] + none == [PeerOf(last).value];
      }
    }
    if |last| >= 4 {
      PortOfShortChunk(last);
      assert last[..4] == peers[m..m + 4];
    }
  }

  // ---------------------------------------------------------------- extraction from a response

  /** The marker as the response carries it. */
  const MARK_BYTES: seq<byte> := Ascii(MARK)

  /** A response in which the marker follows `pre`, then a length, a `:` and the rest. */
  function Response(pre: seq<byte>, digits: seq<byte>, tail: seq<byte>): seq<byte> {
    pre + MARK_BYTES + digits + [COLON] + tail
  }

  /** No marker starts inside `pre`. */
  predicate MarkNotIn(pre: seq<byte>, content: seq<byte>) {
    forall j :: 0 <= j < |pre| ==> !OccursAt(AsciiText(content), MARK, j)
  }

  /** The first `:` after the marker's last character is the one after the digits. */
  lemma {:induction false} ColonAfterDigits(content: seq<byte>, start: nat, digits: seq<byte>, tail: seq<byte>)
    requires AllDigits(digits) && start <= |content|
    requires content[start..] == [MARK_BYTES[6]] + digits + [COLON] + tail
    ensures IndexOf(AsciiText(content)[start..], ':') == |digits| + 1
  {
    var bytes := content[start..];
    var rest := AsciiText(content)[start..];
    assert rest[|digits| + 1] == ':' by {
      AsciiTextAt(content, start + |digits| + 1);
      assert content[start + |digits| + 1] == bytes[|digits| + 1] == COLON;
    }
    forall j | 0 <= j < |digits| + 1 ensures rest[j] != ':' {
      AsciiTextAt(content, start + j);
      assert content[start + j] == bytes[j];
      if j > 0 { assert bytes[j] == digits[j - 1]; assert IsDigit(digits[j - 1]); }
    }
    IndexOfAt(rest, ':', |digits| + 1);
  }

  /** Where both extractions land: on the `s` of the first `5:peers`, with the `:` after the digits. */
  lemma {:induction false} MarkFound(pre: seq<byte>, digits: seq<byte>, tail: seq<byte>)
    requires AllDigits(digits) && MarkNotIn(pre, Response(pre, digits, tail))
    ensures var content := Response(pre, digits, tail);
      var text := AsciiText(content);
      var start := |pre| + 6;
      && FindFrom(text, MARK, 0) + |MARK| - 1 == start
      && content[start..] == [MARK_BYTES[6]] + digits + [COLON] + tail
      && IndexOf(text[start..], ':') == |digits| + 1
  {
    var content := Response(pre, digits, tail);
    var text := AsciiText(content);
    var p := |pre|;
    assert text[p..p + 7] == MARK by {
      forall j | 0 <= j < 7 ensures text[p..p + 7][j] == MARK[j] {
        AsciiTextAt(content, p + j);
        assert content[p + j] == MARK_BYTES[j];
      }
    }
    FindFromFirst(text, MARK, 0, p);
    assert content[p + 6..] == [MARK_BYTES[6]] + digits + [COLON] + tail;
    ColonAfterDigits(content, p + 6, digits, tail);
  }

  /** The cut as written once the marker and the `:` are found. */
  lemma {:induction false} ExtractAt(content: seq<byte>, start: nat, colon: int)
    requires FindFrom(AsciiText(content), MARK, 0) + |MARK| - 1 == start <= |content|
    requires IndexOf(AsciiText(content)[start..], ':') == colon
    ensures var bytes := content[start..];
      PeerBytesAsWritten(content) ==
        if colon + 1 > |bytes| - 1 then Failure(OutOfRange) else Success(bytes[colon + 1..|bytes| - 1])
  {
  }

  /** The corrected cut once the marker and the `:` are found, with a length before the `:`. */
  lemma {:induction false} ExtractDeclaredAt(content: seq<byte>, start: nat, colon: nat)
    requires FindFrom(AsciiText(content), MARK, 0) + |MARK| - 1 == start <= |content|
    requires IndexOf(AsciiText(content)[start..], ':') == colon
    requires var bytes := content[start..]; 1 <= colon < |bytes| && AllDigits(bytes[1..colon])
    ensures var bytes := content[start..];
      var n := DigitsValue(bytes[1..colon]);
      DeclaredPeerBytes(content) ==
        if colon + 1 + n > |bytes| then Failure(OutOfRange) else Success(bytes[colon + 1..colon + 1 + n])
  {
  }

  /**
   * The extraction as written: everything after the `:` but the response's
   * last byte is read as peers, whatever the length before the `:` says.
   */
  lemma {:induction false} ExtractReadsToEnd(pre: seq<byte>, digits: seq<byte>, tail: seq<byte>)
    requires AllDigits(digits) && MarkNotIn(pre, Response(pre, digits, tail))
    ensures PeerBytesAsWritten(Response(pre, digits, tail)) ==
      if tail == [] then Failure(OutOfRange) else Success(tail[..|tail| - 1])
  {
    var content := Response(pre, digits, tail);
    MarkFound(pre, digits, tail);
    ExtractAt(content, |pre| + 6, |digits| + 1);
    var bytes := [MARK_BYTES[6]] + digits + [COLON] + tail;
    assert |bytes| == |digits| + 2 + |tail|;
    if tail != [] {
      assert bytes[|digits| + 2..|bytes| - 1] == tail[..|tail| - 1];
    }
  }

  /** The corrected cut where the marker is followed by the numeral of the peer string's length. */
  lemma {:induction false} DeclaredAfterMark(content: seq<byte>, start: nat, peers: seq<byte>, rest: seq<byte>)
    requires FindFrom(AsciiText(content), MARK, 0) + |MARK| - 1 == start <= |content|
    requires content[start..] == [MARK_BYTES[6]] + NatDigits(|peers|) + [COLON] + peers + rest
    requires IndexOf(AsciiText(content)[start..], ':') == |NatDigits(|peers|)| + 1
    ensures DeclaredPeerBytes(content) == Success(peers)
  {
    var digits := NatDigits(|peers|);
    var bytes := content[start..];
    assert bytes[1..|digits| + 1] == digits;
    DigitsValueOfNatDigits(|peers|);
    ExtractDeclaredAt(content, start, |digits| + 1);
    assert bytes[|digits| + 2..|digits| + 2 + |peers|] == peers;
  }

  /** The corrected extraction reads exactly the peer string its length announces, whatever follows. */
  lemma {:induction false} ExtractDeclaredReadsPeers(pre: seq<byte>, peers: seq<byte>, rest: seq<byte>)
    requires MarkNotIn(pre, Response(pre, NatDigits(|peers|), peers + rest))
    ensures DeclaredPeerBytes(Response(pre, NatDigits(|peers|), peers + rest)) == Success(peers)
  {
    var digits := NatDigits(|peers|);
    MarkFound(pre, digits, peers + rest);
    DeclaredAfterMark(Response(pre, digits, peers + rest), |pre| + 6, peers, rest);
  }

  /**
   * When the peer string is the last entry of the response, so that only
   * the closing `e` follows it, both extractions give the peers the
   * compact decoder gives.
   */
  lemma {:induction false} LastEntryAgrees(pre: seq<byte>, peers: seq<byte>)
    requires |peers| % 6 == 0
    requires MarkNotIn(pre, Response(pre, NatDigits(|peers|), peers + [LOWER_E]))
    ensures CompactPeers(peers).Success?
    ensures ExtractPeers(Response(pre, NatDigits(|peers|), peers + [LOWER_E])) == Success(CompactPeers(peers).value)
    ensures ExtractDeclaredPeers(Response(pre, NatDigits(|peers|), peers + [LOWER_E])) == Success(CompactPeers(peers).value)
  {
    ExtractReadsToEnd(pre, NatDigits(|peers|), peers + [LOWER_E]);
    assert (peers + [LOWER_E])[..|peers|] == peers;
    ExtractDeclaredReadsPeers(pre, peers, [LOWER_E]);
    ChunkedPeersAgree(peers);
  }

  /** No marker starts at the opening `d` of a response. */
  lemma {:induction false} MarkNotAtStart(digits: seq<byte>, tail: seq<byte>)
    ensures MarkNotIn([LOWER_D], Response([LOWER_D], digits, tail))
  {
    var content := Response([LOWER_D], digits, tail);
    AsciiTextAt(content, 0);
    assert AsciiText(content)[0] != MARK[0];
  }

  /** Sixteen bytes make two whole peers and a last chunk of 4 that still passes for one. */
  lemma {:induction false} SixteenBytesThreePeers(cut: seq<byte>)
    requires |cut| == 16
    ensures PeersOfChunks(Chunks(cut, 6)).Success? && |PeersOfChunks(Chunks(cut, 6)).value| == 3
  {
    ShortLastChunk(cut);
    ChunkedPeersAgree(cut[..12]);
  }

  /**
   * A response with a 6-byte peer string followed by an 11-byte entry, such
   * as `d5:peers6:ABCDEF6:peers60:e` from a tracker that also sends
   * `peers6`: the extraction as written reads the second entry's bytes as
   * two more peers where the response holds one, which the corrected
   * extraction reads by `ExtractDeclaredReadsPeers`.
   */
  lemma {:induction false} SecondEntryReadAsPeers(peers: seq<byte>, rest: seq<byte>)
    requires |peers| == 6 && |rest| == 11
    ensures |CompactPeers(peers).value| == 1
    ensures var content := Response([LOWER_D], NatDigits(6), peers + rest);
      && ExtractPeers(content).Success? && |ExtractPeers(content).value| == 3
      && ExtractDeclaredPeers(content) == Success(CompactPeers(peers).value)
  {
    var digits := NatDigits(6);
    MarkNotAtStart(digits, peers + rest);
    ExtractReadsToEnd([LOWER_D], digits, peers + rest);
    var tail := peers + rest;
    SixteenBytesThreePeers(tail[..|tail| - 1]);
    ExtractDeclaredReadsPeers([LOWER_D], peers, rest);
    ChunkedPeersAgree(peers);
  }
}
