/**
 * The byte-level helpers of src/TorrentClient.cs: the torrent metadata read
 * from a decoded torrent file, piece hashes as hex text, the compact peer
 * list, the 68-byte handshake, the framing of `ReceiveMessage`, the piece
 * length arithmetic and the piece hash check.
 */
module ClientCodec {
  import opened Wrappers
  import opened Bytes
  import opened Streams
  import opened PeerMessages
  import opened BencodeSpec

  /** The exceptions the client ends with. */
  datatype ClientError =
    | BadBencode(cause: DecodeError) // the torrent file or the tracker response does not decode
    | KeyNotFound                    // a dictionary has no such key
    | InvalidCast                    // a value is not of the type it is cast to
    | ArgumentOutOfRange             // `Slice`, a range index or a list index past the end
    | Timeout                        // the connection did not open in time
    | InvalidHandshakeLength         // fewer than 68 bytes came back
    | StreamEnded                    // `ReadExactly` ran out of bytes
    | WrongMessageType
    | Overflow                       // `new byte[n]` with `n` negative
    | OutOfMemory                    // `new byte[n]` with `n` beyond the largest array
    | InvalidPieceHash

  // ---------------------------------------------------------------- hex text

  const LOWER_HEX: string := "0123456789abcdef"
  const UPPER_HEX: string := "0123456789ABCDEF"

  /** Two hex digits per byte, the high nibble first. */
  function Hex(b: seq<byte>, digits: string): (r: string)
    requires |digits| == 16
    ensures |r| == 2 * |b|
  {
    if b == [] then [] else [digits[b[0] / 16], digits[b[0] % 16]] + Hex(b[1..], digits)
  }

  /** `Convert.ToHexString(b).ToLower()`. */
  function HexLower(b: seq<byte>): (r: string)
    ensures |r| == 2 * |b|
  {
    Hex(b, LOWER_HEX)
  }

  /** `Convert.ToHexString(b)`. */
  function HexUpper(b: seq<byte>): (r: string)
    ensures |r| == 2 * |b|
  {
    Hex(b, UPPER_HEX)
  }

  /** The value of a lowercase hex digit. */
  function HexValue(c: char): (r: nat)
    ensures r < 16
  {
    if '0' <= c <= '9' then c as int - '0' as int
    else if 'a' <= c <= 'f' then c as int - 'a' as int + 10
    else 0
  }

  /** The bytes written by a lowercase hex text: the inverse of `HexLower`. */
  function FromHex(s: string): (r: seq<byte>)
    requires |s| % 2 == 0
    ensures |r| == |s| / 2
  {
    if s == [] then [] else [HexValue(s[0]) * 16 + HexValue(s[1])] + FromHex(s[2..])
  }

  /** Case folding of the letters A to Z, the only letters a hex text holds. */
  function Fold(c: char): char {
    if 'A' <= c <= 'Z' then (c as int + 32) as char else c
  }

  function FoldAll(s: string): (r: string)
    ensures |r| == |s|
  {
    if s == [] then [] else [Fold(s[0])] + FoldAll(s[1..])
  }

  /** `string.Equals(a, b, StringComparison.CurrentCultureIgnoreCase)` on ASCII text. */
  predicate EqualsIgnoreCase(a: string, b: string) {
    FoldAll(a) == FoldAll(b)
  }

  /** `VerifyPieceIntegrity`: the uppercase hex of the digest against the stored hash, ignoring case. */
  predicate VerifyPieceIntegrity(piece: seq<byte>, originalHash: string, sha1: seq<byte> -> seq<byte>)
    ensures VerifyPieceIntegrity(piece, originalHash, sha1) ==> |originalHash| == 2 * |sha1(piece)|
  {
    EqualsIgnoreCase(HexUpper(sha1(piece)), originalHash)
  }

  lemma {:induction false} HexDigit(d: nat)
    requires d < 16
    ensures HexValue(LOWER_HEX[d]) == d
    ensures Fold(UPPER_HEX[d]) == LOWER_HEX[d] && Fold(LOWER_HEX[d]) == LOWER_HEX[d]
  {
  }

  /** Lowercase hex reads back as the bytes it was written from. */
  lemma {:induction false} FromHexLower(b: seq<byte>)
    ensures FromHex(HexLower(b)) == b
    decreases |b|
  {
    if b != [] {
      var s := HexLower(b);
      HexDigit(b[0] / 16);
      HexDigit(b[0] % 16);
      assert s[2..] == HexLower(b[1..]);
      FromHexLower(b[1..]);
    }
  }

  /** Folding case turns uppercase hex into lowercase hex and leaves lowercase hex alone. */
  lemma {:induction false} FoldHex(b: seq<byte>)
    ensures FoldAll(HexUpper(b)) == HexLower(b)
    ensures FoldAll(HexLower(b)) == HexLower(b)
    decreases |b|
  {
    if b != [] {
      HexDigit(b[0] / 16);
      HexDigit(b[0] % 16);
      FoldHex(b[1..]);
      var u := HexUpper(b);
      var l := HexLower(b);
      assert FoldAll(u) == [Fold(u[0])] + FoldAll(u[1..]);
      assert FoldAll(u[1..]) == [Fold(u[1])] + FoldAll(u[2..]);
      assert u[2..] == HexUpper(b[1..]);
      assert FoldAll(l) == [Fold(l[0])] + FoldAll(l[1..]);
      assert FoldAll(l[1..]) == [Fold(l[1])] + FoldAll(l[2..]);
      assert l[2..] == HexLower(b[1..]);
    }
  }

  /**
   * The hash check accepts a piece exactly when its digest is the hash whose
   * lowercase hex was stored.
   */
  lemma {:induction false} IntegrityOfStoredHash(piece: seq<byte>, h: seq<byte>, sha1: seq<byte> -> seq<byte>)
    ensures VerifyPieceIntegrity(piece, HexLower(h), sha1) <==> sha1(piece) == h
  {
    FoldHex(sha1(piece));
    FoldHex(h);
    if HexLower(sha1(piece)) == HexLower(h) {
      FromHexLower(sha1(piece));
      FromHexLower(h);
    }
  }

  // ---------------------------------------------------------------- piece hashes

  /** The `pieces` bytes cut into 20-byte hashes, each as lowercase hex; a short last hash fails in `Slice`. */
  function PieceHashList(pieces: seq<byte>): (r: Result<seq<string>, ClientError>)
    ensures r.Success? <==> |pieces| % 20 == 0
    ensures r.Success? ==> |r.value| * 20 == |pieces| && forall k :: 0 <= k < |r.value| ==> |r.value[k]| == 40
  {
    if |pieces| % 20 != 0 then Failure(ArgumentOutOfRange)
    else Success(seq(|pieces| / 20, k requires 0 <= k < |pieces| / 20 => HexLower(pieces[20 * k..20 * k + 20])))
  }

  lemma {:induction false} JoinedLength(parts: seq<seq<byte>>, w: nat)
    requires forall i :: 0 <= i < |parts| ==> |parts[i]| == w
    ensures |Joined(parts)| == w * |parts|
    decreases |parts|
  {
    if parts != [] {
      JoinedLength(parts[1..], w);
    }
  }

  lemma {:induction false} MulBelow(w: nat, k: nat, n: nat)
    requires k < n
    ensures w * k + w <= w * n
    decreases n
  {
    if k + 1 < n {
      MulBelow(w, k, n - 1);
      assert w * n == w * (n - 1) + w;
    } else {
      assert w * n == w * k + w;
    }
  }

  /** Parts of one width `w` are found again at multiples of `w`. */
  lemma {:induction false} JoinedAt(parts: seq<seq<byte>>, w: nat, k: nat)
    requires forall i :: 0 <= i < |parts| ==> |parts[i]| == w
    requires k < |parts|
    ensures |Joined(parts)| == w * |parts|
    ensures w * k + w <= w * |parts|
    ensures Joined(parts)[w * k..w * k + w] == parts[k]
    decreases k
  {
    JoinedLength(parts, w);
    MulBelow(w, k, |parts|);
    var tail := Joined(parts[1..]);
    assert Joined(parts) == parts[0] + tail;
    if k > 0 {
      JoinedAt(parts[1..], w, k - 1);
      var j := w * (k - 1);
      assert w * k == w + j;
      assert Joined(parts)[w + j..w + j + w] == tail[j..j + w];
    }
  }

  /** Hashes laid end to end come back, in order, as their lowercase hex, which reads back as the hashes. */
  lemma {:induction false} PieceHashesRoundTrip(hashes: seq<seq<byte>>)
    requires forall i :: 0 <= i < |hashes| ==> |hashes[i]| == 20
    ensures PieceHashList(Joined(hashes)) == Success(seq(|hashes|, k requires 0 <= k < |hashes| => HexLower(hashes[k])))
    ensures forall k :: 0 <= k < |hashes| ==> FromHex(PieceHashList(Joined(hashes)).value[k]) == hashes[k]
  {
    var pieces := Joined(hashes);
    var n := |hashes|;
    JoinedLength(hashes, 20);
    assert |pieces| == 20 * n;
    assert |pieces| % 20 == 0 && |pieces| / 20 == n;
    var r := PieceHashList(pieces);
    var want := seq(n, k requires 0 <= k < n => HexLower(hashes[k]));
    assert |r.value| == n;
    forall k | 0 <= k < n
      ensures r.value[k] == want[k] && FromHex(want[k]) == hashes[k]
    {
      JoinedAt(hashes, 20, k);
      assert r.value[k] == HexLower(pieces[20 * k..20 * k + 20]);
      FromHexLower(hashes[k]);
    }
    assert r.value == want;
  }

  // ---------------------------------------------------------------- compact peers

  /** A peer: its IPv4 address bytes and its port. */
  datatype Endpoint = Endpoint(ip: seq<byte>, port: int)

  /** The peers of a compact peer list: 4 address bytes and a big-endian port per 6 bytes; a short tail fails in `Slice`. */
  function CompactPeers(peers: seq<byte>): (r: Result<seq<Endpoint>, ClientError>)
    ensures r.Success? <==> |peers| % 6 == 0
    ensures r.Success? ==> |r.value| * 6 == |peers|
    ensures r.Success? ==> forall k :: 0 <= k < |r.value| ==> |r.value[k].ip| == 4 && 0 <= r.value[k].port < 0x1_0000
  {
    if |peers| % 6 != 0 then Failure(ArgumentOutOfRange)
    else Success(seq(|peers| / 6, k requires 0 <= k < |peers| / 6 =>
      Endpoint(peers[6 * k..6 * k + 4], BigEndian16(peers[6 * k + 4], peers[6 * k + 5]))))
  }

  /** A peer in the compact form: its 4 address bytes, then its port big-endian. */
  function PeerBytes(e: Endpoint): (r: seq<byte>)
    requires |e.ip| == 4 && 0 <= e.port < 0x1_0000
    ensures |r| == 6
  {
    e.ip + [e.port / 0x100, e.port % 0x100]
  }

  lemma PeerBytesFields(e: Endpoint)
    requires |e.ip| == 4 && 0 <= e.port < 0x1_0000
    ensures PeerBytes(e)[..4] == e.ip
    ensures BigEndian16(PeerBytes(e)[4], PeerBytes(e)[5]) == e.port
  {
  }

  /** Peers written in the compact form are read back as the same peers, in the same order. */
  lemma {:induction false} CompactPeersRoundTrip(es: seq<Endpoint>)
    requires forall i :: 0 <= i < |es| ==> |es[i].ip| == 4 && 0 <= es[i].port < 0x1_0000
    ensures CompactPeers(Joined(seq(|es|, k requires 0 <= k < |es| => PeerBytes(es[k])))) == Success(es)
  {
    var n := |es|;
    var parts := seq(n, k requires 0 <= k < n => PeerBytes(es[k]));
    var peers := Joined(parts);
    JoinedLength(parts, 6);
    assert |peers| == 6 * n;
    assert |peers| % 6 == 0 && |peers| / 6 == n;
    var r := CompactPeers(peers);
    assert |r.value| == n;
    forall k | 0 <= k < n
      ensures r.value[k] == es[k]
    {
      JoinedAt(parts, 6, k);
      var chunk := peers[6 * k..6 * k + 6];
      assert chunk == PeerBytes(es[k]);
      PeerBytesFields(es[k]);
      assert peers[6 * k..6 * k + 4] == chunk[..4];
      assert r.value[k] == Endpoint(chunk[..4], BigEndian16(chunk[4], chunk[5]));
    }
    assert r.value == es;
  }

  // ---------------------------------------------------------------- handshake

  const HANDSHAKE_LENGTH: int := 68
  const PROTOCOL: seq<byte> := Ascii("BitTorrent protocol")

  /** The handshake: 19, the protocol name, 8 reserved zero bytes, the info hash and the peer id. */
  function HandshakeBytes(infoHash: seq<byte>, peerId: seq<byte>): (r: seq<byte>)
    requires |infoHash| == 20 && |peerId| == 20
    ensures |r| == HANDSHAKE_LENGTH
  {
    [19] + PROTOCOL + Zeros(8) + infoHash + peerId
  }

  lemma {:induction false} HandshakeLayout(infoHash: seq<byte>, peerId: seq<byte>)
    requires |infoHash| == 20 && |peerId| == 20
    ensures var r := HandshakeBytes(infoHash, peerId);
      && |r| == HANDSHAKE_LENGTH && r[0] == 19 && r[1..20] == PROTOCOL && r[20..28] == Zeros(8)
      && r[28..48] == infoHash && r[48..68] == peerId
  {
  }

  // ---------------------------------------------------------------- framing

  /** How far `ReceiveMessage` got before its payload: the payload length or an error. */
  datatype Header = Header(size: Result<nat, ClientError>, next: nat, events: seq<Event>)

  /**
   * The first half of `ReceiveMessage` at `pos`: a 4-byte big-endian length
   * and one type byte that must be the expected one; the payload is
   * `length - 1` bytes, computed in 32 bits, and must fit a byte array. The
   * -1 of `ReadByte` at the end of the stream becomes 255 in the cast to
   * `byte`.
   */
  function ReceiveHeader(input: seq<byte>, pos: nat, expected: byte): (r: Header)
    requires pos <= |input|
    ensures pos <= r.next <= |input|
  {
    var header := Delivered(input, pos, 4);
    var p1 := pos + |header|;
    if |header| < 4 then Header(Failure(StreamEnded), p1, [Read(header)])
    else
      var kind := Delivered(input, p1, 1);
      var p2 := p1 + |kind|;
      var events := [Read(header), Read(kind)];
      if (if kind == [] then 0xFF else kind[0]) != expected then Header(Failure(WrongMessageType), p2, events)
      else Header(PayloadSize(ReadBigEndian32(header)), p2, events)
  }

  /**
   * `new byte[messageLength - 1]`: the subtraction wraps in 32 bits, a
   * negative size overflows and one past the largest byte array runs out of
   * memory.
   */
  function PayloadSize(length: int32): (r: Result<nat, ClientError>)
    ensures r.Success? ==> r.value <= MAX_ARRAY
  {
    var n := Wrap32(length - 1);
    if n < 0 then Failure(Overflow)
    else if n > MAX_ARRAY then Failure(OutOfMemory)
    else Success(n)
  }

  /** What `ReceiveMessage` returns, where reading goes on, and what was read. */
  datatype Reception = Reception(result: Result<seq<byte>, ClientError>, next: nat, events: seq<Event>)

  /** `ReceiveMessage` at `pos`: the header, then exactly as many payload bytes as it announced. */
  function Receive(input: seq<byte>, pos: nat, expected: byte): (r: Reception)
    requires pos <= |input|
    ensures pos <= r.next <= |input|
  {
    var h := ReceiveHeader(input, pos, expected);
    if h.size.Failure? then Reception(Failure(h.size.error), h.next, h.events)
    else
      var payload := Delivered(input, h.next, h.size.value);
      Reception(if |payload| == h.size.value then Success(payload) else Failure(StreamEnded),
                h.next + |payload|, h.events + [Read(payload)])
  }

  /**
   * A message framed as `SendMessageAsync` and `Serialize` frame it is
   * received as its payload, wherever it starts, in three reads: the length,
   * the type byte, the payload.
   */
  lemma {:induction false} ReceiveFrame(before: seq<byte>, kind: byte, payload: seq<byte>, rest: seq<byte>)
    requires |payload| < MAX_ARRAY
    ensures var frame := Frame(WithId(kind, payload));
      var r := Receive(before + frame + rest, |before|, kind);
      && r.result == Success(payload)
      && r.next == |before| + |frame|
      && r.events == [Read(frame[..4]), Read([kind]), Read(payload)]
  {
    var m := WithId(kind, payload);
    var frame := Frame(m);
    var input := before + frame + rest;
    var p := |before|;
    FrameLayout(m);
    assert input[p..p + |frame|] == frame;
    assert Delivered(input, p, 4) == frame[..4];
    assert Delivered(input, p + 4, 1) == [kind];
    assert Delivered(input, p + 5, |payload|) == payload by {
      assert input[p + 5..p + 5 + |payload|] == frame[5..];
    }
  }

  /** A message of another type is refused after its length and type byte. */
  lemma {:induction false} ReceiveWrongType(input: seq<byte>, pos: nat, expected: byte)
    requires pos + 5 <= |input| && input[pos + 4] != expected
    ensures Receive(input, pos, expected).result == Failure(WrongMessageType)
    ensures Receive(input, pos, expected).next == pos + 5
  {
  }

  // ---------------------------------------------------------------- piece length

  /** `GetPieceLength` as written: the remaining bytes are cast to `int` before the minimum is taken. */
  function PieceLengthAsWritten(length: int64, piecesLength: int64, pieceIndex: int32): (r: int32)
    ensures 0 < piecesLength <= INT32_MAX ==> r <= piecesLength
  {
    var remaining := Wrap32(Wrap64(length - Wrap64(pieceIndex * piecesLength)));
    Min(Wrap32(piecesLength), remaining)
  }

  /** The piece length with the minimum taken in 64 bits, before the cast. */
  function PieceLength(length: int64, piecesLength: int64, pieceIndex: int32): int32 {
    Wrap32(Min(piecesLength, Wrap64(length - Wrap64(pieceIndex * piecesLength))))
  }

  /** For a piece inside the file, the piece length is what is left of the file, at most the nominal length. */
  lemma {:induction false} PieceLengthInside(length: int64, piecesLength: int64, pieceIndex: int32)
    requires 0 < piecesLength <= INT32_MAX && 0 <= pieceIndex && pieceIndex * piecesLength < length
    ensures PieceLength(length, piecesLength, pieceIndex) == Min(piecesLength, length - pieceIndex * piecesLength)
    ensures 0 < PieceLength(length, piecesLength, pieceIndex) <= piecesLength
  {
    var start := pieceIndex * piecesLength;
    assert 0 <= start < length;
    assert Wrap64(start) == start;
    var left := length - start;
    assert 0 < left <= INT64_MAX;
    assert Wrap64(left) == left;
    assert 0 < Min(piecesLength, left) <= INT32_MAX;
  }

  /** Both versions agree while what is left of the file fits in 32 bits. */
  lemma {:induction false} PieceLengthAgrees(length: int64, piecesLength: int64, pieceIndex: int32)
    requires 0 < piecesLength <= INT32_MAX && 0 <= pieceIndex && pieceIndex * piecesLength <= length
    requires length - pieceIndex * piecesLength <= INT32_MAX
    ensures PieceLengthAsWritten(length, piecesLength, pieceIndex) == PieceLength(length, piecesLength, pieceIndex)
  {
  }

  /** In a file of 4 GiB and 100 bytes the first piece comes out as 100 bytes long. */
  lemma {:induction false} PieceLengthTruncated()
    ensures PieceLengthAsWritten(0x1_0000_0064, 0x4_0000, 0) == 100
    ensures PieceLength(0x1_0000_0064, 0x4_0000, 0) == 0x4_0000
  {
  }

  /** The lengths of pieces `0 .. k-1`. */
  function PiecesTotal(length: int64, piecesLength: int64, k: nat): int
    requires k <= INT32_MAX + 1
  {
    if k == 0 then 0 else PiecesTotal(length, piecesLength, k - 1) + PieceLength(length, piecesLength, k - 1)
  }

  /** The pieces tile the file: the first `k` cover `min(k * pieceLength, length)` bytes. */
  lemma {:induction false} PiecesCover(length: int64, piecesLength: int64, k: nat)
    requires 0 < piecesLength <= INT32_MAX && 0 <= length && k <= INT32_MAX + 1
    requires (k - 1) * piecesLength < length
    ensures PiecesTotal(length, piecesLength, k) == Min(k * piecesLength, length)
  {
    if k > 0 {
      assert (k - 2) * piecesLength < (k - 1) * piecesLength;
      PiecesCover(length, piecesLength, k - 1);
      PieceLengthInside(length, piecesLength, k - 1);
    }
  }

  // ---------------------------------------------------------------- metadata

  /** The dictionary keys the client looks up, as the bytes of the key strings. */
  const ANNOUNCE: seq<byte> := Ascii("announce")
  const INFO: seq<byte> := Ascii("info")
  const LENGTH: seq<byte> := Ascii("length")
  const PIECE_LENGTH: seq<byte> := Ascii("piece length")
  const PIECES: seq<byte> := Ascii("pieces")
  const PEERS: seq<byte> := Ascii("peers")

  /** `GetMetaDataAsync`'s record. The tracker URL is kept as the bytes of the string. */
  datatype MetaData = MetaData(trackerUrl: seq<byte>, length: int64, infoHash: seq<byte>,
                               piecesLength: int64, piecesHashes: seq<string>)

  /** `((BencodedDict)v).Dict[key]`. */
  function Field(v: BencodedValue, key: seq<byte>): (r: Result<BencodedValue, ClientError>)
    ensures r.Success? <==> v.BencodedDict? && key in v.dict
    ensures r.Success? ==> r.value == v.dict[key]
  {
    if !v.BencodedDict? then Failure(InvalidCast)
    else if key !in v.dict then Failure(KeyNotFound)
    else Success(v.dict[key])
  }

  /** `(ArraySegment<byte>)v.Value`: only a string holds bytes. */
  function BytesOf(v: BencodedValue): (r: Result<seq<byte>, ClientError>)
  {
    if v.BencodedString? then Success(v.bytes) else Failure(InvalidCast)
  }

  /** `(long)v.Value`: only an integer holds a `long`. */
  function NumberOf(v: BencodedValue): (r: Result<int64, ClientError>)
  {
    if v.BencodedInt? then Success(v.number) else Failure(InvalidCast)
  }

  /** The decoded torrent file. */
  function Torrent(file: seq<byte>): (r: Result<BencodedValue, ClientError>)
  {
    match Decoding(file)
    case Failure(e) => Failure(BadBencode(e))
    case Success(v) => Success(v)
  }

  /** The `info` dictionary of the torrent file. */
  function InfoDict(file: seq<byte>): (r: Result<BencodedValue, ClientError>)
    ensures r.Success? ==> r.value.BencodedDict?
  {
    var top :- Torrent(file);
    var info :- Field(top, INFO);
    if info.BencodedDict? then Success(info) else Failure(InvalidCast)
  }
}
