/**
 * What `TorrentClient` of src/TorrentClient.cs does, as functions of the
 * torrent file, the SHA-1 function, the bytes a peer sends and the choices
 * the outside world makes (whether the connection is made, the peer id):
 * the metadata, the peer list, the handshake and the download of one piece,
 * each with the reads and writes it makes on the peer stream.
 */
module TorrentSessions {
  import opened Wrappers
  import opened Bytes
  import opened Streams
  import opened PeerMessages
  import opened PieceBlocks
  import opened BencodeSpec
  import opened ClientCodec

  /** SHA-1 is a parameter of the model; all it is known to do is give 20 bytes. */
  ghost predicate Digests(sha1: seq<byte> -> seq<byte>) {
    forall b :: |sha1(b)| == 20
  }

  // ---------------------------------------------------------------- metadata

  /**
   * `GetMetaDataAsync`: decode the file, take the `info` dictionary, hash
   * its original bytes, cut `pieces` into hashes, then read `announce`,
   * `length` and `piece length`, in that order; the first failure wins.
   */
  function MetaDataOf(file: seq<byte>, sha1: seq<byte> -> seq<byte>): (r: Result<MetaData, ClientError>)
    ensures r.Success? ==> InfoDict(file).Success? && r.value.infoHash == sha1(InfoDict(file).value.originalData)
    ensures r.Success? ==> forall k :: 0 <= k < |r.value.piecesHashes| ==> |r.value.piecesHashes[k]| == 40
  {
    var top :- Torrent(file);
    var info :- Field(top, INFO);
    if !info.BencodedDict? then Failure(InvalidCast) else
    var infoHash := sha1(info.originalData);
    var piecesValue :- Field(info, PIECES);
    var pieces :- BytesOf(piecesValue);
    var hashes :- PieceHashList(pieces);
    var announce :- Field(top, ANNOUNCE);
    if !announce.BencodedString? then Failure(InvalidCast) else
    var lengthValue :- Field(info, LENGTH);
    var length :- NumberOf(lengthValue);
    var pieceLengthValue :- Field(info, PIECE_LENGTH);
    var pieceLength :- NumberOf(pieceLengthValue);
    Success(MetaData(announce.bytes, length, infoHash, pieceLength, hashes))
  }

  /**
   * `GetPeersAsync` once the tracker has answered with `response`: the
   * metadata first, then the `peers` string of the decoded response in the
   * compact form.
   */
  function PeersOf(file: seq<byte>, sha1: seq<byte> -> seq<byte>, response: seq<byte>): (r: Result<seq<Endpoint>, ClientError>)
    ensures r.Success? ==> MetaDataOf(file, sha1).Success?
    ensures r.Success? ==> forall k :: 0 <= k < |r.value| ==> |r.value[k].ip| == 4 && 0 <= r.value[k].port < 0x1_0000
  {
    var _ :- MetaDataOf(file, sha1);
    var top :- Torrent(response);
    var peersValue :- Field(top, PEERS);
    var peers :- BytesOf(peersValue);
    CompactPeers(peers)
  }

  // ---------------------------------------------------------------- handshake

  /** A result, where reading goes on, and what was read and written. */
  datatype Shake = Shake(result: Result<seq<byte>, ClientError>, next: nat, events: seq<Event>)

  /**
   * `HandShakeAsync` against a peer that sends `input`: the file must hold
   * an `info` dictionary, the connection must be made (`connects`), then the
   * handshake goes out and a single read of up to 68 bytes must bring 68.
   */
  function Handshaking(file: seq<byte>, sha1: seq<byte> -> seq<byte>, peerId: seq<byte>,
                       connects: bool, input: seq<byte>): (r: Shake)
    requires Digests(sha1) && |peerId| == 20
    ensures r.next <= |input|
  {
    match InfoDict(file)
    case Failure(e) => Shake(Failure(e), 0, [])
    case Success(info) =>
      if !connects then Shake(Failure(Timeout), 0, [])
      else
        var got := Delivered(input, 0, HANDSHAKE_LENGTH);
        var events := [Wrote(HandshakeBytes(sha1(info.originalData), peerId)), Read(got)];
        if |got| == HANDSHAKE_LENGTH then Shake(Success(got), |got|, events)
        else Shake(Failure(InvalidHandshakeLength), |got|, events)
  }

  // ---------------------------------------------------------------- blocks

  /**
   * The bound of the block loop, `Math.Ceiling((double)pieceLength / 16384)`.
   * Every `int` is exact as a `double` and the quotient rounds up, so this
   * is the length divided by 16384 rounded up; a length of zero or less
   * gives no block.
   */
  function ClientBlocks(L: int32): (r: nat)
    ensures L <= 0 ==> r == 0
    ensures L > 0 ==> L <= r * BLOCK_SIZE < L + BLOCK_SIZE
  {
    if L <= 0 then 0 else (L + BLOCK_SIZE - 1) / BLOCK_SIZE
  }

  /** The loop runs exactly over the blocks that start inside the piece. */
  lemma {:induction false} ClientBlocksBound(L: int32, i: nat)
    ensures i < ClientBlocks(L) <==> BlockBegin(i) < L
  {
    if L > 0 {
      var n := ClientBlocks(L);
      assert n * BLOCK_SIZE <= L + BLOCK_SIZE - 1 < (n + 1) * BLOCK_SIZE;
      if i < n {
        assert i * BLOCK_SIZE <= (n - 1) * BLOCK_SIZE;
      } else {
        assert i * BLOCK_SIZE >= n * BLOCK_SIZE;
      }
    }
  }

  /** A block that starts inside the piece holds 1 to 16384 bytes, all inside the piece. */
  lemma {:induction false} ClientBlockFits(L: int32, i: nat)
    requires BlockBegin(i) < L
    ensures 0 < BlockLength(L, i) <= BLOCK_SIZE && BlockBegin(i) + BlockLength(L, i) <= L
  {
  }

  /** The request frame for block `i`: `RequestBlockAsync(index, i * 16384, length of block i)`. */
  function BlockRequest(index: int32, L: int32, i: nat): (r: seq<byte>)
    requires BlockBegin(i) < L
    ensures |r| == 17 && r[4] == REQUEST
  {
    ClientBlockFits(L, i);
    Frame(WithId(REQUEST, RequestPayload(index, BlockBegin(i), BlockLength(L, i))))
  }

  datatype Blocks = Blocks(result: Result<seq<byte>, ClientError>, next: nat, events: seq<Event>)

  /**
   * One round of the block loop of `DownloadPieceAsync`: request block `i`,
   * receive a piece message and keep its payload from byte 8 on; a payload
   * shorter than 8 bytes is an error.
   */
  function BlockRound(input: seq<byte>, pos: nat, index: int32, L: int32, i: nat): (r: Blocks)
    requires pos <= |input| && BlockBegin(i) < L
    ensures pos <= r.next <= |input|
  {
    var rec := Receive(input, pos, PIECE);
    var events := [Wrote(BlockRequest(index, L, i))] + rec.events;
    if rec.result.Failure? then Blocks(Failure(rec.result.error), rec.next, events)
    else if |rec.result.value| < 8 then Blocks(Failure(ArgumentOutOfRange), rec.next, events)
    else Blocks(Success(rec.result.value[8..]), rec.next, events)
  }

  /**
   * The block loop from block `i` on, with the piece data `acc` so far. It
   * stops at the first block that does not start inside the piece, which
   * by `ClientBlocksBound` is where `ClientBlocks` stops it.
   */
  function BlockLoop(input: seq<byte>, pos: nat, index: int32, L: int32, i: nat, acc: seq<byte>): (r: Blocks)
    requires pos <= |input|
    ensures pos <= r.next <= |input|
    decreases L - BlockBegin(i)
  {
    if BlockBegin(i) >= L then Blocks(Success(acc), pos, [])
    else
      var one := BlockRound(input, pos, index, L, i);
      if one.result.Failure? then one
      else
        var rest := BlockLoop(input, one.next, index, L, i + 1, acc + one.result.value);
        Blocks(rest.result, rest.next, one.events + rest.events)
  }

  /** A failed round ends the loop with its error. */
  lemma {:induction false} BlockFails(input: seq<byte>, pos: nat, index: int32, L: int32, i: nat, acc: seq<byte>)
    requires pos <= |input| && BlockBegin(i) < L && BlockRound(input, pos, index, L, i).result.Failure?
    ensures BlockLoop(input, pos, index, L, i, acc) == BlockRound(input, pos, index, L, i)
  {
  }

  /** A successful round hands the loop on with the block appended. */
  lemma {:induction false} BlockAdvances(input: seq<byte>, pos: nat, index: int32, L: int32, i: nat, acc: seq<byte>, before: seq<Event>)
    requires pos <= |input| && BlockBegin(i) < L && BlockRound(input, pos, index, L, i).result.Success?
    ensures var one := BlockRound(input, pos, index, L, i);
      var rest := BlockLoop(input, one.next, index, L, i + 1, acc + one.result.value);
      var r := BlockLoop(input, pos, index, L, i, acc);
      && r.result == rest.result && r.next == rest.next
      && before + r.events == (before + one.events) + rest.events
  {
    var one := BlockRound(input, pos, index, L, i);
    var rest := BlockLoop(input, one.next, index, L, i + 1, acc + one.result.value);
    assert BlockLoop(input, pos, index, L, i, acc) == Blocks(rest.result, rest.next, one.events + rest.events);
    AppendAssoc(before, one.events, rest.events);
  }

  // ---------------------------------------------------------------- download

  /** A result together with what was read and written on the way to it. */
  datatype Session = Session(result: Result<seq<byte>, ClientError>, events: seq<Event>)

  /** The interested message as `SendMessageAsync` frames it. */
  function InterestedBytes(): (r: seq<byte>) {
    Frame(WithId(INTERESTED, []))
  }

  /** Bitfield, interested and unchoke, from `pos`. */
  function Opening(input: seq<byte>, pos: nat): (r: Blocks)
    requires pos <= |input|
    ensures pos <= r.next <= |input|
  {
    var bitfield := Receive(input, pos, BITFIELD);
    if bitfield.result.Failure? then Blocks(Failure(bitfield.result.error), bitfield.next, bitfield.events)
    else
      var unchoke := Receive(input, bitfield.next, UNCHOKE);
      Blocks(unchoke.result, unchoke.next, bitfield.events + [Wrote(InterestedBytes())] + unchoke.events)
  }

  /**
   * The part of `DownloadPieceAsync` after the handshake, from `pos`: the
   * opening messages, the metadata, the blocks of the piece, the index
   * into the piece hashes, and the hash check.
   */
  function Exchange(file: seq<byte>, sha1: seq<byte> -> seq<byte>, input: seq<byte>, pos: nat, index: int32): (r: Session)
    requires pos <= |input|
  {
    var opening := Opening(input, pos);
    if opening.result.Failure? then Session(Failure(opening.result.error), opening.events)
    else match MetaDataOf(file, sha1)
      case Failure(e) => Session(Failure(e), opening.events)
      case Success(meta) =>
        var blocks := BlockLoop(input, opening.next, index, PieceLengthAsWritten(meta.length, meta.piecesLength, index), 0, []);
        var events := opening.events + blocks.events;
        if blocks.result.Failure? then Session(Failure(blocks.result.error), events)
        else if !(0 <= index < |meta.piecesHashes|) then Session(Failure(ArgumentOutOfRange), events)
        else if !VerifyPieceIntegrity(blocks.result.value, meta.piecesHashes[index], sha1) then Session(Failure(InvalidPieceHash), events)
        else Session(Success(blocks.result.value), events)
  }

  /** `DownloadPieceAsync`: the handshake, then the exchange on the same stream. */
  function Download(file: seq<byte>, sha1: seq<byte> -> seq<byte>, peerId: seq<byte>, connects: bool,
                    input: seq<byte>, index: int32): (r: Session)
    requires Digests(sha1) && |peerId| == 20
  {
    var shake := Handshaking(file, sha1, peerId, connects, input);
    if shake.result.Failure? then Session(Failure(shake.result.error), shake.events)
    else
      var exchange := Exchange(file, sha1, input, shake.next, index);
      Session(exchange.result, shake.events + exchange.events)
  }
}
