/**
 * What `TorrentClient.DownloadPieceAsync` promises, stated over the functions
 * that specify it: a peer that answers every request with its block gets the
 * blocks back laid end to end, in the order they arrived, whatever offsets
 * the peer declares; the client writes one request at a time and waits for
 * its answer; it writes the handshake, the interested message and the
 * requests in that order; and a piece comes back only when its digest is
 * the stored hash.
 */
module TorrentClientFacts {
  import opened Wrappers
  import opened Bytes
  import opened Streams
  import opened PeerMessages
  import opened PieceBlocks
  import opened ClientCodec
  import opened TorrentSessions
  import opened PieceDownloadFacts

  // ---------------------------------------------------------------- an honest peer

  /**
   * The answers of an honest peer to the requests from block `i` on: one
   * piece message per block, each with an 8-byte header (index and begin,
   * whatever they say) and exactly the bytes of the block, until no block
   * starts inside the piece.
   */
  predicate HonestBlocks(L: int32, i: nat, heads: seq<seq<byte>>, blocks: seq<seq<byte>>)
    decreases |blocks|
  {
    && |heads| == |blocks|
    && if blocks == [] then BlockBegin(i) >= L
       else
         && BlockBegin(i) < L && |heads[0]| == 8 && |blocks[0]| == BlockLength(L, i)
         && HonestBlocks(L, i + 1, heads[1..], blocks[1..])
  }

  /** The bytes of those answers, one piece message after the other. */
  function PieceReplies(L: int32, i: nat, heads: seq<seq<byte>>, blocks: seq<seq<byte>>): (r: seq<byte>)
    requires HonestBlocks(L, i, heads, blocks)
    decreases |blocks|
  {
    if blocks == [] then []
    else Frame(WithId(PIECE, heads[0] + blocks[0])) + PieceReplies(L, i + 1, heads[1..], blocks[1..])
  }

  /** A piece message answering the request for block `i` ends the round with its payload from byte 8 on. */
  lemma {:induction false} RoundOfFrame(input: seq<byte>, pos: nat, index: int32, L: int32, i: nat, payload: seq<byte>)
    requires BlockBegin(i) < L && 8 <= |payload| < MAX_ARRAY
    requires var frame := Frame(WithId(PIECE, payload));
      pos + |frame| <= |input| && input[pos..pos + |frame|] == frame
    ensures var one := BlockRound(input, pos, index, L, i);
      one.result == Success(payload[8..]) && one.next == pos + |Frame(WithId(PIECE, payload))|
  {
    var frame := Frame(WithId(PIECE, payload));
    var before := input[..pos];
    var rest := input[pos + |frame|..];
    assert input == before + frame + rest;
    ReceiveFrame(before, PIECE, payload, rest);
  }

  /** `input` holds those answers, one after the other, from `pos` on. */
  predicate Answered(input: seq<byte>, pos: nat, L: int32, i: nat, heads: seq<seq<byte>>, blocks: seq<seq<byte>>)
    requires HonestBlocks(L, i, heads, blocks)
    decreases |blocks|
  {
    blocks == [] ||
      var frame := Frame(WithId(PIECE, heads[0] + blocks[0]));
      && pos + |frame| <= |input| && input[pos..pos + |frame|] == frame
      && Answered(input, pos + |frame|, L, i + 1, heads[1..], blocks[1..])
  }

  /** The answers laid end to end are read back one by one. */
  lemma {:induction false} RepliesAnswer(before: seq<byte>, L: int32, i: nat, heads: seq<seq<byte>>, blocks: seq<seq<byte>>, rest: seq<byte>)
    requires HonestBlocks(L, i, heads, blocks)
    ensures Answered(before + PieceReplies(L, i, heads, blocks) + rest, |before|, L, i, heads, blocks)
    decreases |blocks|
  {
    if blocks != [] {
      var frame := Frame(WithId(PIECE, heads[0] + blocks[0]));
      var tail := PieceReplies(L, i + 1, heads[1..], blocks[1..]);
      var input := before + PieceReplies(L, i, heads, blocks) + rest;
      assert input == (before + frame) + tail + rest;
      assert input[|before|..|before| + |frame|] == frame;
      RepliesAnswer(before + frame, L, i + 1, heads[1..], blocks[1..], rest);
    }
  }

  /**
   * Against an honest peer the block loop succeeds with the blocks appended
   * to what it had, in arrival order. The offsets the peer declares play no
   * part.
   */
  lemma {:induction false} HonestLoop(input: seq<byte>, pos: nat, index: int32, L: int32, i: nat, acc: seq<byte>,
                                      heads: seq<seq<byte>>, blocks: seq<seq<byte>>)
    requires pos <= |input| && HonestBlocks(L, i, heads, blocks) && Answered(input, pos, L, i, heads, blocks)
    ensures BlockLoop(input, pos, index, L, i, acc).result == Success(acc + Joined(blocks))
    decreases |blocks|
  {
    if blocks == [] {
      assert acc + Joined(blocks) == acc;
    } else {
      var payload := heads[0] + blocks[0];
      var next := pos + |Frame(WithId(PIECE, payload))|;
      ClientBlockFits(L, i);
      RoundOfFrame(input, pos, index, L, i, payload);
      assert payload[8..] == blocks[0];
      HonestLoop(input, next, index, L, i + 1, acc + blocks[0], heads[1..], blocks[1..]);
      LoopStep(input, pos, index, L, i, acc, blocks[0], next, (acc + blocks[0]) + Joined(blocks[1..]));
      assert Joined(blocks) == blocks[0] + Joined(blocks[1..]);
      AppendAssoc(acc, blocks[0], Joined(blocks[1..]));
    }
  }

  /** A successful round followed by a successful rest of the loop is a successful loop. */
  lemma {:induction false} LoopStep(input: seq<byte>, pos: nat, index: int32, L: int32, i: nat, acc: seq<byte>,
                                    v: seq<byte>, next: nat, total: seq<byte>)
    requires pos <= |input| && BlockBegin(i) < L
    requires BlockRound(input, pos, index, L, i).result == Success(v) && BlockRound(input, pos, index, L, i).next == next
    requires BlockLoop(input, next, index, L, i + 1, acc + v).result == Success(total)
    ensures BlockLoop(input, pos, index, L, i, acc).result == Success(total)
  {
    BlockAdvances(input, pos, index, L, i, acc, []);
  }

  /** The blocks of an honest peer from block `i` on make up the rest of the piece. */
  lemma {:induction false} HonestLength(L: int32, i: nat, heads: seq<seq<byte>>, blocks: seq<seq<byte>>)
    requires HonestBlocks(L, i, heads, blocks)
    ensures |Joined(blocks)| == if blocks == [] then 0 else L - BlockBegin(i)
    decreases |blocks|
  {
    if blocks != [] {
      ClientBlockFits(L, i);
      HonestLength(L, i + 1, heads[1..], blocks[1..]);
      assert Joined(blocks) == blocks[0] + Joined(blocks[1..]);
      if blocks[1..] != [] {
        assert BlockBegin(i + 1) == BlockBegin(i) + BLOCK_SIZE;
      }
    }
  }

  /** The whole piece from an honest peer: `L` bytes, the blocks in order. */
  lemma {:induction false} HonestPiece(before: seq<byte>, index: int32, L: int32,
                                       heads: seq<seq<byte>>, blocks: seq<seq<byte>>, rest: seq<byte>)
    requires 0 < L && HonestBlocks(L, 0, heads, blocks)
    ensures var r := BlockLoop(before + PieceReplies(L, 0, heads, blocks) + rest, |before|, index, L, 0, []);
      && r.result == Success(Joined(blocks))
      && |r.result.value| == L
  {
    var input := before + PieceReplies(L, 0, heads, blocks) + rest;
    RepliesAnswer(before, L, 0, heads, blocks, rest);
    HonestLoop(input, |before|, index, L, 0, [], heads, blocks);
    assert [] + Joined(blocks) == Joined(blocks);
    assert blocks != [] by {
      assert BlockBegin(0) == 0;
    }
    HonestLength(L, 0, heads, blocks);
  }

  // ---------------------------------------------------------------- one request at a time

  /** Every write is followed at once by a read: nothing is written while an answer is due. */
  predicate OneAtATime(es: seq<Event>) {
    forall j :: 0 <= j < |es| && es[j].Wrote? ==> j + 1 < |es| && es[j + 1].Read?
  }

  lemma {:induction false} OneAtATimeAppend(a: seq<Event>, b: seq<Event>)
    requires OneAtATime(a) && OneAtATime(b)
    ensures OneAtATime(a + b)
  {
    forall j | 0 <= j < |a + b| && (a + b)[j].Wrote?
      ensures j + 1 < |a + b| && (a + b)[j + 1].Read?
    {
      if j < |a| {
        assert a[j].Wrote?;
        assert (a + b)[j + 1] == a[j + 1];
      } else {
        assert b[j - |a|].Wrote?;
        assert (a + b)[j + 1] == b[j - |a| + 1];
      }
    }
  }

  /** A write followed by reads, of which there is at least one. */
  lemma {:induction false} WriteThenReads(x: seq<byte>, answer: seq<Event>)
    requires answer != [] && AllReads(answer)
    ensures OneAtATime([Wrote(x)] + answer) && Writes([Wrote(x)] + answer) == [x]
  {
    var es := [Wrote(x)] + answer;
    forall j | 0 <= j < |es| && es[j].Wrote?
      ensures j + 1 < |es| && es[j + 1].Read?
    {
      assert es[1] == answer[0];
    }
    assert es[1..] == answer;
    ReadsHaveNoWrites(answer);
  }

  /** `ReceiveMessage` only reads, and reads at least once. */
  lemma {:induction false} ReceiveReads(input: seq<byte>, pos: nat, expected: byte)
    requires pos <= |input|
    ensures var es := Receive(input, pos, expected).events; es != [] && AllReads(es) && OneAtATime(es)
  {
  }

  /** The request frames from block `i` to the last block of the piece, in block order. */
  function ClientRequests(index: int32, L: int32, i: nat): (r: seq<seq<byte>>)
    decreases L - BlockBegin(i)
  {
    if BlockBegin(i) >= L then [] else [BlockRequest(index, L, i)] + ClientRequests(index, L, i + 1)
  }

  /**
   * The block loop never writes a request before the previous answer is
   * read, and when it succeeds it has written the requests for all the
   * remaining blocks, in block order.
   */
  lemma {:induction false} BlockLoopWrites(input: seq<byte>, pos: nat, index: int32, L: int32, i: nat, acc: seq<byte>)
    requires pos <= |input|
    ensures var r := BlockLoop(input, pos, index, L, i, acc);
      && OneAtATime(r.events)
      && (r.result.Success? ==> Writes(r.events) == ClientRequests(index, L, i))
    decreases L - BlockBegin(i)
  {
    if BlockBegin(i) < L {
      var one := BlockRound(input, pos, index, L, i);
      var rec := Receive(input, pos, PIECE);
      ReceiveReads(input, pos, PIECE);
      WriteThenReads(BlockRequest(index, L, i), rec.events);
      if one.result.Success? {
        var rest := BlockLoop(input, one.next, index, L, i + 1, acc + one.result.value);
        BlockLoopWrites(input, one.next, index, L, i + 1, acc + one.result.value);
        OneAtATimeAppend(one.events, rest.events);
        WritesAppend(one.events, rest.events);
      }
    }
  }

  // ---------------------------------------------------------------- the whole download

  /**
   * The opening writes the interested message between the bitfield and the
   * unchoke, one message at a time, and writes nothing when the bitfield
   * is refused.
   */
  lemma {:induction false} OpeningWrites(input: seq<byte>, pos: nat)
    requires pos <= |input|
    ensures var o := Opening(input, pos);
      && OneAtATime(o.events)
      && (Receive(input, pos, BITFIELD).result.Failure? ==> Writes(o.events) == [])
      && (Receive(input, pos, BITFIELD).result.Success? ==> Writes(o.events) == [InterestedBytes()])
  {
    var bitfield := Receive(input, pos, BITFIELD);
    ReceiveReads(input, pos, BITFIELD);
    ReadsHaveNoWrites(bitfield.events);
    if bitfield.result.Success? {
      var unchoke := Receive(input, bitfield.next, UNCHOKE);
      ReceiveReads(input, bitfield.next, UNCHOKE);
      var tail := [Wrote(InterestedBytes())] + unchoke.events;
      WriteThenReads(InterestedBytes(), unchoke.events);
      AppendAssoc(bitfield.events, [Wrote(InterestedBytes())], unchoke.events);
      OneAtATimeAppend(bitfield.events, tail);
      WritesAppend(bitfield.events, tail);
    }
  }

  /** What the exchange after the handshake writes: one message at a time; on success the interested message, then every request. */
  lemma {:induction false} ExchangeWrites(file: seq<byte>, sha1: seq<byte> -> seq<byte>, input: seq<byte>, pos: nat, index: int32)
    requires pos <= |input|
    ensures OneAtATime(Exchange(file, sha1, input, pos, index).events)
    ensures Exchange(file, sha1, input, pos, index).result.Success? ==> MetaDataOf(file, sha1).Success?
    ensures Exchange(file, sha1, input, pos, index).result.Success? ==>
      var meta := MetaDataOf(file, sha1).value;
      Writes(Exchange(file, sha1, input, pos, index).events) ==
        [InterestedBytes()] + ClientRequests(index, PieceLengthAsWritten(meta.length, meta.piecesLength, index), 0)
  {
    var x := Exchange(file, sha1, input, pos, index);
    var opening := Opening(input, pos);
    OpeningWrites(input, pos);
    if opening.result.Success? && MetaDataOf(file, sha1).Success? {
      var meta := MetaDataOf(file, sha1).value;
      var L := PieceLengthAsWritten(meta.length, meta.piecesLength, index);
      var blocks := BlockLoop(input, opening.next, index, L, 0, []);
      assert x.events == opening.events + blocks.events;
      assert x.result.Success? ==> blocks.result.Success?;
      BlockLoopWrites(input, opening.next, index, L, 0, []);
      OneAtATimeAppend(opening.events, blocks.events);
      WritesAppend(opening.events, blocks.events);
    } else {
      assert x.events == opening.events && x.result.Failure?;
    }
  }

  /** The handshake writes its 68 bytes and then reads; a handshake that succeeds wrote exactly them. */
  lemma {:induction false} HandshakeWrites(file: seq<byte>, sha1: seq<byte> -> seq<byte>, peerId: seq<byte>,
                                           connects: bool, input: seq<byte>)
    requires Digests(sha1) && |peerId| == 20
    ensures var s := Handshaking(file, sha1, peerId, connects, input);
      && OneAtATime(s.events)
      && (s.result.Success? ==>
            && InfoDict(file).Success?
            && Writes(s.events) == [HandshakeBytes(sha1(InfoDict(file).value.originalData), peerId)])
  {
    var shake := Handshaking(file, sha1, peerId, connects, input);
    if shake.events != [] {
      var info := InfoDict(file).value;
      var hello := HandshakeBytes(sha1(info.originalData), peerId);
      assert shake.events == [Wrote(hello)] + [Read(Delivered(input, 0, HANDSHAKE_LENGTH))];
      WriteThenReads(hello, [Read(Delivered(input, 0, HANDSHAKE_LENGTH))]);
    } else {
      assert shake.result.Failure?;
    }
  }

  /**
   * `DownloadPieceAsync` writes one message at a time and waits for its
   * answer; a piece comes back only after the handshake, the interested
   * message and the requests for all its blocks were written, in that order.
   */
  lemma {:induction false} DownloadWrites(file: seq<byte>, sha1: seq<byte> -> seq<byte>, peerId: seq<byte>, connects: bool,
                                          input: seq<byte>, index: int32)
    requires Digests(sha1) && |peerId| == 20
    ensures var d := Download(file, sha1, peerId, connects, input, index);
      && OneAtATime(d.events)
      && (d.result.Success? ==>
            && InfoDict(file).Success? && MetaDataOf(file, sha1).Success?
            && Writes(d.events) ==
                 [HandshakeBytes(sha1(InfoDict(file).value.originalData), peerId), InterestedBytes()]
                 + ClientRequests(index, PieceLengthAsWritten(MetaDataOf(file, sha1).value.length,
                                                    MetaDataOf(file, sha1).value.piecesLength, index), 0))
  {
    var shake := Handshaking(file, sha1, peerId, connects, input);
    HandshakeWrites(file, sha1, peerId, connects, input);
    var hello := if InfoDict(file).Success? then HandshakeBytes(sha1(InfoDict(file).value.originalData), peerId) else [];
    if shake.result.Success? {
      var exchange := Exchange(file, sha1, input, shake.next, index);
      ExchangeWrites(file, sha1, input, shake.next, index);
      var requests := if MetaDataOf(file, sha1).Success?
        then ClientRequests(index, PieceLengthAsWritten(MetaDataOf(file, sha1).value.length, MetaDataOf(file, sha1).value.piecesLength, index), 0)
        else [];
      SessionWrites(shake.events, exchange.events, exchange.result.Success?, hello, requests);
    }
  }

  /** A handshake that wrote `hello` followed by an exchange that wrote the interested message and `requests`. */
  lemma {:induction false} SessionWrites(shaken: seq<Event>, exchanged: seq<Event>, succeeded: bool,
                                         hello: seq<byte>, requests: seq<seq<byte>>)
    requires OneAtATime(shaken) && OneAtATime(exchanged) && Writes(shaken) == [hello]
    requires succeeded ==> Writes(exchanged) == [InterestedBytes()] + requests
    ensures OneAtATime(shaken + exchanged)
    ensures succeeded ==> Writes(shaken + exchanged) == [hello, InterestedBytes()] + requests
  {
    OneAtATimeAppend(shaken, exchanged);
    WritesAppend(shaken, exchanged);
    assert [hello] + ([InterestedBytes()] + requests) == [hello, InterestedBytes()] + requests;
  }

  /** Without an `info` dictionary or without a connection nothing is written or read. */
  lemma {:induction false} NoConnectionNoTraffic(file: seq<byte>, sha1: seq<byte> -> seq<byte>, peerId: seq<byte>,
                                                 connects: bool, input: seq<byte>, index: int32)
    requires Digests(sha1) && |peerId| == 20
    requires InfoDict(file).Failure? || !connects
    ensures Download(file, sha1, peerId, connects, input, index).events == []
    ensures Download(file, sha1, peerId, connects, input, index).result ==
      if InfoDict(file).Failure? then Failure(InfoDict(file).error) else Failure(Timeout)
  {
  }

  /** The `info` dictionary of a file whose metadata decodes. */
  lemma {:induction false} MetaDataHasInfo(file: seq<byte>, sha1: seq<byte> -> seq<byte>)
    requires MetaDataOf(file, sha1).Success?
    ensures InfoDict(file).Success?
    ensures MetaDataOf(file, sha1).value.infoHash == sha1(InfoDict(file).value.originalData)
  {
  }

  /**
   * Every stored piece hash is the lowercase hex of 20 bytes, so the hash
   * check accepts a piece exactly when its digest is those bytes.
   */
  lemma {:induction false} StoredHashCheck(file: seq<byte>, sha1: seq<byte> -> seq<byte>, k: int, piece: seq<byte>)
    requires MetaDataOf(file, sha1).Success? && 0 <= k < |MetaDataOf(file, sha1).value.piecesHashes|
    ensures var h := MetaDataOf(file, sha1).value.piecesHashes[k];
      && |h| == 40
      && |FromHex(h)| == 20
      && (VerifyPieceIntegrity(piece, h, sha1) <==> sha1(piece) == FromHex(h))
  {
    var top := Torrent(file).value;
    var info := Field(top, INFO).value;
    var pieces := BytesOf(Field(info, PIECES).value).value;
    var hashes := PieceHashList(pieces).value;
    assert MetaDataOf(file, sha1).value.piecesHashes == hashes;
    var chunk := pieces[20 * k..20 * k + 20];
    assert hashes[k] == HexLower(chunk);
    FromHexLower(chunk);
    IntegrityOfStoredHash(piece, chunk, sha1);
  }

  /**
   * A downloaded piece has a stored hash, and its digest is that hash: the
   * index is inside the hash list and the bytes were checked.
   */
  lemma {:induction false} DownloadChecked(file: seq<byte>, sha1: seq<byte> -> seq<byte>, peerId: seq<byte>, connects: bool,
                                           input: seq<byte>, index: int32)
    requires Digests(sha1) && |peerId| == 20
    requires Download(file, sha1, peerId, connects, input, index).result.Success?
    ensures MetaDataOf(file, sha1).Success?
    ensures 0 <= index < |MetaDataOf(file, sha1).value.piecesHashes|
    ensures |MetaDataOf(file, sha1).value.piecesHashes[index]| == 40
    ensures sha1(Download(file, sha1, peerId, connects, input, index).result.value)
            == FromHex(MetaDataOf(file, sha1).value.piecesHashes[index])
  {
    var shake := Handshaking(file, sha1, peerId, connects, input);
    var exchange := Exchange(file, sha1, input, shake.next, index);
    var piece := exchange.result.value;
    StoredHashCheck(file, sha1, index, piece);
  }

  // ---------------------------------------------------------------- an honest exchange

  /** A bitfield followed by an unchoke opens the exchange. */
  lemma {:induction false} HonestOpening(before: seq<byte>, bits: seq<byte>, rest: seq<byte>)
    requires |bits| < MAX_ARRAY
    ensures var bitfield := Frame(WithId(BITFIELD, bits));
      var unchoke := Frame(WithId(UNCHOKE, []));
      var o := Opening(before + bitfield + unchoke + rest, |before|);
      o.result == Success([]) && o.next == |before| + |bitfield| + |unchoke|
  {
    var bitfield := Frame(WithId(BITFIELD, bits));
    var unchoke := Frame(WithId(UNCHOKE, []));
    var input := before + bitfield + unchoke + rest;
    AppendAssoc(before + bitfield, unchoke, rest);
    ReceiveFrame(before, BITFIELD, bits, unchoke + rest);
    ReceiveFrame(before + bitfield, UNCHOKE, [], rest);
    OpeningOf(input, |before|, |before| + |bitfield|);
  }

  /** The opening succeeds when both of its messages are received, one after the other. */
  lemma {:induction false} OpeningOf(input: seq<byte>, pos: nat, middle: nat)
    requires pos <= |input| && Receive(input, pos, BITFIELD).result.Success? && Receive(input, pos, BITFIELD).next == middle
    requires Receive(input, middle, UNCHOKE).result == Success([])
    ensures Opening(input, pos).result == Success([]) && Opening(input, pos).next == Receive(input, middle, UNCHOKE).next
  {
  }

  /**
   * Piece `index` lies inside the file and what is left of the file from its
   * start fits an `int`: there `GetPieceLength` as written gives the
   * intended length.
   */
  predicate Fits32(meta: MetaData, index: int32) {
    && 0 < meta.piecesLength <= INT32_MAX && 0 <= index
    && index * meta.piecesLength < meta.length
    && meta.length - index * meta.piecesLength <= INT32_MAX
  }

  /** There the piece is what is left of the file, at most the nominal length. */
  lemma {:induction false} Fits32Length(meta: MetaData, index: int32)
    ensures Fits32(meta, index) ==>
      PieceLengthAsWritten(meta.length, meta.piecesLength, index) == Min(meta.piecesLength, meta.length - index * meta.piecesLength)
  {
    if Fits32(meta, index) {
      PieceLengthInside(meta.length, meta.piecesLength, index);
      PieceLengthAgrees(meta.length, meta.piecesLength, index);
    }
  }

  /**
   * After the handshake, a peer that sends a bitfield and an unchoke and
   * answers every request with its block has the exchange succeed with the
   * blocks laid end to end, provided their digest is the stored hash.
   */
  lemma {:induction false} HonestExchange(file: seq<byte>, sha1: seq<byte> -> seq<byte>, index: int32,
                                          before: seq<byte>, bits: seq<byte>, heads: seq<seq<byte>>, blocks: seq<seq<byte>>,
                                          rest: seq<byte>)
    requires |bits| < MAX_ARRAY && MetaDataOf(file, sha1).Success?
    requires var meta := MetaDataOf(file, sha1).value;
      && 0 <= index < |meta.piecesHashes|
      && 0 < PieceLengthAsWritten(meta.length, meta.piecesLength, index)
      && HonestBlocks(PieceLengthAsWritten(meta.length, meta.piecesLength, index), 0, heads, blocks)
      && sha1(Joined(blocks)) == FromHex(meta.piecesHashes[index])
    ensures var meta := MetaDataOf(file, sha1).value;
      var L := PieceLengthAsWritten(meta.length, meta.piecesLength, index);
      var input := before + Frame(WithId(BITFIELD, bits)) + Frame(WithId(UNCHOKE, [])) + PieceReplies(L, 0, heads, blocks) + rest;
      && Exchange(file, sha1, input, |before|, index).result == Success(Joined(blocks))
      && |Joined(blocks)| == L
      && (Fits32(meta, index) ==> L == Min(meta.piecesLength, meta.length - index * meta.piecesLength))
  {
    var meta := MetaDataOf(file, sha1).value;
    var L := PieceLengthAsWritten(meta.length, meta.piecesLength, index);
    var bitfield := Frame(WithId(BITFIELD, bits));
    var unchoke := Frame(WithId(UNCHOKE, []));
    var answers := PieceReplies(L, 0, heads, blocks);
    var input := before + bitfield + unchoke + answers + rest;
    var piece := Joined(blocks);
    Fits32Length(meta, index);
    assert Opening(input, |before|).result.Success? && Opening(input, |before|).next == |before + bitfield + unchoke| by {
      assert input == before + bitfield + unchoke + (answers + rest);
      HonestOpening(before, bits, answers + rest);
    }
    assert BlockLoop(input, |before + bitfield + unchoke|, index, L, 0, []).result == Success(piece) && |piece| == L by {
      HonestPiece(before + bitfield + unchoke, index, L, heads, blocks, rest);
    }
    assert VerifyPieceIntegrity(piece, meta.piecesHashes[index], sha1) by {
      StoredHashCheck(file, sha1, index, piece);
    }
    ExchangeSucceeds(file, sha1, input, |before|, index, piece);
  }

  /**
   * A peer that answers the handshake with any 68 bytes, sends a bitfield
   * and an unchoke, and answers every request with its block gets the piece
   * downloaded: the blocks laid end to end, as long as `GetPieceLength`
   * says, provided its digest is the stored hash. What the peer's handshake
   * holds is not looked at.
   */
  lemma {:induction false} HonestDownload(file: seq<byte>, sha1: seq<byte> -> seq<byte>, peerId: seq<byte>, index: int32,
                                          reply: seq<byte>, bits: seq<byte>, heads: seq<seq<byte>>, blocks: seq<seq<byte>>,
                                          rest: seq<byte>)
    requires Digests(sha1) && |peerId| == 20 && |reply| == HANDSHAKE_LENGTH && |bits| < MAX_ARRAY
    requires MetaDataOf(file, sha1).Success?
    requires var meta := MetaDataOf(file, sha1).value;
      && 0 <= index < |meta.piecesHashes|
      && 0 < PieceLengthAsWritten(meta.length, meta.piecesLength, index)
      && HonestBlocks(PieceLengthAsWritten(meta.length, meta.piecesLength, index), 0, heads, blocks)
      && sha1(Joined(blocks)) == FromHex(meta.piecesHashes[index])
    ensures var meta := MetaDataOf(file, sha1).value;
      var L := PieceLengthAsWritten(meta.length, meta.piecesLength, index);
      var input := reply + Frame(WithId(BITFIELD, bits)) + Frame(WithId(UNCHOKE, [])) + PieceReplies(L, 0, heads, blocks) + rest;
      && Download(file, sha1, peerId, true, input, index).result == Success(Joined(blocks))
      && |Joined(blocks)| == L
      && (Fits32(meta, index) ==> L == Min(meta.piecesLength, meta.length - index * meta.piecesLength))
  {
    HonestExchange(file, sha1, index, reply, bits, heads, blocks, rest);
    MetaDataHasInfo(file, sha1);
    var meta := MetaDataOf(file, sha1).value;
    var L := PieceLengthAsWritten(meta.length, meta.piecesLength, index);
    var input := reply + Frame(WithId(BITFIELD, bits)) + Frame(WithId(UNCHOKE, [])) + PieceReplies(L, 0, heads, blocks) + rest;
    DownloadSucceeds(file, sha1, peerId, input, index, Joined(blocks));
  }

  /** The exchange succeeds once its parts do. */
  lemma {:induction false} ExchangeSucceeds(file: seq<byte>, sha1: seq<byte> -> seq<byte>, input: seq<byte>, pos: nat,
                                            index: int32, piece: seq<byte>)
    requires pos <= |input| && Opening(input, pos).result.Success? && MetaDataOf(file, sha1).Success?
    requires var meta := MetaDataOf(file, sha1).value;
      && BlockLoop(input, Opening(input, pos).next, index, PieceLengthAsWritten(meta.length, meta.piecesLength, index), 0, []).result == Success(piece)
      && 0 <= index < |meta.piecesHashes| && VerifyPieceIntegrity(piece, meta.piecesHashes[index], sha1)
    ensures Exchange(file, sha1, input, pos, index).result == Success(piece)
  {
  }

  /** The download succeeds once the handshake has its 68 bytes and the exchange after them succeeds. */
  lemma {:induction false} DownloadSucceeds(file: seq<byte>, sha1: seq<byte> -> seq<byte>, peerId: seq<byte>, input: seq<byte>,
                                            index: int32, piece: seq<byte>)
    requires Digests(sha1) && |peerId| == 20 && InfoDict(file).Success? && HANDSHAKE_LENGTH <= |input|
    requires Exchange(file, sha1, input, HANDSHAKE_LENGTH, index).result == Success(piece)
    ensures Download(file, sha1, peerId, true, input, index).result == Success(piece)
  {
    assert |Delivered(input, 0, HANDSHAKE_LENGTH)| == HANDSHAKE_LENGTH;
  }
}
