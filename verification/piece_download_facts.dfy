/**
 * What `DownloadPieceAsync` promises, stated over the functions that specify
 * it: the order of the exchange, what each piece message does to the
 * buffer, how many messages are read, and when the buffer comes back.
 */
module PieceDownloadFacts {
  import opened Wrappers
  import opened Bytes
  import opened Buffers
  import opened Streams
  import opened PeerMessages
  import opened PieceBlocks
  import opened PieceDownloading

  /** Nothing was written. */
  predicate AllReads(es: seq<Event>) {
    forall i :: 0 <= i < |es| ==> es[i].Read?
  }

  /** The bytes written, in order. */
  function Writes(es: seq<Event>): (r: seq<seq<byte>>)
    ensures |r| <= |es|
  {
    if es == [] then []
    else (if es[0].Wrote? then [es[0].data] else []) + Writes(es[1..])
  }

  /** The request frames for blocks `0 .. k-1`, in block order. */
  function RequestFrames(index: int32, L: int32, k: nat): (r: seq<seq<byte>>)
    requires 0 <= L <= MAX_UNWRAPPED && k <= NumBlocks(L)
    ensures |r| == k
  {
    if k == 0 then [] else RequestFrames(index, L, k - 1) + [RequestFrame(index, L, k - 1)]
  }

  lemma {:induction false} WritesAppend(a: seq<Event>, b: seq<Event>)
    ensures Writes(a + b) == Writes(a) + Writes(b)
    decreases |a|
  {
    if a == [] {
      assert a + b == b;
    } else {
      var head := if a[0].Wrote? then [a[0].data] else [];
      assert (a + b)[0] == a[0] && (a + b)[1..] == a[1..] + b;
      assert Writes(a + b) == head + Writes(a[1..] + b);
      WritesAppend(a[1..], b);
      assert Writes(a) == head + Writes(a[1..]);
    }
  }

  lemma {:induction false} ReadsHaveNoWrites(es: seq<Event>)
    requires AllReads(es)
    ensures Writes(es) == []
    decreases |es|
  {
    if es != [] {
      ReadsHaveNoWrites(es[1..]);
    }
  }

  lemma {:induction false} ReadsAppend(a: seq<Event>, b: seq<Event>)
    requires AllReads(a) && AllReads(b)
    ensures AllReads(a + b)
  {
    forall i | 0 <= i < |a + b| ensures (a + b)[i].Read? {
      if i >= |a| {
        assert (a + b)[i] == b[i - |a|];
      }
    }
  }

  /** Reading a frame only reads: the header, then the body when the length is not 0. */
  lemma {:induction false} ReadFrameReads(input: seq<byte>, pos: nat)
    requires pos <= |input|
    ensures AllReads(ReadFrame(input, pos).events)
    ensures var f := ReadFrame(input, pos);
      f.result.Success? && f.result.value.id.Some? ==> |f.events| == 2
  {
  }

  /** The request loop writes the request for block `i` as its `i`-th event. */
  lemma {:induction false} RequestWritesAt(index: int32, L: int32, k: nat, i: nat)
    requires 0 <= L <= MAX_UNWRAPPED && k <= NumBlocks(L) && i < k
    ensures RequestWrites(index, L, k)[i] == Wrote(RequestFrame(index, L, i))
    decreases k
  {
    if i < k - 1 {
      RequestWritesAt(index, L, k - 1, i);
    }
  }

  /** The request loop writes exactly the request frames, in block order. */
  lemma {:induction false} RequestWritesFrames(index: int32, L: int32, k: nat)
    requires 0 <= L <= MAX_UNWRAPPED && k <= NumBlocks(L)
    ensures Writes(RequestWrites(index, L, k)) == RequestFrames(index, L, k)
    decreases k
  {
    if k > 0 {
      var frame := RequestFrame(index, L, k - 1);
      RequestWritesFrames(index, L, k - 1);
      WritesAppend(RequestWrites(index, L, k - 1), [Wrote(frame)]);
      assert Writes([Wrote(frame)]) == [frame] by {
        assert [Wrote(frame)][1..] == [];
      }
    }
  }

  /**
   * The receive loop only reads, and when it succeeds it has read exactly one
   * header and one body per outstanding message: messages are counted, not
   * the distinct offsets they fill.
   */
  lemma {:induction false} ReceiveLoopReads(input: seq<byte>, pos: nat, buf: seq<byte>, received: nat, n: int)
    requires pos <= |input|
    ensures var out := ReceiveLoop(input, pos, buf, received, n);
      && AllReads(out.events)
      && (out.result.Success? && received <= n ==> |out.events| == 2 * (n - received))
    decreases n - received
  {
    if received < n {
      var one := ReceiveOne(input, pos, buf);
      ReadFrameReads(input, pos);
      if one.result.Success? {
        var rest := ReceiveLoop(input, one.next, one.result.value, received + 1, n);
        ReceiveLoopReads(input, one.next, one.result.value, received + 1, n);
        ReadsAppend(one.events, rest.events);
      }
    }
  }

  /** A message that is not a piece message, a keep-alive included, ends the receive loop. */
  lemma {:induction false} NonPieceRejected(input: seq<byte>, pos: nat, buf: seq<byte>, received: nat, n: int)
    requires pos <= |input| && received < n
    requires ReadFrame(input, pos).result.Success? && ReadFrame(input, pos).result.value.id != Some(PIECE)
    ensures ReceiveLoop(input, pos, buf, received, n).result == Failure(ExpectedPiece)
  {
  }

  /** In particular a keep-alive (a zero length prefix) while blocks are outstanding is an error. */
  lemma {:induction false} KeepAliveRejected(input: seq<byte>, pos: nat, buf: seq<byte>, received: nat, n: int)
    requires pos + 4 <= |input| && input[pos..pos + 4] == [0, 0, 0, 0] && received < n
    ensures ReceiveLoop(input, pos, buf, received, n).result == Failure(ExpectedPiece)
  {
    ZeroLengthIsKeepAlive(input, pos);
    NonPieceRejected(input, pos, buf, received, n);
  }

  /**
   * A message is accepted exactly when it is a piece message with an index
   * and a begin and its block fits in the buffer at that begin; the block's
   * bytes then land at their offsets and every other byte is unchanged.
   */
  lemma {:induction false} AcceptPlaces(m: PeerMessage, buf: seq<byte>, k: nat)
    requires k < |buf|
    ensures Accept(m, buf).Success? <==>
      && m.id == Some(PIECE) && |m.payload| >= 8
      && 0 <= ReadBigEndian32(m.payload[4..8]) && ReadBigEndian32(m.payload[4..8]) + |m.payload| - 8 <= |buf|
    ensures Accept(m, buf).Success? ==>
      var begin := ReadBigEndian32(m.payload[4..8]);
      && (begin <= k < begin + |m.payload| - 8 ==> Accept(m, buf).value[k] == m.payload[8 + k - begin])
      && (!(begin <= k < begin + |m.payload| - 8) ==> Accept(m, buf).value[k] == buf[k])
  {
    if Accept(m, buf).Success? {
      var begin := ReadBigEndian32(m.payload[4..8]);
      PlaceAt(buf, begin, m.payload[8..], k);
    }
  }

  /** The index a piece message declares does not matter: any other index gives the same buffer. */
  lemma {:induction false} AcceptIgnoresIndex(m: PeerMessage, buf: seq<byte>, index: seq<byte>)
    requires |m.payload| >= 8 && |index| == 4
    ensures Accept(m.(payload := index + m.payload[4..]), buf) == Accept(m, buf)
  {
    var p := index + m.payload[4..];
    assert p[4..8] == m.payload[4..8] && p[8..] == m.payload[8..];
  }

  /** If the first message is not a bitfield, the download fails having written nothing. */
  lemma {:induction false} FailsBeforeInterested(input: seq<byte>, pos: nat, index: int32, L: int32,
                                                 expected: seq<byte>, sha1: seq<byte> -> seq<byte>)
    requires pos <= |input|
    requires var f := ReadFrame(input, pos); f.result.Failure? || f.result.value.id != Some(BITFIELD)
    ensures Run(input, pos, index, L, expected, sha1).result.Failure?
    ensures AllReads(Run(input, pos, index, L, expected, sha1).events)
  {
    ReadFrameReads(input, pos);
  }

  /** If the second message is not an unchoke, the download fails having written only the interested message. */
  lemma {:induction false} FailsBeforeRequests(input: seq<byte>, pos: nat, index: int32, L: int32,
                                               expected: seq<byte>, sha1: seq<byte> -> seq<byte>)
    requires pos <= |input|
    requires var f1 := ReadFrame(input, pos);
      && f1.result.Success? && f1.result.value.id == Some(BITFIELD)
      && var f2 := ReadFrame(input, f1.next);
      f2.result.Failure? || f2.result.value.id != Some(UNCHOKE)
    ensures Run(input, pos, index, L, expected, sha1).result.Failure?
    ensures Writes(Run(input, pos, index, L, expected, sha1).events) == [Frame(CreateInterested())]
  {
    var f1 := ReadFrame(input, pos);
    var f2 := ReadFrame(input, f1.next);
    GreetingWrites(input, pos);
    assert Run(input, pos, index, L, expected, sha1).events == Greet(input, pos).events;
  }

  /** A greeting that gets past the bitfield writes the interested message and nothing else. */
  lemma {:induction false} GreetingWrites(input: seq<byte>, pos: nat)
    requires pos <= |input|
    requires var f1 := ReadFrame(input, pos); f1.result.Success? && f1.result.value.id == Some(BITFIELD)
    ensures Writes(Greet(input, pos).events) == [Frame(CreateInterested())]
  {
    var f1 := ReadFrame(input, pos);
    var f2 := ReadFrame(input, f1.next);
    var interested := [Wrote(Frame(CreateInterested()))];
    ReadFrameReads(input, pos);
    ReadFrameReads(input, f1.next);
    ReadsHaveNoWrites(f1.events);
    ReadsHaveNoWrites(f2.events);
    WritesAppend(f1.events, interested);
    WritesAppend(f1.events + interested, f2.events);
    assert Writes(interested) == [Frame(CreateInterested())] by {
      assert interested[1..] == [];
    }
  }

  /**
   * After an unchoke every request is written, in block order, before the
   * first piece message is read: the events are the greeting, the requests,
   * then reads only, and the writes are the interested message followed by
   * the requests.
   */
  lemma {:induction false} RequestsBeforePieces(input: seq<byte>, pos: nat, index: int32, L: int32,
                                                expected: seq<byte>, sha1: seq<byte> -> seq<byte>)
    requires pos <= |input| && Greet(input, pos).error.None? && 0 <= L <= MAX_UNWRAPPED
    ensures var g := Greet(input, pos);
      var received := ReceiveLoop(input, g.next, Zeros(L), 0, NumBlocks(L));
      && Run(input, pos, index, L, expected, sha1).events == g.events + RequestWrites(index, L, NumBlocks(L)) + received.events
      && AllReads(received.events)
    ensures Writes(Run(input, pos, index, L, expected, sha1).events)
         == [Frame(CreateInterested())] + RequestFrames(index, L, NumBlocks(L))
  {
    var g := Greet(input, pos);
    var n := NumBlocks(L);
    NumBlocksCeil(L);
    var requests := RequestWrites(index, L, n);
    var received := ReceiveLoop(input, g.next, Zeros(L), 0, n);
    assert Fetch(input, g.next, index, L, expected, sha1).events == requests + received.events;
    AppendAssoc(g.events, requests, received.events);
    ReceiveLoopReads(input, g.next, Zeros(L), 0, n);
    ReadsHaveNoWrites(received.events);
    GreetingWrites(input, pos);
    RequestWritesFrames(index, L, n);
    WritesAppend(g.events + requests, received.events);
    WritesAppend(g.events, requests);
  }

  /**
   * The piece comes back only when its SHA-1 is the expected hash, and it has
   * the piece length; once every piece message has been accepted, a buffer
   * with the expected hash always comes back.
   */
  lemma {:induction false} HashChecked(input: seq<byte>, pos: nat, index: int32, L: int32,
                                       expected: seq<byte>, sha1: seq<byte> -> seq<byte>)
    requires pos <= |input|
    ensures var r := Run(input, pos, index, L, expected, sha1).result;
      r.Success? ==> sha1(r.value) == expected && |r.value| == L
    ensures var g := Greet(input, pos);
      g.error.None? && 0 <= L <= MAX_ARRAY && ReceiveLoop(input, g.next, Zeros(L), 0, NumBlocks(L)).result.Success? ==>
      var data := ReceiveLoop(input, g.next, Zeros(L), 0, NumBlocks(L)).result.value;
      (Run(input, pos, index, L, expected, sha1).result.Success? <==> sha1(data) == expected)
  {
  }

  /**
   * Messages are counted, not offsets: the same block sent twice to a piece
   * of two blocks ends the loop, and the second block stays zero.
   */
  lemma {:induction false} RepeatedBlockCounted(data: seq<byte>, rest: seq<byte>, buf: seq<byte>)
    requires |data| <= |buf| && |data| + 9 <= MAX_ARRAY
    ensures var m := WithId(PIECE, Zeros(8) + data);
      ReceiveLoop(Frame(m) + Frame(m) + rest, 0, buf, 0, 2) == Outcome(Success(Place(buf, 0, data)), ReadFrame(Frame(m) + Frame(m) + rest, 0).events + ReadFrame(Frame(m) + Frame(m) + rest, |Frame(m)|).events)
  {
    var m := WithId(PIECE, Zeros(8) + data);
    var input := Frame(m) + Frame(m) + rest;
    var once := Place(buf, 0, data);
    assert input == Frame(m) + (Frame(m) + rest);
    RoundTrip(m, Frame(m) + rest);
    assert input[|Frame(m)|..|Frame(m)| + |Frame(m)|] == Frame(m);
    ReadFrameOfFrame(input, |Frame(m)|, m);
    assert m.payload[4..8] == [0, 0, 0, 0] && m.payload[8..] == data;
    assert Accept(m, buf) == Success(once);
    assert Place(once, 0, data) == once;
    assert Accept(m, once) == Success(once);
  }

  // ---------------------------------------------------------------- an honest peer

  /**
   * What an honest peer sends for blocks `i ..` of a piece of `L` bytes: for
   * each block one piece message with 4 bytes of piece index (any, since
   * they are not read), the block's offset and exactly the block's bytes.
   */
  predicate Served(L: int32, i: nat, tags: seq<seq<byte>>, blocks: seq<seq<byte>>)
    decreases |blocks|
  {
    && |tags| == |blocks|
    && (blocks != [] ==>
          && |tags[0]| == 4 && |blocks[0]| == BlockLength(L, i)
          && Served(L, i + 1, tags[1..], blocks[1..]))
  }

  /** The piece message for block `i`. */
  function PieceReply(tag: seq<byte>, i: nat, block: seq<byte>): (m: PeerMessage)
    requires |tag| == 4 && BlockBegin(i) <= INT32_MAX && |block| <= BLOCK_SIZE
    ensures WellFormed(m) && m.length <= MAX_ARRAY && m.id == Some(PIECE)
  {
    WithId(PIECE, tag + BigEndian32(BlockBegin(i)) + block)
  }

  /** `input` holds the honest piece messages for blocks `i ..`, one after the other, from `pos` on. */
  predicate Arrived(input: seq<byte>, pos: nat, L: int32, i: nat, tags: seq<seq<byte>>, blocks: seq<seq<byte>>)
    requires Served(L, i, tags, blocks) && 0 <= L <= MAX_UNWRAPPED
    decreases |blocks|
  {
    blocks != [] ==>
      && BlockBegin(i) < L
      && |blocks[0]| <= BLOCK_SIZE
      && var frame := Frame(PieceReply(tags[0], i, blocks[0]));
      && pos + |frame| <= |input| && input[pos..pos + |frame|] == frame
      && Arrived(input, pos + |frame|, L, i + 1, tags[1..], blocks[1..])
  }

  /** The honest piece messages laid end to end. */
  function PieceReplies(L: int32, i: nat, tags: seq<seq<byte>>, blocks: seq<seq<byte>>): (r: seq<byte>)
    requires Served(L, i, tags, blocks) && 0 <= L <= MAX_UNWRAPPED && i + |blocks| <= NumBlocks(L)
    decreases |blocks|
  {
    if blocks == [] then []
    else
      BlocksTile(L, i);
      Frame(PieceReply(tags[0], i, blocks[0])) + PieceReplies(L, i + 1, tags[1..], blocks[1..])
  }

  /** Laid end to end, the messages arrive one by one. */
  lemma {:induction false} RepliesArrive(before: seq<byte>, L: int32, i: nat, tags: seq<seq<byte>>, blocks: seq<seq<byte>>, rest: seq<byte>)
    requires Served(L, i, tags, blocks) && 0 <= L <= MAX_UNWRAPPED && i + |blocks| <= NumBlocks(L)
    ensures Arrived(before + PieceReplies(L, i, tags, blocks) + rest, |before|, L, i, tags, blocks)
    decreases |blocks|
  {
    if blocks != [] {
      BlocksTile(L, i);
      var frame := Frame(PieceReply(tags[0], i, blocks[0]));
      var tail := PieceReplies(L, i + 1, tags[1..], blocks[1..]);
      assert PieceReplies(L, i, tags, blocks) == frame + tail;
      AppendAssoc(before, frame, tail);
      SlicesOfThree(before, frame, tail, rest);
      RepliesArrive(before + frame, L, i + 1, tags[1..], blocks[1..], rest);
    }
  }

  /** An honest piece message for block `i` copies the block to its offset. */
  lemma {:induction false} ReplyPlaces(input: seq<byte>, pos: nat, buf: seq<byte>, L: int32, i: nat, tag: seq<byte>, block: seq<byte>)
    requires 0 <= L <= MAX_UNWRAPPED && i < NumBlocks(L) && |buf| == L
    requires |tag| == 4 && |block| == BlockLength(L, i)
    requires var frame := Frame(PieceReply(tag, i, block));
      pos + |frame| <= |input| && input[pos..pos + |frame|] == frame
    ensures BlockBegin(i) + |block| <= |buf|
    ensures var one := ReceiveOne(input, pos, buf);
      && one.result == Success(Place(buf, BlockBegin(i), block))
      && one.next == pos + |Frame(PieceReply(tag, i, block))|
  {
    BlocksTile(L, i);
    var m := PieceReply(tag, i, block);
    ReadFrameOfFrame(input, pos, m);
    assert m.payload[4..8] == BigEndian32(BlockBegin(i));
    ReadWriteBigEndian32(BlockBegin(i));
    assert m.payload[8..] == block;
  }

  /** Copying a block that reaches the end of what is kept leaves the kept prefix followed by the block. */
  lemma {:induction false} PlacePrefix(buf: seq<byte>, begin: nat, block: seq<byte>)
    requires begin + |block| <= |buf|
    ensures Place(buf, begin, block)[..begin + |block|] == buf[..begin] + block
  {
    var placed := Place(buf, begin, block);
    forall k | 0 <= k < begin + |block|
      ensures placed[k] == (buf[..begin] + block)[k]
    {
      PlaceAt(buf, begin, block, k);
    }
  }

  /** One honest piece message moves the receive loop on by one block, with the block in place. */
  lemma {:induction false} ReplyStep(input: seq<byte>, pos: nat, buf: seq<byte>, L: int32, i: nat,
                                     tag: seq<byte>, block: seq<byte>)
    requires 0 <= L <= MAX_UNWRAPPED && i < NumBlocks(L) && |buf| == L && pos <= |input|
    requires |tag| == 4 && |block| == BlockLength(L, i)
    requires var frame := Frame(PieceReply(tag, i, block));
      pos + |frame| <= |input| && input[pos..pos + |frame|] == frame
    ensures BlockBegin(i) + |block| <= |buf|
    ensures var next := pos + |Frame(PieceReply(tag, i, block))|;
      ReceiveLoop(input, pos, buf, i, NumBlocks(L)).result
        == ReceiveLoop(input, next, Place(buf, BlockBegin(i), block), i + 1, NumBlocks(L)).result
  {
    ReplyPlaces(input, pos, buf, L, i, tag, block);
    ReceiveAdvances(input, pos, buf, i, NumBlocks(L), []);
  }

  /** The last block: the loop ends with the buffer holding the kept prefix followed by the block. */
  lemma {:induction false} LastServed(input: seq<byte>, pos: nat, buf: seq<byte>, L: int32, i: nat,
                                      tags: seq<seq<byte>>, blocks: seq<seq<byte>>)
    requires 0 <= L <= MAX_UNWRAPPED && |buf| == L && pos <= |input|
    requires Served(L, i, tags, blocks) && |blocks| == 1 && i + 1 == NumBlocks(L)
    requires Arrived(input, pos, L, i, tags, blocks)
    ensures BlockBegin(i) <= L
    ensures ReceiveLoop(input, pos, buf, i, NumBlocks(L)).result == Success(buf[..BlockBegin(i)] + Joined(blocks))
  {
    var tag, block := tags[0], blocks[0];
    assert blocks == [block];
    BlocksTile(L, i);
    ReplyStep(input, pos, buf, L, i, tag, block);
    var placed := Place(buf, BlockBegin(i), block);
    var next := pos + |Frame(PieceReply(tag, i, block))|;
    assert ReceiveLoop(input, next, placed, i + 1, NumBlocks(L)).result == Success(placed);
    PlacePrefix(buf, BlockBegin(i), block);
    assert placed[..L] == placed;
    assert blocks[1..] == [];
    assert Joined(blocks) == block;
  }

  /** A block before the last: what the loop makes of the later blocks extends to this one. */
  lemma {:induction false} ServedStep(input: seq<byte>, pos: nat, buf: seq<byte>, L: int32, i: nat,
                                      tags: seq<seq<byte>>, blocks: seq<seq<byte>>, next: nat, placed: seq<byte>)
    requires 0 <= L <= MAX_UNWRAPPED && |buf| == L && pos <= |input|
    requires Served(L, i, tags, blocks) && |blocks| > 1 && i + |blocks| == NumBlocks(L)
    requires Arrived(input, pos, L, i, tags, blocks)
    requires BlockBegin(i) + |blocks[0]| <= L
    requires next == pos + |Frame(PieceReply(tags[0], i, blocks[0]))|
    requires placed == Place(buf, BlockBegin(i), blocks[0])
    requires BlockBegin(i + 1) <= |placed|
    requires next <= |input|
    requires ReceiveLoop(input, next, placed, i + 1, NumBlocks(L)).result
        == Success(placed[..BlockBegin(i + 1)] + Joined(blocks[1..]))
    ensures ReceiveLoop(input, pos, buf, i, NumBlocks(L)).result
      == Success(buf[..BlockBegin(i)] + Joined(blocks))
  {
    BlocksTile(L, i);
    ReplyStep(input, pos, buf, L, i, tags[0], blocks[0]);
    PlacePrefix(buf, BlockBegin(i), blocks[0]);
    AppendAssoc(buf[..BlockBegin(i)], blocks[0], Joined(blocks[1..]));
  }


  /**
   * Against an honest peer the receive loop, from block `i` on, keeps what
   * the buffer holds before block `i` and fills the rest with the blocks in
   * order: the offsets declared put each block where it belongs.
   */
  lemma {:induction false} ServedLoop(input: seq<byte>, pos: nat, buf: seq<byte>, L: int32, i: nat,
                                      tags: seq<seq<byte>>, blocks: seq<seq<byte>>)
    requires 0 <= L <= MAX_UNWRAPPED && |buf| == L && pos <= |input|
    requires Served(L, i, tags, blocks) && blocks != [] && i + |blocks| == NumBlocks(L)
    requires Arrived(input, pos, L, i, tags, blocks)
    ensures BlockBegin(i) <= L
    ensures ReceiveLoop(input, pos, buf, i, NumBlocks(L)).result == Success(buf[..BlockBegin(i)] + Joined(blocks))
    decreases |blocks|, 1
  {
    if |blocks| == 1 {
      LastServed(input, pos, buf, L, i, tags, blocks);
    } else {
      ServedMore(input, pos, buf, L, i, tags, blocks);
    }
  }

  /** `ServedLoop` for more than one block: the first block, then the rest by recursion. */
  lemma {:induction false} ServedMore(input: seq<byte>, pos: nat, buf: seq<byte>, L: int32, i: nat,
                                      tags: seq<seq<byte>>, blocks: seq<seq<byte>>)
    requires 0 <= L <= MAX_UNWRAPPED && |buf| == L && pos <= |input|
    requires Served(L, i, tags, blocks) && |blocks| > 1 && i + |blocks| == NumBlocks(L)
    requires Arrived(input, pos, L, i, tags, blocks)
    ensures BlockBegin(i) <= L
    ensures ReceiveLoop(input, pos, buf, i, NumBlocks(L)).result == Success(buf[..BlockBegin(i)] + Joined(blocks))
    decreases |blocks|, 0
  {
    var next := pos + |Frame(PieceReply(tags[0], i, blocks[0]))|;
    var placed := Place(buf, BlockBegin(i), blocks[0]);
    ServedLoop(input, next, placed, L, i + 1, tags[1..], blocks[1..]);
    ServedStep(input, pos, buf, L, i, tags, blocks, next, placed);
    assert ReceiveLoop(input, pos, buf, i, NumBlocks(L)).result == Success(buf[..BlockBegin(i)] + Joined(blocks));
  }

  /** Every block of the piece arrived honestly: the receive loop returns the blocks joined, `L` bytes. */
  lemma {:induction false} ArrivedReceive(input: seq<byte>, pos: nat, L: int32, tags: seq<seq<byte>>, blocks: seq<seq<byte>>)
    requires 0 <= L <= MAX_UNWRAPPED && Served(L, 0, tags, blocks) && |blocks| == NumBlocks(L) && pos <= |input|
    requires Arrived(input, pos, L, 0, tags, blocks)
    ensures ReceiveLoop(input, pos, Zeros(L), 0, NumBlocks(L)).result == Success(Joined(blocks))
    ensures |Joined(blocks)| == L
  {
    if blocks == [] {
      assert Zeros(L) == [];
    } else {
      ServedLoop(input, pos, Zeros(L), L, 0, tags, blocks);
      assert Zeros(L)[..0] + Joined(blocks) == Joined(blocks);
    }
  }

  /**
   * The honest peer's messages for every block, laid end to end, into the
   * zeroed buffer: the receive loop returns exactly the blocks joined, `L`
   * bytes.
   */
  lemma {:induction false} HonestReceive(before: seq<byte>, L: int32, tags: seq<seq<byte>>, blocks: seq<seq<byte>>, rest: seq<byte>)
    requires 0 <= L <= MAX_UNWRAPPED && Served(L, 0, tags, blocks) && |blocks| == NumBlocks(L)
    ensures var input := before + PieceReplies(L, 0, tags, blocks) + rest;
      var r := ReceiveLoop(input, |before|, Zeros(L), 0, NumBlocks(L)).result;
      r == Success(Joined(blocks)) && |Joined(blocks)| == L
  {
    RepliesArrive(before, L, 0, tags, blocks, rest);
    ArrivedReceive(before + PieceReplies(L, 0, tags, blocks) + rest, |before|, L, tags, blocks);
  }

  /** A bitfield then an unchoke: the greeting succeeds and reading goes on right after them. */
  lemma {:induction false} HonestGreet(input: seq<byte>, pos: nat, bits: seq<byte>)
    requires |bits| < MAX_ARRAY
    requires var bitfield := Frame(WithId(BITFIELD, bits));
      var unchoke := Frame(WithId(UNCHOKE, []));
      && pos + |bitfield| + |unchoke| <= |input|
      && input[pos..pos + |bitfield|] == bitfield
      && input[pos + |bitfield|..pos + |bitfield| + |unchoke|] == unchoke
    ensures Greet(input, pos).error == None
    ensures Greet(input, pos).next == pos + |Frame(WithId(BITFIELD, bits))| + |Frame(WithId(UNCHOKE, []))|
  {
    ReadFrameOfFrame(input, pos, WithId(BITFIELD, bits));
    ReadFrameOfFrame(input, pos + |Frame(WithId(BITFIELD, bits))|, WithId(UNCHOKE, []));
  }

  /** Once greeted and all blocks received, the download's result is decided by the hash alone. */
  lemma {:induction false} ReceivedThenHashed(input: seq<byte>, pos: nat, index: int32, L: int32, data: seq<byte>,
                                              expected: seq<byte>, sha1: seq<byte> -> seq<byte>)
    requires pos <= |input| && Greet(input, pos).error == None && 0 <= L <= MAX_ARRAY
    requires ReceiveLoop(input, Greet(input, pos).next, Zeros(L), 0, NumBlocks(L)).result == Success(data)
    ensures Run(input, pos, index, L, expected, sha1).result
      == if sha1(data) == expected then Success(data) else Failure(HashMismatch)
  {
  }

  /** `Run` against a peer that greets and then answers every block honestly. */
  lemma {:induction false} HonestRunAt(input: seq<byte>, pos: nat, greeted: nat, index: int32, L: int32,
                                       tags: seq<seq<byte>>, blocks: seq<seq<byte>>,
                                       expected: seq<byte>, sha1: seq<byte> -> seq<byte>)
    requires pos <= |input| && Greet(input, pos).error == None && Greet(input, pos).next == greeted
    requires 0 <= L <= MAX_UNWRAPPED && Served(L, 0, tags, blocks) && |blocks| == NumBlocks(L)
    requires Arrived(input, greeted, L, 0, tags, blocks)
    ensures Run(input, pos, index, L, expected, sha1).result
      == if sha1(Joined(blocks)) == expected then Success(Joined(blocks)) else Failure(HashMismatch)
  {
    ArrivedReceive(input, greeted, L, tags, blocks);
    ReceivedThenHashed(input, pos, index, L, Joined(blocks), expected, sha1);
  }

  /** A bitfield, an unchoke, then every block answered honestly, from `pos` on. */
  lemma {:induction false} GreetedRun(input: seq<byte>, pos: nat, bits: seq<byte>, index: int32, L: int32,
                                      tags: seq<seq<byte>>, blocks: seq<seq<byte>>,
                                      expected: seq<byte>, sha1: seq<byte> -> seq<byte>)
    requires |bits| < MAX_ARRAY
    requires 0 <= L <= MAX_UNWRAPPED && Served(L, 0, tags, blocks) && |blocks| == NumBlocks(L)
    requires var bitfield := Frame(WithId(BITFIELD, bits));
      var unchoke := Frame(WithId(UNCHOKE, []));
      && pos + |bitfield| + |unchoke| <= |input|
      && input[pos..pos + |bitfield|] == bitfield
      && input[pos + |bitfield|..pos + |bitfield| + |unchoke|] == unchoke
      && Arrived(input, pos + |bitfield| + |unchoke|, L, 0, tags, blocks)
    ensures Run(input, pos, index, L, expected, sha1).result
      == if sha1(Joined(blocks)) == expected then Success(Joined(blocks)) else Failure(HashMismatch)
  {
    var greeted := pos + |Frame(WithId(BITFIELD, bits))| + |Frame(WithId(UNCHOKE, []))|;
    HonestGreet(input, pos, bits);
    HonestRunAt(input, pos, greeted, index, L, tags, blocks, expected, sha1);
  }

  /**
   * The whole of `DownloadPieceAsync` against an honest peer: after a
   * bitfield, an unchoke and one piece message per block at its offset, the
   * download returns the blocks joined exactly when their SHA-1 is the
   * expected hash, and fails with a hash mismatch otherwise.
   */
  lemma {:induction false} HonestRun(before: seq<byte>, bits: seq<byte>, index: int32, L: int32,
                                     tags: seq<seq<byte>>, blocks: seq<seq<byte>>, rest: seq<byte>,
                                     expected: seq<byte>, sha1: seq<byte> -> seq<byte>)
    requires |bits| < MAX_ARRAY
    requires 0 <= L <= MAX_UNWRAPPED && Served(L, 0, tags, blocks) && |blocks| == NumBlocks(L)
    ensures var input := before + Frame(WithId(BITFIELD, bits)) + Frame(WithId(UNCHOKE, []))
                          + PieceReplies(L, 0, tags, blocks) + rest;
      Run(input, |before|, index, L, expected, sha1).result
        == if sha1(Joined(blocks)) == expected then Success(Joined(blocks)) else Failure(HashMismatch)
  {
    var bitfield := Frame(WithId(BITFIELD, bits));
    var unchoke := Frame(WithId(UNCHOKE, []));
    var greeted := before + bitfield + unchoke;
    var input := greeted + PieceReplies(L, 0, tags, blocks) + rest;
    RepliesArrive(greeted, L, 0, tags, blocks, rest);
    SlicesOfThree(before, bitfield, unchoke, PieceReplies(L, 0, tags, blocks) + rest);
    AppendAssoc(greeted, PieceReplies(L, 0, tags, blocks), rest);
    GreetedRun(input, |before|, bits, index, L, tags, blocks, expected, sha1);
  }

  /** Where the middle parts of a concatenation sit. */
  lemma {:induction false} SlicesOfThree(a: seq<byte>, b: seq<byte>, c: seq<byte>, d: seq<byte>)
    ensures (a + b + c + d)[|a|..|a| + |b|] == b
    ensures (a + b + c + d)[|a| + |b|..|a| + |b| + |c|] == c
  {
    assert a + b + c + d == a + (b + (c + d));
  }
}
