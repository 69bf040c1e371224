/**
 * `PieceDownloader.DownloadPieceAsync` of src/PieceDownloader.cs: wait for a
 * bitfield, send interested, wait for unchoke, send every block request, then
 * read exactly as many piece messages as there are blocks, copying each
 * block into the piece buffer at the offset it declares, and finally compare
 * the SHA-1 of the buffer with the expected hash.
 */
module PieceDownloading {
  import opened Wrappers
  import opened Bytes
  import opened Buffers
  import opened Streams
  import opened PeerMessages
  import opened PieceBlocks

  /** The exceptions `DownloadPieceAsync` ends with. */
  datatype DownloadError =
    | ReadFailed(cause: ReadError) // `ReadFromStreamAsync` threw
    | ExpectedBitfield
    | ExpectedUnchoke
    | BadPieceLength               // `new byte[_pieceLength]` of a negative or too large length
    | ExpectedPiece
    | ShortPayload                 // a piece payload too short for its index and begin
    | BlockOutOfRange              // `Buffer.BlockCopy` past either end of the buffer
    | HashMismatch

  /** A result together with what was read and written on the way to it. */
  datatype Outcome = Outcome(result: Result<seq<byte>, DownloadError>, events: seq<Event>)

  /** The serialized request for block `i` of a piece of `L` bytes. */
  function RequestFrame(index: int32, L: int32, i: nat): (r: seq<byte>)
    requires 0 <= L <= MAX_UNWRAPPED && i < NumBlocks(L)
    ensures |r| == 17 && r[4] == REQUEST
  {
    BlocksTile(L, i);
    Frame(WithId(REQUEST, RequestPayload(index, BlockBegin(i), BlockLength(L, i))))
  }

  /** The writes of the request loop for blocks `0 .. k-1`, in order. */
  function RequestWrites(index: int32, L: int32, k: nat): (r: seq<Event>)
    requires 0 <= L <= MAX_UNWRAPPED && k <= NumBlocks(L)
    ensures |r| == k
  {
    if k == 0 then [] else RequestWrites(index, L, k - 1) + [Wrote(RequestFrame(index, L, k - 1))]
  }

  /** One round of the receive loop: the buffer after it, where reading goes on, and what was read. */
  datatype Round = Round(result: Result<seq<byte>, DownloadError>, next: nat, events: seq<Event>)

  /**
   * What the receive loop does with one message: it must be a piece message
   * whose payload holds an index and a begin; its block goes into the buffer
   * at that begin. The index is not looked at.
   */
  function Accept(m: PeerMessage, buf: seq<byte>): (r: Result<seq<byte>, DownloadError>)
    ensures r.Success? ==> |r.value| == |buf|
  {
    if m.id != Some(PIECE) then Failure(ExpectedPiece)
    else if |m.payload| < 8 then Failure(ShortPayload)
    else
      var begin := ReadBigEndian32(m.payload[4..8]);
      var data := m.payload[8..];
      if begin < 0 || begin + |data| > |buf| then Failure(BlockOutOfRange)
      else Success(Place(buf, begin, data))
  }

  /** One round of the receive loop at `pos`: read a message and accept it. */
  function ReceiveOne(input: seq<byte>, pos: nat, buf: seq<byte>): (r: Round)
    requires pos <= |input|
    ensures pos <= r.next <= |input|
    ensures r.result.Success? ==> |r.result.value| == |buf|
  {
    var f := ReadFrame(input, pos);
    match f.result
    case Failure(e) => Round(Failure(ReadFailed(e)), f.next, f.events)
    case Success(m) => Round(Accept(m, buf), f.next, f.events)
  }

  /** The receive loop from `pos` with buffer `buf`, after `received` of `n` piece messages. */
  function ReceiveLoop(input: seq<byte>, pos: nat, buf: seq<byte>, received: nat, n: int): (r: Outcome)
    requires pos <= |input|
    ensures r.result.Success? ==> |r.result.value| == |buf|
    decreases n - received
  {
    if received >= n then Outcome(Success(buf), [])
    else
      var one := ReceiveOne(input, pos, buf);
      match one.result
      case Failure(e) => Outcome(Failure(e), one.events)
      case Success(buf') =>
        var rest := ReceiveLoop(input, one.next, buf', received + 1, n);
        Outcome(rest.result, one.events + rest.events)
  }

  /** A failed round ends the receive loop with its error. */
  lemma {:induction false} ReceiveFails(input: seq<byte>, pos: nat, buf: seq<byte>, received: nat, n: int, before: seq<Event>)
    requires pos <= |input| && received < n && ReceiveOne(input, pos, buf).result.Failure?
    ensures ReceiveLoop(input, pos, buf, received, n).result == Failure(ReceiveOne(input, pos, buf).result.error)
    ensures before + ReceiveLoop(input, pos, buf, received, n).events == before + ReceiveOne(input, pos, buf).events
  {
  }

  /** A successful round hands the loop on to the next message with the updated buffer. */
  lemma {:induction false} ReceiveAdvances(input: seq<byte>, pos: nat, buf: seq<byte>, received: nat, n: int, before: seq<Event>)
    requires pos <= |input| && received < n && ReceiveOne(input, pos, buf).result.Success?
    ensures var one := ReceiveOne(input, pos, buf);
      var rest := ReceiveLoop(input, one.next, one.result.value, received + 1, n);
      && ReceiveLoop(input, pos, buf, received, n).result == rest.result
      && before + ReceiveLoop(input, pos, buf, received, n).events == (before + one.events) + rest.events
  {
    var one := ReceiveOne(input, pos, buf);
    var rest := ReceiveLoop(input, one.next, one.result.value, received + 1, n);
    assert ReceiveLoop(input, pos, buf, received, n) == Outcome(rest.result, one.events + rest.events);
    AppendAssoc(before, one.events, rest.events);
  }

  /** How the exchange before the requests ends: an error, or where reading goes on. */
  datatype Greeting = Greeting(error: Option<DownloadError>, next: nat, events: seq<Event>)

  /** Wait for a bitfield, send interested, wait for unchoke. */
  function Greet(input: seq<byte>, pos: nat): (r: Greeting)
    requires pos <= |input|
    ensures pos <= r.next <= |input|
  {
    var f1 := ReadFrame(input, pos);
    if f1.result.Failure? then Greeting(Some(ReadFailed(f1.result.error)), f1.next, f1.events)
    else if f1.result.value.id != Some(BITFIELD) then Greeting(Some(ExpectedBitfield), f1.next, f1.events)
    else
      var greeting := f1.events + [Wrote(Frame(CreateInterested()))];
      var f2 := ReadFrame(input, f1.next);
      var handshake := greeting + f2.events;
      if f2.result.Failure? then Greeting(Some(ReadFailed(f2.result.error)), f2.next, handshake)
      else if f2.result.value.id != Some(UNCHOKE) then Greeting(Some(ExpectedUnchoke), f2.next, handshake)
      else Greeting(None, f2.next, handshake)
  }

  /** After unchoke: allocate the buffer, request every block, receive them, check the hash. */
  function Fetch(input: seq<byte>, pos: nat, index: int32, L: int32, expected: seq<byte>,
                 sha1: seq<byte> -> seq<byte>): (r: Outcome)
    requires pos <= |input|
    ensures r.result.Success? ==> |r.result.value| == L && sha1(r.result.value) == expected
  {
    if L < 0 || L > MAX_ARRAY then Outcome(Failure(BadPieceLength), [])
    else
      var n := NumBlocks(L);
      var requested := if L <= MAX_UNWRAPPED then RequestWrites(index, L, n) else [];
      var received := ReceiveLoop(input, pos, Zeros(L), 0, n);
      var events := requested + received.events;
      match received.result
      case Failure(e) => Outcome(Failure(e), events)
      case Success(data) =>
        if sha1(data) == expected then Outcome(Success(data), events)
        else Outcome(Failure(HashMismatch), events)
  }

  /** What `DownloadPieceAsync` does with the bytes the peer sends from `pos` on. */
  function Run(input: seq<byte>, pos: nat, index: int32, L: int32, expected: seq<byte>,
               sha1: seq<byte> -> seq<byte>): (r: Outcome)
    requires pos <= |input|
    ensures r.result.Success? ==> |r.result.value| == L && sha1(r.result.value) == expected
  {
    var g := Greet(input, pos);
    match g.error
    case Some(e) => Outcome(Failure(e), g.events)
    case None =>
      var f := Fetch(input, g.next, index, L, expected, sha1);
      Outcome(f.result, g.events + f.events)
  }

  class PieceDownloader {
    const stream: PeerStream
    const pieceIndex: int32
    const pieceLength: int32
    const expectedHash: seq<byte>
    /** SHA-1, not modelled: any function from bytes to a digest. */
    const sha1: seq<byte> -> seq<byte>

    constructor (stream: PeerStream, pieceIndex: int32, pieceLength: int32, expectedHash: seq<byte>,
                 sha1: seq<byte> -> seq<byte>)
      ensures this.stream == stream && this.pieceIndex == pieceIndex && this.pieceLength == pieceLength
      ensures this.expectedHash == expectedHash && this.sha1 == sha1
    {
      this.stream := stream;
      this.pieceIndex := pieceIndex;
      this.pieceLength := pieceLength;
      this.expectedHash := expectedHash;
      this.sha1 := sha1;
    }

    /** `DownloadPieceAsync`. */
    method DownloadPiece() returns (r: Result<seq<byte>, DownloadError>)
      requires stream.Valid()
      modifies stream
      ensures stream.Valid()
      ensures r == Run(stream.incoming, old(stream.position), pieceIndex, pieceLength, expectedHash, sha1).result
      ensures stream.trace
           == old(stream.trace) + Run(stream.incoming, old(stream.position), pieceIndex, pieceLength, expectedHash, sha1).events
    {
      var error := AwaitUnchoke();
      if error.Some? {
        return Failure(error.value);
      }
      ghost var g := Greet(stream.incoming, old(stream.position));
      ghost var f := Fetch(stream.incoming, stream.position, pieceIndex, pieceLength, expectedHash, sha1);
      r := FetchPiece();
      AppendAssoc(old(stream.trace), g.events, f.events);
    }

    /** The first half of `DownloadPieceAsync`: bitfield, interested, unchoke. */
    method AwaitUnchoke() returns (error: Option<DownloadError>)
      requires stream.Valid()
      modifies stream
      ensures stream.Valid()
      ensures var g := Greet(stream.incoming, old(stream.position));
        error == g.error && stream.position == g.next && stream.trace == old(stream.trace) + g.events
    {
      var bitfieldMessage := ReadFromStream(stream);
      if bitfieldMessage.Failure? {
        return Some(ReadFailed(bitfieldMessage.error));
      }
      if bitfieldMessage.value.id != Some(BITFIELD) {
        return Some(ExpectedBitfield);
      }
      var interested := Serialize(CreateInterested());
      stream.Write(interested[..]);
      var unchokeMessage := ReadFromStream(stream);
      if unchokeMessage.Failure? {
        return Some(ReadFailed(unchokeMessage.error));
      }
      if unchokeMessage.value.id != Some(UNCHOKE) {
        return Some(ExpectedUnchoke);
      }
      return None;
    }

    /** The second half of `DownloadPieceAsync`: requests, piece messages, hash check. */
    method FetchPiece() returns (r: Result<seq<byte>, DownloadError>)
      requires stream.Valid()
      modifies stream
      ensures stream.Valid()
      ensures var f := Fetch(stream.incoming, old(stream.position), pieceIndex, pieceLength, expectedHash, sha1);
        r == f.result && stream.trace == old(stream.trace) + f.events
    {
      var numBlocks := NumBlocks(pieceLength);
      if pieceLength < 0 || pieceLength > MAX_ARRAY {
        return Failure(BadPieceLength);
      }
      if pieceLength > MAX_UNWRAPPED {
        NumBlocksWraps(pieceLength);
      } else {
        NumBlocksCeil(pieceLength);
      }
      var pieceData := new byte[pieceLength](_ => 0);
      assert pieceData[..] == Zeros(pieceLength as nat);
      ghost var start := stream.trace;
      ghost var requested := if pieceLength <= MAX_UNWRAPPED then RequestWrites(pieceIndex, pieceLength, numBlocks) else [];
      ghost var all := ReceiveLoop(stream.incoming, stream.position, pieceData[..], 0, numBlocks);
      SendRequests(numBlocks);
      var received := ReceiveBlocks(pieceData, numBlocks);
      AppendAssoc(start, requested, all.events);
      if received.Failure? {
        return Failure(received.error);
      }
      if sha1(pieceData[..]) != expectedHash {
        return Failure(HashMismatch);
      }
      return Success(pieceData[..]);
    }

    /** The request loop: one request per block, in block order. */
    method SendRequests(numBlocks: int)
      requires stream.Valid() && 0 <= pieceLength <= MAX_ARRAY && numBlocks == NumBlocks(pieceLength)
      modifies stream
      ensures stream.Valid() && stream.position == old(stream.position)
      ensures stream.trace == old(stream.trace)
        + (if pieceLength <= MAX_UNWRAPPED then RequestWrites(pieceIndex, pieceLength, numBlocks) else [])
    {
      if pieceLength > MAX_UNWRAPPED {
        NumBlocksWraps(pieceLength);
      } else {
        NumBlocksCeil(pieceLength);
      }
      var i := 0;
      while i < numBlocks
        invariant stream.Valid() && 0 <= i && (numBlocks >= 0 ==> i <= numBlocks)
        invariant stream.position == old(stream.position)
        invariant stream.trace == old(stream.trace)
          + (if pieceLength <= MAX_UNWRAPPED then RequestWrites(pieceIndex, pieceLength, i) else [])
      {
        var begin := i * BLOCK_SIZE;
        BlocksTile(pieceLength, i);
        var blockLength := Min(BLOCK_SIZE, pieceLength - begin);
        var request := CreateRequest(pieceIndex, begin, blockLength);
        var bytes := Serialize(request);
        stream.Write(bytes[..]);
        if pieceLength <= MAX_UNWRAPPED {
          AppendAssoc(old(stream.trace), RequestWrites(pieceIndex, pieceLength, i), [Wrote(bytes[..])]);
        }
        i := i + 1;
      }
    }

    /** The receive loop: `numBlocks` piece messages, each block copied into `pieceData` where it says. */
    method ReceiveBlocks(pieceData: array<byte>, numBlocks: int) returns (r: Result<seq<byte>, DownloadError>)
      requires stream.Valid()
      modifies stream, pieceData
      ensures stream.Valid()
      ensures r == ReceiveLoop(stream.incoming, old(stream.position), old(pieceData[..]), 0, numBlocks).result
      ensures r.Success? ==> r.value == pieceData[..]
      ensures stream.trace
           == old(stream.trace) + ReceiveLoop(stream.incoming, old(stream.position), old(pieceData[..]), 0, numBlocks).events
    {
      var receivedBlocks := 0;
      ghost var all := ReceiveLoop(stream.incoming, stream.position, pieceData[..], 0, numBlocks);
      ghost var start := stream.trace;
      while receivedBlocks < numBlocks
        invariant stream.Valid() && 0 <= receivedBlocks
        invariant ReceiveLoop(stream.incoming, stream.position, pieceData[..], receivedBlocks, numBlocks).result == all.result
        invariant stream.trace + ReceiveLoop(stream.incoming, stream.position, pieceData[..], receivedBlocks, numBlocks).events
               == start + all.events
        decreases numBlocks - receivedBlocks
      {
        ghost var pos, buf, before := stream.position, pieceData[..], stream.trace;
        var round := ReceiveBlock(pieceData);
        if round.Failure? {
          ReceiveFails(stream.incoming, pos, buf, receivedBlocks, numBlocks, before);
          return Failure(round.error);
        }
        ReceiveAdvances(stream.incoming, pos, buf, receivedBlocks, numBlocks, before);
        receivedBlocks := receivedBlocks + 1;
      }
      return Success(pieceData[..]);
    }

    /** One round of the receive loop: read a piece message and copy its block into `pieceData`. */
    method ReceiveBlock(pieceData: array<byte>) returns (r: Result<(), DownloadError>)
      requires stream.Valid()
      modifies stream, pieceData
      ensures stream.Valid()
      ensures var one := ReceiveOne(stream.incoming, old(stream.position), old(pieceData[..]));
        && stream.position == one.next
        && stream.trace == old(stream.trace) + one.events
        && (if one.result.Success? then r.Success? && pieceData[..] == one.result.value
            else r == Failure(one.result.error))
    {
      var pieceMessage := ReadFromStream(stream);
      if pieceMessage.Failure? {
        return Failure(ReadFailed(pieceMessage.error));
      }
      if pieceMessage.value.id != Some(PIECE) {
        return Failure(ExpectedPiece);
      }
      var payload := pieceMessage.value.payload;
      if |payload| < 8 {
        return Failure(ShortPayload);
      }
      var index := ReadBigEndian32(payload[0..4]);
      var begin := ReadBigEndian32(payload[4..8]);
      var blockData := payload[8..];
      if begin < 0 || begin + |blockData| > pieceData.Length {
        return Failure(BlockOutOfRange);
      }
      CopyInto(blockData, pieceData, begin);
      return Success(());
    }
  }
}
