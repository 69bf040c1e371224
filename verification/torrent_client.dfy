/**
 * The `TorrentClient` class of src/TorrentClient.cs. It owns at most one
 * connection to a peer at a time: the `TcpClient` and its network stream,
 * both set by the handshake and both disposed and cleared by
 * `CleanupConnection`. The torrent file's bytes and SHA-1 are fixed when the
 * client is made; the peer id, whether the connection is made in time and
 * the tracker's response come in as arguments.
 */
module TorrentClients {
  import opened Wrappers
  import opened Bytes
  import opened Buffers
  import opened Streams
  import opened PeerMessages
  import opened PieceBlocks
  import opened BencodeSpec
  import Bencode
  import opened ClientCodec
  import opened TorrentSessions

  /** The `TcpClient`: all the model keeps of it is whether it was disposed. */
  class TcpConnection {
    var disposed: bool

    constructor ()
      ensures !disposed
    {
      disposed := false;
    }

    method Dispose()
      modifies this
      ensures disposed
    {
      disposed := true;
    }
  }

  /** The 68-byte handshake, written into a zeroed buffer piece by piece. */
  method HandshakeBuffer(infoHash: seq<byte>, peerId: seq<byte>) returns (r: seq<byte>)
    requires |infoHash| == 20 && |peerId| == 20
    ensures r == HandshakeBytes(infoHash, peerId)
  {
    var buffer := new byte[HANDSHAKE_LENGTH](_ => 0);
    buffer[0] := 19;
    CopyInto(PROTOCOL, buffer, 1);
    CopyInto(infoHash, buffer, 28);
    CopyInto(peerId, buffer, 48);
    assert buffer[..] == [19] + PROTOCOL + Zeros(8) + infoHash + peerId;
    return buffer[..];
  }

  /** The loop of `GetMetaDataAsync` that cuts `pieces` into 20-byte slices and writes each as lowercase hex. */
  method PieceHashes(pieces: seq<byte>) returns (r: Result<seq<string>, ClientError>)
    ensures r == PieceHashList(pieces)
  {
    var listPieceHashes: seq<string> := [];
    var i := 0;
    while i < |pieces|
      invariant 0 <= i <= |pieces| && i % 20 == 0
      invariant listPieceHashes == seq(i / 20, k requires 0 <= k < i / 20 => HexLower(pieces[20 * k..20 * k + 20]))
      decreases |pieces| - i
    {
      if i + 20 > |pieces| {
        return Failure(ArgumentOutOfRange);
      }
      listPieceHashes := listPieceHashes + [HexLower(pieces[i..i + 20])];
      i := i + 20;
    }
    return Success(listPieceHashes);
  }

  /** The loop of `GetPeersAsync` that cuts `peers` into 6-byte slices: 4 address bytes, a big-endian port. */
  method DecodePeers(peers: seq<byte>) returns (r: Result<seq<Endpoint>, ClientError>)
    ensures r == CompactPeers(peers)
  {
    var listPeers: seq<Endpoint> := [];
    var i := 0;
    while i < |peers|
      invariant 0 <= i <= |peers| && i % 6 == 0
      invariant listPeers == seq(i / 6, k requires 0 <= k < i / 6 =>
        Endpoint(peers[6 * k..6 * k + 4], BigEndian16(peers[6 * k + 4], peers[6 * k + 5])))
      decreases |peers| - i
    {
      if i + 6 > |peers| {
        return Failure(ArgumentOutOfRange);
      }
      var peerPort := BigEndian16(peers[i + 4], peers[i + 5]);
      listPeers := listPeers + [Endpoint(peers[i..i + 4], peerPort)];
      i := i + 6;
    }
    return Success(listPeers);
  }

  class TorrentClient {
    /** The bytes of the torrent file `fileName` names. */
    const file: seq<byte>
    const sha1: seq<byte> -> seq<byte>
    var stream: PeerStream?
    var tcpClient: TcpConnection?

    ghost predicate Valid()
      reads this, stream
    {
      Digests(sha1) && (stream != null ==> stream.Valid())
    }

    constructor (file: seq<byte>, sha1: seq<byte> -> seq<byte>)
      requires Digests(sha1)
      ensures Valid() && this.file == file && this.sha1 == sha1
      ensures stream == null && tcpClient == null
    {
      this.file := file;
      this.sha1 := sha1;
      stream := null;
      tcpClient := null;
    }

    /** Dispose the stream and the connection, whichever are open, and forget both. */
    method CleanupConnection()
      requires Valid()
      modifies this, stream, tcpClient
      ensures Valid() && stream == null && tcpClient == null
      ensures old(stream) != null ==>
        old(stream).disposed && old(stream).position == old(stream.position) && old(stream).trace == old(stream.trace)
      ensures old(tcpClient) != null ==> old(tcpClient).disposed
    {
      if stream != null {
        stream.Dispose();
        stream := null;
      }
      if tcpClient == null {
        return;
      }
      tcpClient.Dispose();
      tcpClient := null;
    }

    /** `GetMetaDataAsync`. */
    method GetMetaData() returns (r: Result<MetaData, ClientError>)
      ensures r == MetaDataOf(file, sha1)
    {
      var decoded := Bencode.Decode(file);
      if decoded.Failure? {
        return Failure(BadBencode(decoded.error));
      }
      var dict := decoded.value;
      var infoDict :- Field(dict, INFO);
      if !infoDict.BencodedDict? {
        return Failure(InvalidCast);
      }
      var infoHash := sha1(infoDict.originalData);
      var piecesValue :- Field(infoDict, PIECES);
      var pieceHashesBytes :- BytesOf(piecesValue);
      var listPieceHashes :- PieceHashes(pieceHashesBytes);
      var announce :- Field(dict, ANNOUNCE);
      if !announce.BencodedString? {
        return Failure(InvalidCast);
      }
      var lengthValue :- Field(infoDict, LENGTH);
      var length :- NumberOf(lengthValue);
      var pieceLengthValue :- Field(infoDict, PIECE_LENGTH);
      var piecesLength :- NumberOf(pieceLengthValue);
      return Success(MetaData(announce.bytes, length, infoHash, piecesLength, listPieceHashes));
    }

    /** `GetPeersAsync`, given the tracker's `response` to the announce request. */
    method GetPeers(response: seq<byte>) returns (r: Result<seq<Endpoint>, ClientError>)
      ensures r == PeersOf(file, sha1, response)
    {
      var _ :- GetMetaData();
      var decoded := Bencode.Decode(response);
      if decoded.Failure? {
        return Failure(BadBencode(decoded.error));
      }
      var peersValue :- Field(decoded.value, PEERS);
      var peers :- BytesOf(peersValue);
      r := DecodePeers(peers);
    }

    /**
     * `HandShakeAsync` with a peer whose network stream is `peer`: drop any
     * old connection, read the `info` dictionary, connect (`connects` says
     * whether that finishes in time), send the handshake and read one
     * answer of up to 68 bytes. On failure the connection is cleaned up.
     */
    method HandShake(peer: PeerStream, connects: bool, peerId: seq<byte>) returns (r: Result<seq<byte>, ClientError>)
      requires Valid() && |peerId| == 20
      requires peer.Valid() && !peer.disposed && peer.position == 0 && peer.trace == [] && peer != stream
      modifies this, peer, stream, tcpClient
      ensures Valid()
      ensures var s := Handshaking(file, sha1, peerId, connects, peer.incoming);
        r == s.result && peer.position == s.next && peer.trace == s.events
      ensures r.Success? ==> stream == peer && tcpClient != null && fresh(tcpClient) && !peer.disposed
      ensures r.Failure? ==> stream == null && tcpClient == null
      ensures peer.disposed <==> r == Failure(InvalidHandshakeLength)
      ensures old(stream) != null ==> old(stream).disposed
    {
      CleanupConnection();
      var decoded := Bencode.Decode(file);
      if decoded.Failure? {
        return Failure(BadBencode(decoded.error));
      }
      var infoDict :- Field(decoded.value, INFO);
      if !infoDict.BencodedDict? {
        return Failure(InvalidCast);
      }
      tcpClient := new TcpConnection();
      if !connects {
        CleanupConnection();
        return Failure(Timeout);
      }
      stream := peer;
      var buffer := HandshakeBuffer(sha1(infoDict.originalData), peerId);
      peer.Write(buffer);
      var response, bytesRead := peer.ReadAsync(HANDSHAKE_LENGTH);
      if bytesRead == HANDSHAKE_LENGTH {
        return Success(response);
      }
      CleanupConnection();
      return Failure(InvalidHandshakeLength);
    }

    /** `SendMessageAsync`: the length `1 + |payload|` big-endian, the type byte, the payload. */
    method SendMessage(kind: byte, payload: seq<byte>)
      requires Valid() && stream != null && 5 + |payload| <= MAX_ARRAY
      modifies stream
      ensures Valid() && stream.position == old(stream.position) && stream.disposed == old(stream.disposed)
      ensures stream.trace == old(stream.trace) + [Wrote(Frame(WithId(kind, payload)))]
    {
      var messageLength := 1 + |payload|;
      var message := new byte[4 + messageLength](_ => 0);
      WriteInt32BigEndian(message, 0, messageLength);
      message[4] := kind;
      CopyInto(payload, message, 5);
      assert message[..] == BigEndian32(messageLength) + [kind] + payload;
      AppendAssoc(BigEndian32(messageLength), [kind], payload);
      stream.Write(message[..]);
    }

    /** `ReceiveMessage`: the header, then the payload it announces. */
    method ReceiveMessage(expected: byte) returns (r: Result<seq<byte>, ClientError>)
      requires Valid() && stream != null
      modifies stream
      ensures Valid() && stream.disposed == old(stream.disposed)
      ensures var rec := Receive(stream.incoming, old(stream.position), expected);
        r == rec.result && stream.position == rec.next && stream.trace == old(stream.trace) + rec.events
    {
      ghost var h := ReceiveHeader(stream.incoming, stream.position, expected);
      var size := ReceiveHead(expected);
      if size.Failure? {
        return Failure(size.error);
      }
      ghost var body := Delivered(stream.incoming, h.next, size.value);
      var payload := stream.ReadExactly(size.value);
      AppendAssoc(old(stream.trace), h.events, [Read(body)]);
      if payload.Failure? {
        return Failure(StreamEnded);
      }
      assert payload.value == body;
      return Success(payload.value);
    }

    /**
     * The first half of `ReceiveMessage`: read the length and the type byte,
     * refuse another type, and size the payload buffer.
     */
    method ReceiveHead(expected: byte) returns (size: Result<nat, ClientError>)
      requires Valid() && stream != null
      modifies stream
      ensures Valid() && stream.disposed == old(stream.disposed)
      ensures var h := ReceiveHeader(stream.incoming, old(stream.position), expected);
        size == h.size && stream.position == h.next && stream.trace == old(stream.trace) + h.events
    {
      var messageLengthBytes := stream.ReadExactly(4);
      if messageLengthBytes.Failure? {
        return Failure(StreamEnded);
      }
      var messageLength := ReadBigEndian32(messageLengthBytes.value);
      var b := stream.ReadByte();
      var messageType: byte := b % 0x100;
      if messageType != expected {
        return Failure(WrongMessageType);
      }
      return PayloadSize(messageLength);
    }

    /** `RequestBlockAsync`: a request message whose payload is the three numbers big-endian. */
    method RequestBlock(index: int32, begin: int32, length: int32)
      requires Valid() && stream != null
      modifies stream
      ensures Valid() && stream.position == old(stream.position) && stream.disposed == old(stream.disposed)
      ensures stream.trace == old(stream.trace) + [Wrote(Frame(WithId(REQUEST, RequestPayload(index, begin, length))))]
    {
      var payload := new byte[12](_ => 0);
      WriteInt32BigEndian(payload, 0, index);
      WriteInt32BigEndian(payload, 4, begin);
      WriteInt32BigEndian(payload, 8, length);
      assert payload[..] == RequestPayload(index, begin, length);
      SendMessage(REQUEST, payload[..]);
    }

    /** Bitfield, interested, unchoke. */
    method Open() returns (r: Result<seq<byte>, ClientError>)
      requires Valid() && stream != null
      modifies stream
      ensures Valid() && stream.disposed == old(stream.disposed)
      ensures var o := Opening(stream.incoming, old(stream.position));
        r == o.result && stream.position == o.next && stream.trace == old(stream.trace) + o.events
    {
      ghost var start := stream.trace;
      ghost var bitfieldSpec := Receive(stream.incoming, stream.position, BITFIELD);
      var bitfield := ReceiveMessage(BITFIELD);
      if bitfield.Failure? {
        return bitfield;
      }
      ghost var unchokeSpec := Receive(stream.incoming, stream.position, UNCHOKE);
      SendMessage(INTERESTED, []);
      r := ReceiveMessage(UNCHOKE);
      AppendAssoc(start, bitfieldSpec.events, [Wrote(InterestedBytes())]);
      AppendAssoc(start, bitfieldSpec.events + [Wrote(InterestedBytes())], unchokeSpec.events);
    }

    /** The block loop of `DownloadPieceAsync` for a piece of `pieceLength` bytes. */
    method FetchBlocks(pieceIndex: int32, pieceLength: int32) returns (r: Result<seq<byte>, ClientError>)
      requires Valid() && stream != null
      modifies stream
      ensures Valid() && stream.disposed == old(stream.disposed)
      ensures var b := BlockLoop(stream.incoming, old(stream.position), pieceIndex, pieceLength, 0, []);
        r == b.result && stream.position == b.next && stream.trace == old(stream.trace) + b.events
    {
      var pieceData: seq<byte> := [];
      ghost var input := stream.incoming;
      ghost var all := BlockLoop(input, stream.position, pieceIndex, pieceLength, 0, []);
      ghost var start := stream.trace;
      var i: nat := 0;
      // `i < ClientBlocks(pieceLength)`, in the equivalent form of `ClientBlocksBound`
      while BlockBegin(i) < pieceLength
        invariant Valid() && stream.disposed == old(stream.disposed) && stream.incoming == input
        invariant var rest := BlockLoop(input, stream.position, pieceIndex, pieceLength, i, pieceData);
          rest.result == all.result && rest.next == all.next && stream.trace + rest.events == start + all.events
        decreases pieceLength - BlockBegin(i)
      {
        var data := FetchStep(pieceIndex, pieceLength, i, pieceData);
        if data.Failure? {
          return data;
        }
        pieceData := pieceData + data.value;
        i := i + 1;
      }
      return Success(pieceData);
    }

    /** A round of the block loop together with what it means for the loop from block `i` on. */
    method FetchStep(pieceIndex: int32, pieceLength: int32, i: nat, ghost acc: seq<byte>) returns (r: Result<seq<byte>, ClientError>)
      requires Valid() && stream != null && BlockBegin(i) < pieceLength
      modifies stream
      ensures Valid() && stream.disposed == old(stream.disposed)
      ensures var here := BlockLoop(stream.incoming, old(stream.position), pieceIndex, pieceLength, i, acc);
        if r.Failure? then r == here.result && stream.position == here.next && stream.trace == old(stream.trace) + here.events
        else var rest := BlockLoop(stream.incoming, stream.position, pieceIndex, pieceLength, i + 1, acc + r.value);
          rest.result == here.result && rest.next == here.next && stream.trace + rest.events == old(stream.trace) + here.events
    {
      ghost var pos, before := stream.position, stream.trace;
      r := FetchBlock(pieceIndex, pieceLength, i);
      if r.Failure? {
        BlockFails(stream.incoming, pos, pieceIndex, pieceLength, i, acc);
      } else {
        BlockAdvances(stream.incoming, pos, pieceIndex, pieceLength, i, acc, before);
      }
    }

    /** One round of the block loop: request block `i`, receive its piece message, drop the 8-byte header. */
    method FetchBlock(pieceIndex: int32, pieceLength: int32, i: nat) returns (r: Result<seq<byte>, ClientError>)
      requires Valid() && stream != null && BlockBegin(i) < pieceLength
      modifies stream
      ensures Valid() && stream.disposed == old(stream.disposed)
      ensures var one := BlockRound(stream.incoming, old(stream.position), pieceIndex, pieceLength, i);
        r == one.result && stream.position == one.next && stream.trace == old(stream.trace) + one.events
    {
      ghost var start := stream.trace;
      ghost var rec := Receive(stream.incoming, stream.position, PIECE);
      ClientBlockFits(pieceLength, i);
      var blockOffset := i * BLOCK_SIZE;
      var blockSize := Min(BLOCK_SIZE, pieceLength - blockOffset);
      RequestBlock(pieceIndex, blockOffset, blockSize);
      var data := ReceiveMessage(PIECE);
      AppendAssoc(start, [Wrote(BlockRequest(pieceIndex, pieceLength, i))], rec.events);
      if data.Failure? {
        return data;
      }
      if |data.value| < 8 {
        return Failure(ArgumentOutOfRange);
      }
      return Success(data.value[8..]);
    }

    /** What `DownloadPieceAsync` does on the stream after the handshake. */
    method Converse(pieceIndex: int32) returns (r: Result<seq<byte>, ClientError>)
      requires Valid() && stream != null
      modifies stream
      ensures Valid() && stream.disposed == old(stream.disposed)
      ensures var x := Exchange(file, sha1, stream.incoming, old(stream.position), pieceIndex);
        r == x.result && stream.trace == old(stream.trace) + x.events
    {
      ghost var opening := Opening(stream.incoming, stream.position);
      var unchoke := Open();
      if unchoke.Failure? {
        return Failure(unchoke.error);
      }
      var metaInfo := GetMetaData();
      if metaInfo.Failure? {
        return Failure(metaInfo.error);
      }
      var pieceLength := PieceLengthAsWritten(metaInfo.value.length, metaInfo.value.piecesLength, pieceIndex);
            ghost var blocks := BlockLoop(stream.incoming, stream.position, pieceIndex, pieceLength, 0, []);
      var pieceData := FetchBlocks(pieceIndex, pieceLength);
      AppendAssoc(old(stream.trace), opening.events, blocks.events);
      if pieceData.Failure? {
        return pieceData;
      }
      if !(0 <= pieceIndex < |metaInfo.value.piecesHashes|) {
        return Failure(ArgumentOutOfRange);
      }
      if !VerifyPieceIntegrity(pieceData.value, metaInfo.value.piecesHashes[pieceIndex], sha1) {
        return Failure(InvalidPieceHash);
      }
      return pieceData;
    }

    /**
     * `DownloadPieceAsync` from the peer whose network stream is `peer`:
     * the handshake, the exchange, and in every case the connection cleaned
     * up at the end.
     */
    method DownloadPiece(peer: PeerStream, connects: bool, peerId: seq<byte>, pieceIndex: int32)
      returns (r: Result<seq<byte>, ClientError>)
      requires Valid() && |peerId| == 20
      requires peer.Valid() && !peer.disposed && peer.position == 0 && peer.trace == [] && peer != stream
      modifies this, peer, stream, tcpClient
      ensures Valid() && stream == null && tcpClient == null
      ensures var d := Download(file, sha1, peerId, connects, peer.incoming, pieceIndex);
        r == d.result && peer.trace == d.events
      ensures peer.disposed <==> connects && InfoDict(file).Success?
    {
      var handshake := HandShake(peer, connects, peerId);
      if handshake.Failure? {
        CleanupConnection();
        return Failure(handshake.error);
      }
      r := Converse(pieceIndex);
      CleanupConnection();
    }
  }
}
