/**
 * Peer wire messages of src/PeerMessage.cs, as in the peer protocol section
 * of BEP 3: a 4-byte big-endian length, then (unless the length is 0, a
 * keep-alive) a 1-byte id and the payload.
 */
module PeerMessages {
  import opened Wrappers
  import opened Bytes
  import opened Buffers
  import opened Streams

  /** The named values of `MessageId`; the enum is a byte and any byte converts to it. */
  const CHOKE: byte := 0
  const UNCHOKE: byte := 1
  const INTERESTED: byte := 2
  const NOT_INTERESTED: byte := 3
  const HAVE: byte := 4
  const BITFIELD: byte := 5
  const REQUEST: byte := 6
  const PIECE: byte := 7
  const CANCEL: byte := 8

  /** A message: the length it declares, its id (none for a keep-alive) and its payload. */
  datatype PeerMessage = PeerMessage(length: int32, id: Option<byte>, payload: seq<byte>)

  /** `new PeerMessage(id, payload)`. */
  function WithId(id: byte, payload: seq<byte>): (m: PeerMessage)
    requires |payload| <= MAX_ARRAY
    ensures WellFormed(m) && m.id == Some(id) && m.payload == payload
  {
    PeerMessage(|payload| + 1, Some(id), payload)
  }

  /** `new PeerMessage()`: the keep-alive. */
  function KeepAlive(): (m: PeerMessage)
    ensures WellFormed(m) && m.id == None
  {
    PeerMessage(0, None, [])
  }

  /** The messages the two constructors build: the length counts the id and the payload. */
  predicate WellFormed(m: PeerMessage) {
    && |m.payload| <= MAX_ARRAY
    && (if m.id.None? then m.length == 0 && m.payload == [] else m.length == |m.payload| + 1)
  }

  /** `Serialize`: the declared length big-endian, then the id and the payload when there is an id. */
  function Frame(m: PeerMessage): (r: seq<byte>)
  {
    BigEndian32(m.length) + (if m.id.Some? then [m.id.value] + m.payload else [])
  }

  lemma {:induction false} FrameLayout(m: PeerMessage)
    ensures |Frame(m)| == if m.id.Some? then 5 + |m.payload| else 4
    ensures ReadBigEndian32(Frame(m)) == m.length
    ensures m.id.Some? ==> Frame(m)[4] == m.id.value && Frame(m)[5..] == m.payload
  {
    ReadWriteBigEndian32(m.length);
    assert Frame(m)[..4] == BigEndian32(m.length);
  }

  /** `Serialize` fills a fresh array: the length, then the id, then the payload copied in. */
  method Serialize(m: PeerMessage) returns (result: array<byte>)
    requires |m.payload| <= MAX_ARRAY
    ensures fresh(result) && result[..] == Frame(m)
  {
    result := new byte[4 + (if m.id.Some? then 1 + |m.payload| else 0)](_ => 0);
    ghost var blank := result[..];
    WriteInt32BigEndian(result, 0, m.length);
    if m.id.None? {
      PlacedHeader(blank, BigEndian32(m.length));
      return;
    }
    ghost var header := result[..];
    result[4] := m.id.value;
    assert result[..] == header[4 := m.id.value];
    CopyInto(m.payload, result, 5);
    PlacedFrame(blank, BigEndian32(m.length), m.id.value, m.payload);
  }

  /** Writing four bytes over a four-byte buffer leaves just them. */
  lemma {:induction false} PlacedHeader(blank: seq<byte>, header: seq<byte>)
    requires |blank| == 4 && |header| == 4
    ensures Place(blank, 0, header) == header
  {
    forall k | 0 <= k < 4
      ensures Place(blank, 0, header)[k] == header[k]
    {
      PlaceAt(blank, 0, header, k);
    }
  }

  /** The header at 0, the id at 4 and the payload at 5 fill the buffer with the frame. */
  lemma {:induction false} PlacedFrame(blank: seq<byte>, header: seq<byte>, id: byte, payload: seq<byte>)
    requires |header| == 4 && |blank| == 5 + |payload|
    ensures Place(Place(blank, 0, header)[4 := id], 5, payload) == header + [id] + payload
  {
    var first := Place(blank, 0, header);
    var second := first[4 := id];
    var want := header + [id] + payload;
    forall k | 0 <= k < |want|
      ensures Place(second, 5, payload)[k] == want[k]
    {
      PlaceAt(second, 5, payload, k);
      if k < 4 {
        PlaceAt(blank, 0, header, k);
      }
    }
  }

  /** Why `ReadFromStreamAsync` throws. */
  datatype ReadError =
    | NegativeLength // `new byte[length]` of a negative length
    | TooLarge       // `new byte[length]` beyond the largest array

  /** What `ReadFromStreamAsync` does to the bytes `input` from `pos`. */
  datatype FrameRead = FrameRead(result: Result<PeerMessage, ReadError>, next: nat, events: seq<Event>)

  /**
   * `ReadFromStreamAsync`: read 4 bytes of length; 0 is a keep-alive;
   * otherwise read that many bytes, the first is the id, unchecked, the rest
   * the payload. Bytes missing at the end of the stream stay zero.
   */
  function ReadFrame(input: seq<byte>, pos: nat): (r: FrameRead)
    requires pos <= |input|
    ensures pos <= r.next <= |input|
    ensures r.result.Success? ==> WellFormed(r.result.value)
  {
    var header := Delivered(input, pos, 4);
    var length := ReadBigEndian32(Filled(input, pos, 4));
    var p := pos + |header|;
    if length == 0 then FrameRead(Success(KeepAlive()), p, [Read(header)])
    else if length < 0 then FrameRead(Failure(NegativeLength), p, [Read(header)])
    else if length > MAX_ARRAY then FrameRead(Failure(TooLarge), p, [Read(header)])
    else
      var body := Filled(input, p, length);
      var got := Delivered(input, p, length);
      FrameRead(Success(WithId(body[0], body[1..])), p + |got|, [Read(header), Read(got)])
  }

  /** `ReadFromStreamAsync` over the stream. */
  method ReadFromStream(stream: PeerStream) returns (r: Result<PeerMessage, ReadError>)
    requires stream.Valid()
    modifies stream
    ensures stream.Valid() && stream.disposed == old(stream.disposed)
    ensures r == ReadFrame(stream.incoming, old(stream.position)).result
    ensures stream.position == ReadFrame(stream.incoming, old(stream.position)).next
    ensures stream.trace == old(stream.trace) + ReadFrame(stream.incoming, old(stream.position)).events
  {
    var lengthBytes, _ := stream.ReadAsync(4);
    var length := ReadBigEndian32(lengthBytes);
    if length == 0 {
      return Success(KeepAlive());
    }
    if length < 0 {
      return Failure(NegativeLength);
    }
    if length > MAX_ARRAY {
      return Failure(TooLarge);
    }
    var message, _ := stream.ReadAsync(length);
    r := Success(WithId(message[0], message[1..]));
  }

  /** Reading a serialized message back gives the message and stops right after it. */
  lemma {:induction false} ReadFrameOfFrame(input: seq<byte>, pos: nat, m: PeerMessage)
    requires WellFormed(m) && m.length <= MAX_ARRAY
    requires pos + |Frame(m)| <= |input| && input[pos..pos + |Frame(m)|] == Frame(m)
    ensures ReadFrame(input, pos).result == Success(m)
    ensures ReadFrame(input, pos).next == pos + |Frame(m)|
  {
    FrameLayout(m);
    HeaderOfFrame(input, pos, m);
    if m.id.Some? {
      BodyOfFrame(input, pos, m);
      var body := Filled(input, pos + 4, m.length);
      assert body[0] == m.id.value && body[1..] == m.payload;
    }
  }

  lemma {:induction false} HeaderOfFrame(input: seq<byte>, pos: nat, m: PeerMessage)
    requires pos + |Frame(m)| <= |input| && input[pos..pos + |Frame(m)|] == Frame(m)
    requires |Frame(m)| >= 4 && ReadBigEndian32(Frame(m)) == m.length
    ensures pos + 4 <= |input| && ReadBigEndian32(Filled(input, pos, 4)) == m.length
    ensures |Delivered(input, pos, 4)| == 4
  {
    assert Filled(input, pos, 4) == input[pos..pos + |Frame(m)|][..4];
  }

  lemma {:induction false} BodyOfFrame(input: seq<byte>, pos: nat, m: PeerMessage)
    requires WellFormed(m) && m.id.Some?
    requires |Frame(m)| == 5 + |m.payload| && Frame(m)[4] == m.id.value && Frame(m)[5..] == m.payload
    requires pos + |Frame(m)| <= |input| && input[pos..pos + |Frame(m)|] == Frame(m)
    ensures Filled(input, pos + 4, m.length) == [m.id.value] + m.payload
    ensures |Delivered(input, pos + 4, m.length)| == m.length
  {
    var f := input[pos..pos + |Frame(m)|];
    assert input[pos + 4..pos + 4 + m.length] == f[4..];
    assert f[4..] == [m.id.value] + m.payload;
  }

  /**
   * The frame of a message read back at the start of `frame + rest`. (A
   * payload of the largest array size cannot come back: its length plus the
   * id is one byte more than an array holds.)
   */
  lemma {:induction false} RoundTrip(m: PeerMessage, rest: seq<byte>)
    requires WellFormed(m) && m.length <= MAX_ARRAY
    ensures ReadFrame(Frame(m) + rest, 0).result == Success(m)
    ensures ReadFrame(Frame(m) + rest, 0).next == |Frame(m)|
  {
    assert (Frame(m) + rest)[0..|Frame(m)|] == Frame(m);
    ReadFrameOfFrame(Frame(m) + rest, 0, m);
  }

  /** A length prefix of 0 is a keep-alive: no id, no payload, nothing more read. */
  lemma {:induction false} ZeroLengthIsKeepAlive(input: seq<byte>, pos: nat)
    requires pos + 4 <= |input| && input[pos..pos + 4] == [0, 0, 0, 0]
    ensures ReadFrame(input, pos).result == Success(KeepAlive())
    ensures ReadFrame(input, pos).next == pos + 4
  {
  }

  /** Any id byte is accepted, even one with no name in `MessageId`. */
  lemma {:induction false} UncheckedId(b: byte)
    ensures ReadFrame([0, 0, 0, 1, b], 0).result == Success(PeerMessage(1, Some(b), []))
  {
    var input: seq<byte> := [0, 0, 0, 1, b];
    assert Delivered(input, 0, 4) == [0, 0, 0, 1];
    assert Delivered(input, 4, 1) == [b];
  }

  /** `CreateInterested`: id 2 and no payload. */
  function CreateInterested(): (m: PeerMessage)
    ensures WellFormed(m)
  {
    WithId(INTERESTED, [])
  }

  /** The interested message goes on the wire as `00 00 00 01 02`. */
  lemma {:induction false} InterestedFrame()
    ensures Frame(CreateInterested()) == [0, 0, 0, 1, 2]
  {
  }

  /** The payload of a request: index, begin and length, each big-endian. */
  function RequestPayload(index: int32, begin: int32, length: int32): (r: seq<byte>)
    ensures |r| == 12
  {
    BigEndian32(index) + BigEndian32(begin) + BigEndian32(length)
  }

  /** `CreateRequest`: id 6 and a 12-byte payload written in place. */
  method CreateRequest(index: int32, begin: int32, length: int32) returns (m: PeerMessage)
    ensures m == WithId(REQUEST, RequestPayload(index, begin, length))
  {
    var payload := new byte[12](_ => 0);
    WriteInt32BigEndian(payload, 0, index);
    WriteInt32BigEndian(payload, 4, begin);
    WriteInt32BigEndian(payload, 8, length);
    assert payload[..] == RequestPayload(index, begin, length);
    m := WithId(REQUEST, payload[..]);
  }

  /** The three integers of a request payload read back at offsets 0, 4 and 8. */
  lemma {:induction false} RequestPayloadFields(index: int32, begin: int32, length: int32)
    ensures ReadBigEndian32(RequestPayload(index, begin, length)[0..4]) == index
    ensures ReadBigEndian32(RequestPayload(index, begin, length)[4..8]) == begin
    ensures ReadBigEndian32(RequestPayload(index, begin, length)[8..12]) == length
  {
    var p := RequestPayload(index, begin, length);
    assert p[0..4] == BigEndian32(index) && p[4..8] == BigEndian32(begin) && p[8..12] == BigEndian32(length);
    ReadWriteBigEndian32(index);
    ReadWriteBigEndian32(begin);
    ReadWriteBigEndian32(length);
  }
}
