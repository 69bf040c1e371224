/**
 * The network stream a peer connection reads and writes. The bytes the peer
 * sends are fixed in advance (`incoming`) and read from a cursor; every read
 * and write is recorded, in order, in `trace`. `ReadAsync` is modelled as
 * reading everything that is available up to the buffer size.
 */
module Streams {
  import opened Wrappers
  import opened Bytes

  /** One operation on the stream, with the bytes it moved. */
  datatype Event = Wrote(data: seq<byte>) | Read(data: seq<byte>)

  /** `ReadExactly` at the end of the stream: `EndOfStreamException`. */
  datatype StreamError = EndOfStream

  function Min(a: int, b: int): int {
    if a <= b then a else b
  }

  /** What a read of up to `n` bytes at `pos` delivers: as many as there are, up to `n`. */
  function Delivered(input: seq<byte>, pos: nat, n: nat): (r: seq<byte>)
    requires pos <= |input|
    ensures |r| <= n && pos + |r| <= |input| && r == input[pos..pos + |r|]
    ensures |r| == n || pos + |r| == |input|
  {
    input[pos..pos + Min(n, |input| - pos)]
  }

  /** An `n`-byte buffer after `ReadAsync`: the delivered bytes, the rest still zero. */
  function Filled(input: seq<byte>, pos: nat, n: nat): (r: seq<byte>)
    requires pos <= |input|
    ensures |r| == n
    ensures pos + n <= |input| ==> r == input[pos..pos + n]
  {
    Delivered(input, pos, n) + Zeros(n - |Delivered(input, pos, n)|)
  }

  /** Regrouping a trace built in three parts; the solver is slow to find it by itself. */
  lemma {:induction false} AppendAssoc<T>(a: seq<T>, b: seq<T>, c: seq<T>)
    ensures (a + b) + c == a + (b + c)
  {
  }

  class PeerStream {
    /** Everything the peer sends over the connection. */
    const incoming: seq<byte>
    /** How much of `incoming` has been read. */
    var position: nat
    /** The reads and writes so far, oldest first. */
    var trace: seq<Event>
    var disposed: bool

    predicate Valid()
      reads this
    {
      position <= |incoming|
    }

    constructor (incoming: seq<byte>)
      ensures Valid() && this.incoming == incoming
      ensures position == 0 && trace == [] && !disposed
    {
      this.incoming := incoming;
      position := 0;
      trace := [];
      disposed := false;
    }

    /** `WriteAsync`: the bytes go out in full. */
    method Write(data: seq<byte>)
      requires Valid()
      modifies this
      ensures Valid() && position == old(position) && disposed == old(disposed)
      ensures trace == old(trace) + [Wrote(data)]
    {
      trace := trace + [Wrote(data)];
    }

    /** `ReadAsync` into a fresh `n`-byte buffer; `count` is how many bytes it received. */
    method ReadAsync(n: nat) returns (buffer: seq<byte>, count: nat)
      requires Valid()
      modifies this
      ensures Valid() && disposed == old(disposed)
      ensures buffer == Filled(incoming, old(position), n) && count == |Delivered(incoming, old(position), n)|
      ensures position == old(position) + |Delivered(incoming, old(position), n)|
      ensures trace == old(trace) + [Read(Delivered(incoming, old(position), n))]
    {
      var got := Delivered(incoming, position, n);
      buffer := Filled(incoming, position, n);
      count := |got|;
      position := position + |got|;
      trace := trace + [Read(got)];
    }

    /** `ReadExactly`: `n` bytes, or the end of the stream is an error after taking what is left. */
    method ReadExactly(n: nat) returns (r: Result<seq<byte>, StreamError>)
      requires Valid()
      modifies this
      ensures Valid() && disposed == old(disposed)
      ensures position == old(position) + |Delivered(incoming, old(position), n)|
      ensures trace == old(trace) + [Read(Delivered(incoming, old(position), n))]
      ensures r == if old(position) + n <= |incoming| then Success(incoming[old(position)..old(position) + n])
                   else Failure(EndOfStream)
    {
      var got := Delivered(incoming, position, n);
      position := position + |got|;
      trace := trace + [Read(got)];
      if |got| == n {
        r := Success(got);
      } else {
        r := Failure(EndOfStream);
      }
    }

    /** `ReadByte`: the next byte, or -1 at the end of the stream. */
    method ReadByte() returns (b: int)
      requires Valid()
      modifies this
      ensures Valid() && disposed == old(disposed)
      ensures position == old(position) + |Delivered(incoming, old(position), 1)|
      ensures trace == old(trace) + [Read(Delivered(incoming, old(position), 1))]
      ensures b == if old(position) < |incoming| then incoming[old(position)] else -1
    {
      var got := Delivered(incoming, position, 1);
      position := position + |got|;
      trace := trace + [Read(got)];
      b := if got == [] then -1 else got[0];
    }

    method Dispose()
      requires Valid()
      modifies this
      ensures Valid() && disposed && position == old(position) && trace == old(trace)
    {
      disposed := true;
    }
  }
}
