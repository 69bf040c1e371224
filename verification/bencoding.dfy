/**
 * The decoding loops of src/BEncoding.cs as they run: `Decode` dispatches,
 * and `BDecodeList` / `BDecodeDict` consume the text in a loop, skipping each
 * value by the length of its re-encoding. Each method returns what the
 * specification functions of `BEncodingSpec` say; `closeDicts` false is the
 * code as written.
 */
module BEncoding {
  import opened Wrappers
  import opened Bytes
  import Decimal
  import opened BEncodingSpec

  /** `Decode`: the value at the start of the text, by its first character. */
  method Decode(ev: Text, closeDicts: bool) returns (r: Result<Value, Error>)
    ensures r == Decoding(ev, closeDicts)
    decreases |ev|, 1
  {
    if |ev| == 0 {
      return Failure(IndexOutOfRange);
    }
    if IsDigitChar(ev[0]) {
      var s :- DecodeStr(ev);
      return Success(Str(s));
    }
    if ev[0] == LOWER_I as char16 {
      var n :- DecodeInt(ev);
      return Success(Int(n));
    }
    if ev[0] == LOWER_L as char16 {
      var items :- BDecodeList(ev, closeDicts);
      return Success(List(items));
    }
    if ev[0] == LOWER_D as char16 {
      var es :- BDecodeDict(ev, closeDicts);
      return Success(Dict(es));
    }
    return Failure(Unhandled);
  }

  /** `BDecodeList`: items after the 'l' until an 'e' or the end of the text. */
  method BDecodeList(ev: Text, closeDicts: bool) returns (r: Result<seq<Value>, Error>)
    requires |ev| > 0
    ensures r == ListLoop(ev[1..], [], closeDicts)
    decreases |ev|, 0
  {
    var t := ev[1..];
    var results: seq<Value> := [];
    while |t| > 0 && t[0] != LOWER_E as char16
      invariant |t| < |ev|
      invariant ListLoop(t, results, closeDicts) == ListLoop(ev[1..], [], closeDicts)
      decreases |t|
    {
      var element := Decode(t, closeDicts);
      if element.Failure? {
        return Failure(element.error);
      }
      var n := |EnCode(element.value, closeDicts)|;
      if n > |t| {
        return Failure(ArgumentOutOfRange);
      }
      results := results + [element.value];
      t := t[n..];
    }
    return Success(results);
  }

  /** `BDecodeDict`: key and value pairs after the 'd' until an 'e' or the end of the text. */
  method BDecodeDict(ev: Text, closeDicts: bool) returns (r: Result<seq<Entry>, Error>)
    requires |ev| > 0
    ensures r == DictLoop(ev[1..], [], closeDicts)
    decreases |ev|, 0
  {
    var t := ev[1..];
    var results: seq<Entry> := [];
    while |t| > 0 && t[0] != LOWER_E as char16
      invariant |t| < |ev|
      invariant DictLoop(t, results, closeDicts) == DictLoop(ev[1..], [], closeDicts)
      decreases |t|
    {
      var key := DecodeStr(t);
      if key.Failure? {
        return Failure(key.error);
      }
      var n := |StrEncoding(key.value)|;
      if n > |t| {
        return Failure(ArgumentOutOfRange);
      }
      t := t[n..];
      var value := Decode(t, closeDicts);
      if value.Failure? {
        return Failure(value.error);
      }
      var added := Add(results, key.value, value.value);
      if added.Failure? {
        return Failure(added.error);
      }
      results := added.value;
      var m := |EnCode(value.value, closeDicts)|;
      if m > |t| {
        return Failure(ArgumentOutOfRange);
      }
      t := t[m..];
    }
    return Success(results);
  }
}
