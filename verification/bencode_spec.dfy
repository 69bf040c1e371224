/**
 * The bencoding decoder of src/Bencode.cs: a tagged value tree in which every
 * node remembers `originalData`, the exact prefix of its input that it was
 * decoded from. The info hash of a torrent is taken over that span, so the
 * span is the centre of the model.
 *
 * The functions `Decoding`, `ListDecoding` and `DictDecoding` define what the
 * decoder computes; the methods of module `Bencode` are the loops of the
 * source, proved to compute exactly that.
 */
module BencodeSpec {
  import opened Wrappers
  import opened Bytes
  import Decimal

  /** A decoded value. Dictionary keys are the raw key bytes. */
  datatype BencodedValue =
    | BencodedString(originalData: seq<byte>, bytes: seq<byte>)
    | BencodedInt(originalData: seq<byte>, number: int64)
    | BencodedList(originalData: seq<byte>, list: seq<BencodedValue>)
    | BencodedDict(originalData: seq<byte>, dict: map<seq<byte>, BencodedValue>)

  /** The exceptions the decoder throws, one per distinct failure. */
  datatype DecodeError =
    | EmptyInput                 // ArgumentException "Empty input"
    | InvalidPrefix              // first byte is not a digit, 'i', 'l' or 'd'
    | MissingColon               // string header without ':'
    | InvalidStringLength        // the header does not parse as an int
    | StringPastEnd              // the slice of the declared length leaves the input
    | MissingIntegerEnd          // no 'e' after 'i'
    | InvalidIntegerValue        // the integer body does not parse as a long
    | UnexpectedEndOfList        // input ends before the list's 'e'
    | UnexpectedEndOfDictionary  // input ends before the dictionary's 'e'
    | KeyNotString               // a dictionary key decodes to a non-string
    | MissingDictionaryValue     // input ends right after a key

  /** `v.originalData` is a prefix of `s` of at least two bytes. */
  predicate SpanOf(s: seq<byte>, v: BencodedValue) {
    2 <= |v.originalData| <= |s| && v.originalData == s[..|v.originalData|]
  }

  /** `DecodeString`: `<length>:<bytes>`, the length read up to the first ':'. */
  function DecodeString(s: seq<byte>): (r: Result<BencodedValue, DecodeError>)
    requires |s| > 0 && Decimal.IsDigit(s[0])
    ensures r.Success? ==> SpanOf(s, r.value) && r.value.BencodedString?
  {
    var colon := IndexOf(s, COLON);
    if colon == -1 then Failure(MissingColon)
    else match Decimal.ParseInteger(s[..colon], INT32_MIN, INT32_MAX)
      case None => Failure(InvalidStringLength)
      case Some(n) =>
        if n < 0 || colon + 1 + n > |s| then Failure(StringPastEnd)
        else Success(BencodedString(s[..colon + 1 + n], s[colon + 1..colon + 1 + n]))
  }

  /** `DecodeInteger`: `i<number>e`, the number read up to the first 'e'. */
  function DecodeInteger(s: seq<byte>): (r: Result<BencodedValue, DecodeError>)
    requires |s| > 0 && s[0] == LOWER_I
    ensures r.Success? ==> SpanOf(s, r.value) && r.value.BencodedInt?
  {
    var end := IndexOf(s, LOWER_E);
    if end == -1 then Failure(MissingIntegerEnd)
    else match Decimal.ParseInteger(s[1..end], INT64_MIN, INT64_MAX)
      case None => Failure(InvalidIntegerValue)
      case Some(n) => Success(BencodedInt(s[..end + 1], n))
  }

  /** What `Decode` computes on `s`: dispatch on the first byte. */
  function Decoding(s: seq<byte>): (r: Result<BencodedValue, DecodeError>)
    ensures r.Success? ==> SpanOf(s, r.value)
    decreases |s|, 1, 0, 0
  {
    if |s| == 0 then Failure(EmptyInput)
    else if Decimal.IsDigit(s[0]) then DecodeString(s)
    else if s[0] == LOWER_I then DecodeInteger(s)
    else if s[0] == LOWER_L then ListDecoding(s, 1, [])
    else if s[0] == LOWER_D then DictDecoding(s, 1, map[])
    else Failure(InvalidPrefix)
  }

  /**
   * The list loop from the state (index, items): stop at an 'e' found at an
   * item boundary, otherwise decode the next item from the suffix at `index`
   * and move past its span.
   */
  function ListDecoding(s: seq<byte>, index: nat, items: seq<BencodedValue>): (r: Result<BencodedValue, DecodeError>)
    requires 1 <= index
    requires |s| > 0 && s[0] == LOWER_L
    ensures r.Success? ==> SpanOf(s, r.value) && r.value.BencodedList? && index < |r.value.originalData|
    decreases |s|, 0, |s| - index, 0
  {
    if index >= |s| then Failure(UnexpectedEndOfList)
    else if s[index] == LOWER_E then Success(BencodedList(s[..index + 1], items))
    else match Decoding(s[index..])
      case Failure(e) => Failure(e)
      case Success(item) => ListDecoding(s, index + |item.originalData|, items + [item])
  }

  /**
   * The dictionary loop from the state (index, entries): like the list loop,
   * but items come in key/value pairs, the key must be a string, and a later
   * key overwrites an earlier equal one.
   */
  function DictDecoding(s: seq<byte>, index: nat, entries: map<seq<byte>, BencodedValue>): (r: Result<BencodedValue, DecodeError>)
    requires 1 <= index
    requires |s| > 0 && s[0] == LOWER_D
    ensures r.Success? ==> SpanOf(s, r.value) && r.value.BencodedDict? && index < |r.value.originalData|
    decreases |s|, 0, |s| - index, 0
  {
    if index >= |s| then Failure(UnexpectedEndOfDictionary)
    else if s[index] == LOWER_E then Success(BencodedDict(s[..index + 1], entries))
    else match Decoding(s[index..])
      case Failure(e) => Failure(e)
      case Success(key) =>
        if !key.BencodedString? then Failure(KeyNotString)
        else DictValueDecoding(s, index + |key.originalData|, key.bytes, entries)
  }

  /** The second half of a dictionary round: decode the value that follows a key. */
  function DictValueDecoding(s: seq<byte>, afterKey: nat, key: seq<byte>, entries: map<seq<byte>, BencodedValue>): (r: Result<BencodedValue, DecodeError>)
    requires 1 <= afterKey
    requires |s| > 0 && s[0] == LOWER_D
    ensures r.Success? ==> SpanOf(s, r.value) && r.value.BencodedDict? && afterKey < |r.value.originalData|
    decreases |s|, 0, |s| - afterKey + 1, 1
  {
    if afterKey >= |s| then Failure(MissingDictionaryValue)
    else match Decoding(s[afterKey..])
      case Failure(e) => Failure(e)
      case Success(value) => DictDecoding(s, afterKey + |value.originalData|, entries[key := value])
  }

}
