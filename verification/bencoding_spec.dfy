/**
 * The older string-based codec of src/BEncoding.cs. It decodes a C# string,
 * that is a sequence of UTF-16 code units, into plain objects (a `string`, a
 * `long`, an `object[]` or a `SortedDictionary<string, object>`), and it does
 * not measure how much text a value took: the list and dictionary loops skip
 * ahead by the length of the value re-encoded with `EnCode`.
 *
 * `EnCode` as written leaves out the closing 'e' of a dictionary. The
 * functions below take a flag `closeDicts`: `false` is the code as written,
 * `true` is the encoder it evidently means, the one of the bencoding section
 * of BEP 3.
 */
module BEncodingSpec {
  import opened Wrappers
  import opened Bytes
  import Decimal

  /** A UTF-16 code unit; a C# string is a sequence of them. */
  type char16 = c: int | 0 <= c < 0x1_0000
  type Text = seq<char16>

  /** The objects `Decode` returns. A dictionary is kept as its entries in ascending key order. */
  datatype Value =
    | Str(text: Text)
    | Int(number: int64)
    | List(items: seq<Value>)
    | Dict(entries: seq<Entry>)

  datatype Entry = Entry(key: Text, value: Value)

  /** The exceptions the codec throws. */
  datatype Error =
    | IndexOutOfRange     // `encodedValue[0]` of an empty string
    | Unhandled           // first character is not a digit, 'i', 'l' or 'd'
    | InvalidEncodedValue // a string header without ':'
    | FormatError         // `int.Parse` / `long.Parse` of a non-numeral
    | Overflow            // `int.Parse` / `long.Parse` of a numeral out of range
    | ArgumentOutOfRange  // `Substring` or a range index past the end
    | DuplicateKey        // `SortedDictionary.Add` of a key already present

  /**
   * Ordinal order of strings: the first differing code unit decides, and a
   * proper prefix comes first. `SortedDictionary` orders its keys by it.
   */
  predicate Less(a: Text, b: Text)
    decreases |a|
  {
    if a == [] then b != []
    else if b == [] then false
    else if a[0] != b[0] then a[0] < b[0]
    else Less(a[1..], b[1..])
  }

  /** Keys in strictly ascending order, so also pairwise distinct. */
  predicate Sorted(es: seq<Entry>) {
    forall i, j :: 0 <= i < j < |es| ==> Less(es[i].key, es[j].key)
  }

  predicate HasKey(es: seq<Entry>, k: Text) {
    exists i :: 0 <= i < |es| && es[i].key == k
  }

  /** Put an entry in front of the first larger key. */
  function Insert(es: seq<Entry>, k: Text, v: Value): (r: seq<Entry>)
    ensures |r| == |es| + 1
  {
    if es == [] || Less(k, es[0].key) then [Entry(k, v)] + es
    else [es[0]] + Insert(es[1..], k, v)
  }

  /** `SortedDictionary.Add`: a key already present is an error. */
  function Add(es: seq<Entry>, k: Text, v: Value): (r: Result<seq<Entry>, Error>)
    ensures r.Success? <==> !HasKey(es, k)
    ensures r.Success? ==> |r.value| == |es| + 1
  {
    if HasKey(es, k) then Failure(DuplicateKey) else Success(Insert(es, k, v))
  }

  /**
   * `Char.IsDigit` of a code unit: a decimal digit (Unicode category Nd) of
   * any script. In the Basic Multilingual Plane these come in runs of ten,
   * from '0' to '9' in each script; a lone surrogate is not a digit.
   */
  predicate IsDigitChar(c: char16) {
    Decimal.IsDigit(c) || (0x0660 <= c && OtherScriptDigit(c))
  }

  /** The runs of decimal digits beyond ASCII: Arabic-Indic to Fullwidth. */
  predicate OtherScriptDigit(c: char16) {
    || 0x0660 <= c <= 0x0669 || 0x06F0 <= c <= 0x06F9 || 0x07C0 <= c <= 0x07C9
    || 0x0966 <= c <= 0x096F || 0x09E6 <= c <= 0x09EF || 0x0A66 <= c <= 0x0A6F
    || 0x0AE6 <= c <= 0x0AEF || 0x0B66 <= c <= 0x0B6F || 0x0BE6 <= c <= 0x0BEF
    || 0x0C66 <= c <= 0x0C6F || 0x0CE6 <= c <= 0x0CEF || 0x0D66 <= c <= 0x0D6F
    || 0x0DE6 <= c <= 0x0DEF || 0x0E50 <= c <= 0x0E59 || 0x0ED0 <= c <= 0x0ED9
    || 0x0F20 <= c <= 0x0F29 || 0x1040 <= c <= 0x1049 || 0x1090 <= c <= 0x1099
    || 0x17E0 <= c <= 0x17E9 || 0x1810 <= c <= 0x1819 || 0x1946 <= c <= 0x194F
    || 0x19D0 <= c <= 0x19D9 || 0x1A80 <= c <= 0x1A89 || 0x1A90 <= c <= 0x1A99
    || 0x1B50 <= c <= 0x1B59 || 0x1BB0 <= c <= 0x1BB9 || 0x1C40 <= c <= 0x1C49
    || 0x1C50 <= c <= 0x1C59 || 0xA620 <= c <= 0xA629 || 0xA8D0 <= c <= 0xA8D9
    || 0xA900 <= c <= 0xA909 || 0xA9D0 <= c <= 0xA9D9 || 0xA9F0 <= c <= 0xA9F9
    || 0xAA50 <= c <= 0xAA59 || 0xABF0 <= c <= 0xABF9 || 0xFF10 <= c <= 0xFF19
  }

  /** `int.Parse` / `long.Parse` into the range [lo, hi]. */
  function Parse(s: seq<int>, lo: int, hi: int): (r: Result<int, Error>)
    ensures r.Success? ==> lo <= r.value <= hi
  {
    match Decimal.Scan(s, 0, Decimal.LeadingWhite, false, 0)
    case None => Failure(FormatError)
    case Some(n) => if lo <= n <= hi then Success(n) else Failure(Overflow)
  }

  /**
   * `EnCode`: an integer as `i<decimal>e`, a string as `<length>:<text>`, a
   * list as `l<items>e`, a dictionary as `d<key><value>...` in key order,
   * closed by 'e' only when `closeDicts` holds.
   */
  function EnCode(v: Value, closeDicts: bool): (r: Text)
    ensures 1 <= |r|
    decreases v
  {
    match v
    case Int(n) => [LOWER_I as char16] + Decimal.FormatInteger(n) + [LOWER_E as char16]
    case Str(s) => StrEncoding(s)
    case List(items) => [LOWER_L as char16] + EnCodeAll(items, closeDicts) + [LOWER_E as char16]
    case Dict(es) => [LOWER_D as char16] + EnCodeEntries(es, closeDicts) + (if closeDicts then [LOWER_E as char16] else [])
  }

  /** `EnCode` of a string: its length in code units, ':', and the string. */
  function StrEncoding(s: Text): (r: Text)
    ensures |r| == |Decimal.NatDigits(|s|)| + 1 + |s|
  {
    Decimal.NatDigits(|s|) + [COLON as char16] + s
  }

  /** The `string.Join("", ...)` of a list's items. */
  function EnCodeAll(vs: seq<Value>, closeDicts: bool): Text
    decreases vs
  {
    if vs == [] then [] else EnCode(vs[0], closeDicts) + EnCodeAll(vs[1..], closeDicts)
  }

  /** The `string.Join("", ...)` of a dictionary's keys and values. */
  function EnCodeEntries(es: seq<Entry>, closeDicts: bool): Text
    decreases es
  {
    if es == [] then []
    else StrEncoding(es[0].key) + EnCode(es[0].value, closeDicts) + EnCodeEntries(es[1..], closeDicts)
  }

  /** `BDecodeStr`: the `int.Parse`d length after the first ':' of the whole text. */
  function DecodeStr(t: Text): (r: Result<Text, Error>)
    ensures r.Success? ==> var colon := IndexOf(t, COLON as char16);
      0 <= colon && colon + 1 + |r.value| <= |t| && r.value == t[colon + 1..colon + 1 + |r.value|]
  {
    var colon := IndexOf(t, COLON as char16);
    if colon == -1 then Failure(InvalidEncodedValue)
    else match Parse(t[..colon], INT32_MIN, INT32_MAX)
      case Failure(e) => Failure(e)
      case Success(n) =>
        if n < 0 || colon + 1 + n > |t| then Failure(ArgumentOutOfRange)
        else Success(t[colon + 1..colon + 1 + n])
  }

  /** `BDecodeInt`: the `long.Parse`d text strictly between the first 'i' and the first 'e'. */
  function DecodeInt(t: Text): (r: Result<int64, Error>)
    ensures r.Success? ==> IndexOf(t, LOWER_I as char16) < IndexOf(t, LOWER_E as char16)
  {
    var i := IndexOf(t, LOWER_I as char16);
    var e := IndexOf(t, LOWER_E as char16);
    var start := i + 1;
    var count := e - i - 1;
    if count < 0 || start + count > |t| then Failure(ArgumentOutOfRange)
    else match Parse(t[start..start + count], INT64_MIN, INT64_MAX)
      case Failure(err) => Failure(err)
      case Success(n) => Success(n)
  }

  /** What `Decode` computes on `t`: dispatch on the first character. */
  function Decoding(t: Text, closeDicts: bool): (r: Result<Value, Error>)
    decreases |t|, 0
  {
    if |t| == 0 then Failure(IndexOutOfRange)
    else if IsDigitChar(t[0]) then
      match DecodeStr(t)
      case Failure(e) => Failure(e)
      case Success(s) => Success(Str(s))
    else if t[0] == LOWER_I as char16 then
      match DecodeInt(t)
      case Failure(e) => Failure(e)
      case Success(n) => Success(Int(n))
    else if t[0] == LOWER_L as char16 then
      match ListLoop(t[1..], [], closeDicts)
      case Failure(e) => Failure(e)
      case Success(items) => Success(List(items))
    else if t[0] == LOWER_D as char16 then
      match DictLoop(t[1..], [], closeDicts)
      case Failure(e) => Failure(e)
      case Success(es) => Success(Dict(es))
    else Failure(Unhandled)
  }

  /**
   * The loop of `BDecodeList` from the remaining text `t` with the items
   * `acc` so far: stop at the end or at an 'e', otherwise decode an item and
   * skip the length of its re-encoding.
   */
  function ListLoop(t: Text, acc: seq<Value>, closeDicts: bool): (r: Result<seq<Value>, Error>)
    decreases |t|, 2
  {
    if |t| == 0 || t[0] == LOWER_E as char16 then Success(acc)
    else match Decoding(t, closeDicts)
      case Failure(e) => Failure(e)
      case Success(v) =>
        var n := |EnCode(v, closeDicts)|;
        if n > |t| then Failure(ArgumentOutOfRange)
        else ListLoop(t[n..], acc + [v], closeDicts)
  }

  /**
   * The loop of `BDecodeDict` from the remaining text `t` with the entries
   * `acc` so far: a key read as a string, skipped by its re-encoding, then a
   * value, added to the sorted entries, and skipped by its re-encoding.
   */
  function DictLoop(t: Text, acc: seq<Entry>, closeDicts: bool): (r: Result<seq<Entry>, Error>)
    decreases |t|, 2
  {
    if |t| == 0 || t[0] == LOWER_E as char16 then Success(acc)
    else match DecodeStr(t)
      case Failure(e) => Failure(e)
      case Success(key) =>
        var n := |StrEncoding(key)|;
        if n > |t| then Failure(ArgumentOutOfRange)
        else DictValueLoop(t[n..], key, acc, closeDicts)
  }

  /** The second half of a `BDecodeDict` round: the value after a key. */
  function DictValueLoop(t: Text, key: Text, acc: seq<Entry>, closeDicts: bool): (r: Result<seq<Entry>, Error>)
    decreases |t|, 1
  {
    match Decoding(t, closeDicts)
    case Failure(e) => Failure(e)
    case Success(v) =>
      match Add(acc, key, v)
      case Failure(e) => Failure(e)
      case Success(acc') =>
        var m := |EnCode(v, closeDicts)|;
        if m > |t| then Failure(ArgumentOutOfRange)
        else DictLoop(t[m..], acc', closeDicts)
  }
}
