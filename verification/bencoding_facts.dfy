/**
 * Properties of the legacy codec of src/BEncoding.cs: the ordinal key order
 * and `SortedDictionary.Add`, the scalar encodings read back, and the round
 * trip of whole values, which holds for the encoder with closing 'e's and
 * fails for `EnCode` as written once a dictionary is followed by another
 * value.
 */
module BEncodingFacts {
  import opened Wrappers
  import opened Bytes
  import Decimal
  import opened BEncodingSpec

  /* ---------- The ordinal order ---------- */

  lemma {:induction false} LessIrreflexive(a: Text)
    ensures !Less(a, a)
    decreases |a|
  {
    if a != [] {
      LessIrreflexive(a[1..]);
    }
  }

  lemma {:induction false} LessAsymmetric(a: Text, b: Text)
    requires Less(a, b)
    ensures !Less(b, a)
    decreases |a|
  {
    if a != [] && b != [] && a[0] == b[0] {
      LessAsymmetric(a[1..], b[1..]);
    }
  }

  lemma {:induction false} LessTransitive(a: Text, b: Text, c: Text)
    requires Less(a, b) && Less(b, c)
    ensures Less(a, c)
    decreases |a|
  {
    if a != [] && a[0] == b[0] && b[0] == c[0] {
      LessTransitive(a[1..], b[1..], c[1..]);
    }
  }

  lemma {:induction false} LessTotal(a: Text, b: Text)
    requires a != b
    ensures Less(a, b) || Less(b, a)
    decreases |a|
  {
    if a != [] && b != [] && a[0] == b[0] {
      assert a == [a[0]] + a[1..] && b == [b[0]] + b[1..];
      LessTotal(a[1..], b[1..]);
    }
  }

  /* ---------- SortedDictionary.Add ---------- */

  /** Inserting adds exactly the one entry. */
  lemma {:induction false} InsertContents(es: seq<Entry>, k: Text, v: Value)
    ensures multiset(Insert(es, k, v)) == multiset(es) + multiset{Entry(k, v)}
    decreases |es|
  {
    if es != [] && !Less(k, es[0].key) {
      InsertContents(es[1..], k, v);
      assert es == [es[0]] + es[1..];
    }
  }

  /** A lower bound of the key and of every key present bounds every key after inserting. */
  lemma {:induction false} InsertBound(es: seq<Entry>, k: Text, v: Value, b: Text)
    requires Less(b, k) && forall i :: 0 <= i < |es| ==> Less(b, es[i].key)
    ensures forall i :: 0 <= i < |Insert(es, k, v)| ==> Less(b, Insert(es, k, v)[i].key)
    decreases |es|
  {
    if es != [] && !Less(k, es[0].key) {
      InsertBound(es[1..], k, v, b);
      var rest := Insert(es[1..], k, v);
      assert Insert(es, k, v) == [es[0]] + rest;
    }
  }

  /** Putting a smaller key in front of ascending entries keeps them ascending. */
  lemma {:induction false} SortedCons(e: Entry, es: seq<Entry>)
    requires Sorted(es) && forall i :: 0 <= i < |es| ==> Less(e.key, es[i].key)
    ensures Sorted([e] + es)
  {
    var r := [e] + es;
    forall i, j | 0 <= i < j < |r| ensures Less(r[i].key, r[j].key) {
      assert r[j] == es[j - 1];
      if i > 0 {
        assert r[i] == es[i - 1];
      }
    }
  }

  /** The tail of ascending entries is ascending and above the head. */
  lemma {:induction false} SortedTail(es: seq<Entry>)
    requires Sorted(es) && es != []
    ensures Sorted(es[1..]) && forall i :: 0 <= i < |es[1..]| ==> Less(es[0].key, es[1..][i].key)
  {
    var tail := es[1..];
    forall i, j | 0 <= i < j < |tail| ensures Less(tail[i].key, tail[j].key) {
      assert tail[i] == es[i + 1] && tail[j] == es[j + 1];
    }
    forall i | 0 <= i < |tail| ensures Less(es[0].key, tail[i].key) {
      assert tail[i] == es[i + 1];
    }
  }

  /** Inserting a new key into ascending entries keeps them ascending. */
  lemma {:induction false} InsertSorted(es: seq<Entry>, k: Text, v: Value)
    requires Sorted(es) && !HasKey(es, k)
    ensures Sorted(Insert(es, k, v))
    decreases |es|
  {
    if es == [] {
      assert Insert(es, k, v) == [Entry(k, v)];
    } else if Less(k, es[0].key) {
      forall i | 0 <= i < |es| ensures Less(k, es[i].key) {
        if i > 0 { LessTransitive(k, es[0].key, es[i].key); }
      }
      SortedCons(Entry(k, v), es);
    } else {
      assert es[0].key != k;
      LessTotal(es[0].key, k);
      var tail := es[1..];
      SortedTail(es);
      assert !HasKey(tail, k) by {
        forall i | 0 <= i < |tail| ensures tail[i].key != k { assert tail[i] == es[i + 1]; }
      }
      InsertSorted(tail, k, v);
      InsertBound(tail, k, v, es[0].key);
      SortedCons(es[0], Insert(tail, k, v));
    }
  }

  /** An entry larger than all the others goes at the end. */
  lemma {:induction false} InsertAtEnd(es: seq<Entry>, k: Text, v: Value)
    requires forall i :: 0 <= i < |es| ==> Less(es[i].key, k)
    ensures Insert(es, k, v) == es + [Entry(k, v)]
    decreases |es|
  {
    if es != [] {
      LessAsymmetric(es[0].key, k);
      InsertAtEnd(es[1..], k, v);
      assert es == [es[0]] + es[1..];
    }
  }

  /**
   * `SortedDictionary.Add` on ascending entries: it fails exactly when the
   * key is present, and otherwise keeps the entries ascending and adds the
   * one new entry.
   */
  lemma {:induction false} AddSpec(es: seq<Entry>, k: Text, v: Value)
    requires Sorted(es)
    ensures Add(es, k, v).Failure? <==> HasKey(es, k)
    ensures Add(es, k, v).Success? ==>
      Sorted(Add(es, k, v).value) && multiset(Add(es, k, v).value) == multiset(es) + multiset{Entry(k, v)}
  {
    if !HasKey(es, k) {
      InsertSorted(es, k, v);
      InsertContents(es, k, v);
    }
  }

  /* ---------- Scalars read back ---------- */

  /** `BDecodeStr` of an encoded string of `int`-representable length gives the string, whatever follows. */
  lemma {:induction false} StrDecodes(s: Text, rest: Text)
    requires |s| <= INT32_MAX
    ensures DecodeStr(StrEncoding(s) + rest) == Success(s)
  {
    var d := Decimal.NatDigits(|s|);
    var t := StrEncoding(s) + rest;
    var k := |d|;
    assert t[..k] == d;
    assert t[k] == COLON as char16;
    forall j | 0 <= j < k ensures t[j] != COLON as char16 {
      assert t[j] == d[j];
    }
    IndexOfAt(t, COLON as char16, k);
    Decimal.ScanFormatInteger(|s|);
    assert t[k + 1..k + 1 + |s|] == s;
  }

  /** `BDecodeInt` of an encoded 64-bit integer gives it back, whatever follows. */
  lemma {:induction false} IntDecodes(n: int64, rest: Text, closeDicts: bool)
    ensures DecodeInt(EnCode(Int(n), closeDicts) + rest) == Success(n)
  {
    var f := Decimal.FormatInteger(n);
    var t := EnCode(Int(n), closeDicts) + rest;
    var k := 1 + |f|;
    assert t[1..k] == f;
    assert t[k] == LOWER_E as char16;
    forall j | 0 <= j < k ensures t[j] != LOWER_E as char16 {
      if j > 0 {
        assert t[j] == f[j - 1];
        Decimal.FormatIntegerChars(n, j - 1);
      }
    }
    IndexOfAt(t, LOWER_E as char16, k);
    IndexOfAt(t, LOWER_I as char16, 0);
    Decimal.ScanFormatInteger(n);
  }

  /* ---------- Whole values read back ---------- */

  /**
   * The values an encoder reproduces: string lengths fit an `int`, and
   * dictionary entries are ascending. With `EnCode` as written
   * (`closeDicts` false) the round trip needs a value without dictionaries.
   */
  predicate Canonical(v: Value, closeDicts: bool)
    decreases v
  {
    match v
    case Str(s) => |s| <= INT32_MAX
    case Int(_) => true
    case List(items) => forall i :: 0 <= i < |items| ==> Canonical(items[i], closeDicts)
    case Dict(es) =>
      closeDicts && Sorted(es)
      && forall i :: 0 <= i < |es| ==> |es[i].key| <= INT32_MAX && Canonical(es[i].value, closeDicts)
  }

  /** What may follow the items of a list or dictionary: its 'e', or the end of the text. */
  predicate Closes(tail: Text) {
    tail == [] || tail[0] == LOWER_E as char16
  }

  /** Every encoding starts with a digit, 'i', 'l' or 'd', never with 'e'. */
  lemma {:induction false} EnCodeFirst(v: Value, closeDicts: bool)
    ensures EnCode(v, closeDicts)[0] != LOWER_E as char16
    ensures IsDigitChar(EnCode(v, closeDicts)[0]) <==> v.Str?
  {
    if v.Str? {
      assert EnCode(v, closeDicts)[0] == Decimal.NatDigits(|v.text|)[0];
    }
  }

  /* One unfolding of `Decode` and of the two loops at a time. */

  lemma {:induction false} DecodingStrStep(t: Text, s: Text, closeDicts: bool)
    requires t != [] && IsDigitChar(t[0]) && DecodeStr(t) == Success(s)
    ensures Decoding(t, closeDicts) == Success(Str(s))
  {
  }

  lemma {:induction false} DecodingIntStep(t: Text, n: int64, closeDicts: bool)
    requires t != [] && t[0] == LOWER_I as char16 && DecodeInt(t) == Success(n)
    ensures Decoding(t, closeDicts) == Success(Int(n))
  {
  }

  lemma {:induction false} DecodingListStep(t: Text, items: seq<Value>, closeDicts: bool)
    requires t != [] && t[0] == LOWER_L as char16 && ListLoop(t[1..], [], closeDicts) == Success(items)
    ensures Decoding(t, closeDicts) == Success(List(items))
  {
  }

  lemma {:induction false} DecodingDictStep(t: Text, es: seq<Entry>, closeDicts: bool)
    requires t != [] && t[0] == LOWER_D as char16 && DictLoop(t[1..], [], closeDicts) == Success(es)
    ensures Decoding(t, closeDicts) == Success(Dict(es))
  {
  }

  lemma {:induction false} ListLoopStep(t: Text, acc: seq<Value>, v: Value, closeDicts: bool)
    requires t != [] && t[0] != LOWER_E as char16 && Decoding(t, closeDicts) == Success(v)
    requires |EnCode(v, closeDicts)| <= |t|
    ensures ListLoop(t, acc, closeDicts) == ListLoop(t[|EnCode(v, closeDicts)|..], acc + [v], closeDicts)
  {
  }

  lemma {:induction false} DictLoopStep(key: Text, afterKey: Text, acc: seq<Entry>, v: Value, closeDicts: bool)
    requires (StrEncoding(key) + afterKey)[0] != LOWER_E as char16
    requires DecodeStr(StrEncoding(key) + afterKey) == Success(key)
    requires Decoding(afterKey, closeDicts) == Success(v) && |EnCode(v, closeDicts)| <= |afterKey|
    requires !HasKey(acc, key)
    ensures DictLoop(StrEncoding(key) + afterKey, acc, closeDicts)
         == DictLoop(afterKey[|EnCode(v, closeDicts)|..], Insert(acc, key, v), closeDicts)
  {
    assert (StrEncoding(key) + afterKey)[|StrEncoding(key)|..] == afterKey;
  }

  /** Decoding the encoding of a canonical value gives it back, whatever follows. */
  lemma {:induction false} RoundTrip(v: Value, rest: Text, closeDicts: bool)
    requires Canonical(v, closeDicts)
    ensures Decoding(EnCode(v, closeDicts) + rest, closeDicts) == Success(v)
    decreases v, 2
  {
    var t := EnCode(v, closeDicts) + rest;
    EnCodeFirst(v, closeDicts);
    match v
    case Str(s) =>
      StrDecodes(s, rest);
      DecodingStrStep(t, s, closeDicts);
    case Int(n) =>
      IntDecodes(n, rest, closeDicts);
      DecodingIntStep(t, n, closeDicts);
    case List(items) =>
      var tail := [LOWER_E as char16] + rest;
      ContainerText(LOWER_L as char16, EnCodeAll(items, closeDicts), rest);
      ListRoundTrip(items, [], tail, closeDicts);
      assert [] + items == items;
      DecodingListStep(t, items, closeDicts);
    case Dict(es) =>
      var tail := [LOWER_E as char16] + rest;
      ContainerText(LOWER_D as char16, EnCodeEntries(es, closeDicts), rest);
      assert [] + es == es;
      DictRoundTrip(es, [], tail, closeDicts);
      DecodingDictStep(t, es, closeDicts);
  }

  /** The list loop reads back the encodings of canonical items up to the closing 'e' or the end. */
  lemma {:induction false} ListRoundTrip(vs: seq<Value>, acc: seq<Value>, tail: Text, closeDicts: bool)
    requires forall i :: 0 <= i < |vs| ==> Canonical(vs[i], closeDicts)
    requires Closes(tail)
    ensures ListLoop(EnCodeAll(vs, closeDicts) + tail, acc, closeDicts) == Success(acc + vs)
    decreases vs, 1
  {
    if vs == [] {
      assert EnCodeAll(vs, closeDicts) + tail == tail;
      assert acc + vs == acc;
    } else {
      ListRoundStep(vs, acc, tail, closeDicts);
      ShiftFirst(acc, vs);
      ListRoundTrip(vs[1..], acc + [vs[0]], tail, closeDicts);
    }
  }

  /** A tag, a body and 'e', followed by anything: the text after the tag. */
  lemma {:induction false} ContainerText(tag: char16, body: Text, rest: Text)
    ensures ([tag] + body + [LOWER_E as char16] + rest)[0] == tag
    ensures ([tag] + body + [LOWER_E as char16] + rest)[1..] == body + ([LOWER_E as char16] + rest)
  {
    var t := [tag] + body + [LOWER_E as char16] + rest;
    assert t[1..] == body + [LOWER_E as char16] + rest;
  }

  /** One round of the list loop reads back the first item. */
  lemma {:induction false} ListRoundStep(vs: seq<Value>, acc: seq<Value>, tail: Text, closeDicts: bool)
    requires vs != [] && Canonical(vs[0], closeDicts)
    ensures ListLoop(EnCodeAll(vs, closeDicts) + tail, acc, closeDicts)
         == ListLoop(EnCodeAll(vs[1..], closeDicts) + tail, acc + [vs[0]], closeDicts)
    decreases vs, 0
  {
    var after := EnCodeAll(vs[1..], closeDicts) + tail;
    assert EnCodeAll(vs, closeDicts) + tail == EnCode(vs[0], closeDicts) + after;
    ItemReadBack(vs[0], after, closeDicts);
    ListLoopStep(EnCode(vs[0], closeDicts) + after, acc, vs[0], closeDicts);
  }

  /** The encoding of a canonical item, followed by anything, decodes to it and is skipped exactly. */
  lemma {:induction false} ItemReadBack(v: Value, after: Text, closeDicts: bool)
    requires Canonical(v, closeDicts)
    ensures EnCode(v, closeDicts) + after != []
    ensures (EnCode(v, closeDicts) + after)[0] != LOWER_E as char16
    ensures Decoding(EnCode(v, closeDicts) + after, closeDicts) == Success(v)
    ensures (EnCode(v, closeDicts) + after)[|EnCode(v, closeDicts)|..] == after
    decreases v, 3
  {
    EnCodeFirst(v, closeDicts);
    RoundTrip(v, after, closeDicts);
  }

  /** The dictionary loop reads back ascending canonical entries that extend the ones it has. */
  lemma {:induction false} DictRoundTrip(es: seq<Entry>, acc: seq<Entry>, tail: Text, closeDicts: bool)
    requires Sorted(acc + es) && Closes(tail)
    requires forall i :: 0 <= i < |es| ==> |es[i].key| <= INT32_MAX && Canonical(es[i].value, closeDicts)
    ensures DictLoop(EnCodeEntries(es, closeDicts) + tail, acc, closeDicts) == Success(acc + es)
    decreases es, 1
  {
    if es == [] {
      assert EnCodeEntries(es, closeDicts) + tail == tail;
      assert acc + es == acc;
    } else {
      var e := es[0];
      BelowNext(acc, es);
      DictRoundStep(es, acc, tail, closeDicts);
      InsertAtEnd(acc, e.key, e.value);
      ShiftFirst(acc, es);
      DictRoundTrip(es[1..], acc + [e], tail, closeDicts);
    }
  }

  /** Moving the first of `es` over to `acc` keeps `acc + es`. */
  lemma {:induction false} ShiftFirst<T>(acc: seq<T>, es: seq<T>)
    requires es != []
    ensures (acc + [es[0]]) + es[1..] == acc + es
  {
  }

  /** One round of the dictionary loop reads back the first key and value and adds them. */
  lemma {:induction false} DictRoundStep(es: seq<Entry>, acc: seq<Entry>, tail: Text, closeDicts: bool)
    requires es != [] && |es[0].key| <= INT32_MAX && Canonical(es[0].value, closeDicts)
    requires !HasKey(acc, es[0].key)
    ensures DictLoop(EnCodeEntries(es, closeDicts) + tail, acc, closeDicts)
         == DictLoop(EnCodeEntries(es[1..], closeDicts) + tail, Insert(acc, es[0].key, es[0].value), closeDicts)
    decreases es, 0
  {
    var e := es[0];
    var afterValue := EnCodeEntries(es[1..], closeDicts) + tail;
    var afterKey := EnCode(e.value, closeDicts) + afterValue;
    EntriesCons(es, tail, closeDicts);
    KeyReadBack(e.key, afterKey);
    ItemReadBack(e.value, afterValue, closeDicts);
    DictLoopStep(e.key, afterKey, acc, e.value, closeDicts);
  }

  /** The encoding of a key, followed by anything, starts with a digit and reads back as the key. */
  lemma {:induction false} KeyReadBack(key: Text, after: Text)
    requires |key| <= INT32_MAX
    ensures (StrEncoding(key) + after)[0] != LOWER_E as char16
    ensures DecodeStr(StrEncoding(key) + after) == Success(key)
  {
    assert (StrEncoding(key) + after)[0] == Decimal.NatDigits(|key|)[0];
    StrDecodes(key, after);
  }

  /** In ascending entries `acc + es`, every key of `acc` is below the first of `es`. */
  lemma {:induction false} BelowNext(acc: seq<Entry>, es: seq<Entry>)
    requires Sorted(acc + es) && es != []
    ensures forall i :: 0 <= i < |acc| ==> Less(acc[i].key, es[0].key)
    ensures !HasKey(acc, es[0].key)
  {
    var all := acc + es;
    forall i | 0 <= i < |acc| ensures Less(acc[i].key, es[0].key) {
      assert all[i] == acc[i] && all[|acc|] == es[0];
    }
    forall i | 0 <= i < |acc| ensures acc[i].key != es[0].key {
      if acc[i].key == es[0].key { LessIrreflexive(es[0].key); }
    }
  }

  /** The encoding of entries, followed by a tail, split after the first entry. */
  lemma {:induction false} EntriesCons(es: seq<Entry>, tail: Text, closeDicts: bool)
    requires es != []
    ensures EnCodeEntries(es, closeDicts) + tail
         == StrEncoding(es[0].key) + (EnCode(es[0].value, closeDicts) + (EnCodeEntries(es[1..], closeDicts) + tail))
  {
  }
  /** A list whose closing 'e' is missing at the end of the text is read all the same. */
  lemma {:induction false} UnclosedListTolerated(items: seq<Value>, closeDicts: bool)
    requires forall i :: 0 <= i < |items| ==> Canonical(items[i], closeDicts)
    ensures Decoding([LOWER_L as char16] + EnCodeAll(items, closeDicts), closeDicts) == Success(List(items))
  {
    var t := [LOWER_L as char16] + EnCodeAll(items, closeDicts);
    assert t[1..] == EnCodeAll(items, closeDicts) + [];
    ListRoundTrip(items, [], [], closeDicts);
    assert [] + items == items;
    DecodingListStep(t, items, closeDicts);
  }

  /**
   * `Decode` dispatches on the first character: an empty text is an index
   * error, a character other than a digit, 'i', 'l' or 'd' is unhandled, and
   * each kind of value comes from its own first character.
   */
  lemma {:induction false} DispatchOnFirst(t: Text, closeDicts: bool)
    ensures t == [] ==> Decoding(t, closeDicts) == Failure(IndexOutOfRange)
    ensures t != [] && !IsDigitChar(t[0]) && t[0] !in {LOWER_I as char16, LOWER_L as char16, LOWER_D as char16}
            ==> Decoding(t, closeDicts) == Failure(Unhandled)
    ensures Decoding(t, closeDicts).Success? ==>
      && (Decoding(t, closeDicts).value.Str? <==> IsDigitChar(t[0]))
      && (Decoding(t, closeDicts).value.Int? <==> t[0] == LOWER_I as char16)
      && (Decoding(t, closeDicts).value.List? <==> t[0] == LOWER_L as char16)
      && (Decoding(t, closeDicts).value.Dict? <==> t[0] == LOWER_D as char16)
  {
  }
  /**
   * A digit of another script, say Arabic-Indic three, sends the text to the
   * string decoder, whose `int.Parse` reads only ASCII digits: the text is
   * refused as a bad string header, never as an unhandled value.
   */
  lemma {:induction false} OtherDigitRefused(t: Text, closeDicts: bool)
    requires t != [] && IsDigitChar(t[0]) && !Decimal.IsDigit(t[0])
    ensures Decoding(t, closeDicts)
      == if IndexOf(t, COLON as char16) == -1 then Failure(InvalidEncodedValue) else Failure(FormatError)
  {
    var colon := IndexOf(t, COLON as char16);
    if colon != -1 {
      assert t[0] != COLON as char16;
      IndexOfIsFirst(t, COLON as char16);
      var header := t[..colon];
      assert header[0] == t[0];
      assert Decimal.Scan(header, 0, Decimal.LeadingWhite, false, 0) == None;
    }
  }


  /* ---------- The dictionary without its 'e' ---------- */

  /** The dictionary `{"a": 1}`. */
  function InnerDict(): (r: Value)
    ensures r.Dict? && |r.entries| == 1
  {
    Dict([Entry([97], Int(1))])
  }

  /** The list `[{"a": 1}, 2]`. */
  function Sample(): (r: Value)
    ensures r.List? && |r.items| == 2
  {
    List([InnerDict(), Int(2)])
  }

  /** Its bencoding, `ld1:ai1eei2ee`. */
  function SampleText(): (r: Text)
    ensures |r| == 13
  {
    [108, 100, 49, 58, 97, 105, 49, 101, 101, 105, 50, 101, 101]
  }

  /** The encodings of the scalars in the sample. */
  lemma {:induction false} ScalarEncodings(closeDicts: bool)
    ensures StrEncoding([97]) == [49, 58, 97]
    ensures EnCode(Int(1), closeDicts) == [105, 49, 101]
    ensures EnCode(Int(2), closeDicts) == [105, 50, 101]
  {
    assert Decimal.NatDigits(1) == [49];
    assert Decimal.FormatInteger(1) == [49] && Decimal.FormatInteger(2) == [50];
  }

  /** The encodings of the parts of the sample, with and without the dictionary's 'e'. */
  lemma {:induction false} SampleEncodings()
    ensures EnCodeEntries(InnerDict().entries, false) == [49, 58, 97, 105, 49, 101]
    ensures EnCode(InnerDict(), false) == [100, 49, 58, 97, 105, 49, 101]
    ensures EnCode(Sample(), true) == SampleText()
    ensures SampleText()[1..][1..] == EnCodeEntries(InnerDict().entries, false) + [101, 105, 50, 101, 101]
  {
    ScalarEncodings(false);
    ScalarEncodings(true);
    var es := InnerDict().entries;
    assert EnCodeEntries(es[1..], true) == [] && EnCodeEntries(es[1..], false) == [];
    assert EnCodeEntries(es, true) == [49, 58, 97, 105, 49, 101];
    assert EnCodeEntries(es, false) == [49, 58, 97, 105, 49, 101];
    var items := Sample().items;
    assert EnCodeAll(items[1..], true) == [105, 50, 101] + EnCodeAll(items[2..], true);
  }

  /** With closing 'e's the sample is read back. */
  lemma {:induction false} SampleClosed()
    ensures Decoding(SampleText(), true) == Success(Sample())
  {
    SampleEncodings();
    assert Canonical(InnerDict(), true) by {
      assert Sorted(InnerDict().entries);
    }
    assert Canonical(Sample(), true);
    RoundTrip(Sample(), [], true);
    assert SampleText() + [] == SampleText();
  }

  /** As written, the dictionary itself is read back, though its 'e' is not counted. */
  lemma {:induction false} InnerDictAsWritten()
    ensures Decoding(SampleText()[1..], false) == Success(InnerDict())
  {
    var es := InnerDict().entries;
    var tail: Text := [101, 105, 50, 101, 101];
    SampleEncodings();
    assert [] + es == es;
    assert Sorted([] + es);
    DictRoundTrip(es, [], tail, false);
    DecodingDictStep(SampleText()[1..], es, false);
  }

  /**
   * As written, the list loop skips the dictionary by its encoding without
   * 'e', lands on the dictionary's 'e', takes it for the end of the list,
   * and loses the 2.
   */
  lemma {:induction false} UnclosedDictDropsNext()
    ensures Decoding(SampleText(), false) == Success(List([Sample().items[0]]))
  {
    var t := SampleText();
    InnerDictAsWritten();
    SampleEncodings();
    ListLoopStep(t[1..], [], InnerDict(), false);
    assert t[1..][7..] == [101, 105, 50, 101, 101];
    assert [] + [InnerDict()] == [InnerDict()];
    DecodingListStep(t, [InnerDict()], false);
  }

  /** A key that comes twice in a dictionary is an error, whatever follows. */
  lemma {:induction false} DuplicateKeyRejected(key: Text, v: Value, w: Value, rest: Text, closeDicts: bool)
    requires |key| <= INT32_MAX && Canonical(v, closeDicts) && Canonical(w, closeDicts)
    ensures Decoding([LOWER_D as char16] + (EnCodeEntries([Entry(key, v), Entry(key, w)], closeDicts) + rest), closeDicts)
         == Failure(DuplicateKey)
  {
    var es := [Entry(key, v), Entry(key, w)];
    var t := [LOWER_D as char16] + (EnCodeEntries(es, closeDicts) + rest);
    assert t[1..] == EnCodeEntries(es, closeDicts) + rest;
    EntriesCons(es, rest, closeDicts);
    EntriesCons(es[1..], rest, closeDicts);
    FirstEntryStep(key, v, EnCodeEntries(es[1..], closeDicts) + rest, closeDicts);
    InsertHasKey([], key, v);
    SecondEntryFails(key, w, EnCodeEntries(es[2..], closeDicts) + rest, Insert([], key, v), closeDicts);
    DecodingDictFails(t, DuplicateKey, closeDicts);
  }

  /** After inserting a key, it is present. */
  lemma {:induction false} InsertHasKey(es: seq<Entry>, k: Text, v: Value)
    ensures HasKey(Insert(es, k, v), k)
  {
    InsertContents(es, k, v);
    assert Entry(k, v) in multiset(Insert(es, k, v));
    var r := Insert(es, k, v);
    var i :| 0 <= i < |r| && r[i] == Entry(k, v);
    assert r[i].key == k;
  }

  /** The first entry of a dictionary is read and added. */
  lemma {:induction false} FirstEntryStep(key: Text, v: Value, second: Text, closeDicts: bool)
    requires |key| <= INT32_MAX && Canonical(v, closeDicts)
    ensures DictLoop(StrEncoding(key) + (EnCode(v, closeDicts) + second), [], closeDicts)
         == DictLoop(second, Insert([], key, v), closeDicts)
  {
    var afterKey := EnCode(v, closeDicts) + second;
    KeyReadBack(key, afterKey);
    ItemReadBack(v, second, closeDicts);
    DictLoopStep(key, afterKey, [], v, closeDicts);
  }

  /** An entry whose key is already present makes the dictionary loop fail. */
  lemma {:induction false} SecondEntryFails(key: Text, w: Value, rest: Text, acc: seq<Entry>, closeDicts: bool)
    requires |key| <= INT32_MAX && Canonical(w, closeDicts) && HasKey(acc, key)
    ensures DictLoop(StrEncoding(key) + (EnCode(w, closeDicts) + rest), acc, closeDicts) == Failure(DuplicateKey)
  {
    var afterKey := EnCode(w, closeDicts) + rest;
    KeyReadBack(key, afterKey);
    ItemReadBack(w, rest, closeDicts);
    DictDuplicateStep(key, afterKey, acc, w, closeDicts);
  }

  lemma {:induction false} DictDuplicateStep(key: Text, afterKey: Text, acc: seq<Entry>, v: Value, closeDicts: bool)
    requires (StrEncoding(key) + afterKey)[0] != LOWER_E as char16
    requires DecodeStr(StrEncoding(key) + afterKey) == Success(key)
    requires Decoding(afterKey, closeDicts) == Success(v)
    requires HasKey(acc, key)
    ensures DictLoop(StrEncoding(key) + afterKey, acc, closeDicts) == Failure(DuplicateKey)
  {
    assert (StrEncoding(key) + afterKey)[|StrEncoding(key)|..] == afterKey;
  }

  lemma {:induction false} DecodingDictFails(t: Text, e: Error, closeDicts: bool)
    requires t != [] && t[0] == LOWER_D as char16 && DictLoop(t[1..], [], closeDicts) == Failure(e)
    ensures Decoding(t, closeDicts) == Failure(e)
  {
  }
}
