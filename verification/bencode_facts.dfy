/**
 * What the decoder of src/Bencode.cs guarantees about spans. The info hash is
 * computed over `originalData` (src/TorrentClient.cs:53); these lemmas show
 * that doing so is sound: a value depends only on the bytes of its own span,
 * decoding that span alone gives the very same value, and no shorter prefix
 * of it decodes at all.
 */
module BencodeFacts {
  import opened Wrappers
  import opened Bytes
  import Decimal
  import opened BencodeSpec

  /** One key step of the dictionary loop: a string key hands over to the value step. */
  lemma {:induction false} DictKeyStep(s: seq<byte>, index: nat, entries: map<seq<byte>, BencodedValue>, key: BencodedValue)
    requires 1 <= index < |s| && s[0] == LOWER_D && s[index] != LOWER_E
    requires key.BencodedString? && Decoding(s[index..]) == Success(key)
    ensures DictDecoding(s, index, entries) == DictValueDecoding(s, index + |key.originalData|, key.bytes, entries)
  {
  }

  /** One value step of the dictionary loop: the entry is stored and the loop moves past the value. */
  lemma {:induction false} DictValueStep(s: seq<byte>, afterKey: nat, key: seq<byte>, entries: map<seq<byte>, BencodedValue>, value: BencodedValue)
    requires 1 <= afterKey < |s| && s[0] == LOWER_D
    requires Decoding(s[afterKey..]) == Success(value)
    ensures DictValueDecoding(s, afterKey, key, entries) == DictDecoding(s, afterKey + |value.originalData|, entries[key := value])
  {
  }

  /** The bytes that survive past the span do not matter: any input that agrees on the span decodes identically. */
  lemma {:induction false} DecodingDependsOnlyOnSpan(s: seq<byte>, t: seq<byte>)
    requires Decoding(s).Success?
    requires |Decoding(s).value.originalData| <= |t|
    requires t[..|Decoding(s).value.originalData|] == Decoding(s).value.originalData
    ensures Decoding(t) == Decoding(s)
    decreases |s|, 1, 0
  {
    var n := |Decoding(s).value.originalData|;
    assert t[0] == s[0] by { assert t[..n][0] == s[..n][0]; }
    if Decimal.IsDigit(s[0]) {
      StringDependsOnlyOnSpan(s, t);
    } else if s[0] == LOWER_I {
      IntegerDependsOnlyOnSpan(s, t);
    } else if s[0] == LOWER_L {
      ListDependsOnlyOnSpan(s, t, 1, []);
    } else {
      DictDependsOnlyOnSpan(s, t, 1, map[]);
    }
  }

  lemma {:induction false} StringDependsOnlyOnSpan(s: seq<byte>, t: seq<byte>)
    requires |s| > 0 && Decimal.IsDigit(s[0]) && DecodeString(s).Success?
    requires |DecodeString(s).value.originalData| <= |t|
    requires t[..|DecodeString(s).value.originalData|] == DecodeString(s).value.originalData
    ensures |t| > 0 && t[0] == s[0] && DecodeString(t) == DecodeString(s)
  {
    var n := |DecodeString(s).value.originalData|;
    assert s[..n] == t[..n];
    assert t[0] == s[..n][0];
    IndexOfCommonPrefix(s, t, COLON, n);
    var c := IndexOf(s, COLON);
    assert s[..c] == t[..c] by { assert s[..c] == s[..n][..c]; assert t[..c] == t[..n][..c]; }
    assert s[c + 1..n] == t[c + 1..n] by { assert s[c + 1..n] == s[..n][c + 1..]; assert t[c + 1..n] == t[..n][c + 1..]; }
  }

  lemma {:induction false} IntegerDependsOnlyOnSpan(s: seq<byte>, t: seq<byte>)
    requires |s| > 0 && s[0] == LOWER_I && DecodeInteger(s).Success?
    requires |DecodeInteger(s).value.originalData| <= |t|
    requires t[..|DecodeInteger(s).value.originalData|] == DecodeInteger(s).value.originalData
    ensures |t| > 0 && t[0] == s[0] && DecodeInteger(t) == DecodeInteger(s)
  {
    var e := IndexOf(s, LOWER_E);
    assert e != -1;
    assert e != 0 by { assert s[0] != LOWER_E; }
    assert DecodeInteger(s).value.originalData == s[..e + 1];
    var n := |DecodeInteger(s).value.originalData|;
    assert e + 1 == n;
    assert s[..n] == t[..n];
    assert t[0] == s[..n][0];
    IndexOfCommonPrefix(s, t, LOWER_E, n);
    forall k | 1 <= k < e
      ensures s[k] == t[k]
    {
      assert s[k] == s[..n][k];
      assert t[k] == t[..n][k];
    }
    assert s[1..e] == t[1..e];
  }

  /** Two inputs that agree on the first `n` bytes agree on every window inside them. */
  lemma {:induction false} CommonPrefixWindow(s: seq<byte>, t: seq<byte>, n: nat, i: nat, m: nat)
    requires n <= |s| && n <= |t| && s[..n] == t[..n] && i + m <= n
    ensures s[i..][..m] == t[i..][..m]
  {
    assert s[i..][..m] == s[..n][i..i + m];
    assert t[i..][..m] == t[..n][i..i + m];
  }

  /** The list loop, from any state it reaches, depends only on the bytes of the final span. */
  lemma {:induction false} ListDependsOnlyOnSpan(s: seq<byte>, t: seq<byte>, index: nat, items: seq<BencodedValue>)
    requires 1 <= index && |s| > 0 && s[0] == LOWER_L
    requires ListDecoding(s, index, items).Success?
    requires |ListDecoding(s, index, items).value.originalData| <= |t|
    requires t[..|ListDecoding(s, index, items).value.originalData|] == ListDecoding(s, index, items).value.originalData
    ensures |t| > 0 && t[0] == LOWER_L
    ensures ListDecoding(t, index, items) == ListDecoding(s, index, items)
    decreases |s|, 0, |s| - index
  {
    var r := ListDecoding(s, index, items);
    var n := |r.value.originalData|;
    assert s[..n] == t[..n];
    assert t[0] == s[..n][0];
    assert index < n;
    assert t[index] == s[index] by { assert t[..n][index] == s[..n][index]; }
    if s[index] != LOWER_E {
      var item := ListStep(s, index, items);
      var m := |item.originalData|;
      DecodedAtDependsOnlyOnSpan(s, t, n, index, item);
      ListDependsOnlyOnSpan(s, t, index + m, items + [item]);
      ListItemStep(t, index, items, item);
    } else {
      CommonPrefixWindow(s, t, n, 0, index + 1);
    }
  }

  /** A value decoded at offset `i` inside the common prefix of `s` and `t` is decoded at `i` of `t` too. */
  lemma {:induction false} DecodedAtDependsOnlyOnSpan(s: seq<byte>, t: seq<byte>, n: nat, i: nat, v: BencodedValue)
    requires n <= |s| && n <= |t| && s[..n] == t[..n]
    requires 1 <= i < |s| && Decoding(s[i..]) == Success(v) && i + |v.originalData| <= n
    ensures Decoding(t[i..]) == Success(v)
    decreases |s|, 0, |s| - i, 0
  {
    CommonPrefixWindow(s, t, n, i, |v.originalData|);
    DecodingDependsOnlyOnSpan(s[i..], t[i..]);
  }

  /** The dictionary loop, from any state it reaches, depends only on the bytes of the final span. */
  lemma {:induction false} DictDependsOnlyOnSpan(s: seq<byte>, t: seq<byte>, index: nat, entries: map<seq<byte>, BencodedValue>)
    requires 1 <= index && |s| > 0 && s[0] == LOWER_D
    requires DictDecoding(s, index, entries).Success?
    requires |DictDecoding(s, index, entries).value.originalData| <= |t|
    requires t[..|DictDecoding(s, index, entries).value.originalData|] == DictDecoding(s, index, entries).value.originalData
    ensures |t| > 0 && t[0] == LOWER_D
    ensures DictDecoding(t, index, entries) == DictDecoding(s, index, entries)
    decreases |s|, 0, |s| - index
  {
    var r := DictDecoding(s, index, entries);
    var n := |r.value.originalData|;
    assert s[..n] == t[..n];
    assert t[0] == s[..n][0];
    assert t[index] == s[index] by { assert t[..n][index] == s[..n][index]; }
    if s[index] != LOWER_E {
      DictRoundDependsOnlyOnSpan(s, t, index, entries, n);
    } else {
      CommonPrefixWindow(s, t, n, 0, index + 1);
    }
  }

  /** A round of the dictionary loop that reads a pair, on two inputs that agree on the final span. */
  lemma {:induction false} DictRoundDependsOnlyOnSpan(s: seq<byte>, t: seq<byte>, index: nat, entries: map<seq<byte>, BencodedValue>, n: nat)
    requires 1 <= index < |s| && s[0] == LOWER_D && s[index] != LOWER_E
    requires DictDecoding(s, index, entries).Success? && n == |DictDecoding(s, index, entries).value.originalData|
    requires n <= |t| && t[..n] == s[..n] && t[0] == LOWER_D && t[index] == s[index]
    ensures DictDecoding(t, index, entries) == DictDecoding(s, index, entries)
    decreases |s|, 0, |s| - index, 1
  {
    var key, value := DictStep(s, index, entries);
    var m := |key.originalData|;
    var k := |value.originalData|;
    DecodedAtDependsOnlyOnSpan(s, t, n, index, key);
    DecodedAtDependsOnlyOnSpan(s, t, n, index + m, value);
    DictDependsOnlyOnSpan(s, t, index + m + k, entries[key.bytes := value]);
    DictUnfold(t, index, entries, key, value);
  }

  /**
   * `Decode` on the first byte: empty input and an unknown first byte are
   * errors, and a decoded value's kind is the one its first byte announces.
   */
  lemma {:induction false} DecodingDispatch(s: seq<byte>)
    ensures |s| == 0 ==> Decoding(s) == Failure(EmptyInput)
    ensures |s| > 0 && !Decimal.IsDigit(s[0]) && s[0] != LOWER_I && s[0] != LOWER_L && s[0] != LOWER_D
            ==> Decoding(s) == Failure(InvalidPrefix)
    ensures Decoding(s).Success? ==>
      (Decoding(s).value.BencodedString? <==> Decimal.IsDigit(s[0]))
      && (Decoding(s).value.BencodedInt? <==> s[0] == LOWER_I)
      && (Decoding(s).value.BencodedList? <==> s[0] == LOWER_L)
      && (Decoding(s).value.BencodedDict? <==> s[0] == LOWER_D)
  {
  }

  /** `le` and `de` are the empty list and the empty dictionary, two bytes long, whatever follows. */
  lemma {:induction false} EmptyContainers(rest: seq<byte>)
    ensures Decoding([LOWER_L, LOWER_E] + rest) == Success(BencodedList([LOWER_L, LOWER_E], []))
    ensures Decoding([LOWER_D, LOWER_E] + rest) == Success(BencodedDict([LOWER_D, LOWER_E], map[]))
  {
    var l := [LOWER_L, LOWER_E] + rest;
    var d := [LOWER_D, LOWER_E] + rest;
    assert l[0] == LOWER_L && l[1] == LOWER_E && l[..2] == [LOWER_L, LOWER_E];
    assert d[0] == LOWER_D && d[1] == LOWER_E && d[..2] == [LOWER_D, LOWER_E];
  }

  /** One successful round of the dictionary loop: the key and value it decodes and where it goes on. */
  lemma {:induction false} DictStep(s: seq<byte>, index: nat, entries: map<seq<byte>, BencodedValue>) returns (key: BencodedValue, value: BencodedValue)
    requires 1 <= index && |s| > 0 && s[0] == LOWER_D
    requires DictDecoding(s, index, entries).Success? && s[index] != LOWER_E
    ensures key.BencodedString? && Decoding(s[index..]) == Success(key)
    ensures index + |key.originalData| < |s| && Decoding(s[index + |key.originalData|..]) == Success(value)
    ensures DictDecoding(s, index, entries)
         == DictDecoding(s, index + |key.originalData| + |value.originalData|, entries[key.bytes := value])
  {
    key := Decoding(s[index..]).value;
    var afterKey := index + |key.originalData|;
    DictKeyStep(s, index, entries, key);
    value := Decoding(s[afterKey..]).value;
    DictValueStep(s, afterKey, key.bytes, entries, value);
  }

  /** The converse of `DictStep`: a decoded key and value let the loop move on. */
  lemma {:induction false} DictUnfold(t: seq<byte>, index: nat, entries: map<seq<byte>, BencodedValue>, key: BencodedValue, value: BencodedValue)
    requires 1 <= index < |t| && t[0] == LOWER_D && t[index] != LOWER_E
    requires key.BencodedString? && Decoding(t[index..]) == Success(key)
    requires index + |key.originalData| < |t| && Decoding(t[index + |key.originalData|..]) == Success(value)
    ensures DictDecoding(t, index, entries)
         == DictDecoding(t, index + |key.originalData| + |value.originalData|, entries[key.bytes := value])
  {
    DictKeyStep(t, index, entries, key);
    DictValueStep(t, index + |key.originalData|, key.bytes, entries, value);
  }

  /** Decoding a value's own span, with nothing after it, gives back the very same value. */
  lemma {:induction false} DecodingOwnSpan(s: seq<byte>)
    requires Decoding(s).Success?
    ensures Decoding(Decoding(s).value.originalData) == Decoding(s)
  {
    var o := Decoding(s).value.originalData;
    assert o[..|o|] == o;
    DecodingDependsOnlyOnSpan(s, o);
  }

  /** Decoding is prefix-free: no proper prefix of a value's span decodes to anything. */
  lemma {:induction false} NoProperPrefixDecodes(s: seq<byte>, k: nat)
    requires Decoding(s).Success?
    requires k < |Decoding(s).value.originalData|
    ensures Decoding(Decoding(s).value.originalData[..k]).Failure?
  {
    var o := Decoding(s).value.originalData;
    var p := o[..k];
    if Decoding(p).Success? {
      var w := Decoding(p).value.originalData;
      assert s[..|w|] == w by {
        assert w == p[..|w|] == o[..|w|];
      }
      DecodingDependsOnlyOnSpan(p, s);
      assert false;
    }
  }

  /** The canonical encoding of a byte string: its decimal length, ':', the bytes. */
  function StringEncoding(b: seq<byte>): (r: seq<byte>)
    ensures |r| > |b|
  {
    Decimal.NatDigits(|b|) + [COLON] + b
  }

  /** The canonical encoding of an integer: 'i', its decimal form, 'e'. */
  function IntegerEncoding(n: int): (r: seq<byte>)
    ensures |r| >= 3
  {
    [LOWER_I] + Decimal.FormatInteger(n) + [LOWER_E]
  }

  /** An encoded string of `int`-representable length decodes to its bytes, whatever follows it. */
  lemma {:induction false} StringEncodingDecodes(b: seq<byte>, rest: seq<byte>)
    requires |b| <= INT32_MAX
    ensures Decoding(StringEncoding(b) + rest) == Success(BencodedString(StringEncoding(b), b))
  {
    var d := Decimal.NatDigits(|b|);
    var s := StringEncoding(b) + rest;
    var k := |d|;
    assert s[..k] == d;
    assert s[k] == COLON;
    forall j | 0 <= j < k ensures s[j] != COLON {
      assert s[j] == d[j];
    }
    IndexOfAt(s, COLON, k);
    Decimal.ParseFormatInteger(|b|, INT32_MIN, INT32_MAX);
    assert s[..k + 1 + |b|] == StringEncoding(b);
    assert s[k + 1..k + 1 + |b|] == b;
    assert s[0] == d[0];
  }

  /** An encoded 64-bit integer decodes to its value, whatever follows it. */
  lemma {:induction false} IntegerEncodingDecodes(n: int64, rest: seq<byte>)
    ensures Decoding(IntegerEncoding(n) + rest) == Success(BencodedInt(IntegerEncoding(n), n))
  {
    var f := Decimal.FormatInteger(n);
    var s := IntegerEncoding(n) + rest;
    var k := 1 + |f|;
    assert s[1..k] == f;
    assert s[k] == LOWER_E;
    forall j | 0 <= j < k ensures s[j] != LOWER_E {
      if j > 0 {
        assert s[j] == f[j - 1];
        Decimal.FormatIntegerChars(n, j - 1);
      }
    }
    IndexOfAt(s, LOWER_E, k);
    Decimal.ParseFormatInteger(n, INT64_MIN, INT64_MAX);
    assert s[..k + 1] == IntegerEncoding(n);
  }

  /** The spans of a sequence of values, one after the other. */
  function Spans(vs: seq<BencodedValue>): seq<byte>
  {
    if vs == [] then [] else vs[0].originalData + Spans(vs[1..])
  }

  /** Every decoded value starts with a digit, 'i', 'l' or 'd', so never with the 'e' that ends a list. */
  lemma {:induction false} DecodedStartsWithTag(s: seq<byte>)
    requires Decoding(s).Success?
    ensures Decoding(s).value.originalData[0] == s[0]
    ensures Decimal.IsDigit(s[0]) || s[0] == LOWER_I || s[0] == LOWER_L || s[0] == LOWER_D
  {
  }

  /** One item of the list loop: the item decoded at `index` and where the loop goes on. */
  lemma {:induction false} ListStep(s: seq<byte>, index: nat, items: seq<BencodedValue>) returns (item: BencodedValue)
    requires 1 <= index && |s| > 0 && s[0] == LOWER_L
    requires ListDecoding(s, index, items).Success? && s[index] != LOWER_E
    ensures Decoding(s[index..]) == Success(item)
    ensures ListDecoding(s, index, items) == ListDecoding(s, index + |item.originalData|, items + [item])
  {
    item := Decoding(s[index..]).value;
  }

  /**
   * The list loop, from any state it reaches, keeps the items it has and
   * appends the items that follow; the final span is everything before
   * `index`, the spans of the new items back to back, and the closing 'e';
   * and each new item is exactly what its own span decodes to.
   */
  lemma {:induction false} ListLoopSpan(s: seq<byte>, index: nat, items: seq<BencodedValue>) returns (added: seq<BencodedValue>)
    requires 1 <= index && |s| > 0 && s[0] == LOWER_L
    requires ListDecoding(s, index, items).Success?
    ensures index <= |s|
    ensures ListDecoding(s, index, items).value.list == items + added
    ensures ListDecoding(s, index, items).value.originalData == s[..index] + Spans(added) + [LOWER_E]
    ensures OwnSpans(added)
    decreases |s| - index
  {
    if s[index] == LOWER_E {
      added := [];
      assert s[..index + 1] == s[..index] + [LOWER_E];
    } else {
      var item := ListStep(s, index, items);
      var more := ListLoopSpan(s, index + |item.originalData|, items + [item]);
      ListSpanExtend(s, index, items, item, more, ListDecoding(s, index, items).value);
      DecodingOwnSpan(s[index..]);
      OwnSpansCons(item, more);
      added := [item] + more;
    }
  }

  /** Every value in `vs` is what its own span decodes to. */
  predicate OwnSpans(vs: seq<BencodedValue>)
    decreases |vs|
  {
    vs == [] || (Decoding(vs[0].originalData) == Success(vs[0]) && OwnSpans(vs[1..]))
  }

  lemma {:induction false} OwnSpansCons(v: BencodedValue, vs: seq<BencodedValue>)
    requires Decoding(v.originalData) == Success(v) && OwnSpans(vs)
    ensures OwnSpans([v] + vs)
  {
    assert ([v] + vs)[0] == v && ([v] + vs)[1..] == vs;
  }

  /** The inductive step of `ListLoopSpan`: prepend the item just decoded to the ones after it. */
  lemma {:induction false} ListSpanExtend(s: seq<byte>, index: nat, items: seq<BencodedValue>, item: BencodedValue, more: seq<BencodedValue>, v: BencodedValue)
    requires index + |item.originalData| <= |s| && item.originalData == s[index..][..|item.originalData|]
    requires v.BencodedList? && v.list == items + [item] + more
    requires v.originalData == s[..index + |item.originalData|] + Spans(more) + [LOWER_E]
    ensures v.list == items + ([item] + more)
    ensures v.originalData == s[..index] + Spans([item] + more) + [LOWER_E]
  {
    assert ([item] + more)[1..] == more;
    PrefixJoin(s, index, |item.originalData|);
  }

  /** Cutting at `index` and again `m` bytes later. */
  lemma {:induction false} PrefixJoin(s: seq<byte>, index: nat, m: nat)
    requires index + m <= |s|
    ensures s[..index + m] == s[..index] + s[index..][..m]
  {
  }

  /** A decoded list's span is 'l', the spans of its items back to back, and 'e'; each item is its own span decoded. */
  lemma {:induction false} ListSpan(s: seq<byte>)
    requires Decoding(s).Success? && s[0] == LOWER_L
    ensures Decoding(s).value.BencodedList?
    ensures var v := Decoding(s).value;
      v.originalData == [LOWER_L] + Spans(v.list) + [LOWER_E] && OwnSpans(v.list)
  {
    var added := ListLoopSpan(s, 1, []);
    assert [] + added == added;
    assert s[..1] == [LOWER_L];
  }

  /** A value that decodes from its own span is decoded from any input that starts with that span. */
  lemma {:induction false} ItemAtSpan(v: BencodedValue, after: seq<byte>)
    requires Decoding(v.originalData) == Success(v)
    ensures Decoding(v.originalData + after) == Success(v)
    ensures |v.originalData| > 0 && (v.originalData + after)[0] != LOWER_E
  {
    var t := v.originalData + after;
    assert t[..|v.originalData|] == v.originalData;
    DecodingDependsOnlyOnSpan(v.originalData, t);
    DecodedStartsWithTag(v.originalData);
  }

  /** One item of the list loop, given the item decoded at `index`. */
  lemma {:induction false} ListItemStep(s: seq<byte>, index: nat, items: seq<BencodedValue>, item: BencodedValue)
    requires 1 <= index < |s| && s[0] == LOWER_L && s[index] != LOWER_E
    requires Decoding(s[index..]) == Success(item)
    ensures ListDecoding(s, index, items) == ListDecoding(s, index + |item.originalData|, items + [item])
  {
  }

  /** Key/value pairs as a dictionary holds them in its input. */
  type Pair = (BencodedValue, BencodedValue)

  /** Every key of `ps` is a string. */
  predicate StringKeys(ps: seq<Pair>) {
    forall k :: 0 <= k < |ps| ==> ps[k].0.BencodedString?
  }

  /** Each key and value of `ps` is what its own span decodes to. */
  predicate PairsOwnSpans(ps: seq<Pair>)
    decreases |ps|
  {
    ps == [] ||
    (Decoding(ps[0].0.originalData) == Success(ps[0].0) && Decoding(ps[0].1.originalData) == Success(ps[0].1)
     && PairsOwnSpans(ps[1..]))
  }

  /** The spans of the pairs, key then value, back to back. */
  function PairSpans(ps: seq<Pair>): seq<byte>
  {
    if ps == [] then [] else ps[0].0.originalData + (ps[0].1.originalData + PairSpans(ps[1..]))
  }

  /**
   * The entries left behind when the pairs are stored one after the other
   * into `entries`: a later key overwrites an earlier one.
   */
  function Assign(entries: map<seq<byte>, BencodedValue>, ps: seq<Pair>): map<seq<byte>, BencodedValue>
    requires StringKeys(ps)
    decreases |ps|
  {
    if ps == [] then entries
    else Assign(entries[ps[0].0.bytes := ps[0].1], ps[1..])
  }

  /** Of several pairs with the same key, the last one decides the entry. */
  lemma {:induction false} AssignLastWins(entries: map<seq<byte>, BencodedValue>, ps: seq<Pair>, j: nat)
    requires j < |ps| && StringKeys(ps)
    requires forall k :: j < k < |ps| ==> ps[k].0.bytes != ps[j].0.bytes
    ensures ps[j].0.bytes in Assign(entries, ps) && Assign(entries, ps)[ps[j].0.bytes] == ps[j].1
    decreases |ps|
  {
    var tail := ps[1..];
    if j == 0 {
      AssignKeeps(entries[ps[0].0.bytes := ps[0].1], tail, ps[0].0.bytes);
    } else {
      assert forall k :: j - 1 < k < |tail| ==> tail[k] == ps[k + 1];
      AssignLastWins(entries[ps[0].0.bytes := ps[0].1], tail, j - 1);
    }
  }

  /** Pairs with other keys leave an entry alone. */
  lemma {:induction false} AssignKeeps(entries: map<seq<byte>, BencodedValue>, ps: seq<Pair>, key: seq<byte>)
    requires forall k :: 0 <= k < |ps| ==> ps[k].0.BencodedString? && ps[k].0.bytes != key
    requires key in entries
    ensures key in Assign(entries, ps) && Assign(entries, ps)[key] == entries[key]
    decreases |ps|
  {
    if ps != [] {
      AssignKeeps(entries[ps[0].0.bytes := ps[0].1], ps[1..], key);
    }
  }


  /**
   * The dictionary loop, from any state it reaches, stores the pairs that
   * follow, in input order, into the entries it has; the final span is
   * everything before `index`, the spans of those pairs back to back, and
   * the closing 'e'; and each key and value is exactly what its own span
   * decodes to.
   */
  lemma {:induction false} DictLoopSpan(s: seq<byte>, index: nat, entries: map<seq<byte>, BencodedValue>) returns (added: seq<Pair>)
    requires 1 <= index && |s| > 0 && s[0] == LOWER_D
    requires DictDecoding(s, index, entries).Success?
    ensures index <= |s| && StringKeys(added) && PairsOwnSpans(added)
    ensures DictDecoding(s, index, entries).value.dict == Assign(entries, added)
    ensures DictDecoding(s, index, entries).value.originalData == s[..index] + PairSpans(added) + [LOWER_E]
    decreases |s| - index
  {
    if s[index] == LOWER_E {
      added := [];
      assert s[..index + 1] == s[..index] + [LOWER_E];
    } else {
      var key, value := DictStep(s, index, entries);
      var more := DictLoopSpan(s, index + |key.originalData| + |value.originalData|, entries[key.bytes := value]);
      DictSpanExtend(s, index, entries, key, value, more, DictDecoding(s, index, entries).value);
      DecodingOwnSpan(s[index..]);
      DecodingOwnSpan(s[index + |key.originalData|..]);
      added := [(key, value)] + more;
      assert added[0] == (key, value) && added[1..] == more;
    }
  }

  /** The inductive step of `DictLoopSpan`: prepend the pair just decoded to the ones after it. */
  lemma {:induction false} DictSpanExtend(s: seq<byte>, index: nat, entries: map<seq<byte>, BencodedValue>,
                                          key: BencodedValue, value: BencodedValue, more: seq<Pair>, v: BencodedValue)
    requires index + |key.originalData| + |value.originalData| <= |s|
    requires key.originalData == s[index..][..|key.originalData|]
    requires value.originalData == s[index + |key.originalData|..][..|value.originalData|]
    requires key.BencodedString? && StringKeys(more)
    requires v.BencodedDict? && v.dict == Assign(entries[key.bytes := value], more)
    requires v.originalData == s[..index + |key.originalData| + |value.originalData|] + PairSpans(more) + [LOWER_E]
    ensures StringKeys([(key, value)] + more)
    ensures v.dict == Assign(entries, [(key, value)] + more)
    ensures v.originalData == s[..index] + PairSpans([(key, value)] + more) + [LOWER_E]
  {
    var ps := [(key, value)] + more;
    assert ps[0] == (key, value) && ps[1..] == more;
    PrefixJoin(s, index, |key.originalData|);
    PrefixJoin(s, index + |key.originalData|, |value.originalData|);
  }

  /**
   * A decoded dictionary's span is 'd', the spans of its keys and values
   * back to back, and 'e'; its entries are those pairs stored in input order.
   */
  lemma {:induction false} DictSpan(s: seq<byte>) returns (ps: seq<Pair>)
    requires Decoding(s).Success? && s[0] == LOWER_D
    ensures Decoding(s).value.BencodedDict? && StringKeys(ps) && PairsOwnSpans(ps)
    ensures var v := Decoding(s).value;
      v.originalData == [LOWER_D] + PairSpans(ps) + [LOWER_E] && v.dict == Assign(map[], ps)
  {
    ps := DictLoopSpan(s, 1, map[]);
    assert s[..1] == [LOWER_D];
  }

  /**
   * Duplicate keys: a decoded dictionary maps each key to the value of its
   * last occurrence in the input.
   */
  lemma {:induction false} DictLastWins(s: seq<byte>) returns (ps: seq<Pair>)
    requires Decoding(s).Success? && s[0] == LOWER_D
    ensures Decoding(s).value.BencodedDict? && StringKeys(ps)
    ensures Decoding(s).value.originalData == [LOWER_D] + PairSpans(ps) + [LOWER_E]
    ensures forall j :: 0 <= j < |ps| && (forall k :: j < k < |ps| ==> ps[k].0.bytes != ps[j].0.bytes) ==>
      ps[j].0.bytes in Decoding(s).value.dict && Decoding(s).value.dict[ps[j].0.bytes] == ps[j].1
  {
    ps := DictSpan(s);
    forall j | 0 <= j < |ps| && (forall k :: j < k < |ps| ==> ps[k].0.bytes != ps[j].0.bytes)
      ensures ps[j].0.bytes in Assign(map[], ps) && Assign(map[], ps)[ps[j].0.bytes] == ps[j].1
    {
      AssignLastWins(map[], ps, j);
    }
  }
}
