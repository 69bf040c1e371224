/**
 * The methods of the static class `Bencode` in src/Bencode.cs, each proved
 * to compute the corresponding function of `BencodeSpec`.
 */
module Bencode {
  import opened Wrappers
  import opened Bytes
  import Decimal
  import opened BencodeSpec
  import BencodeFacts

  /** `Bencode.Decode`. */
  method Decode(s: seq<byte>) returns (r: Result<BencodedValue, DecodeError>)
    ensures r == Decoding(s)
    decreases |s|, 1
  {
    if |s| == 0 {
      return Failure(EmptyInput);
    }
    if Decimal.IsDigit(s[0]) {
      r := DecodeString(s);
    } else if s[0] == LOWER_I {
      r := DecodeInteger(s);
    } else if s[0] == LOWER_L {
      r := DecodeList(s);
    } else if s[0] == LOWER_D {
      r := DecodeDict(s);
    } else {
      r := Failure(InvalidPrefix);
    }
  }

  /** `Bencode.DecodeList`: the `while (true)` loop that advances `index` item by item. */
  method DecodeList(s: seq<byte>) returns (r: Result<BencodedValue, DecodeError>)
    requires |s| > 0 && s[0] == LOWER_L
    ensures r == ListDecoding(s, 1, [])
    decreases |s|, 0
  {
    var list: seq<BencodedValue> := [];
    if |s| > 1 && s[1] == LOWER_E {
      return Success(BencodedList(s[..2], list));
    }
    var index := 1;
    while true
      invariant 1 <= index
      invariant ListDecoding(s, index, list) == ListDecoding(s, 1, [])
      decreases |s| - index
    {
      if index >= |s| {
        return Failure(UnexpectedEndOfList);
      }
      if s[index] == LOWER_E {
        break;
      }
      var item := Decode(s[index..]);
      if item.Failure? {
        return Failure(item.error);
      }
      list := list + [item.value];
      index := index + |item.value.originalData|;
    }
    return Success(BencodedList(s[..index + 1], list));
  }

  /** `Bencode.DecodeDict`: the same loop over key/value pairs. */
  method DecodeDict(s: seq<byte>) returns (r: Result<BencodedValue, DecodeError>)
    requires |s| > 0 && s[0] == LOWER_D
    ensures r == DictDecoding(s, 1, map[])
    decreases |s|, 0
  {
    var dict: map<seq<byte>, BencodedValue> := map[];
    if |s| > 1 && s[1] == LOWER_E {
      return Success(BencodedDict(s[..2], dict));
    }
    var index := 1;
    while true
      invariant 1 <= index
      invariant DictDecoding(s, index, dict) == DictDecoding(s, 1, map[])
      decreases |s| - index
    {
      if index >= |s| {
        return Failure(UnexpectedEndOfDictionary);
      }
      if s[index] == LOWER_E {
        break;
      }
      var keyValue := Decode(s[index..]);
      if keyValue.Failure? {
        return Failure(keyValue.error);
      }
      if !keyValue.value.BencodedString? {
        return Failure(KeyNotString);
      }
      var keyString := keyValue.value;
      BencodeFacts.DictKeyStep(s, index, dict, keyString);
      index := index + |keyString.originalData|;
      if index >= |s| {
        return Failure(MissingDictionaryValue);
      }
      var value := Decode(s[index..]);
      if value.Failure? {
        return Failure(value.error);
      }
      BencodeFacts.DictValueStep(s, index, keyString.bytes, dict, value.value);
      dict := dict[keyString.bytes := value.value];
      index := index + |value.value.originalData|;
    }
    return Success(BencodedDict(s[..index + 1], dict));
  }
}
