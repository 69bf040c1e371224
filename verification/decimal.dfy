/**
 * ASCII decimal numerals. Both codecs print lengths and integers in decimal
 * and read them back with the framework's integer parsers; this module gives
 * the one definition of each that the rest of the model shares. Texts are
 * sequences of character codes, so byte strings and UTF-16 strings both fit.
 */
module Decimal {
  import opened Wrappers
  import opened Bytes

  predicate IsDigit(c: int) {
    48 <= c <= 57
  }

  predicate AllDigits(s: seq<int>) {
    forall k :: 0 <= k < |s| ==> IsDigit(s[k])
  }

  /** The value of a run of decimal digits, most significant first. */
  function DigitsValue(s: seq<int>): (n: nat)
    requires AllDigits(s)
  {
    if s == [] then 0 else DigitsValue(s[..|s| - 1]) * 10 + (s[|s| - 1] - 48)
  }

  /** The shortest decimal numeral of `n`: no leading zero except for zero itself. */
  function NatDigits(n: nat): (r: seq<byte>)
    ensures 1 <= |r| && AllDigits(r)
    ensures r[0] == ZERO_DIGIT ==> n == 0
  {
    if n < 10 then [48 + n] else NatDigits(n / 10) + [48 + n % 10]
  }

  /** The decimal numeral of a signed integer, as C# interpolation prints a `long`. */
  function FormatInteger(n: int): (r: seq<byte>)
    ensures 1 <= |r|
  {
    if n < 0 then [MINUS] + NatDigits(-n) else NatDigits(n)
  }

  /** The white space the framework's integer parsers skip: tab to carriage return, and space. */
  predicate IsWhite(c: int) {
    c == 0x20 || 0x09 <= c <= 0x0D
  }

  /** Where the integer parser stands while it reads a numeral left to right. */
  datatype Phase = LeadingWhite | AfterSign | InDigits | TrailingWhite | TrailingNul

  /**
   * The integer parser from position `i` in `phase`, with the sign read so
   * far and the digits read so far folded into `acc`: white space, an
   * optional '+' or '-', one or more ASCII digits, white space, and then only
   * NUL characters up to the end. The result is the signed value read.
   */
  function Scan(s: seq<int>, i: nat, phase: Phase, negative: bool, acc: nat): (r: Option<int>)
    decreases |s| - i
  {
    if i >= |s| then
      if phase == LeadingWhite || phase == AfterSign then None
      else Some(if negative then 0 - acc else acc)
    else
      var c := s[i];
      match phase
      case LeadingWhite =>
        if IsWhite(c) then Scan(s, i + 1, LeadingWhite, false, 0)
        else if c == MINUS as int then Scan(s, i + 1, AfterSign, true, 0)
        else if c == PLUS as int then Scan(s, i + 1, AfterSign, false, 0)
        else if IsDigit(c) then Scan(s, i + 1, InDigits, false, c - 48)
        else None
      case AfterSign =>
        if IsDigit(c) then Scan(s, i + 1, InDigits, negative, c - 48) else None
      case InDigits =>
        if IsDigit(c) then Scan(s, i + 1, InDigits, negative, acc * 10 + (c - 48))
        else if IsWhite(c) then Scan(s, i + 1, TrailingWhite, negative, acc)
        else if c == 0 then Scan(s, i + 1, TrailingNul, negative, acc)
        else None
      case TrailingWhite =>
        if IsWhite(c) then Scan(s, i + 1, TrailingWhite, negative, acc)
        else if c == 0 then Scan(s, i + 1, TrailingNul, negative, acc)
        else None
      case TrailingNul =>
        if c == 0 then Scan(s, i + 1, TrailingNul, negative, acc) else None
  }

  /**
   * `int.TryParse` / `long.TryParse` with the invariant culture: the numeral
   * `Scan` accepts, whose value must lie in [lo, hi] (the range of the target
   * integer type), otherwise the parse fails.
   */
  function ParseInteger(s: seq<int>, lo: int, hi: int): (r: Option<int>)
    requires lo <= 0 <= hi
    ensures r.Some? ==> lo <= r.value <= hi
  {
    match Scan(s, 0, LeadingWhite, false, 0)
    case Some(v) => if lo <= v <= hi then Some(v) else None
    case None => None
  }

  /** Scanning a run of digits that reaches the end continues the left fold of `DigitsValue`. */
  lemma {:induction false} ScanDigitsValue(s: seq<int>, j: nat, i: nat, negative: bool)
    requires j < i <= |s| && AllDigits(s[j..])
    ensures Scan(s, i, InDigits, negative, DigitsValue(s[j..i]))
         == Some(if negative then 0 - DigitsValue(s[j..]) else DigitsValue(s[j..]))
    decreases |s| - i
  {
    if i == |s| {
      assert s[j..i] == s[j..];
    } else {
      assert IsDigit(s[i]) by { assert s[j..][i - j] == s[i]; }
      assert s[j..i + 1][..i - j] == s[j..i];
      ScanDigitsValue(s, j, i + 1, negative);
    }
  }

  /** Reading a printed natural number gives it back. */
  lemma {:induction false} DigitsValueOfNatDigits(n: nat)
    ensures DigitsValue(NatDigits(n)) == n
  {
    if n >= 10 {
      var d := NatDigits(n);
      assert d[..|d| - 1] == NatDigits(n / 10);
      DigitsValueOfNatDigits(n / 10);
    }
  }

  /** Scanning the printed form of an integer gives it back. */
  lemma {:induction false} ScanFormatInteger(n: int)
    ensures Scan(FormatInteger(n), 0, LeadingWhite, false, 0) == Some(n)
  {
    var m := if n < 0 then -n else n;
    var f := FormatInteger(n);
    var first := if n < 0 then 1 else 0;
    DigitsValueOfNatDigits(m);
    assert f[first..] == NatDigits(m);
    assert f[first..first + 1] == [f[first]];
    assert IsDigit(f[first]) by { assert f[first] == NatDigits(m)[0]; }
    ScanDigitsValue(f, first, first + 1, n < 0);
    if n < 0 {
      assert Scan(f, 0, LeadingWhite, false, 0) == Scan(f, 1, AfterSign, true, 0);
    }
  }

  /** Parsing the printed form of an in-range integer gives it back. */
  lemma {:induction false} ParseFormatInteger(n: int, lo: int, hi: int)
    requires lo <= 0 <= hi && lo <= n <= hi
    ensures ParseInteger(FormatInteger(n), lo, hi) == Some(n)
  {
    ScanFormatInteger(n);
  }

  /** A printed integer is made of digits and, for a negative one, a leading '-'. */
  lemma {:induction false} FormatIntegerChars(n: int, j: nat)
    requires j < |FormatInteger(n)|
    ensures FormatInteger(n)[j] == MINUS || IsDigit(FormatInteger(n)[j])
  {
    var m := if n < 0 then -n else n;
    var d := NatDigits(m);
    if n < 0 && j > 0 {
      assert FormatInteger(n)[j] == d[j - 1];
    } else if n >= 0 {
      assert FormatInteger(n)[j] == d[j];
    }
  }
}
