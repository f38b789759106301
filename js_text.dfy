/** The pieces of JavaScript's string and number library the core relies on:
    the white-space class `\s`, `String.prototype.trim`, `indexOf`,
    `Number.prototype.toString(16)` and `toString()`, and `parseInt(s, 16)`.
    Strings are sequences of Unicode scalar values here, where JavaScript has
    UTF-16 code units; every character the core inspects is in the Basic
    Multilingual Plane, where the two agree. */
module JsText {
  import opened Wrappers

  /** White space and line terminators: the regular-expression class `\s`, and
      the characters `trim` and `parseInt` skip, which are the same set. */
  predicate IsSpace(c: char) {
    c == '\t' || c == '\n' || c == '\U{B}' || c == '\U{C}' || c == '\r' || c == ' '
    || c == '\U{A0}' || c == '\U{1680}' || ('\U{2000}' <= c <= '\U{200A}')
    || c == '\U{2028}' || c == '\U{2029}' || c == '\U{202F}' || c == '\U{205F}'
    || c == '\U{3000}' || c == '\U{FEFF}'
  }

  predicate IsDigit(c: char) { '0' <= c <= '9' }

  predicate IsHexDigit(c: char) { IsDigit(c) || 'a' <= c <= 'f' || 'A' <= c <= 'F' }

  /** The digits `toString(16)` produces: no upper-case letters. */
  predicate IsLowerHexDigit(c: char) { IsDigit(c) || 'a' <= c <= 'f' }

  predicate AllDigits(s: string) { forall k :: 0 <= k < |s| ==> IsDigit(s[k]) }

  predicate AllHex(s: string) { forall k :: 0 <= k < |s| ==> IsHexDigit(s[k]) }

  function DigitValue(c: char): (v: nat)
    requires IsHexDigit(c)
    ensures v < 16
    ensures IsDigit(c) ==> v < 10
  {
    if IsDigit(c) then c as int - '0' as int
    else if 'a' <= c <= 'f' then c as int - 'a' as int + 10
    else c as int - 'A' as int + 10
  }

  /** The lower-case digit for a value below 16. */
  function HexChar(d: nat): (c: char)
    requires d < 16
    ensures IsLowerHexDigit(c) && IsHexDigit(c) && DigitValue(c) == d
  {
    if d < 10 then ('0' as int + d) as char else ('a' as int + d - 10) as char
  }

  /** The number a string of decimal digits denotes (`parseInt(s, 10)`). */
  function DecimalValue(s: string): nat
    requires AllDigits(s)
  {
    if s == [] then 0 else DecimalValue(s[..|s| - 1]) * 10 + DigitValue(s[|s| - 1])
  }

  /** The number a string of hexadecimal digits denotes (`parseInt(s, 16)`). */
  function HexValue(s: string): nat
    requires AllHex(s)
  {
    if s == [] then 0 else HexValue(s[..|s| - 1]) * 16 + DigitValue(s[|s| - 1])
  }

  /** The hexadecimal digits of a non-negative number, without leading zeros. */
  function HexDigits(n: nat): (s: string)
    ensures |s| >= 1 && AllHex(s)
    ensures forall k :: 0 <= k < |s| ==> IsLowerHexDigit(s[k])
  {
    if n < 16 then [HexChar(n)] else HexDigits(n / 16) + [HexChar(n % 16)]
  }

  /** `n.toString(16)` for an integer `n`: a minus sign, then the digits of `|n|`. */
  function ToHexString(n: int): string {
    if n < 0 then "-" + HexDigits(-n) else HexDigits(n)
  }

  /** The text `toString(16)` writes is a minus sign exactly for a negative
      number, then one or more lower-case digits, with no leading zero unless
      the number is 0. */
  lemma ToHexStringShape(n: int)
    ensures var r := ToHexString(n);
            var i := if n < 0 then 1 else 0;
            && i < |r|
            && (r[0] == '-' <==> n < 0)
            && (forall k :: i <= k < |r| ==> IsLowerHexDigit(r[k]))
            && (r[i] == '0' <==> n == 0)
  {
    var m: nat := if n < 0 then -n else n;
    HexDigitsLead(m);
    if n < 0 {
      assert ToHexString(n)[1..] == HexDigits(m);
    }
  }

  /** The digits of a number start with a zero only for 0. */
  lemma {:induction false} HexDigitsLead(n: nat)
    ensures HexDigits(n)[0] == '0' <==> n == 0
  {
    if n >= 16 {
      HexDigitsLead(n / 16);
      assert HexDigits(n)[0] == HexDigits(n / 16)[0];
    }
  }

  /** The decimal digits of a non-negative number, without leading zeros. */
  function DecimalDigits(n: nat): (s: string)
    ensures |s| >= 1 && AllDigits(s)
  {
    if n < 10 then [HexChar(n)] else DecimalDigits(n / 10) + [HexChar(n % 10)]
  }

  /** What a template literal `${n}` writes for an integer `n`. */
  function ToDecimalString(n: int): string {
    if n < 0 then "-" + DecimalDigits(-n) else DecimalDigits(n)
  }

  lemma {:induction false} HexDigitsValue(n: nat)
    ensures HexValue(HexDigits(n)) == n
  {
    var s := HexDigits(n);
    if n < 16 {
      assert s[..|s| - 1] == [];
    } else {
      assert s[..|s| - 1] == HexDigits(n / 16);
      HexDigitsValue(n / 16);
    }
  }

  lemma {:induction false} DecimalDigitsValue(n: nat)
    ensures DecimalValue(DecimalDigits(n)) == n
  {
    var s := DecimalDigits(n);
    if n < 10 {
      assert s[..|s| - 1] == [];
    } else {
      assert s[..|s| - 1] == DecimalDigits(n / 10);
      DecimalDigitsValue(n / 10);
    }
  }

  /** Leading zeros do not change the value of a hexadecimal string. */
  lemma {:induction false} HexValueLeadingZero(s: string)
    requires AllHex(s)
    ensures AllHex("0" + s) && HexValue("0" + s) == HexValue(s)
  {
    var z := "0" + s;
    if s != [] {
      assert z[..|z| - 1] == "0" + s[..|s| - 1];
      HexValueLeadingZero(s[..|s| - 1]);
    } else {
      assert z[..|z| - 1] == [];
    }
  }

  /** The first index at or after `i` that is not white space. */
  function SkipSpaces(s: string, i: nat): (j: nat)
    requires i <= |s|
    ensures i <= j <= |s|
    ensures forall k :: i <= k < j ==> IsSpace(s[k])
    ensures j < |s| ==> !IsSpace(s[j])
    decreases |s| - i
  {
    if i < |s| && IsSpace(s[i]) then SkipSpaces(s, i + 1) else i
  }

  /** The end of the run of decimal digits that starts at `i`. */
  function DigitRunEnd(s: string, i: nat): (j: nat)
    requires i <= |s|
    ensures i <= j <= |s|
    ensures AllDigits(s[i..j])
    ensures j < |s| ==> !IsDigit(s[j])
    decreases |s| - i
  {
    if i < |s| && IsDigit(s[i]) then DigitRunEnd(s, i + 1) else i
  }

  /** The end of the run of hexadecimal digits that starts at `i`. */
  function HexRunEnd(s: string, i: nat): (j: nat)
    requires i <= |s|
    ensures i <= j <= |s|
    ensures AllHex(s[i..j])
    ensures j < |s| ==> !IsHexDigit(s[j])
    decreases |s| - i
  {
    if i < |s| && IsHexDigit(s[i]) then HexRunEnd(s, i + 1) else i
  }

  /** The end of `s` once the white space at its end, down to index `lo`, is dropped. */
  function TrimEndIndex(s: string, lo: nat, j: nat): (e: nat)
    requires lo <= j <= |s|
    ensures lo <= e <= j
    ensures forall k :: e <= k < j ==> IsSpace(s[k])
    ensures e > lo ==> !IsSpace(s[e - 1])
    decreases j
  {
    if j > lo && IsSpace(s[j - 1]) then TrimEndIndex(s, lo, j - 1) else j
  }

  /** `s.trim()`: `s` without the white space at either end. */
  function Trim(s: string): (r: string)
    ensures r != [] ==> !IsSpace(r[0]) && !IsSpace(r[|r| - 1])
    ensures var a := SkipSpaces(s, 0);
            a + |r| <= |s| && s[a..a + |r|] == r
            && (forall k :: a + |r| <= k < |s| ==> IsSpace(s[k]))
  {
    var a := SkipSpaces(s, 0);
    s[a..TrimEndIndex(s, a, |s|)]
  }

  function IndexFrom(s: string, c: char, i: nat): (r: int)
    requires i <= |s|
    ensures r == -1 || i <= r < |s|
    ensures r == -1 <==> (forall k :: i <= k < |s| ==> s[k] != c)
    ensures r >= 0 ==> s[r] == c && forall k :: i <= k < r ==> s[k] != c
    decreases |s| - i
  {
    if i == |s| then -1 else if s[i] == c then i else IndexFrom(s, c, i + 1)
  }

  /** `s.indexOf(c)`: the first position of `c`, or -1. */
  function IndexOf(s: string, c: char): (r: int)
    ensures -1 <= r < |s|
    ensures r == -1 <==> c !in s
    ensures r >= 0 ==> s[r] == c && c !in s[..r]
  {
    var r := IndexFrom(s, c, 0);
    assert r >= 0 ==> forall k :: 0 <= k < r ==> s[..r][k] == s[k];
    assert c in s ==> exists k :: 0 <= k < |s| && s[k] == c;
    r
  }

  /** `parseInt(s, 16)`, with `None` for NaN: leading white space, an optional
      sign, an optional `0x`/`0X` prefix, then the longest run of hexadecimal digits. */
  function ParseIntHex(s: string): Option<int> {
    ParseSignedHex(s, SkipSpaces(s, 0))
  }

  /** What `parseInt(s, 16)` gives, case by case: NaN for empty or blank text
      and for text whose first character is neither a sign nor a digit; a
      negative number only after a minus sign; without a sign or a `0x` prefix,
      the value of the digits up to the first character that is not one. */
  lemma ParseIntHexCases(s: string)
    ensures var r := ParseIntHex(s);
            var i := SkipSpaces(s, 0);
            && (i == |s| ==> r.None?)
            && (i < |s| && !IsHexDigit(s[i]) && s[i] != '-' && s[i] != '+' ==> r.None?)
            && (r.Some? && r.value < 0 ==> i < |s| && s[i] == '-')
            && (i < |s| && IsHexDigit(s[i]) && !(i + 1 < |s| && s[i] == '0' && (s[i + 1] == 'x' || s[i + 1] == 'X')) ==>
                  r == Some(HexValue(s[i..HexRunEnd(s, i)]) as int))
  {
    var i := SkipSpaces(s, 0);
    assert ParseIntHex(s) == ParseSignedHex(s, i);
    if i == |s| || (!IsHexDigit(s[i]) && s[i] != '-' && s[i] != '+') {
      assert ParseSignedHex(s, i) == HexDigitsAt(s, false, i);
      assert HexRunEnd(s, i) == i;
    } else if i < |s| && s[i] != '-' {
      assert ParseSignedHex(s, i).Some? ==> ParseSignedHex(s, i).value >= 0;
      if IsHexDigit(s[i]) && !(i + 1 < |s| && s[i] == '0' && (s[i + 1] == 'x' || s[i + 1] == 'X')) {
        assert ParseSignedHex(s, i) == HexDigitsAt(s, false, i);
      }
    }
  }

  /** The sign and the prefix, from the first character `i` that is not white space. */
  function ParseSignedHex(s: string, i: nat): Option<int>
    requires i <= |s|
  {
    var negative := i < |s| && s[i] == '-';
    var j := if i < |s| && (s[i] == '-' || s[i] == '+') then i + 1 else i;
    var k := if j + 1 < |s| && s[j] == '0' && (s[j + 1] == 'x' || s[j + 1] == 'X') then j + 2 else j;
    HexDigitsAt(s, negative, k)
  }

  /** The run of digits from `k`, if there is one, with the sign applied. */
  function HexDigitsAt(s: string, negative: bool, k: nat): Option<int>
    requires k <= |s|
  {
    var e := HexRunEnd(s, k);
    if e == k then None
    else Some(if negative then 0 - HexValue(s[k..e]) as int else HexValue(s[k..e]) as int)
  }

  /** A run of digits that reaches the end of the string is read whole. */
  lemma HexDigitsToEnd(s: string, negative: bool, k: nat)
    requires k < |s| && AllHex(s[k..])
    ensures HexDigitsAt(s, negative, k) == Some(if negative then 0 - HexValue(s[k..]) as int else HexValue(s[k..]) as int)
  {
    HexRunToEnd(s, k);
    assert s[k..HexRunEnd(s, k)] == s[k..];
  }

  /** `parseInt(s, 16)` of `0x` followed by nothing but hexadecimal digits. */
  lemma ParseIntHexPrefixed(s: string)
    requires |s| >= 3 && s[0] == '0' && s[1] == 'x' && AllHex(s[2..])
    ensures ParseIntHex(s) == Some(HexValue(s[2..]) as int)
  {
    assert !IsSpace(s[0]);
    assert SkipSpaces(s, 0) == 0;
    HexDigitsToEnd(s, false, 2);
  }

  /** The text `toString(16)` writes reads back as the same number. */
  lemma ParseIntHexOfToHexString(n: int)
    ensures ParseIntHex(ToHexString(n)) == Some(n)
  {
    var m: nat := if n < 0 then -n else n;
    var h := HexDigits(m);
    var s := ToHexString(n);
    var i := if n < 0 then 1 else 0;
    assert s[i..] == h && |s| == i + |h|;
    assert s[i] == h[0] && IsLowerHexDigit(h[0]);
    assert !IsSpace(s[0]);
    assert i + 1 < |s| ==> s[i + 1] == h[1] && IsLowerHexDigit(h[1]);
    HexDigitsValue(m);
    ParseIntHexUnsigned(s, i);
  }

  /** `parseInt(s, 16)` of an optional minus sign followed by nothing but
      hexadecimal digits, the second of which is not an `x`. */
  lemma ParseIntHexUnsigned(s: string, i: nat)
    requires i < |s| && (i == 1 <==> s[0] == '-') && i <= 1 && s[0] != '+' && !IsSpace(s[0])
    requires i + 1 < |s| ==> s[i + 1] != 'x' && s[i + 1] != 'X'
    requires AllHex(s[i..])
    ensures ParseIntHex(s) == Some(if i == 1 then 0 - HexValue(s[i..]) as int else HexValue(s[i..]) as int)
  {
    assert SkipSpaces(s, 0) == 0;
    HexDigitsToEnd(s, i == 1, i);
  }

  lemma {:induction false} HexRunToEnd(s: string, i: nat)
    requires i <= |s| && AllHex(s[i..])
    ensures HexRunEnd(s, i) == |s|
    decreases |s| - i
  {
    if i < |s| {
      assert s[i..][0] == s[i];
      assert s[i + 1..] == s[i..][1..];
      HexRunToEnd(s, i + 1);
    }
  }
}
