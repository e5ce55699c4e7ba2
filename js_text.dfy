/**
 * JavaScript strings and the string builtins the core uses: parseInt with
 * radix 16 (ECMA-262 section 19.2.5), Number.prototype.toString(radix)
 * for non-negative integers (section 21.1.3.6) and Array.prototype.join
 * (section 23.1.3.18).
 *
 * A JavaScript string is a sequence of UTF-16 code units, and its length
 * and charCodeAt count code units, so a string is modelled here as a
 * sequence of integers in [0, 65535] rather than as a Dafny string.
 */
module JsText {
  import opened Wrappers

  type CodeUnit = c: int | 0 <= c < 0x1_0000
  type JsString = seq<CodeUnit>

  const Hyphen: CodeUnit := '-' as int
  const Plus: CodeUnit := '+' as int
  const Zero: CodeUnit := '0' as int

  /** WhiteSpace or LineTerminator (ECMA-262 sections 12.2 and 12.3), which parseInt skips. */
  predicate IsSpace(c: CodeUnit) {
    || c == 0x09 || c == 0x0B || c == 0x0C || c == 0x20 || c == 0xA0 || c == 0xFEFF
    || c == 0x1680 || (0x2000 <= c <= 0x200A) || c == 0x202F || c == 0x205F || c == 0x3000
    || c == 0x0A || c == 0x0D || c == 0x2028 || c == 0x2029
  }

  /** The string without its leading white space. */
  function TrimStart(s: JsString): (t: JsString)
    ensures |t| <= |s| && t == s[|s| - |t|..]
    ensures t == [] || !IsSpace(t[0])
    ensures forall i :: 0 <= i < |s| - |t| ==> IsSpace(s[i])
  {
    if |s| > 0 && IsSpace(s[0]) then
      var t := TrimStart(s[1..]);
      assert forall i :: 1 <= i < |s| - |t| ==> s[i] == s[1..][i - 1];
      t
    else s
  }

  /** The value of a digit in radix 36 ('0'-'9', 'a'-'z', 'A'-'Z'), or 36 when `c` is no digit. */
  function DigitValue(c: CodeUnit): (d: int)
    ensures 0 <= d <= 36
  {
    if '0' as int <= c <= '9' as int then c - '0' as int
    else if 'a' as int <= c <= 'z' as int then c - 'a' as int + 10
    else if 'A' as int <= c <= 'Z' as int then c - 'A' as int + 10
    else 36
  }

  /** The lower-case digit for `d`, as Number.prototype.toString writes it. */
  function DigitChar(d: int): (c: CodeUnit)
    requires 0 <= d < 36
    ensures DigitValue(c) == d
    ensures IsLowerDigit(c)
  {
    if d < 10 then '0' as int + d else 'a' as int + d - 10
  }

  /** A character of [0-9a-z]. */
  predicate IsLowerDigit(c: CodeUnit) {
    ('0' as int <= c <= '9' as int) || ('a' as int <= c <= 'z' as int)
  }

  predicate AllDigits(s: JsString, radix: int) {
    forall i :: 0 <= i < |s| ==> DigitValue(s[i]) < radix
  }

  /** The length of the longest prefix of `s` made of radix-`radix` digits. */
  function DigitPrefixLength(s: JsString, radix: int): (n: nat)
    ensures n <= |s| && AllDigits(s[..n], radix)
    ensures n < |s| ==> DigitValue(s[n]) >= radix
  {
    if |s| > 0 && DigitValue(s[0]) < radix then
      var n := 1 + DigitPrefixLength(s[1..], radix);
      assert s[..n] == [s[0]] + s[1..][..n - 1];
      n
    else 0
  }

  /** The number a digit string denotes, most significant digit first. */
  function DigitsValue(s: JsString, radix: nat): (v: nat)
    requires AllDigits(s, radix)
  {
    if s == [] then 0
    else DigitsValue(s[..|s| - 1], radix) * radix + DigitValue(s[|s| - 1])
  }

  /** A digit string of length n denotes a number below radix^n. */
  lemma {:induction false} DigitsValueBound(s: JsString, radix: nat)
    requires AllDigits(s, radix)
    ensures DigitsValue(s, radix) < Power(radix, |s|)
  {
    if s != [] {
      var init := s[..|s| - 1];
      DigitsValueBound(init, radix);
      var v := DigitsValue(init, radix);
      var p := Power(radix, |init|);
      var d := DigitValue(s[|s| - 1]);
      assert DigitsValue(s, radix) == v * radix + d;
      assert Power(radix, |s|) == p * radix;
      NextDigitBound(v, d, p, radix);
    }
  }

  lemma NextDigitBound(v: int, d: int, p: int, radix: int)
    requires 0 <= v < p && 0 <= d < radix
    ensures v * radix + d < p * radix
  {
    assert (v + 1) * radix <= p * radix;
  }

  function Power(b: nat, e: nat): nat {
    if e == 0 then 1 else Power(b, e - 1) * b
  }

  /**
   * parseInt(s, 16): skip leading white space, take an optional sign and an
   * optional "0x"/"0X" prefix, then the longest run of hexadecimal digits.
   * None stands for NaN, the result when that run is empty. The value is
   * the exact one: the rounding to a double above 2^53 is not modelled.
   */
  function ParseInt16(s: JsString): (r: Option<int>)
    ensures r.None? || -(Power(16, |s|) as int) < r.value < Power(16, |s|)
  {
    var t := TrimStart(s);
    var negative := |t| > 0 && t[0] == Hyphen;
    var u := if |t| > 0 && (t[0] == Hyphen || t[0] == Plus) then t[1..] else t;
    var v := if |u| >= 2 && u[0] == Zero && (u[1] == 'x' as int || u[1] == 'X' as int) then u[2..] else u;
    var n := DigitPrefixLength(v, 16);
    if n == 0 then None
    else
      var m: int := DigitsValue(v[..n], 16);
      DigitsValueBound(v[..n], 16);
      PowerMonotonic(16, n, |s|);
      Some(if negative then -m else m)
  }

  lemma {:induction false} PowerMonotonic(b: nat, e1: nat, e2: nat)
    requires b >= 1 && e1 <= e2
    ensures Power(b, e1) <= Power(b, e2)
  {
    if e1 < e2 {
      PowerMonotonic(b, e1, e2 - 1);
      assert Power(b, e2) == Power(b, e2 - 1) * b;
      ScaleUp(Power(b, e2 - 1), b);
    }
  }

  lemma ScaleUp(x: nat, b: nat)
    requires b >= 1
    ensures x <= x * b
  {
  }

  /** Exactly six hexadecimal digits parse to their value, which lies below 2^24. */
  lemma ParseSixHexDigits(s: JsString)
    requires |s| == 6 && AllDigits(s, 16)
    ensures ParseInt16(s) == Some(DigitsValue(s, 16))
    ensures DigitsValue(s, 16) < 0x100_0000
  {
    assert !IsSpace(s[0]);
    assert TrimStart(s) == s;
    assert s[..6] == s;
    DigitsValueBound(s, 16);
    assert Power(16, 6) == 0x100_0000;
  }

  /** Number.prototype.toString(radix) of a non-negative integer. */
  function ToRadixString(n: nat, radix: nat): (s: JsString)
    requires 2 <= radix <= 36
    ensures |s| >= 1 && AllDigits(s, radix)
    ensures forall i :: 0 <= i < |s| ==> IsLowerDigit(s[i])
    ensures n > 0 ==> s[0] != Zero
  {
    var last := DigitChar(n % radix);
    if n < radix then [last]
    else
      QuotientPositive(n, radix);
      var init := ToRadixString(n / radix, radix);
      assert (init + [last])[0] == init[0];
      init + [last]
  }

  lemma QuotientPositive(n: nat, radix: nat)
    requires 2 <= radix <= n
    ensures n / radix >= 1
  {
  }

  /** Reading back a number written with toString(radix) gives the number. */
  lemma {:induction false} RadixRoundTrip(n: nat, radix: nat)
    requires 2 <= radix <= 36
    ensures DigitsValue(ToRadixString(n, radix), radix) == n
  {
    var last := DigitChar(n % radix);
    if n >= radix {
      var init := ToRadixString(n / radix, radix);
      DivModSplit(n, radix);
      RadixRoundTrip(n / radix, radix);
      DigitsValueAppend(init, last, radix);
      assert ToRadixString(n, radix) == init + [last];
      Recombine(DigitsValue(init, radix), n / radix, n % radix, radix, n);
    } else {
      DivModSplit(n, radix);
      DigitsValueAppend([], last, radix);
      assert [] + [last] == [last];
    }
  }

  lemma Recombine(v: int, q: int, m: int, radix: int, n: int)
    requires v == q && q * radix + m == n
    ensures v * radix + m == n
  {
  }

  lemma DigitsValueAppend(init: JsString, c: CodeUnit, radix: nat)
    requires AllDigits(init, radix) && DigitValue(c) < radix
    ensures AllDigits(init + [c], radix)
    ensures DigitsValue(init + [c], radix) == DigitsValue(init, radix) * radix + DigitValue(c)
  {
    assert (init + [c])[..|init|] == init;
  }

  lemma DivModSplit(n: nat, radix: nat)
    requires radix >= 2
    ensures (n / radix) * radix + n % radix == n
    ensures n >= radix ==> n / radix < n
    ensures n < radix ==> n % radix == n
  {
  }

  /** Array.prototype.join: the parts with `sep` between neighbours. */
  function Join(parts: seq<JsString>, sep: JsString): (s: JsString)
    ensures parts == [] ==> s == []
    ensures |parts| == 1 ==> s == parts[0]
  {
    if parts == [] then []
    else if |parts| == 1 then parts[0]
    else parts[0] + sep + Join(parts[1..], sep)
  }
}
