/** JavaScript's `parseInt(x)` (no radix argument) and the `|| 0` fallback the
    webhook applies to its count fields. */
module JsNumber {
  import opened Wrappers
  import JsText

  /** The numbers `parseInt` can return. `-0` is folded into `0`: both are
      falsy, so `|| 0` treats them alike. Results are exact integers; the
      rounding of doubles beyond 2^53 is not modelled. */
  datatype Number = NaN | Finite(value: int)

  /** The value of `c` as a digit in base `radix` (10 or 16), or -1. */
  function DigitValue(c: char, radix: nat): (d: int)
    ensures -1 <= d < radix
  {
    if '0' <= c <= '9' then (if (c as int - '0' as int) < radix then c as int - '0' as int else -1)
    else if radix == 16 && 'a' <= c <= 'f' then c as int - 'a' as int + 10
    else if radix == 16 && 'A' <= c <= 'F' then c as int - 'A' as int + 10
    else -1
  }

  predicate IsDigit(c: char, radix: nat) {
    DigitValue(c, radix) >= 0
  }

  predicate AllDigits(s: string, radix: nat) {
    forall i :: 0 <= i < |s| ==> IsDigit(s[i], radix)
  }

  /** The length of the longest prefix of `s` made of digits. */
  function DigitPrefix(s: string, radix: nat): (n: nat)
    ensures n <= |s| && AllDigits(s[..n], radix)
    ensures n == |s| || !IsDigit(s[n], radix)
  {
    if s != [] && IsDigit(s[0], radix) then
      var n := 1 + DigitPrefix(s[1..], radix);
      assert forall i :: 1 <= i < n ==> s[..n][i] == s[1..][..n - 1][i - 1];
      n
    else 0
  }

  /** The positional value of a digit string, most significant digit first. */
  function DigitsValue(s: string, radix: nat): nat
    requires AllDigits(s, radix)
  {
    if s == [] then 0
    else DigitsValue(s[..|s| - 1], radix) * radix + DigitValue(s[|s| - 1], radix)
  }

  /** The digits `v` begins with, read in base `radix`, or None when `v` does
      not begin with a digit. */
  function DigitRun(v: string, radix: nat): Option<nat> {
    var n := DigitPrefix(v, radix);
    if n == 0 then None else Some(DigitsValue(v[..n], radix))
  }

  predicate HexPrefixed(u: string) {
    |u| >= 2 && u[0] == '0' && (u[1] == 'x' || u[1] == 'X')
  }

  /** What follows the sign: base 16 after a `0x`/`0X` prefix, base 10 otherwise. */
  function ParseUnsigned(u: string): Option<nat> {
    if HexPrefixed(u) then DigitRun(u[2..], 16) else DigitRun(u, 10)
  }

  /** `t` without a leading `+` or `-`. */
  function Unsigned(t: string): string {
    if t != [] && (t[0] == '-' || t[0] == '+') then t[1..] else t
  }

  /** `parseInt(s)`: skip leading white space, read an optional sign, then the
      longest run of digits in the base `ParseUnsigned` picks; no digits at
      all is NaN. */
  function ParseInt(s: string): Number {
    ParseTrimmed(JsText.TrimStart(s))
  }

  /** `parseInt` once the leading white space is gone. */
  function ParseTrimmed(t: string): Number {
    match ParseUnsigned(Unsigned(t))
    case None => NaN
    case Some(m) => Finite(if t != [] && t[0] == '-' then 0 - m else m)
  }

  /** `parseInt(x) || 0` for a form value `x` that may be missing: a missing
      value is `undefined`, whose parse is NaN. */
  function CountOrZero(x: Option<string>): int {
    match x
    case None => 0
    case Some(s) => match ParseInt(s) case NaN => 0 case Finite(v) => v
  }

  /** The decimal numeral of `n`, as a form would send it. */
  function Decimal(n: nat): (s: string)
    ensures |s| >= 1 && AllDigits(s, 10)
  {
    var d := ['0' + (n % 10) as char];
    if n < 10 then d else Decimal(n / 10) + d
  }

  lemma {:induction false} DecimalValue(n: nat)
    ensures DigitsValue(Decimal(n), 10) == n
  {
    var s := Decimal(n);
    if n >= 10 {
      DecimalValue(n / 10);
      assert s[..|s| - 1] == Decimal(n / 10);
    }
  }

  /** The count coercion never fails: the decimal numeral of any `n` gives
      back `n`, and a missing value gives 0. */
  lemma CountOrZeroDecimal(n: nat)
    ensures CountOrZero(Some(Decimal(n))) == n
    ensures CountOrZero(None) == 0
  {
    assert Decimal(n) + [] == Decimal(n);
    CountOrZeroTrailingText(n, []);
  }

  /** Text after the digits is ignored (`"12 children"` counts 12), unless
      the numeral is `0` and the text starts with `x` or `X`: `parseInt`
      then reads the rest as hexadecimal. */
  lemma CountOrZeroTrailingText(n: nat, rest: string)
    requires rest == [] || !IsDigit(rest[0], 10)
    requires !HexPrefixed(Decimal(n) + rest)
    ensures CountOrZero(Some(Decimal(n) + rest)) == n
  {
    var d := Decimal(n);
    var s := d + rest;
    assert s[..|d|] == d;
    assert |d| < |s| ==> s[|d|] == rest[0];
    ParseIntLeadingDecimal(s, |d|);
    DecimalValue(n);
  }

  /** A decimal digit is neither white space nor a sign. */
  lemma DigitIsPlain(c: char)
    requires IsDigit(c, 10)
    ensures !JsText.IsWhitespace(c) && c != '-' && c != '+'
  {
  }

  /** `parseInt` of a string that starts with `k` decimal digits followed by
      a non-digit (or nothing) reads those digits. */
  lemma ParseIntLeadingDecimal(s: string, k: nat)
    requires 1 <= k <= |s| && AllDigits(s[..k], 10)
    requires k == |s| || !IsDigit(s[k], 10)
    requires !HexPrefixed(s)
    ensures ParseInt(s) == Finite(DigitsValue(s[..k], 10))
  {
    DigitsStartPlain(s, k);
    DigitPrefixExact(s, k, 10);
    ParseIntPlain(s);
  }

  lemma DigitsStartPlain(s: string, k: nat)
    requires 1 <= k <= |s| && AllDigits(s[..k], 10)
    ensures JsText.TrimStart(s) == s && Unsigned(s) == s
  {
    assert IsDigit(s[..k][0], 10);
    DigitIsPlain(s[0]);
    JsText.TrimStartKeeps(s);
  }

  /** For a string with no leading white space, sign or hex prefix, `parseInt`
      is the decimal digit run. */
  lemma ParseIntPlain(s: string)
    requires JsText.TrimStart(s) == s && Unsigned(s) == s && !HexPrefixed(s)
    ensures ParseInt(s) == match DigitRun(s, 10) case None => NaN case Some(m) => Finite(m)
  {
  }

  lemma {:induction false} DigitPrefixExact(s: string, k: nat, radix: nat)
    requires k <= |s| && AllDigits(s[..k], radix)
    requires k == |s| || !IsDigit(s[k], radix)
    ensures DigitPrefix(s, radix) == k
  {
    if k > 0 {
      assert IsDigit(s[..k][0], radix);
      assert s[1..][..k - 1] == s[..k][1..];
      DigitPrefixExact(s[1..], k - 1, radix);
    }
  }


  /** An empty or non-numeric count field counts 0. */
  lemma CountOrZeroOfNonNumeric()
    ensures CountOrZero(Some("")) == 0
    ensures CountOrZero(Some("abc")) == 0
  {
    var empty: string, text: string := "", "abc";
    assert text[0] == 'a';
    ParseIntNoDigits(empty);
    ParseIntNoDigits(text);
  }

  /** A string that starts with neither white space, a sign nor a digit is NaN. */
  lemma ParseIntNoDigits(s: string)
    requires s == [] || (!JsText.IsWhitespace(s[0]) && !IsDigit(s[0], 10) && s[0] != '-' && s[0] != '+')
    ensures ParseInt(s) == NaN
  {
    JsText.TrimStartKeeps(s);
    assert Unsigned(s) == s;
    assert !HexPrefixed(s);
    ParseIntPlain(s);
  }

  /** `parseInt` skips any leading white space. */
  lemma ParseIntSkipsWhitespace(w: string, s: string)
    requires JsText.AllWhitespace(w)
    ensures ParseInt(w + s) == ParseInt(s)
  {
    TrimStartSkips(w, s);
  }

  lemma {:induction false} TrimStartSkips(w: string, s: string)
    requires JsText.AllWhitespace(w)
    ensures JsText.TrimStart(w + s) == JsText.TrimStart(s)
  {
    if w == [] {
      assert w + s == s;
    } else {
      assert (w + s)[0] == w[0];
      assert (w + s)[1..] == w[1..] + s;
      TrimStartSkips(w[1..], s);
    }
  }

  /** The negation of a parsed number; NaN stays NaN. */
  function Negate(n: Number): Number {
    match n case NaN => NaN case Finite(v) => Finite(0 - v)
  }

  /** A `+` sign changes nothing and a `-` sign negates what follows. */
  lemma ParseIntSigns(s: string)
    requires s == [] || (!JsText.IsWhitespace(s[0]) && s[0] != '-' && s[0] != '+')
    ensures ParseInt("+" + s) == ParseInt(s)
    ensures ParseInt("-" + s) == Negate(ParseInt(s))
  {
    JsText.TrimStartKeeps(s);
    SignedPlain('+', s);
    SignedPlain('-', s);
  }

  /** `parseInt` of a sign followed by an unsigned, unpadded `s`. */
  lemma SignedPlain(sign: char, s: string)
    requires sign == '+' || sign == '-'
    requires s == [] || (!JsText.IsWhitespace(s[0]) && s[0] != '-' && s[0] != '+')
    requires JsText.TrimStart(s) == s
    ensures ParseInt([sign] + s) == if sign == '-' then Negate(ParseInt(s)) else ParseInt(s)
  {
    var u := [sign] + s;
    JsText.TrimStartKeeps(u);
    assert u[1..] == s;
    assert Unsigned(u) == s && Unsigned(s) == s;
  }

  /** After `0x` or `0X`, `parseInt` reads the longest run of hexadecimal
      digits in base 16 (`"0x1A"` gives 26). */
  lemma ParseIntLeadingHex(s: string, k: nat)
    requires HexPrefixed(s) && 1 <= k <= |s| - 2
    requires AllDigits(s[2..][..k], 16)
    requires k == |s| - 2 || !IsDigit(s[2 + k], 16)
    ensures ParseInt(s) == Finite(DigitsValue(s[2..][..k], 16))
  {
    HexStartPlain(s);
    assert k == |s[2..]| || s[2..][k] == s[2 + k];
    DigitPrefixExact(s[2..], k, 16);
  }

  /** A hex-prefixed string has no leading white space or sign. */
  /** `0x`/`0X` followed by no hexadecimal digit (`"0x"`, `"0xg"`) is NaN:
      the prefix commits `parseInt` to base 16. */
  lemma ParseIntHexNoDigits(s: string)
    requires HexPrefixed(s) && (|s| == 2 || !IsDigit(s[2], 16))
    ensures ParseInt(s) == NaN
  {
    HexStartPlain(s);
    assert |s[2..]| == 0 || s[2..][0] == s[2];
  }

  lemma HexStartPlain(s: string)
    requires HexPrefixed(s)
    ensures JsText.TrimStart(s) == s && Unsigned(s) == s
  {
    DigitIsPlain(s[0]);
    JsText.TrimStartKeeps(s);
  }
}
