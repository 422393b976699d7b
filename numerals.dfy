/**
 * The number/text conversions of JavaScript that the colour class relies on:
 * `Number.prototype.toString` for integers in base 10 and 16, the same for
 * finite decimals in base 10, and `parseInt(s, 16)` as section 19.2.5 of
 * ECMA-262 defines it. Numbers are exact: integers are `int`, decimals are
 * `units / 10^scale`.
 */
module Numerals {
  import opened Wrappers

  function Pow10(n: nat): (p: nat)
    ensures p >= 1
  {
    if n == 0 then 1 else 10 * Pow10(n - 1)
  }

  // ---------------------------------------------------------------------
  // Digits

  predicate IsHexDigit(c: char) {
    ('0' <= c <= '9') || ('a' <= c <= 'f') || ('A' <= c <= 'F')
  }

  function DigitValue(c: char): (v: nat)
    requires IsHexDigit(c)
    ensures v < 16
  {
    if '0' <= c <= '9' then c as int - '0' as int
    else if 'a' <= c <= 'f' then c as int - 'a' as int + 10
    else c as int - 'A' as int + 10
  }

  /** `c` is a digit of radix `base` (at most 16). */
  predicate IsDigit(c: char, base: nat) {
    IsHexDigit(c) && DigitValue(c) < base
  }

  predicate AllDigits(s: string, base: nat) {
    forall k :: 0 <= k < |s| ==> IsDigit(s[k], base)
  }

  /** The lowercase digit `toString` writes for the value `d`. */
  function DigitChar(d: nat): (c: char)
    requires d < 16
    ensures IsHexDigit(c) && DigitValue(c) == d
    ensures !('A' <= c <= 'F')
  {
    if d < 10 then ('0' as int + d) as char else ('a' as int + d - 10) as char
  }

  /** The number a string of digits denotes, most significant first. */
  function ValueOf(s: string, base: nat): nat
    requires AllDigits(s, base)
    decreases |s|
  {
    if s == [] then 0 else ValueOf(s[..|s| - 1], base) * base + DigitValue(s[|s| - 1])
  }

  // ---------------------------------------------------------------------
  // Number.prototype.toString on integers

  /** The digits of `n` in radix `base`, most significant first, with no leading zero. */
  function NatDigits(n: nat, base: nat): string
    requires base == 10 || base == 16
    decreases n
  {
    if n < base then [DigitChar(n)] else NatDigits(n / base, base) + [DigitChar(n % base)]
  }

  /** `n.toString(base)` for an integer `n`: a minus sign, then the digits of its magnitude. */
  function NumberToString(n: int, base: nat): string
    requires base == 10 || base == 16
  {
    if n < 0 then "-" + NatDigits(-n, base) else NatDigits(n, base)
  }

  /**
   * Reading the digits back gives the number; they are digits of the radix,
   * there is at least one, and the first is `0` only for zero itself.
   */
  lemma {:induction false} NatDigitsRoundTrip(n: nat, base: nat)
    requires base == 10 || base == 16
    ensures var s := NatDigits(n, base);
      |s| >= 1 && AllDigits(s, base) && ValueOf(s, base) == n && (s[0] == '0' ==> n == 0)
    decreases n
  {
    var s := NatDigits(n, base);
    if n >= base {
      var q := n / base;
      NatDigitsRoundTrip(q, base);
      var init := NatDigits(q, base);
      assert s == init + [DigitChar(n % base)];
      assert s[..|s| - 1] == init;
      assert s[0] == init[0];
      assert q * base + n % base == n;
    }
  }

  /** One digit for numbers below the radix; two from the radix up to its square. */
  lemma NatDigitsLength(n: nat, base: nat)
    requires base == 10 || base == 16
    ensures |NatDigits(n, base)| == 1 <==> n < base
    ensures base <= n < base * base ==> |NatDigits(n, base)| == 2
  {
    if n >= base {
      assert n / base >= 1;
      NatDigitsRoundTrip(n / base, base);
      if n < base * base {
        assert n / base < base;
      }
    }
  }

  /** `toString` writes only digits and the minus sign. */
  lemma NumberToStringChars(n: int, base: nat)
    requires base == 10 || base == 16
    ensures forall k :: 0 <= k < |NumberToString(n, base)| ==>
      IsDigit(NumberToString(n, base)[k], base) || (k == 0 && n < 0 && NumberToString(n, base)[k] == '-')
  {
    if n < 0 {
      NatDigitsRoundTrip(-n, base);
      var s := NumberToString(n, base);
      forall k | 0 < k < |s| ensures IsDigit(s[k], base) {
        assert s[k] == NatDigits(-n, base)[k - 1];
      }
    } else {
      NatDigitsRoundTrip(n, base);
    }
  }

  // ---------------------------------------------------------------------
  // parseInt(s, 16)

  /** The white space and line terminators `parseInt` skips first (StrWhiteSpaceChar). */
  predicate IsStrWhiteSpace(c: char) {
    c == '\t' || c == '\n' || c == '\U{000B}' || c == '\U{000C}' || c == '\r' || c == ' ' ||
    c == '\U{00A0}' || c == '\U{1680}' || ('\U{2000}' <= c <= '\U{200A}') ||
    c == '\U{2028}' || c == '\U{2029}' || c == '\U{202F}' || c == '\U{205F}' ||
    c == '\U{3000}' || c == '\U{FEFF}'
  }

  /** `s` without its leading white space. */
  function TrimStart(s: string): (t: string)
    ensures t == [] || !IsStrWhiteSpace(t[0])
    decreases |s|
  {
    if s != [] && IsStrWhiteSpace(s[0]) then TrimStart(s[1..]) else s
  }

  /** What is left once the white space is skipped is the end of `s`, and all that was skipped is white space. */
  lemma {:induction false} TrimStartIsSuffix(s: string)
    ensures |TrimStart(s)| <= |s| && TrimStart(s) == s[|s| - |TrimStart(s)|..]
    ensures forall k :: 0 <= k < |s| - |TrimStart(s)| ==> IsStrWhiteSpace(s[k])
    decreases |s|
  {
    if s != [] && IsStrWhiteSpace(s[0]) {
      TrimStartIsSuffix(s[1..]);
      forall k | 0 < k < |s| - |TrimStart(s)| ensures IsStrWhiteSpace(s[k]) {
        assert s[k] == s[1..][k - 1];
      }
    }
  }

  /** The run of radix-`base` digits `s` starts with. */
  function DigitPrefix(s: string, base: nat): (p: string)
    ensures |p| <= |s| && AllDigits(p, base)
    decreases |s|
  {
    if s != [] && IsDigit(s[0], base) then [s[0]] + DigitPrefix(s[1..], base) else []
  }

  /** That run starts `s` and is the longest: a non-digit or the end follows it. */
  lemma {:induction false} DigitPrefixIsLongest(s: string, base: nat)
    ensures var p := DigitPrefix(s, base);
      p == s[..|p|] && (|p| < |s| ==> !IsDigit(s[|p|], base))
    decreases |s|
  {
    if s != [] && IsDigit(s[0], base) {
      DigitPrefixIsLongest(s[1..], base);
    }
  }

  /** The longest run of digits at the front of `w`, read as a number; none is `NaN` (`None`). */
  function ReadDigits(w: string, base: nat): Option<nat> {
    var z := DigitPrefix(w, base);
    if z == [] then None else Some(ValueOf(z, base))
  }

  /** Drops a leading `0x` or `0X`. */
  function StripHexPrefix(u: string): string {
    if |u| >= 2 && u[0] == '0' && (u[1] == 'x' || u[1] == 'X') then u[2..] else u
  }

  function Negate(v: Option<nat>): Option<int> {
    if v.None? then None else var x: int := v.value; Some(-x)
  }

  /**
   * `parseInt(s, 16)`: skip leading white space, take one sign, drop a `0x`
   * or `0X` prefix, then read the longest run of hexadecimal digits; nothing
   * to read is `NaN` (`None`). Whatever follows the digits is ignored.
   */
  function ParseIntHex(s: string): Option<int> {
    var t := TrimStart(s);
    if t != [] && t[0] == '-' then Negate(ReadDigits(StripHexPrefix(t[1..]), 16))
    else if t != [] && t[0] == '+' then ReadDigits(StripHexPrefix(t[1..]), 16)
    else ReadDigits(StripHexPrefix(t), 16)
  }

  /** A run of digits followed by a non-digit, or by nothing, is the prefix read. */
  lemma {:induction false} DigitPrefixOf(a: string, rest: string, base: nat)
    requires AllDigits(a, base) && (rest == [] || !IsDigit(rest[0], base))
    ensures DigitPrefix(a + rest, base) == a
    decreases |a|
  {
    if a != [] {
      assert (a + rest)[0] == a[0] && (a + rest)[1..] == a[1..] + rest;
      DigitPrefixOf(a[1..], rest, base);
    } else {
      assert a + rest == rest;
    }
  }

  /** A whole string of digits reads as the number it denotes. */
  lemma ReadAllDigits(a: string, base: nat)
    requires a != [] && AllDigits(a, base)
    ensures ReadDigits(a, base) == Some(ValueOf(a, base))
  {
    DigitPrefixOf(a, [], base);
    assert a + [] == a;
  }

  /** Text starting with a digit is left as it is by the white-space skip. */
  lemma TrimStartOfDigit(s: string)
    requires s != [] && IsHexDigit(s[0])
    ensures TrimStart(s) == s
  {
  }

  /** The digits `toString(16)` writes carry no `0x` prefix and read as the number. */
  lemma ReadNatDigitsHex(m: nat)
    ensures var digits := NatDigits(m, 16);
      digits != [] && IsHexDigit(digits[0]) && ReadDigits(StripHexPrefix(digits), 16) == Some(m)
  {
    var digits := NatDigits(m, 16);
    NatDigitsRoundTrip(m, 16);
    ReadAllDigits(digits, 16);
    if |digits| >= 2 {
      assert IsDigit(digits[1], 16);
    }
    assert StripHexPrefix(digits) == digits;
  }

  /** `parseInt` reads back what `toString(16)` writes. */
  lemma ParseIntHexOfNumber(n: int)
    ensures ParseIntHex(NumberToString(n, 16)) == Some(n)
  {
    var m := if n < 0 then -n else n;
    var digits := NatDigits(m, 16);
    ReadNatDigitsHex(m);
    var s := NumberToString(n, 16);
    if n < 0 {
      assert s == "-" + digits;
      assert s[0] == '-' && s[1..] == digits;
      assert TrimStart(s) == s;
    } else {
      assert s == digits;
      TrimStartOfDigit(s);
    }
  }

  /** Two hexadecimal digits read as the number they denote. */
  lemma ParseIntHexOfPair(s: string)
    requires |s| == 2 && IsHexDigit(s[0]) && IsHexDigit(s[1])
    ensures ParseIntHex(s) == Some(DigitValue(s[0]) * 16 + DigitValue(s[1]))
  {
    assert AllDigits(s, 16);
    ReadAllDigits(s, 16);
    TrimStartOfDigit(s);
    assert StripHexPrefix(s) == s;
    assert s[..1][..0] == [];
    assert ValueOf(s[..1], 16) == DigitValue(s[0]);
  }

  // ---------------------------------------------------------------------
  // Number.prototype.toString on finite decimals

  /** The decimal `units / 10^scale`. */
  datatype Decimal = Decimal(units: int, scale: nat)

  function Value(d: Decimal): real {
    d.units as real / Pow10(d.scale) as real
  }

  /** No trailing zero after the decimal point. */
  predicate Canonical(d: Decimal) {
    d.scale == 0 || d.units % 10 != 0
  }

  /** Drops trailing zeros after the decimal point. */
  function Normalize(d: Decimal): (n: Decimal)
    ensures Canonical(n) && n.scale <= d.scale
    decreases d.scale
  {
    if d.scale > 0 && d.units % 10 == 0 then Normalize(Decimal(d.units / 10, d.scale - 1)) else d
  }

  /** Ten times the numerator over ten times the denominator is the same ratio. */
  lemma ScaleDown(u: int, p: real)
    requires p > 0.0
    ensures (u * 10) as real / (10.0 * p) == u as real / p
  {
    var q := u as real / p;
    assert q * p == u as real;
    assert q * (10.0 * p) == (u * 10) as real;
  }

  /** Normalising keeps the value, and leaves a canonical decimal as it is. */
  lemma {:induction false} NormalizeKeepsValue(d: Decimal)
    ensures Value(Normalize(d)) == Value(d)
    ensures Canonical(d) ==> Normalize(d) == d
    decreases d.scale
  {
    if d.scale > 0 && d.units % 10 == 0 {
      var e := Decimal(d.units / 10, d.scale - 1);
      NormalizeKeepsValue(e);
      var p := Pow10(e.scale) as real;
      assert e.units * 10 == d.units;
      assert Pow10(d.scale) as real == 10.0 * p;
      ScaleDown(e.units, p);
    }
  }

  /** `m` with its last `k` decimal digits dropped: `m / 10^k`. */
  function Shift(m: nat, k: nat): nat {
    if k == 0 then m else Shift(m / 10, k - 1)
  }

  /** The last `k` decimal digits of `m`, with leading zeros. */
  function Fraction(m: nat, k: nat): (f: string)
    ensures |f| == k
  {
    if k == 0 then [] else Fraction(m / 10, k - 1) + [DigitChar(m % 10)]
  }

  /** The digits dropped and the digits kept make up `m` again. */
  lemma {:induction false} ShiftFraction(m: nat, k: nat)
    ensures AllDigits(Fraction(m, k), 10)
    ensures Shift(m, k) * Pow10(k) + ValueOf(Fraction(m, k), 10) == m
  {
    if k > 0 {
      var f := Fraction(m, k);
      ShiftFraction(m / 10, k - 1);
      assert f[..|f| - 1] == Fraction(m / 10, k - 1);
      var a := Shift(m / 10, k - 1) * Pow10(k - 1);
      assert Shift(m, k) * Pow10(k) == 10 * a;
      assert a + ValueOf(Fraction(m / 10, k - 1), 10) == m / 10;
    }
  }

  /**
   * `String(x)` for a finite decimal `x`: a minus sign for negatives, the
   * integer digits, then, when the value is not whole, a point and the
   * fraction digits without trailing zeros.
   */
  function FormatDecimal(d: Decimal): string {
    Numeral(Normalize(d))
  }

  /** The numeral of `n` with exactly `n.scale` digits after the point (none, and no point, for 0). */
  function Numeral(n: Decimal): string {
    if n.units < 0 then "-" + UnsignedNumeral(-n.units, n.scale) else UnsignedNumeral(n.units, n.scale)
  }

  /** The numeral of `m / 10^k` with exactly `k` digits after the point. */
  function UnsignedNumeral(m: nat, k: nat): string {
    if k == 0 then NatDigits(m, 10) else NatDigits(Shift(m, k), 10) + "." + Fraction(m, k)
  }

  /**
   * Reads an unsigned decimal numeral `ddd` or `ddd.fff` into the decimal it
   * denotes, keeping as many fraction digits as were written.
   */
  function ReadUnsigned(t: string): Option<Decimal> {
    var whole := DigitPrefix(t, 10);
    var rest := t[|whole|..];
    if whole == [] then None
    else if rest == [] then Some(Decimal(ValueOf(whole, 10), 0))
    else if rest[0] != '.' then None
    else
      var frac := DigitPrefix(rest[1..], 10);
      if frac == [] || |frac| < |rest| - 1 then None
      else Some(Decimal(ValueOf(whole, 10) * Pow10(|frac|) + ValueOf(frac, 10), |frac|))
  }

  /** Reads an optionally signed decimal numeral `-ddd.fff`. */
  function ReadDecimal(s: string): Option<Decimal> {
    if s != [] && s[0] == '-' then
      var v := ReadUnsigned(s[1..]);
      if v.None? then None else Some(Decimal(-v.value.units, v.value.scale))
    else ReadUnsigned(s)
  }

  /** A run of digits alone reads as a whole number. */
  lemma ReadWhole(a: string)
    requires a != [] && AllDigits(a, 10)
    ensures ReadUnsigned(a) == Some(Decimal(ValueOf(a, 10), 0))
  {
    DigitPrefixOf(a, [], 10);
    assert a + [] == a;
  }

  /** The whole part of `a.f` is `a`, and the point and `f` follow it. */
  lemma SplitAtPoint(a: string, f: string)
    requires AllDigits(a, 10)
    ensures DigitPrefix(a + "." + f, 10) == a && (a + "." + f)[|a|..] == "." + f
  {
    assert a + "." + f == a + ("." + f);
    DigitPrefixOf(a, "." + f, 10);
  }

  /** Digits, a point and more digits read as the digits scaled by the number after the point. */
  lemma ReadPoint(a: string, f: string)
    requires a != [] && AllDigits(a, 10) && f != [] && AllDigits(f, 10)
    ensures ReadUnsigned(a + "." + f) == Some(Decimal(ValueOf(a, 10) * Pow10(|f|) + ValueOf(f, 10), |f|))
  {
    SplitAtPoint(a, f);
    var rest := "." + f;
    assert rest[0] == '.' && rest[1..] == f && |rest| - 1 == |f|;
    ReadWholeDigits(f);
  }

  /** A run of digits is read whole. */
  lemma ReadWholeDigits(f: string)
    requires AllDigits(f, 10)
    ensures DigitPrefix(f, 10) == f
  {
    DigitPrefixOf(f, [], 10);
    assert f + [] == f;
  }

  /** Integers are written by `toString(10)` and read back as whole decimals. */
  lemma ReadNumberToString(n: int)
    ensures ReadDecimal(NumberToString(n, 10)) == Some(Decimal(n, 0))
  {
    var m := if n < 0 then -n else n;
    var digits := NatDigits(m, 10);
    NatDigitsRoundTrip(m, 10);
    ReadWhole(digits);
    if n < 0 {
      ReadNegated(NumberToString(n, 10), digits, Decimal(m, 0));
    } else {
      assert NumberToString(n, 10) == digits && IsDigit(digits[0], 10);
    }
  }

  /** The numeral of a whole number reads back as that number. */
  lemma ReadWholeNumeral(m: nat)
    ensures var t := UnsignedNumeral(m, 0);
      t != [] && IsDigit(t[0], 10) && ReadUnsigned(t) == Some(Decimal(m, 0))
  {
    NatDigitsRoundTrip(m, 10);
    ReadWhole(NatDigits(m, 10));
  }

  /** The numeral of `m / 10^k` with `k > 0` reads back as that decimal. */
  lemma ReadPointNumeral(m: nat, k: nat)
    requires k > 0
    ensures var t := UnsignedNumeral(m, k);
      t != [] && IsDigit(t[0], 10) && ReadUnsigned(t) == Some(Decimal(m, k))
  {
    var whole, frac := NatDigits(Shift(m, k), 10), Fraction(m, k);
    NatDigitsRoundTrip(Shift(m, k), 10);
    ShiftFraction(m, k);
    ReadPoint(whole, frac);
    assert (whole + "." + frac)[0] == whole[0];
  }

  lemma ReadUnsignedNumeral(m: nat, k: nat)
    ensures var t := UnsignedNumeral(m, k);
      t != [] && IsDigit(t[0], 10) && ReadUnsigned(t) == Some(Decimal(m, k))
  {
    if k == 0 {
      ReadWholeNumeral(m);
    } else {
      ReadPointNumeral(m, k);
    }
  }

  /** A minus sign in front negates what the rest reads as. */
  lemma ReadNegated(s: string, t: string, d: Decimal)
    requires s == "-" + t && ReadUnsigned(t) == Some(d)
    ensures ReadDecimal(s) == Some(Decimal(-d.units, d.scale))
  {
    assert s[0] == '-' && s[1..] == t;
  }

  /** Text not starting with a minus sign is read unsigned. */
  lemma ReadNonNegative(t: string)
    requires t != [] && t[0] != '-'
    ensures ReadDecimal(t) == ReadUnsigned(t)
  {
  }

  lemma ReadNegativeNumeral(n: Decimal)
    requires n.units < 0
    ensures ReadDecimal(Numeral(n)) == Some(n)
  {
    var s := Numeral(n);
    var t := UnsignedNumeral(-n.units, n.scale);
    assert s[0] == '-' && s[1..] == t;
    ReadUnsignedNumeral(-n.units, n.scale);
  }

  lemma ReadNonNegativeNumeral(n: Decimal)
    requires n.units >= 0
    ensures ReadDecimal(Numeral(n)) == Some(n)
  {
    ReadUnsignedNumeral(n.units, n.scale);
    ReadNonNegative(UnsignedNumeral(n.units, n.scale));
  }

  /** A numeral reads back as the decimal it was written from. */
  lemma ReadNumeral(n: Decimal)
    ensures ReadDecimal(Numeral(n)) == Some(n)
  {
    if n.units < 0 {
      ReadNegativeNumeral(n);
    } else {
      ReadNonNegativeNumeral(n);
    }
  }

  /** A decimal is written and read back as its canonical form, which has the same value. */
  lemma FormatDecimalRoundTrip(d: Decimal)
    ensures ReadDecimal(FormatDecimal(d)) == Some(Normalize(d))
    ensures Value(Normalize(d)) == Value(d)
  {
    NormalizeKeepsValue(d);
    ReadNumeral(Normalize(d));
  }
}
