/**
 * The colour value of src/lib/Color.ts: an RGBA colour built from three
 * components and an alpha, read from a `#rrggbb` colour code and written
 * back as a hexadecimal code and as a CSS `rgba(...)` string.
 */
module Colors {
  import opened Wrappers
  import opened Numerals

  /** The message `fromColorCode` throws for a code of the wrong length. */
  const InvalidColorCode: string := "不正なカラーコードです。"

  /**
   * A colour. `hex` is the field the constructor fills with the colour's own
   * hexadecimal code; nothing in the class changes a colour afterwards.
   */
  datatype Color = Color(r: int, g: int, b: int, a: Decimal, hex: string) {

    /** `"#"` and the lowercase base-16 digits of r, g and b, unpadded. */
    function ToHexString(): string {
      "#" + NumberToString(r, 16) + NumberToString(g, 16) + NumberToString(b, 16)
    }

    /** The CSS string `rgba(r,g,b,a)`, with `String` of each number. */
    function Rgba(): string {
      "rgba(" + NumberToString(r, 10) + "," + NumberToString(g, 10) + "," +
      NumberToString(b, 10) + "," + FormatDecimal(a) + ")"
    }
  }

  /** What every colour the constructor builds satisfies. */
  predicate WellFormed(c: Color) {
    c.hex == c.ToHexString() && c.a.units != 0
  }

  /** `a || 1`: a zero alpha is falsy and becomes 1; any other alpha stays. */
  function OrOne(a: Decimal): (o: Decimal)
    ensures o.units != 0
    ensures Value(o) == (if Value(a) == 0.0 then 1.0 else Value(a))
    ensures Value(a) != 0.0 ==> o == a
  {
    if a.units == 0 then Decimal(1, 0) else a
  }

  /** The constructor: the components are kept as given, the alpha defaults to 1, and `hex` is filled in. */
  function Create(r: int, g: int, b: int, a: Decimal): (c: Color)
    ensures WellFormed(c)
    ensures c.r == r && c.g == g && c.b == b
    ensures c.a == OrOne(a)
  {
    var c := Color(r, g, b, OrOne(a), "");
    c.(hex := c.ToHexString())
  }

  /**
   * `v & 255` for what `parseInt` returned: `NaN` becomes 0, and an integer
   * keeps its low eight bits. Its 32-bit two's-complement conversion does
   * not change those bits, so the result is the remainder modulo 256.
   */
  function Mask8(v: Option<int>): (m: int)
    ensures 0 <= m < 256
    ensures v.None? ==> m == 0
    ensures v.Some? ==> (v.value - m) % 256 == 0
  {
    if v.None? then 0 else v.value % 256
  }

  /**
   * `Color.fromColorCode(code, alpha)`: a code that is not 7 characters long
   * is refused; otherwise characters 1-2, 3-4 and 5-6 are read by
   * `parseInt(_, 16)` and masked to eight bits. The first character is not
   * looked at.
   */
  function FromColorCode(code: string, alpha: Decimal := Decimal(1, 0)): (res: Result<Color, string>)
    ensures res.Failure? <==> |code| != 7
    ensures res.Failure? ==> res.error == InvalidColorCode
    ensures res.Success? ==>
      WellFormed(res.value) && 0 <= res.value.r < 256 && 0 <= res.value.g < 256 && 0 <= res.value.b < 256
    ensures res.Success? ==> res.value.a == OrOne(alpha)
  {
    if |code| != 7 then Failure(InvalidColorCode)
    else
      Success(Create(Mask8(ParseIntHex(code[1..3])), Mask8(ParseIntHex(code[3..5])),
                     Mask8(ParseIntHex(code[5..7])), OrOne(alpha)))
  }

  // ---------------------------------------------------------------------
  // The alpha default

  /** Defaulting twice, as `fromColorCode` and then the constructor do, is defaulting once. */
  lemma OrOneIdempotent(a: Decimal)
    ensures OrOne(OrOne(a)) == OrOne(a)
  {
  }

  /** A zero alpha, written with any number of decimals, becomes 1, through the constructor and through any valid-length code. */
  lemma ZeroAlphaIsOne(r: int, g: int, b: int, k: nat, code: string)
    requires |code| == 7
    ensures Create(r, g, b, Decimal(0, k)).a == Decimal(1, 0)
    ensures FromColorCode(code, Decimal(0, k)).Success?
    ensures FromColorCode(code, Decimal(0, k)).value.a == Decimal(1, 0)
  {
  }

  // ---------------------------------------------------------------------
  // Reading a colour code

  /** A colour code of hexadecimal digits gives each component the value of its pair of digits. */
  lemma FromColorCodeReadsPairs(code: string, alpha: Decimal)
    requires |code| == 7
    requires forall k :: 1 <= k < 7 ==> IsHexDigit(code[k])
    ensures FromColorCode(code, alpha).Success?
    ensures var c := FromColorCode(code, alpha).value;
      c.r == DigitValue(code[1]) * 16 + DigitValue(code[2]) &&
      c.g == DigitValue(code[3]) * 16 + DigitValue(code[4]) &&
      c.b == DigitValue(code[5]) * 16 + DigitValue(code[6]) &&
      c.a == OrOne(alpha)
  {
    ReadPair(code, 1);
    ReadPair(code, 3);
    ReadPair(code, 5);
  }

  /** The pair of hexadecimal digits at `i` reads, masked, as its value. */
  lemma ReadPair(code: string, i: nat)
    requires i + 2 <= |code| && IsHexDigit(code[i]) && IsHexDigit(code[i + 1])
    ensures Mask8(ParseIntHex(code[i..i + 2])) == DigitValue(code[i]) * 16 + DigitValue(code[i + 1])
  {
    var s := code[i..i + 2];
    assert s[0] == code[i] && s[1] == code[i + 1];
    ParseIntHexOfPair(s);
  }

  // ---------------------------------------------------------------------
  // Writing a colour code

  /** The hexadecimal code of a colour with components in 0..255 has 7 characters exactly when no component is below 16. */
  lemma HexStringLength(c: Color)
    requires 0 <= c.r < 256 && 0 <= c.g < 256 && 0 <= c.b < 256
    ensures |c.ToHexString()| == 7 <==> c.r >= 16 && c.g >= 16 && c.b >= 16
  {
    NatDigitsLength(c.r, 16);
    NatDigitsLength(c.g, 16);
    NatDigitsLength(c.b, 16);
  }

  /** The 16-bit code of a component read back from the length-2 slice where it was written. */
  lemma ReadWritten(h: string, i: nat, n: nat)
    requires i + 2 <= |h| && h[i..i + 2] == NumberToString(n, 16) && n < 256
    ensures Mask8(ParseIntHex(h[i..i + 2])) == n
  {
    ParseIntHexOfNumber(n);
  }

  /**
   * Writing a colour with components in 0..255 as a code and reading it
   * back with the same alpha gives the same colour exactly when every
   * component is at least 16; otherwise the code is too short and is refused.
   */
  lemma HexRoundTrip(r: int, g: int, b: int, alpha: Decimal)
    requires 0 <= r < 256 && 0 <= g < 256 && 0 <= b < 256
    ensures var c := Create(r, g, b, alpha);
      FromColorCode(c.ToHexString(), alpha) == Success(c) <==> r >= 16 && g >= 16 && b >= 16
  {
    var c := Create(r, g, b, alpha);
    var h := c.ToHexString();
    HexStringLength(c);
    if r >= 16 && g >= 16 && b >= 16 {
      NatDigitsLength(r, 16);
      NatDigitsLength(g, 16);
      NatDigitsLength(b, 16);
      var hr, hg, hb := NumberToString(r, 16), NumberToString(g, 16), NumberToString(b, 16);
      assert h == "#" + hr + hg + hb;
      assert h[1..3] == hr && h[3..5] == hg && h[5..7] == hb;
      ReadWritten(h, 1, r);
      ReadWritten(h, 3, g);
      ReadWritten(h, 5, b);
      OrOneIdempotent(alpha);
    }
  }

  /** `toString` writes a hexadecimal digit below 16 as itself exactly when the digit is lowercase. */
  lemma DigitCharOfValue(c: char)
    requires IsHexDigit(c)
    ensures DigitChar(DigitValue(c)) == c <==> !('A' <= c <= 'F')
  {
  }

  /** Two hexadecimal digits whose first is not `0` are written back as two lowercase digits. */
  lemma PairDigits(hi: char, lo: char)
    requires IsHexDigit(hi) && IsHexDigit(lo) && DigitValue(hi) >= 1
    ensures NumberToString(DigitValue(hi) * 16 + DigitValue(lo), 16) ==
      [DigitChar(DigitValue(hi)), DigitChar(DigitValue(lo))]
  {
    var q, d := DigitValue(hi), DigitValue(lo);
    var n := q * 16 + d;
    assert n / 16 == q && n % 16 == d;
    assert NatDigits(q, 16) == [DigitChar(q)];
    assert NatDigits(n, 16) == NatDigits(q, 16) + [DigitChar(d)];
  }

  /**
   * Reading a code of hexadecimal digits and writing it back gives the same
   * code exactly when it starts with `#`, its digits are lowercase and no
   * pair starts with `0`.
   */
  lemma CodeRoundTrip(code: string, alpha: Decimal)
    requires |code| == 7
    requires forall k :: 1 <= k < 7 ==> IsHexDigit(code[k])
    ensures FromColorCode(code, alpha).Success?
    ensures FromColorCode(code, alpha).value.ToHexString() == code <==>
      code[0] == '#' && code[1] != '0' && code[3] != '0' && code[5] != '0' &&
      forall k :: 1 <= k < 7 ==> !('A' <= code[k] <= 'F')
  {
    FromColorCodeReadsPairs(code, alpha);
    RewriteIsCode(code, FromColorCode(code, alpha).value);
  }

  /** The same, for the colour whose components are the pairs of digits of `code`. */
  lemma RewriteIsCode(code: string, c: Color)
    requires |code| == 7
    requires forall k :: 1 <= k < 7 ==> IsHexDigit(code[k])
    requires c.r == DigitValue(code[1]) * 16 + DigitValue(code[2])
    requires c.g == DigitValue(code[3]) * 16 + DigitValue(code[4])
    requires c.b == DigitValue(code[5]) * 16 + DigitValue(code[6])
    ensures c.ToHexString() == code <==>
      code[0] == '#' && code[1] != '0' && code[3] != '0' && code[5] != '0' &&
      forall k :: 1 <= k < 7 ==> !('A' <= code[k] <= 'F')
  {
    if code[1] != '0' && code[3] != '0' && code[5] != '0' {
      CodeRewrite(code, c);
      LowercaseCode(code, c.ToHexString());
    } else {
      HexStringLength(c);
    }
  }

  /** A colour read from a code whose pairs do not start with `0` is written back digit by digit in lowercase. */
  lemma CodeRewrite(code: string, c: Color)
    requires |code| == 7
    requires forall k :: 1 <= k < 7 ==> IsHexDigit(code[k])
    requires DigitValue(code[1]) >= 1 && DigitValue(code[3]) >= 1 && DigitValue(code[5]) >= 1
    requires c.r == DigitValue(code[1]) * 16 + DigitValue(code[2])
    requires c.g == DigitValue(code[3]) * 16 + DigitValue(code[4])
    requires c.b == DigitValue(code[5]) * 16 + DigitValue(code[6])
    ensures var h := c.ToHexString();
      |h| == 7 && h[0] == '#' && forall k :: 1 <= k < 7 ==> h[k] == DigitChar(DigitValue(code[k]))
  {
    PairDigits(code[1], code[2]);
    PairDigits(code[3], code[4]);
    PairDigits(code[5], code[6]);
    var h := c.ToHexString();
    HexShape(NumberToString(c.r, 16), NumberToString(c.g, 16), NumberToString(c.b, 16));
    forall k | 1 <= k < 7
      ensures h[k] == DigitChar(DigitValue(code[k]))
    {
      if k == 1 {} else if k == 2 {} else if k == 3 {} else if k == 4 {} else if k == 5 {} else {}
    }
  }

  /** `#` and three pairs of characters are seven characters in that order. */
  lemma HexShape(p: string, q: string, t: string)
    requires |p| == 2 && |q| == 2 && |t| == 2
    ensures var h := "#" + p + q + t;
      |h| == 7 && h[0] == '#' && h[1] == p[0] && h[2] == p[1] &&
      h[3] == q[0] && h[4] == q[1] && h[5] == t[0] && h[6] == t[1]
  {
  }

  /** A code equals its rewrite with lowercase digits exactly when its own digits are lowercase. */
  lemma LowercaseCode(code: string, h: string)
    requires |code| == 7 && |h| == 7 && h[0] == '#'
    requires forall k :: 1 <= k < 7 ==> IsHexDigit(code[k])
    requires forall k :: 1 <= k < 7 ==> h[k] == DigitChar(DigitValue(code[k]))
    ensures h == code <==> code[0] == '#' && forall k :: 1 <= k < 7 ==> !('A' <= code[k] <= 'F')
  {
    forall k | 1 <= k < 7 {
      DigitCharOfValue(code[k]);
    }
    if code[0] == '#' && forall k :: 1 <= k < 7 ==> !('A' <= code[k] <= 'F') {
      assert forall k :: 0 <= k < 7 ==> h[k] == code[k];
    }
  }

  // ---------------------------------------------------------------------
  // The CSS string

  /** The four numbers a CSS `rgba(...)` string lists. */
  datatype RgbaValue = RgbaValue(r: int, g: int, b: int, a: Decimal)

  /** The text of `s` before its first comma. */
  function Field(s: string): (f: string)
    ensures |f| <= |s|
    decreases |s|
  {
    if s == [] || s[0] == ',' then [] else [s[0]] + Field(s[1..])
  }

  /** The comma-separated fields of `s`. */
  function SplitFields(s: string): seq<string>
    decreases |s|
  {
    var f := Field(s);
    if |f| == |s| then [s] else [f] + SplitFields(s[|f| + 1..])
  }

  /** Reads an integer field: a decimal numeral with no point. */
  function ReadInteger(s: string): Option<int> {
    var d := ReadDecimal(s);
    if d.Some? && d.value.scale == 0 then Some(d.value.units) else None
  }

  /** Reads `rgba(r,g,b,a)` with integer r, g, b and a decimal a, no spaces. */
  function ParseRgba(s: string): Option<RgbaValue> {
    if |s| < 6 || s[..5] != "rgba(" || s[|s| - 1] != ')' then None
    else
      var fields := SplitFields(s[5..|s| - 1]);
      if |fields| != 4 then None
      else
        var r, g, b, a := ReadInteger(fields[0]), ReadInteger(fields[1]), ReadInteger(fields[2]), ReadDecimal(fields[3]);
        if r.None? || g.None? || b.None? || a.None? then None
        else Some(RgbaValue(r.value, g.value, b.value, a.value))
  }

  predicate NoComma(s: string) {
    forall k :: 0 <= k < |s| ==> s[k] != ','
  }

  /** A field without commas, followed by a comma or by nothing, is the field read. */
  lemma {:induction false} FieldOf(a: string, rest: string)
    requires NoComma(a) && (rest == [] || rest[0] == ',')
    ensures Field(a + rest) == a
    decreases |a|
  {
    if a != [] {
      assert (a + rest)[0] == a[0] && (a + rest)[1..] == a[1..] + rest;
      FieldOf(a[1..], rest);
    } else {
      assert a + rest == rest;
    }
  }

  /** Text without commas is a single field. */
  lemma LastField(a: string)
    requires NoComma(a)
    ensures SplitFields(a) == [a]
  {
    FieldOf(a, []);
    assert a + [] == a;
  }

  /** A field without commas and a comma are split off the front. */
  lemma FirstField(a: string, rest: string)
    requires NoComma(a)
    ensures SplitFields(a + "," + rest) == [a] + SplitFields(rest)
  {
    var s := a + "," + rest;
    assert s == a + ("," + rest);
    FieldOf(a, "," + rest);
    assert s[|a| + 1..] == rest;
  }

  /** `toString` of an integer holds no comma, and reads back as an integer field. */
  lemma IntegerField(n: int)
    ensures NoComma(NumberToString(n, 10))
    ensures ReadInteger(NumberToString(n, 10)) == Some(n)
  {
    NumberToStringChars(n, 10);
    ReadNumberToString(n);
  }

  /** Digits are not commas. */
  lemma DigitsNoComma(s: string)
    requires AllDigits(s, 10)
    ensures NoComma(s)
  {
  }

  lemma NoCommaConcat(a: string, b: string)
    requires NoComma(a) && NoComma(b)
    ensures NoComma(a + b)
  {
  }

  /** A written decimal holds no comma. */
  lemma DecimalField(d: Decimal)
    ensures NoComma(FormatDecimal(d))
  {
    var n := Normalize(d);
    var m := if n.units < 0 then -n.units else n.units;
    UnsignedNoComma(m, n.scale);
    if n.units < 0 {
      NoCommaConcat("-", UnsignedNumeral(m, n.scale));
    }
  }

  lemma UnsignedNoComma(m: nat, k: nat)
    ensures NoComma(UnsignedNumeral(m, k))
  {
    if k == 0 {
      NatDigitsRoundTrip(m, 10);
      DigitsNoComma(NatDigits(m, 10));
    } else {
      var w, f := NatDigits(Shift(m, k), 10), Fraction(m, k);
      NatDigitsRoundTrip(Shift(m, k), 10);
      ShiftFraction(m, k);
      DigitsNoComma(w);
      DigitsNoComma(f);
      NoCommaConcat(w, ".");
      NoCommaConcat(w + ".", f);
    }
  }

  /** The fields between the parentheses of the CSS string are its four numbers. */
  lemma RgbaFields(c: Color)
    ensures var s := c.Rgba();
      |s| >= 6 && s[..5] == "rgba(" && s[|s| - 1] == ')' &&
      SplitFields(s[5..|s| - 1]) ==
        [NumberToString(c.r, 10), NumberToString(c.g, 10), NumberToString(c.b, 10), FormatDecimal(c.a)]
  {
    IntegerField(c.r);
    IntegerField(c.g);
    IntegerField(c.b);
    DecimalField(c.a);
    RgbaShape(NumberToString(c.r, 10), NumberToString(c.g, 10), NumberToString(c.b, 10), FormatDecimal(c.a));
  }

  /** `rgba(` and four comma-free fields separated by commas and closed by `)` split into those fields. */
  lemma RgbaShape(fr: string, fg: string, fb: string, fa: string)
    requires NoComma(fr) && NoComma(fg) && NoComma(fb) && NoComma(fa)
    ensures var s := "rgba(" + fr + "," + fg + "," + fb + "," + fa + ")";
      |s| >= 6 && s[..5] == "rgba(" && s[|s| - 1] == ')' &&
      SplitFields(s[5..|s| - 1]) == [fr, fg, fb, fa]
  {
    var s := "rgba(" + fr + "," + fg + "," + fb + "," + fa + ")";
    var body := fr + "," + (fg + "," + (fb + "," + fa));
    assert s == "rgba(" + body + ")";
    assert s[5..|s| - 1] == body;
    LastField(fa);
    FirstField(fb, fa);
    FirstField(fg, fb + "," + fa);
    FirstField(fr, fg + "," + (fb + "," + fa));
  }

  /**
   * The CSS string reads back as the colour's components and its alpha in
   * canonical form, which has the alpha's value.
   */
  lemma RgbaRoundTrip(c: Color)
    ensures ParseRgba(c.Rgba()) == Some(RgbaValue(c.r, c.g, c.b, Normalize(c.a)))
    ensures Value(Normalize(c.a)) == Value(c.a)
  {
    RgbaFields(c);
    IntegerField(c.r);
    IntegerField(c.g);
    IntegerField(c.b);
    FormatDecimalRoundTrip(c.a);
  }
}
