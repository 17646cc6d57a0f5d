/**
  Byte-level types and the number formatting the listing uses: lower-case,
  zero-padded hexadecimal (the .NET `x2` / `x4` specifiers) and plain decimal,
  together with the parser that reads such text back.
 */
module NumberFormat {

  type byte = x: int | 0 <= x < 0x100
  type u16 = x: int | 0 <= x < 0x1_0000

  predicate IsRadix(radix: nat) {
    radix == 10 || radix == 16
  }

  /** The lower-case digit character for `d`: '0'-'9', then 'a'-'f'. */
  function DigitChar(d: nat): (c: char)
    requires d < 16
  {
    if d < 10 then ('0' as int + d) as char else ('a' as int + d - 10) as char
  }

  /** The value of a lower-case hexadecimal digit character, or -1 for any other character. */
  function DigitValue(c: char): int {
    if '0' <= c <= '9' then c as int - '0' as int
    else if 'a' <= c <= 'f' then c as int - 'a' as int + 10
    else -1
  }

  lemma DigitRoundTrip(d: nat)
    requires d < 16
    ensures DigitValue(DigitChar(d)) == d
  {
  }

  /**
    `v` written in `radix`, with at least `width` digits (zero-padded on the
    left) and lower-case letters. Format(v, 4, 16) is .NET's `{v:x4}`.
   */
  function Format(v: nat, width: nat, radix: nat): string
    requires IsRadix(radix)
    decreases v, width
  {
    DigitRoundTrip(v % radix);
    if v < radix && width <= 1 then [DigitChar(v)]
    else Format(v / radix, if width == 0 then 0 else width - 1, radix) + [DigitChar(v % radix)]
  }

  /** Every character is a digit below `radix`; only lower-case letters count as hex digits. */
  predicate IsDigits(s: string, radix: nat) {
    forall i :: 0 <= i < |s| ==> 0 <= DigitValue(s[i]) < radix
  }

  /** Reads a string of digits in `radix` back into its value. */
  function Parse(s: string, radix: nat): (v: nat)
    requires IsDigits(s, radix)
  {
    if s == [] then 0 else Parse(s[..|s| - 1], radix) * radix + DigitValue(s[|s| - 1])
  }

  function Pow(radix: nat, n: nat): (p: nat)
    requires radix >= 1
    ensures p >= 1
  {
    if n == 0 then 1 else radix * Pow(radix, n - 1)
  }

  /** Two lower-case hex digits, as `{b:x2}`. */
  function Hex2(b: byte): string {
    Format(b, 2, 16)
  }

  /** At least four lower-case hex digits, as `{v:x4}`. */
  function Hex4(v: nat): string {
    Format(v, 4, 16)
  }

  /** Plain decimal, as `{n}`. */
  function Decimal(n: nat): string {
    Format(n, 1, 10)
  }

  /** Formatting is undone by parsing, so the text determines the value. */
  lemma {:induction false} FormatRoundTrip(v: nat, width: nat, radix: nat)
    requires IsRadix(radix)
    ensures IsDigits(Format(v, width, radix), radix)
    ensures Parse(Format(v, width, radix), radix) == v
    decreases v, width
  {
    var s := Format(v, width, radix);
    if v < radix && width <= 1 {
      DigitRoundTrip(v);
      assert s[..|s| - 1] == [];
    } else {
      var w' := if width == 0 then 0 else width - 1;
      var init := Format(v / radix, w', radix);
      FormatRoundTrip(v / radix, w', radix);
      DigitRoundTrip(v % radix);
      assert s == init + [DigitChar(v % radix)];
      assert s[..|s| - 1] == init;
    }
  }

  lemma FormatInjective(a: nat, b: nat, width: nat, radix: nat)
    requires IsRadix(radix)
    requires Format(a, width, radix) == Format(b, width, radix)
    ensures a == b
  {
    FormatRoundTrip(a, width, radix);
    FormatRoundTrip(b, width, radix);
  }

  /** A value below radix^width takes exactly `width` digits; no value takes fewer. */
  lemma {:induction false} FormatLength(v: nat, width: nat, radix: nat)
    requires IsRadix(radix)
    ensures |Format(v, width, radix)| >= width && |Format(v, width, radix)| >= 1
    ensures width >= 1 && v < Pow(radix, width) ==> |Format(v, width, radix)| == width
    decreases v, width
  {
    if v < radix && width <= 1 {
    } else {
      var w' := if width == 0 then 0 else width - 1;
      FormatLength(v / radix, w', radix);
      assert Pow(radix, 1) == radix;
      if width >= 2 && v < Pow(radix, width) {
        assert Pow(radix, width) == radix * Pow(radix, w');
        assert v / radix < Pow(radix, w');
      }
    }
  }

  /** Four-digit hex of a 16-bit value: exactly four lower-case digits that read back as the value. */
  lemma Hex4Exact(v: nat)
    requires v < 0x1_0000
    ensures |Hex4(v)| == 4 && IsDigits(Hex4(v), 16) && Parse(Hex4(v), 16) == v
  {
    FormatRoundTrip(v, 4, 16);
    FormatLength(v, 4, 16);
    assert Pow(16, 4) == 0x1_0000;
  }

  /** Two-digit hex of a byte: exactly two lower-case digits that read back as the byte. */
  lemma Hex2Exact(b: byte)
    ensures |Hex2(b)| == 2 && IsDigits(Hex2(b), 16) && Parse(Hex2(b), 16) == b
  {
    FormatRoundTrip(b, 2, 16);
    FormatLength(b, 2, 16);
    assert Pow(16, 2) == 0x100;
  }

  lemma DivStep(v: nat, q: nat, r: nat)
    requires r < 16 && v == q * 16 + r
    ensures v / 16 == q && v % 16 == r
  {
  }

  /** The two digits of the byte whose hex digits are d1 d0. */
  lemma Hex2Of(b: byte, d1: nat, d0: nat)
    requires d1 < 16 && d0 < 16 && b == d1 * 16 + d0
    ensures Hex2(b) == [DigitChar(d1), DigitChar(d0)]
  {
    DivStep(b, d1, d0);
    assert Format(d1, 1, 16) == [DigitChar(d1)];
  }

  /** The four digits of the value whose hex digits are d3 d2 d1 d0. */
  lemma Hex4Of(v: nat, d3: nat, d2: nat, d1: nat, d0: nat)
    requires d3 < 16 && d2 < 16 && d1 < 16 && d0 < 16
    requires v == d3 * 0x1000 + d2 * 0x100 + d1 * 16 + d0
    ensures Hex4(v) == [DigitChar(d3), DigitChar(d2), DigitChar(d1), DigitChar(d0)]
  {
    var q2 := d3 * 16 + d2;
    var q1 := q2 * 16 + d1;
    DivStep(v, q1, d0);
    DivStep(q1, q2, d1);
    DivStep(q2, d3, d2);
    assert Format(d3, 1, 16) == [DigitChar(d3)];
    assert Format(q2, 2, 16) == [DigitChar(d3), DigitChar(d2)];
    assert Format(q1, 3, 16) == [DigitChar(d3), DigitChar(d2), DigitChar(d1)];
  }
}
