/**
 * The colour parser of the string extensions: `"#RRGGBB"` plus an alpha
 * becomes a colour. Every `#` is removed first; the red, green and blue
 * channels are the base-16 values of the first, second and third pair of
 * the remaining characters; alpha is clamped into [0, 1].
 *
 * Channels are kept as the integers 0..255 that the hexadecimal pairs
 * denote; the later division by 255 and the platform colour object are not
 * modelled. Alpha is a `real`.
 */
module HexColor {

  /** A parsed colour: three channel bytes and the clamped alpha. */
  datatype Rgba = Rgba(red: nat, green: nat, blue: nat, alpha: real)

  /** The string with every `#` taken out, wherever it stands. */
  function StripHash(s: string): (r: string)
    ensures '#' !in r
    ensures |r| <= |s|
  {
    if |s| == 0 then ""
    else (if s[0] == '#' then "" else [s[0]]) + StripHash(s[1..])
  }

  /** Stripping distributes over concatenation. */
  lemma {:induction false} StripHashConcat(a: string, b: string)
    ensures StripHash(a + b) == StripHash(a) + StripHash(b)
    decreases |a|
  {
    if |a| > 0 {
      var head := if a[0] == '#' then "" else [a[0]];
      assert (a + b)[0] == a[0];
      assert (a + b)[1..] == a[1..] + b;
      StripHashConcat(a[1..], b);
      calc {
        StripHash(a + b);
        head + StripHash(a[1..] + b);
        head + (StripHash(a[1..]) + StripHash(b));
        (head + StripHash(a[1..])) + StripHash(b);
        StripHash(a) + StripHash(b);
      }
    } else {
      assert a + b == b;
    }
  }

  /** A string with no `#` is left as it is; in particular stripping is idempotent. */
  lemma {:induction false} StripHashKeeps(s: string)
    requires '#' !in s
    ensures StripHash(s) == s
    ensures StripHash(StripHash(s)) == StripHash(s)
    decreases |s|
  {
    if |s| > 0 {
      assert '#' !in s[1..];
      StripHashKeeps(s[1..]);
    }
  }

  predicate IsHexDigit(c: char) {
    ('0' <= c <= '9') || ('a' <= c <= 'f') || ('A' <= c <= 'F')
  }

  /** The value of one base-16 digit; upper and lower case letters agree. */
  function HexDigitValue(c: char): (v: nat)
    requires IsHexDigit(c)
    ensures v < 16
  {
    if '0' <= c <= '9' then c as nat - '0' as nat
    else if 'a' <= c <= 'f' then c as nat - 'a' as nat + 10
    else c as nat - 'A' as nat + 10
  }

  /** The upper-case base-16 digit of a value below 16. */
  function HexDigitChar(v: nat): (c: char)
    requires v < 16
    ensures IsHexDigit(c)
  {
    if v < 10 then ('0' as nat + v) as char else ('A' as nat + v - 10) as char
  }

  /** Lower-case `a`..`f` made upper-case; every other character unchanged. */
  function UpperHex(c: char): char {
    if 'a' <= c <= 'f' then (c as nat - 'a' as nat + 'A' as nat) as char else c
  }

  /** Reading back the digit written for a value below 16 gives the value. */
  lemma HexDigitValueOfChar(v: nat)
    requires v < 16
    ensures HexDigitValue(HexDigitChar(v)) == v
  {
  }

  /** Writing the value of a digit gives the digit back, in upper case. */
  lemma HexDigitCharOfValue(c: char)
    requires IsHexDigit(c)
    ensures HexDigitChar(HexDigitValue(c)) == UpperHex(c)
  {
  }

  /** The value of a two-digit base-16 string. */
  function ParseHexByte(s: string): (v: nat)
    requires |s| == 2 && IsHexDigit(s[0]) && IsHexDigit(s[1])
    ensures v < 256
  {
    16 * HexDigitValue(s[0]) + HexDigitValue(s[1])
  }

  /** The two upper-case base-16 digits of a byte. */
  function FormatHexByte(n: nat): (s: string)
    requires n < 256
    ensures |s| == 2 && IsHexDigit(s[0]) && IsHexDigit(s[1])
  {
    [HexDigitChar(n / 16), HexDigitChar(n % 16)]
  }

  /** Parsing the two digits written for a byte gives the byte back. */
  lemma ParseFormatHexByte(n: nat)
    requires n < 256
    ensures ParseHexByte(FormatHexByte(n)) == n
  {
  }

  /** Formatting the value of two digits gives the digits back, in upper case. */
  lemma FormatParseHexByte(s: string)
    requires |s| == 2 && IsHexDigit(s[0]) && IsHexDigit(s[1])
    ensures FormatHexByte(ParseHexByte(s)) == [UpperHex(s[0]), UpperHex(s[1])]
  {
    var hi, lo := HexDigitValue(s[0]), HexDigitValue(s[1]);
    assert (16 * hi + lo) / 16 == hi;
    assert (16 * hi + lo) % 16 == lo;
  }

  /** Alpha above 1 becomes 1, below 0 becomes 0, and is otherwise unchanged. */
  function ClampAlpha(a: real): (r: real)
    ensures 0.0 <= r <= 1.0
    ensures 0.0 <= a <= 1.0 ==> r == a
    ensures a > 1.0 ==> r == 1.0
    ensures a < 0.0 ==> r == 0.0
  {
    if a > 1.0 then 1.0
    else if a < 0.0 then 0.0
    else a
  }

  /**
   * The inputs the parser accepts without throwing: after stripping `#`,
   * at least six characters remain and the first six are base-16 digits.
   * An accepted string is at least six characters long, and for a string
   * without `#` the condition is one on the string's own first six
   * characters.
   */
  function IsColorHex(hex: string): (b: bool)
    ensures b ==> |hex| >= 6
    ensures '#' !in hex ==> (b <==> |hex| >= 6 && forall i :: 0 <= i < 6 ==> IsHexDigit(hex[i]))
  {
    var t := StripHash(hex);
    assert '#' !in hex ==> t == hex by {
      if '#' !in hex {
        StripHashKeeps(hex);
      }
    }
    |t| >= 6 && forall i :: 0 <= i < 6 ==> IsHexDigit(t[i])
  }

  /**
   * The colour a hexadecimal string denotes: three bytes and the clamped
   * alpha. Which digits each channel comes from is stated by
   * `ChannelsAreLeadingPairs`.
   */
  function ColorFromHexString(hex: string, alpha: real): (c: Rgba)
    requires IsColorHex(hex)
    ensures c.red < 256 && c.green < 256 && c.blue < 256
    ensures c.alpha == ClampAlpha(alpha)
  {
    var t := StripHash(hex);
    assert IsHexDigit(t[0]) && IsHexDigit(t[1]) && IsHexDigit(t[2]);
    assert IsHexDigit(t[3]) && IsHexDigit(t[4]) && IsHexDigit(t[5]);
    Rgba(ParseHexByte(t[0..2]), ParseHexByte(t[2..4]), ParseHexByte(t[4..6]), ClampAlpha(alpha))
  }

  /**
   * Red, green and blue are read from positions [0, 2), [2, 4) and [4, 6)
   * of the stripped string: writing the three channels back as upper-case
   * digits gives the first six stripped characters in upper case.
   */
  lemma ChannelsAreLeadingPairs(hex: string, alpha: real)
    requires IsColorHex(hex)
    ensures var c := ColorFromHexString(hex, alpha);
            var t := StripHash(hex);
            FormatHexByte(c.red) + FormatHexByte(c.green) + FormatHexByte(c.blue)
            == [UpperHex(t[0]), UpperHex(t[1]), UpperHex(t[2]), UpperHex(t[3]), UpperHex(t[4]), UpperHex(t[5])]
  {
    var t := StripHash(hex);
    assert IsHexDigit(t[0]) && IsHexDigit(t[1]) && IsHexDigit(t[2]);
    assert IsHexDigit(t[3]) && IsHexDigit(t[4]) && IsHexDigit(t[5]);
    FormatParseHexByte(t[0..2]);
    FormatParseHexByte(t[2..4]);
    FormatParseHexByte(t[4..6]);
  }

  /** Two strings that strip to the same characters denote the same colour. */
  lemma SameStrippedSameColor(h1: string, h2: string, alpha: real)
    requires IsColorHex(h1)
    requires StripHash(h1) == StripHash(h2)
    ensures IsColorHex(h2)
    ensures ColorFromHexString(h1, alpha) == ColorFromHexString(h2, alpha)
  {
  }

  /** A `#` inserted anywhere in an accepted string changes nothing. */
  lemma IgnoresHashAnywhere(a: string, b: string, alpha: real)
    requires IsColorHex(a + b)
    ensures IsColorHex(a + "#" + b)
    ensures ColorFromHexString(a + "#" + b, alpha) == ColorFromHexString(a + b, alpha)
  {
    StripHashConcat(a, b);
    StripHashConcat(a, "#");
    assert StripHash("#") == "";
    assert StripHash(a + "#") == StripHash(a);
    StripHashConcat(a + "#", b);
    SameStrippedSameColor(a + b, a + "#" + b, alpha);
  }

  /** Characters after the sixth stripped character play no part. */
  lemma IgnoresTrailing(hex: string, tail: string, alpha: real)
    requires IsColorHex(hex)
    ensures IsColorHex(hex + tail)
    ensures ColorFromHexString(hex + tail, alpha) == ColorFromHexString(hex, alpha)
  {
    StripHashConcat(hex, tail);
    var t, t' := StripHash(hex), StripHash(hex + tail);
    assert t'[0..6] == t[0..6];
    assert t'[0..2] == t[0..2] && t'[2..4] == t[2..4] && t'[4..6] == t[4..6];
  }

  /** Formatting three bytes as `#RRGGBB` and parsing gives them back. */
  lemma FormatParseRoundTrip(r: nat, g: nat, b: nat, alpha: real)
    requires r < 256 && g < 256 && b < 256
    ensures IsColorHex("#" + FormatHexByte(r) + FormatHexByte(g) + FormatHexByte(b))
    ensures ColorFromHexString("#" + FormatHexByte(r) + FormatHexByte(g) + FormatHexByte(b), alpha)
            == Rgba(r, g, b, ClampAlpha(alpha))
  {
    var fr, fg, fb := FormatHexByte(r), FormatHexByte(g), FormatHexByte(b);
    assert "#" + fr + fg + fb == ['#', fr[0], fr[1], fg[0], fg[1], fb[0], fb[1]];
    HashAndSixDigits(fr[0], fr[1], fg[0], fg[1], fb[0], fb[1], alpha);
    ParseFormatHexByte(r);
    ParseFormatHexByte(g);
    ParseFormatHexByte(b);
  }

  /** A `#` followed by six digits strips to the six digits. */
  lemma StripLeadingHash(digits: string)
    requires '#' !in digits
    ensures StripHash("#" + digits) == digits
  {
    StripHashConcat("#", digits);
    assert StripHash("#") == "";
    StripHashKeeps(digits);
  }

  /**
   * A `#` followed by six base-16 digits denotes the values of the three
   * digit pairs.
   */
  lemma HashAndSixDigits(r1: char, r2: char, g1: char, g2: char, b1: char, b2: char, alpha: real)
    requires IsHexDigit(r1) && IsHexDigit(r2) && IsHexDigit(g1) && IsHexDigit(g2) && IsHexDigit(b1) && IsHexDigit(b2)
    ensures IsColorHex(['#', r1, r2, g1, g2, b1, b2])
    ensures ColorFromHexString(['#', r1, r2, g1, g2, b1, b2], alpha)
            == Rgba(16 * HexDigitValue(r1) + HexDigitValue(r2),
                    16 * HexDigitValue(g1) + HexDigitValue(g2),
                    16 * HexDigitValue(b1) + HexDigitValue(b2),
                    ClampAlpha(alpha))
  {
    var digits := [r1, r2, g1, g2, b1, b2];
    assert ['#', r1, r2, g1, g2, b1, b2] == "#" + digits;
    StripLeadingHash(digits);
    assert digits[0..2] == [r1, r2] && digits[2..4] == [g1, g2] && digits[4..6] == [b1, b2];
  }

  /** The save button's blue, with the default alpha of 1. */
  lemma SaveButtonColor()
    ensures IsColorHex("#007AFF") && ColorFromHexString("#007AFF", 1.0) == Rgba(0, 122, 255, 1.0)
  {
    HashAndSixDigits('0', '0', '7', 'A', 'F', 'F', 1.0);
  }

  /** The administrator label's red, with the default alpha of 1. */
  lemma AdminLabelColor()
    ensures IsColorHex("#E42346") && ColorFromHexString("#E42346", 1.0) == Rgba(228, 35, 70, 1.0)
  {
    HashAndSixDigits('E', '4', '2', '3', '4', '6', 1.0);
  }

  /** The cell separator's grey, with the default alpha of 1. */
  lemma SeparatorColor()
    ensures IsColorHex("#C8C8C8") && ColorFromHexString("#C8C8C8", 1.0) == Rgba(200, 200, 200, 1.0)
  {
    HashAndSixDigits('C', '8', 'C', '8', 'C', '8', 1.0);
  }
}
