/** The colour helpers of the animated background: hex parsing and printing,
    linear interpolation between colours and the perceived-luminance cap.
    Channels are exact reals standing in for JavaScript numbers. */
module Color {
  import opened JsNumber

  /** A colour with real-valued red, green and blue channels. */
  datatype RGB = RGB(r: real, g: real, b: real)

  /** `"#"` followed by six hexadecimal digits in either case, the form every
      palette entry takes. */
  predicate IsHexColor(s: string)
  {
    |s| == 7 && s[0] == '#' && forall i :: 1 <= i < 7 ==> IsDigit(s[i], 16)
  }

  /** `"#"` followed by six lower-case hexadecimal digits. */
  predicate IsLowerHexColor(s: string)
  {
    |s| == 7 && s[0] == '#' && forall i :: 1 <= i < 7 ==> IsLowerDigit(s[i], 16)
  }

  predicate IsByte(x: real)
  {
    0.0 <= x <= 255.0
  }

  /** Every channel lies in [0, 255]. */
  predicate InRange(c: RGB)
  {
    IsByte(c.r) && IsByte(c.g) && IsByte(c.b)
  }

  predicate IsWhole(x: real)
  {
    x == x.Floor as real
  }

  /** Every channel is a whole number in 0..255. */
  predicate IsByteColor(c: RGB)
  {
    InRange(c) && IsWhole(c.r) && IsWhole(c.g) && IsWhole(c.b)
  }

  /** ASCII lower-casing, the only case change hex digits can undergo. */
  function ToLower(s: string): (r: string)
    ensures |r| == |s|
    ensures forall i :: 0 <= i < |s| ==> CharValue(r[i]) == CharValue(s[i])
    ensures forall i :: 0 <= i < |s| ==> !('A' <= r[i] <= 'Z')
    ensures forall i :: 0 <= i < |s| && !('A' <= s[i] <= 'Z') ==> r[i] == s[i]
  {
    seq(|s|, i requires 0 <= i < |s| => if 'A' <= s[i] <= 'Z' then (s[i] as int + 32) as char else s[i])
  }

  /** `parseInt(d, 16)` on a string of two hexadecimal digits. */
  function ParseHexPair(d: string): (v: nat)
    requires |d| == 2 && IsDigit(d[0], 16) && IsDigit(d[1], 16)
    ensures v == 16 * CharValue(d[0]) + CharValue(d[1])
    ensures v < 256
  {
    assert d[..1][..0] == [] && d[..1][0] == d[0];
    assert DigitsValue(d[..1], 16) == CharValue(d[0]);
    DigitsValue(d, 16)
  }

  /** `hexToRGB`: the channels are read from digit pairs 1-2, 3-4 and 5-6,
      after `replace('#', '')` has removed the leading `#`. */
  function HexToRGB(hex: string): (c: RGB)
    requires IsHexColor(hex)
    ensures IsByteColor(c)
    ensures c.r == (16 * CharValue(hex[1]) + CharValue(hex[2])) as real
    ensures c.g == (16 * CharValue(hex[3]) + CharValue(hex[4])) as real
    ensures c.b == (16 * CharValue(hex[5]) + CharValue(hex[6])) as real
  {
    var h := hex[1..];
    assert IsDigit(hex[1], 16) && IsDigit(hex[2], 16) && IsDigit(hex[3], 16);
    assert IsDigit(hex[4], 16) && IsDigit(hex[5], 16) && IsDigit(hex[6], 16);
    assert h[0..2] == [hex[1], hex[2]] && h[2..4] == [hex[3], hex[4]] && h[4..6] == [hex[5], hex[6]];
    RGB(ParseHexPair(h[0..2]) as real, ParseHexPair(h[2..4]) as real, ParseHexPair(h[4..6]) as real)
  }

  /** The inner `toHex` of `rgbToHex`: round, print in base 16, pad to two places. */
  function ChannelHex(x: real): string
  {
    PadStart(ToRadixString(Round(x), 16), 2, '0')
  }

  /** `rgbToHex`. */
  function RgbToHex(c: RGB): (s: string)
    ensures InRange(c) ==> s == "#" + ByteHex(Round(c.r)) + ByteHex(Round(c.g)) + ByteHex(Round(c.b))
  {
    var s := "#" + ChannelHex(c.r) + ChannelHex(c.g) + ChannelHex(c.b);
    if InRange(c) then
      ChannelHexOfByte(c.r);
      ChannelHexOfByte(c.g);
      ChannelHexOfByte(c.b);
      s
    else s
  }

  /** The two lower-case hex digits of a byte, high digit first. */
  function ByteHex(n: int): (s: string)
    requires 0 <= n < 256
    ensures |s| == 2 && IsLowerDigit(s[0], 16) && IsLowerDigit(s[1], 16)
    ensures 16 * CharValue(s[0]) + CharValue(s[1]) == n
  {
    [DigitChar(n / 16), DigitChar(n % 16)]
  }

  /** A channel in [0, 255] rounds to a byte, printed as exactly two digits. */
  lemma ChannelHexOfByte(x: real)
    requires IsByte(x)
    ensures 0 <= Round(x) < 256
    ensures ChannelHex(x) == ByteHex(Round(x))
  {
    var n := Round(x);
    if n >= 16 {
      assert Digits(n / 16, 16) == [DigitChar(n / 16)];
    }
  }

  /** The characters of `"#" + r + g + b` for three two-character strings. */
  lemma HexConcat(r: string, g: string, b: string)
    requires |r| == 2 && |g| == 2 && |b| == 2
    ensures var s := "#" + r + g + b;
      |s| == 7 && s[0] == '#' &&
      s[1] == r[0] && s[2] == r[1] && s[3] == g[0] && s[4] == g[1] && s[5] == b[0] && s[6] == b[1]
  {
  }

  /** Three pairs of lower-case hex digits behind a `#` form a lower-case hex colour. */
  lemma HexConcatIsLowerHex(r: string, g: string, b: string)
    requires |r| == 2 && |g| == 2 && |b| == 2
    requires IsLowerDigit(r[0], 16) && IsLowerDigit(r[1], 16) && IsLowerDigit(g[0], 16)
    requires IsLowerDigit(g[1], 16) && IsLowerDigit(b[0], 16) && IsLowerDigit(b[1], 16)
    ensures IsLowerHexColor("#" + r + g + b)
  {
    var s := "#" + r + g + b;
    assert s[1] == r[0] && s[2] == r[1] && s[3] == g[0] && s[4] == g[1] && s[5] == b[0] && s[6] == b[1];
  }

  /** The lower-case form is one of the forms `hexToRGB` reads. */
  lemma LowerHexIsHex(s: string)
    requires IsLowerHexColor(s)
    ensures IsHexColor(s)
  {
  }

  /** A colour in range prints as `#` and six lower-case hex digits. */
  lemma RgbToHexIsLowerHex(c: RGB)
    requires InRange(c)
    ensures IsLowerHexColor(RgbToHex(c))
  {
    HexConcatIsLowerHex(ByteHex(Round(c.r)), ByteHex(Round(c.g)), ByteHex(Round(c.b)));
  }

  /** Printing a colour and parsing it back yields the channels rounded half-up. */
  lemma {:induction false} HexToRgbOfRgbToHex(c: RGB)
    requires InRange(c)
    ensures IsHexColor(RgbToHex(c))
    ensures HexToRGB(RgbToHex(c)) == RoundColor(c)
  {
    ChannelHexOfByte(c.r);
    ChannelHexOfByte(c.g);
    ChannelHexOfByte(c.b);
    var s := RgbToHex(c);
    PrintedBytes(s, Round(c.r), Round(c.g), Round(c.b));
    ParsedBytes(s, Round(c.r), Round(c.g), Round(c.b));
  }

  /** `hexToRGB` reads back the three bytes a hex colour's digit pairs hold. */
  lemma ParsedBytes(s: string, nr: int, ng: int, nb: int)
    requires IsHexColor(s)
    requires 16 * CharValue(s[1]) + CharValue(s[2]) == nr
    requires 16 * CharValue(s[3]) + CharValue(s[4]) == ng
    requires 16 * CharValue(s[5]) + CharValue(s[6]) == nb
    ensures HexToRGB(s) == RGB(nr as real, ng as real, nb as real)
  {
  }

  /** The string `RgbToHex` prints for three bytes: its digit pairs hold them in order. */
  lemma PrintedBytes(s: string, nr: int, ng: int, nb: int)
    requires 0 <= nr < 256 && 0 <= ng < 256 && 0 <= nb < 256
    requires s == "#" + ByteHex(nr) + ByteHex(ng) + ByteHex(nb)
    ensures IsLowerHexColor(s) && IsHexColor(s)
    ensures 16 * CharValue(s[1]) + CharValue(s[2]) == nr
    ensures 16 * CharValue(s[3]) + CharValue(s[4]) == ng
    ensures 16 * CharValue(s[5]) + CharValue(s[6]) == nb
  {
    HexConcat(ByteHex(nr), ByteHex(ng), ByteHex(nb));
    HexConcatIsLowerHex(ByteHex(nr), ByteHex(ng), ByteHex(nb));
    LowerHexIsHex(s);
  }

  /** Each channel rounded half-up, as a hex string stores it. */
  function RoundColor(c: RGB): RGB
  {
    RGB(Round(c.r) as real, Round(c.g) as real, Round(c.b) as real)
  }

  /** The colour a ribbon is painted with: the luminance-capped colour, printed. It
      is a lower-case hex colour that reads back as the capped colour rounded. */
  lemma CappedColorPrints(c: RGB)
    requires InRange(c)
    ensures var s := RgbToHex(ClampLuminance(c, MaxLuminance));
      IsLowerHexColor(s) && IsHexColor(s) && HexToRGB(s) == RoundColor(ClampLuminance(c, MaxLuminance))
  {
    var capped := ClampLuminance(c, MaxLuminance);
    RgbToHexIsLowerHex(capped);
    HexToRgbOfRgbToHex(capped);
  }

  /** On whole-number channels in 0..255 the round trip is exact. */
  lemma ByteColorRoundTrip(c: RGB)
    requires IsByteColor(c)
    ensures IsHexColor(RgbToHex(c))
    ensures HexToRGB(RgbToHex(c)) == c
  {
    HexToRgbOfRgbToHex(c);
    RoundedByteColor(c, HexToRGB(RgbToHex(c)));
  }

  /** Rounding leaves a whole-number colour as it is. */
  lemma RoundedByteColor(c: RGB, d: RGB)
    requires IsByteColor(c)
    requires d == RoundColor(c)
    ensures d == c
  {
    RoundWhole(c.r);
    RoundWhole(c.g);
    RoundWhole(c.b);
  }

  lemma RoundWhole(x: real)
    requires IsWhole(x)
    ensures Round(x) as real == x
  {
    var n, k := Round(x), x.Floor;
    assert (n - k) as real <= 0.5 && (k - n) as real < 0.5;
    SmallIntIsZero(n - k);
  }

  lemma SmallIntIsZero(d: int)
    requires d as real <= 0.5 && (-d) as real < 0.5
    ensures d == 0
  {
  }

  /** Parsing a hex colour and printing it back yields the input lower-cased. */
  lemma {:induction false} RgbToHexOfHexToRgb(hex: string)
    requires IsHexColor(hex)
    ensures RgbToHex(HexToRGB(hex)) == ToLower(hex)
  {
    var c := HexToRGB(hex);
    RoundWhole(c.r);
    RoundWhole(c.g);
    RoundWhole(c.b);
    ChannelHexOfByte(c.r);
    ChannelHexOfByte(c.g);
    ChannelHexOfByte(c.b);
    var s := RgbToHex(c);
    PrintedBytes(s, Round(c.r), Round(c.g), Round(c.b));
    SameDigitsIsLower(s, hex);
  }

  /** A lower-case hex colour spelling the same three bytes as `hex` is `hex` lower-cased. */
  lemma SameDigitsIsLower(s: string, hex: string)
    requires IsLowerHexColor(s) && IsHexColor(hex)
    requires 16 * CharValue(s[1]) + CharValue(s[2]) == 16 * CharValue(hex[1]) + CharValue(hex[2])
    requires 16 * CharValue(s[3]) + CharValue(s[4]) == 16 * CharValue(hex[3]) + CharValue(hex[4])
    requires 16 * CharValue(s[5]) + CharValue(s[6]) == 16 * CharValue(hex[5]) + CharValue(hex[6])
    ensures s == ToLower(hex)
  {
    var l := ToLower(hex);
    PairDigits(CharValue(s[1]), CharValue(s[2]), CharValue(hex[1]), CharValue(hex[2]));
    PairDigits(CharValue(s[3]), CharValue(s[4]), CharValue(hex[3]), CharValue(hex[4]));
    PairDigits(CharValue(s[5]), CharValue(s[6]), CharValue(hex[5]), CharValue(hex[6]));
    forall i | 1 <= i < 7
      ensures s[i] == l[i]
    {
      assert IsLowerDigit(s[i], 16) && IsDigit(hex[i], 16);
      LowerDigitUnique(s[i], l[i]);
    }
  }

  /** Two-digit base-16 numerals with equal values have equal digits. */
  lemma PairDigits(a: int, b: int, c: int, d: int)
    requires 0 <= a < 16 && 0 <= b < 16 && 0 <= c < 16 && 0 <= d < 16
    requires 16 * a + b == 16 * c + d
    ensures a == c && b == d
  {
  }

  /** A lower-case digit is determined by its value. */
  lemma LowerDigitUnique(a: char, b: char)
    requires '0' <= a <= '9' || 'a' <= a <= 'z'
    requires '0' <= b <= '9' || 'a' <= b <= 'z'
    requires CharValue(a) == CharValue(b)
    ensures a == b
  {
  }

  /** `lerpRGB`: each channel moves the fraction `t` of the way from `a` to `b`. */
  function Lerp(a: RGB, b: RGB, t: real): (c: RGB)
    ensures t == 0.0 ==> c == a
    ensures t == 1.0 ==> c == b
    ensures 0.0 <= t <= 1.0 ==> Between(a.r, b.r, c.r) && Between(a.g, b.g, c.g) && Between(a.b, b.b, c.b)
    ensures b.r - c.r == (1.0 - t) * (b.r - a.r)
    ensures b.g - c.g == (1.0 - t) * (b.g - a.g)
    ensures b.b - c.b == (1.0 - t) * (b.b - a.b)
  {
    if 0.0 <= t <= 1.0 then
      LerpChannelBetween(a.r, b.r, t);
      LerpChannelBetween(a.g, b.g, t);
      LerpChannelBetween(a.b, b.b, t);
      RGB(a.r + (b.r - a.r) * t, a.g + (b.g - a.g) * t, a.b + (b.b - a.b) * t)
    else
      RGB(a.r + (b.r - a.r) * t, a.g + (b.g - a.g) * t, a.b + (b.b - a.b) * t)
  }

  lemma LerpChannelBetween(x: real, y: real, t: real)
    requires 0.0 <= t <= 1.0
    ensures Between(x, y, x + (y - x) * t)
  {
    if x <= y {
      MulNonNegative(y - x, t);
      MulNonNegative(y - x, 1.0 - t);
    } else {
      MulNonNegative(x - y, t);
      MulNonNegative(x - y, 1.0 - t);
    }
  }

  lemma MulNonNegative(x: real, y: real)
    requires 0.0 <= x && 0.0 <= y
    ensures 0.0 <= x * y
  {
  }

  /** `x` lies on the closed segment between `lo` and `hi`, in either order. */
  predicate Between(lo: real, hi: real, x: real)
  {
    (lo <= x <= hi) || (hi <= x <= lo)
  }

  /** Perceived luminance with the Rec. 601 luma weights. */
  function Luma(c: RGB): real
  {
    0.299 * c.r + 0.587 * c.g + 0.114 * c.b
  }

  /** Rounding each channel moves the luma by at most half a unit, since the
      weights sum to one. */
  lemma RoundedLuma(c: RGB)
    ensures Luma(c) - 0.5 < Luma(RoundColor(c)) <= Luma(c) + 0.5
  {
    var d := RoundColor(c);
    assert c.r - 0.5 < d.r <= c.r + 0.5 && c.g - 0.5 < d.g <= c.g + 0.5 && c.b - 0.5 < d.b <= c.b + 0.5;
  }

  /** The luminance cap the background applies to every ribbon colour. */
  const MaxLuminance: real := 150.0

  /** `clampLuminance`: colours at or under the cap pass through; brighter ones are
      scaled, all channels by the same factor, down to exactly the cap. */
  function ClampLuminance(c: RGB, maxLuminance: real): (d: RGB)
    requires maxLuminance >= 0.0
    ensures Luma(d) <= maxLuminance
    ensures Luma(c) <= maxLuminance ==> d == c
    ensures Luma(c) > maxLuminance ==>
      Luma(d) == maxLuminance &&
      d == Scale(c, maxLuminance / Luma(c))
    ensures InRange(c) ==> InRange(d)
  {
    var lum := Luma(c);
    if lum <= maxLuminance then c
    else
      var scale := maxLuminance / lum;
      ScaledToCap(c, maxLuminance);
      if InRange(c) then
        ScaleInRange(c, scale);
        Scale(c, scale)
      else
        Scale(c, scale)
  }

  /** Scaling by the cap over the luminance lands exactly on the cap. */
  lemma ScaledToCap(c: RGB, maxLuminance: real)
    requires 0.0 <= maxLuminance < Luma(c)
    ensures Luma(Scale(c, maxLuminance / Luma(c))) == maxLuminance
  {
    var lum := Luma(c);
    var scale := maxLuminance / lum;
    ScaleLuma(c, scale);
    assert scale * lum == maxLuminance;
  }

  /** All three channels multiplied by `k`. */
  function Scale(c: RGB, k: real): RGB
  {
    RGB(c.r * k, c.g * k, c.b * k)
  }

  lemma ScaleLuma(c: RGB, k: real)
    ensures Luma(Scale(c, k)) == k * Luma(c)
  {
  }

  lemma ScaleInRange(c: RGB, k: real)
    requires InRange(c) && 0.0 <= k <= 1.0
    ensures InRange(Scale(c, k))
  {
    MulNonNegative(c.r, k);
    MulNonNegative(c.g, k);
    MulNonNegative(c.b, k);
    MulNonNegative(c.r, 1.0 - k);
    MulNonNegative(c.g, 1.0 - k);
    MulNonNegative(c.b, 1.0 - k);
  }
}
