/** The colour side of the animated ribbon background: how ribbons get their colours
    at creation, how a palette change retargets them, and the per-frame step that
    eases each ribbon's colour toward its target and the pointer influence toward
    the pointer's state. Geometry, noise and drawing are not modelled; the
    parameters they use are carried unchanged in `Shape`. */
module Ribbons {
  import opened Color

  /** One sine layer of a ribbon's undulation, or its width modulation. */
  datatype Wave = Wave(amplitude: real, frequency: real, phase: real, speed: real)

  /** Everything `createRibbon` draws at random or derives by trigonometry: fixed
      for the life of the ribbon. */
  datatype Shape = Shape(
    x0: real, y0: real, x1: real, y1: real,
    waves: seq<Wave>,
    baseWidth: real, widthWave: Wave,
    opacity: real, noiseSeed: real, driftSpeed: real, driftPhase: real)

  /** A ribbon: its fixed shape, the colour string it is painted with, and the
      colour it currently shows and the one it is easing toward. */
  datatype Ribbon = Ribbon(shape: Shape, color: string, currentRGB: RGB, targetRGB: RGB)

  /** The whole animated state the frame loop reads and writes. */
  datatype Animation = Animation(
    ribbons: seq<Ribbon>,
    influence: real,
    time: real,
    frameCount: nat,
    revealed: bool)

  const RibbonCount: nat := 11
  const MinReferenceWidth: int := 2560
  const MinReferenceHeight: int := 1440
  /** Fraction of the remaining colour gap closed each frame. */
  const ColorLerpSpeed: real := 0.015
  /** Fraction of the remaining influence gap closed each frame. */
  const InfluenceRate: real := 0.04
  const TimeStep: real := 0.006
  /** The frame on which the canvas is made visible. */
  const RevealFrame: nat := 3

  /** A usable palette: non-empty, every entry `"#"` and six hex digits. */
  predicate IsPalette(p: seq<string>)
  {
    |p| > 0 && forall i :: 0 <= i < |p| ==> IsHexColor(p[i])
  }

  /** The reference field ribbons are laid out in: the window, but never smaller
      than 2560 by 1440. */
  function ReferenceSize(innerWidth: int, innerHeight: int): (size: (int, int))
    ensures size.0 >= MinReferenceWidth && size.0 >= innerWidth
    ensures size.0 == MinReferenceWidth || size.0 == innerWidth
    ensures size.1 >= MinReferenceHeight && size.1 >= innerHeight
    ensures size.1 == MinReferenceHeight || size.1 == innerHeight
  {
    (if innerWidth > MinReferenceWidth then innerWidth else MinReferenceWidth,
     if innerHeight > MinReferenceHeight then innerHeight else MinReferenceHeight)
  }

  /** The colour part of `createRibbon`: ribbon `index` takes palette entry
      `index mod |palette|` and starts already at its target colour. */
  function CreateRibbon(palette: seq<string>, index: nat, shape: Shape): (rb: Ribbon)
    requires IsPalette(palette)
    ensures rb.shape == shape
    ensures rb.color == palette[index % |palette|]
    ensures rb.currentRGB == rb.targetRGB == HexToRGB(palette[index % |palette|])
  {
    var hex := palette[index % |palette|];
    var rgb := HexToRGB(hex);
    Ribbon(shape, hex, rgb, rgb)
  }

  /** The ribbon field built once at mount, one ribbon per given shape. */
  function CreateField(palette: seq<string>, shapes: seq<Shape>): (rs: seq<Ribbon>)
    requires IsPalette(palette)
    requires |shapes| == RibbonCount
    ensures |rs| == RibbonCount
    ensures forall i :: 0 <= i < |rs| ==>
      rs[i].shape == shapes[i] && rs[i].color == palette[i % |palette|] &&
      rs[i].currentRGB == rs[i].targetRGB == HexToRGB(palette[i % |palette|])
  {
    seq(RibbonCount, i requires 0 <= i < RibbonCount => CreateRibbon(palette, i, shapes[i]))
  }

  /** The animation right after mount: nothing painted, no pointer influence. */
  function Start(palette: seq<string>, shapes: seq<Shape>): (a: Animation)
    requires IsPalette(palette)
    requires |shapes| == RibbonCount
    ensures |a.ribbons| == RibbonCount && a.frameCount == 0 && !a.revealed && a.influence == 0.0
    ensures AllInRange(a.ribbons)
    ensures a.time == 0.0
    ensures forall i :: 0 <= i < RibbonCount ==>
      a.ribbons[i].shape == shapes[i] &&
      a.ribbons[i].currentRGB == a.ribbons[i].targetRGB == HexToRGB(palette[i % |palette|])
  {
    var rs := CreateField(palette, shapes);
    assert forall i :: 0 <= i < |rs| ==> IsByteColor(rs[i].currentRGB);
    Animation(rs, 0.0, 0.0, 0, false)
  }

  /** The palette effect: ribbon `i` is retargeted to palette entry `i mod |palette|`,
      and nothing else about any ribbon changes. With no ribbons yet it does nothing,
      whatever the palette. */
  function Retarget(ribbons: seq<Ribbon>, palette: seq<string>): (rs: seq<Ribbon>)
    requires |ribbons| > 0 ==> IsPalette(palette)
    ensures |rs| == |ribbons|
    ensures forall i :: 0 <= i < |rs| ==>
      rs[i].targetRGB == HexToRGB(palette[i % |palette|]) &&
      rs[i].shape == ribbons[i].shape &&
      rs[i].color == ribbons[i].color &&
      rs[i].currentRGB == ribbons[i].currentRGB
  {
    if |ribbons| == 0 then ribbons
    else (seq(|ribbons|, i requires 0 <= i < |ribbons| =>
      ribbons[i].(targetRGB := HexToRGB(palette[i % |palette|]))))
  }

  /** Only the latest palette matters: there is no queue of pending targets. */
  lemma RetargetLastWins(ribbons: seq<Ribbon>, p: seq<string>, q: seq<string>)
    requires |ribbons| > 0 ==> IsPalette(p) && IsPalette(q)
    ensures Retarget(Retarget(ribbons, p), q) == Retarget(ribbons, q)
  {
    var a, b := Retarget(Retarget(ribbons, p), q), Retarget(ribbons, q);
    assert forall i :: 0 <= i < |a| ==> a[i] == b[i];
  }

  /** Channels of every ribbon's current and target colour lie in [0, 255]. */
  predicate AllInRange(ribbons: seq<Ribbon>)
  {
    forall i :: 0 <= i < |ribbons| ==> InRange(ribbons[i].currentRGB) && InRange(ribbons[i].targetRGB)
  }

  lemma RetargetKeepsInRange(ribbons: seq<Ribbon>, palette: seq<string>)
    requires |ribbons| > 0 ==> IsPalette(palette)
    requires AllInRange(ribbons)
    ensures AllInRange(Retarget(ribbons, palette))
  {
  }

  /** What is left of the way from the current colour to the target, per channel. */
  function Gap(rb: Ribbon): RGB
  {
    RGB(rb.targetRGB.r - rb.currentRGB.r, rb.targetRGB.g - rb.currentRGB.g, rb.targetRGB.b - rb.currentRGB.b)
  }

  /** The per-ribbon part of a frame: ease the current colour 1.5% of the way to the
      target, then paint the luminance-capped colour as a hex string. */
  function ColorStep(rb: Ribbon): (r: Ribbon)
    ensures r.shape == rb.shape && r.targetRGB == rb.targetRGB
    ensures Gap(r) == Scale(Gap(rb), 1.0 - ColorLerpSpeed)
    ensures Between(rb.currentRGB.r, rb.targetRGB.r, r.currentRGB.r)
    ensures Between(rb.currentRGB.g, rb.targetRGB.g, r.currentRGB.g)
    ensures Between(rb.currentRGB.b, rb.targetRGB.b, r.currentRGB.b)
  {
    var current := Lerp(rb.currentRGB, rb.targetRGB, ColorLerpSpeed);
    EaseStep(rb.currentRGB, rb.targetRGB);
    var eased := rb.(currentRGB := current);
    assert Gap(eased) == Scale(Gap(rb), 1.0 - ColorLerpSpeed);
    eased.(color := Paint(current))
  }

  /** The hex string a colour is painted with: capped, then printed. */
  function Paint(c: RGB): string
  {
    RgbToHex(ClampLuminance(c, MaxLuminance))
  }

  /** One easing step toward the target leaves each channel between the old colour
      and the target, and shrinks the remaining gap by the easing factor. */
  lemma EaseStep(a: RGB, b: RGB)
    ensures var c := Lerp(a, b, ColorLerpSpeed);
      && RGB(b.r - c.r, b.g - c.g, b.b - c.b) == Scale(RGB(b.r - a.r, b.g - a.g, b.b - a.b), 1.0 - ColorLerpSpeed)
      && Between(a.r, b.r, c.r) && Between(a.g, b.g, c.g) && Between(a.b, b.b, c.b)
  {
  }

  /** With current and target colours in range, the step stays in range and paints a
      lower-case hex colour that reads back as the luminance-capped colour, rounded. */
  lemma ColorStepPaints(rb: Ribbon)
    requires InRange(rb.currentRGB) && InRange(rb.targetRGB)
    ensures var r := ColorStep(rb);
      InRange(r.currentRGB) && IsLowerHexColor(r.color) && IsHexColor(r.color) &&
      Luma(ClampLuminance(r.currentRGB, MaxLuminance)) <= MaxLuminance &&
      HexToRGB(r.color) == RoundColor(ClampLuminance(r.currentRGB, MaxLuminance)) &&
      Luma(HexToRGB(r.color)) <= MaxLuminance + 0.5
  {
    var r := ColorStep(rb);
    BetweenInRange(rb.currentRGB, rb.targetRGB, r.currentRGB);
    CappedColorPrints(r.currentRGB);
    RoundedLuma(ClampLuminance(r.currentRGB, MaxLuminance));
  }

  /** A colour between two in-range colours is in range. */
  lemma BetweenInRange(a: RGB, b: RGB, c: RGB)
    requires InRange(a) && InRange(b)
    requires Between(a.r, b.r, c.r) && Between(a.g, b.g, c.g) && Between(a.b, b.b, c.b)
    ensures InRange(c)
  {
  }

  /** The pointer influence eases 4% of the way toward 1 while the pointer is over
      the page and toward 0 otherwise. */
  function InfluenceStep(influence: real, active: bool): (r: real)
    ensures var target := if active then 1.0 else 0.0;
      target - r == (1.0 - InfluenceRate) * (target - influence) &&
      Between(influence, target, r)
    ensures 0.0 <= influence <= 1.0 ==> 0.0 <= r <= 1.0
  {
    var target := if active then 1.0 else 0.0;
    LerpChannelBetween(influence, target, InfluenceRate);
    influence + (target - influence) * InfluenceRate
  }

  /** One call of the frame loop, as far as colours, influence and the reveal go. */
  function Frame(a: Animation, pointerActive: bool): (b: Animation)
    ensures |b.ribbons| == |a.ribbons|
    ensures forall i :: 0 <= i < |a.ribbons| ==> b.ribbons[i] == ColorStep(a.ribbons[i])
    ensures b.frameCount == a.frameCount + 1
    ensures b.revealed <==> a.revealed || a.frameCount + 1 == RevealFrame
    ensures b.influence == InfluenceStep(a.influence, pointerActive)
  {
    var frameCount := a.frameCount + 1;
    Animation(
      seq(|a.ribbons|, i requires 0 <= i < |a.ribbons| => ColorStep(a.ribbons[i])),
      InfluenceStep(a.influence, pointerActive),
      a.time + TimeStep,
      frameCount,
      a.revealed || frameCount == RevealFrame)
  }

  /** Successive frames, one pointer state per frame. */
  function Frames(a: Animation, pointer: seq<bool>): Animation
    decreases |pointer|
  {
    if pointer == [] then a else Frames(Frame(a, pointer[0]), pointer[1..])
  }

  function Pow(x: real, n: nat): real
  {
    if n == 0 then 1.0 else x * Pow(x, n - 1)
  }

  /** After `k` frames without a palette change every ribbon's colour gap is
      exactly `0.985^k` times what it was, and shapes and targets are untouched. */
  lemma {:induction false} FramesShrinkGap(a: Animation, pointer: seq<bool>)
    ensures |Frames(a, pointer).ribbons| == |a.ribbons|
    ensures forall i :: 0 <= i < |a.ribbons| ==>
      var r := Frames(a, pointer).ribbons[i];
      r.shape == a.ribbons[i].shape && r.targetRGB == a.ribbons[i].targetRGB &&
      Gap(r) == Scale(Gap(a.ribbons[i]), Pow(1.0 - ColorLerpSpeed, |pointer|))
    decreases |pointer|
  {
    if pointer != [] {
      var b := Frame(a, pointer[0]);
      var z := Frames(b, pointer[1..]);
      assert Frames(a, pointer) == z;
      FramesShrinkGap(b, pointer[1..]);
      var x, y := 1.0 - ColorLerpSpeed, Pow(1.0 - ColorLerpSpeed, |pointer| - 1);
      assert Pow(x, |pointer|) == y * x;
      forall i | 0 <= i < |a.ribbons|
        ensures Gap(z.ribbons[i]) == Scale(Gap(a.ribbons[i]), y * x)
      {
        assert Gap(b.ribbons[i]) == Scale(Gap(a.ribbons[i]), x);
        ScaleTwice(Gap(a.ribbons[i]), x, y);
      }
    }
  }

  /** Colours in range stay in range, frame after frame. */
  lemma {:induction false} FramesKeepInRange(a: Animation, pointer: seq<bool>)
    requires AllInRange(a.ribbons)
    ensures AllInRange(Frames(a, pointer).ribbons)
    decreases |pointer|
  {
    if pointer != [] {
      var b := Frame(a, pointer[0]);
      forall i | 0 <= i < |b.ribbons|
        ensures InRange(b.ribbons[i].currentRGB) && InRange(b.ribbons[i].targetRGB)
      {
        ColorStepPaints(a.ribbons[i]);
      }
      FramesKeepInRange(b, pointer[1..]);
    }
  }

  lemma ScaleTwice(c: RGB, x: real, y: real)
    ensures Scale(Scale(c, x), y) == Scale(c, y * x)
  {
    assert c.r * x * y == c.r * (y * x);
    assert c.g * x * y == c.g * (y * x);
    assert c.b * x * y == c.b * (y * x);
  }

  /** The pointer influence never leaves [0, 1]. */
  lemma {:induction false} FramesKeepInfluence(a: Animation, pointer: seq<bool>)
    requires 0.0 <= a.influence <= 1.0
    ensures 0.0 <= Frames(a, pointer).influence <= 1.0
    decreases |pointer|
  {
    if pointer != [] {
      FramesKeepInfluence(Frame(a, pointer[0]), pointer[1..]);
    }
  }

  /** Counting from mount, the canvas is revealed exactly from the third frame on. */
  lemma {:induction false} RevealedFromThirdFrame(a: Animation, pointer: seq<bool>)
    requires !a.revealed && a.frameCount < RevealFrame
    ensures Frames(a, pointer).frameCount == a.frameCount + |pointer|
    ensures Frames(a, pointer).revealed <==> a.frameCount + |pointer| >= RevealFrame
    decreases |pointer|
  {
    if pointer != [] {
      var b := Frame(a, pointer[0]);
      if b.revealed {
        StaysRevealed(b, pointer[1..]);
      } else {
        RevealedFromThirdFrame(b, pointer[1..]);
      }
    }
  }

  lemma {:induction false} StaysRevealed(a: Animation, pointer: seq<bool>)
    requires a.revealed
    ensures Frames(a, pointer).revealed
    ensures Frames(a, pointer).frameCount == a.frameCount + |pointer|
    decreases |pointer|
  {
    if pointer != [] {
      StaysRevealed(Frame(a, pointer[0]), pointer[1..]);
    }
  }
}
