/** The cover image's dominant colour: the mean of every fourth pixel of the
    64x64 RGBA thumbnail, leaving out pixels that are too dark or too bright. */
module DominantColor {
  import opened JsNumber

  type Byte = x: int | 0 <= x < 256

  datatype Color8 = Color8(r: int, g: int, b: int)

  /** The colour shown before any image has been sampled. */
  const InitialColor: Color8 := Color8(140, 70, 40)

  /** Bytes between samples: four RGBA pixels. */
  const Stride: nat := 16

  /** Every channel is a byte value. */
  predicate InByteRange(c: Color8)
  {
    0 <= c.r < 256 && 0 <= c.g < 256 && 0 <= c.b < 256
  }

  /** The pixel at byte `i` takes part in the mean: all three channels exist and
      its mean brightness lies strictly between 30 and 230. A channel read past the
      end is `undefined`, which makes the brightness NaN and both tests false. */
  predicate Counted(data: seq<Byte>, i: nat)
  {
    i + 2 < |data| && 90 < data[i] as int + data[i + 1] + data[i + 2] < 690
  }

  /** How many sample positions `0, 16, 32, ...` lie inside the data. */
  function SampleCount(data: seq<Byte>): nat
  {
    (|data| + Stride - 1) / Stride
  }

  /** Channel sums and the number of pixels counted. */
  datatype Tally = Tally(r: nat, g: nat, b: nat, count: nat)

  /** The tally over the first `k` sample positions. */
  function TallyOf(data: seq<Byte>, k: nat): Tally
  {
    if k == 0 then Tally(0, 0, 0, 0)
    else
      var t := TallyOf(data, k - 1);
      var i := Stride * (k - 1);
      if Counted(data, i) then Tally(t.r + data[i] as nat, t.g + data[i + 1] as nat, t.b + data[i + 2] as nat, t.count + 1)
      else t
  }

  /** Each channel sum is at most 255 per counted pixel, and the three together
      stay strictly inside the brightness band the filter allows. */
  lemma {:induction false} TallyBounds(data: seq<Byte>, k: nat)
    ensures var t := TallyOf(data, k);
      t.r <= 255 * t.count && t.g <= 255 * t.count && t.b <= 255 * t.count
    ensures var t := TallyOf(data, k);
      t.count > 0 ==> 90 * t.count < t.r + t.g + t.b < 690 * t.count
    ensures TallyOf(data, k).count <= k
  {
    if k > 0 {
      TallyBounds(data, k - 1);
    }
  }

  /** The rounded mean of a tally, or `previous` when nothing was counted. */
  function MeanOr(t: Tally, previous: Color8): Color8
  {
    if t.count > 0 then
      Color8(Round(t.r as real / t.count as real),
             Round(t.g as real / t.count as real),
             Round(t.b as real / t.count as real))
    else previous
  }

  /** A mean of at most 255 per item rounds to a byte. */
  lemma MeanIsByte(sum: nat, count: nat)
    requires count > 0 && sum <= 255 * count
    ensures 0 <= Round(sum as real / count as real) < 256
  {
    assert sum as real / count as real <= 255.0;
  }

  /** The sampling loop of `useDominantColor`. */
  method Sample(data: seq<Byte>, previous: Color8) returns (c: Color8)
    requires InByteRange(previous)
    ensures c == MeanOr(TallyOf(data, SampleCount(data)), previous)
    ensures InByteRange(c)
    ensures TallyOf(data, SampleCount(data)).count == 0 ==> c == previous
  {
    var r: nat, g: nat, b: nat, count: nat := 0, 0, 0, 0;
    var i := 0;
    ghost var k := 0;
    while i < |data|
      invariant i == Stride * k
      invariant k <= SampleCount(data)
      invariant (k < SampleCount(data)) == (i < |data|)
      invariant TallyOf(data, k) == Tally(r, g, b, count)
      decreases |data| - i
    {
      if i + 2 < |data| {
        var pr: nat, pg: nat, pb: nat := data[i], data[i + 1], data[i + 2];
        if 90 < pr + pg + pb < 690 {
          r, g, b, count := r + pr, g + pg, b + pb, count + 1;
        }
      }
      i, k := i + Stride, k + 1;
    }
    var t := Tally(r, g, b, count);
    TallyBounds(data, k);
    if count > 0 {
      MeanIsByte(r, count);
      MeanIsByte(g, count);
      MeanIsByte(b, count);
      c := Color8(Round(r as real / count as real), Round(g as real / count as real), Round(b as real / count as real));
    } else {
      c := previous;
    }
  }

  /** A uniform grey thumbnail of mid brightness gives back that grey, and a
      black one leaves the previous colour in place. */
  lemma SampleExamples()
    ensures MeanOr(TallyOf(seq(32, _ => 100), 2), InitialColor) == Color8(100, 100, 100)
    ensures MeanOr(TallyOf(seq(32, _ => 0), 2), InitialColor) == InitialColor
  {
    var grey: seq<Byte> := seq(32, _ => 100);
    assert TallyOf(grey, 1) == Tally(100, 100, 100, 1);
    assert TallyOf(grey, 2) == Tally(200, 200, 200, 2);
    assert Round(200 as real / 2 as real) == 100;
    var black: seq<Byte> := seq(32, _ => 0);
    assert !Counted(black, 0) && !Counted(black, 16);
    assert TallyOf(black, 1) == Tally(0, 0, 0, 0);
    assert TallyOf(black, 2) == Tally(0, 0, 0, 0);
  }
}
