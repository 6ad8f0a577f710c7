/** The per-sample arithmetic of `Wav::set_volume`. The implementation
    converts each sample to `f32`, multiplies, clamps to the range of the
    sample type and converts back with `as`. Here the product is taken in
    exact real arithmetic; the conversion back truncates toward zero, as a
    Rust float-to-integer `as` does. */
module Volume {
  import opened LittleEndian
  import opened Samples

  /** `x as iN` for an in-range `x`: rounding toward zero. */
  function Trunc(x: real): (r: int)
    ensures x >= 0.0 ==> r as real <= x < r as real + 1.0
    ensures x <= 0.0 ==> r as real - 1.0 < x <= r as real
  {
    if x >= 0.0 then x.Floor else -((-x).Floor)
  }

  /** `f32::clamp`: the point of [lo, hi] nearest to x. */
  function Clamp(x: real, lo: real, hi: real): (r: real)
    requires lo <= hi
    ensures lo <= r <= hi
    ensures lo <= x <= hi ==> r == x
    ensures r != x ==> (x < lo && r == lo) || (hi < x && r == hi)
  {
    if x < lo then lo else if x > hi then hi else x
  }

  /** One sample after `set_volume`: the scaled value clamped to [lo, hi] and
      truncated. The result always fits the sample type: the scaling
      saturates, it never wraps. */
  function ScaleSample(s: int, volume: real, lo: int, hi: int): (r: int)
    requires lo <= 0 <= hi
    ensures lo <= r <= hi
  {
    Trunc(Clamp(s as real * volume, lo as real, hi as real))
  }

  /** The `I16bits` and `I32bits` arms of `set_volume`: every sample is
      rescaled in place, so the variant and the sample count are kept. */
  function ScaleBits(b: SampleBits, volume: real): (r: SampleBits)
    ensures r.I16bits? == b.I16bits?
    ensures Count(r) == Count(b)
    ensures b.I16bits? ==> forall i :: 0 <= i < |b.s16| ==>
      r.s16[i] == ScaleSample(b.s16[i], volume, I16Min, I16Max)
    ensures b.I32bits? ==> forall i :: 0 <= i < |b.s32| ==>
      r.s32[i] == ScaleSample(b.s32[i], volume, I32Min, I32Max)
  {
    match b
    case I16bits(s) =>
      I16bits(seq(|s|, i requires 0 <= i < |s| => ScaleSample(s[i], volume, I16Min, I16Max)))
    case I32bits(s) =>
      I32bits(seq(|s|, i requires 0 <= i < |s| => ScaleSample(s[i], volume, I32Min, I32Max)))
  }

  /** Truncation is monotone. */
  lemma TruncMonotone(x: real, y: real)
    requires x <= y
    ensures Trunc(x) <= Trunc(y)
  {
    if x < 0.0 && y >= 0.0 {
      assert Trunc(x) <= 0;
    } else if x < 0.0 {
      assert (-y).Floor <= (-x).Floor;
    }
  }

  /** A volume of 1.0 leaves an in-range sample unchanged. */
  lemma ScaleUnity(s: int, lo: int, hi: int)
    requires lo <= 0 <= hi && lo <= s <= hi
    ensures ScaleSample(s, 1.0, lo, hi) == s
  {
  }

  /** A volume of 0.0 silences every sample. */
  lemma ScaleZero(s: int, lo: int, hi: int)
    requires lo <= 0 <= hi
    ensures ScaleSample(s, 0.0, lo, hi) == 0
  {
  }

  /** A louder volume never makes a non-negative sample smaller, nor a
      non-positive sample larger. */
  lemma ScaleMonotone(s: int, v1: real, v2: real, lo: int, hi: int)
    requires lo <= 0 <= hi && 0.0 <= v1 <= v2
    ensures s >= 0 ==> ScaleSample(s, v1, lo, hi) <= ScaleSample(s, v2, lo, hi)
    ensures s <= 0 ==> ScaleSample(s, v2, lo, hi) <= ScaleSample(s, v1, lo, hi)
  {
    var x1, x2 := s as real * v1, s as real * v2;
    assert x2 - x1 == s as real * (v2 - v1);
    if s >= 0 {
      assert s as real * (v2 - v1) >= 0.0;
      assert x1 <= x2;
      TruncMonotone(Clamp(x1, lo as real, hi as real), Clamp(x2, lo as real, hi as real));
    } else {
      assert (-s) as real * (v2 - v1) >= 0.0;
      assert x2 <= x1;
      TruncMonotone(Clamp(x2, lo as real, hi as real), Clamp(x1, lo as real, hi as real));
    }
  }

  /** A sample at either end of the range, amplified, stays at that end. */
  lemma ScaleSaturates(volume: real, lo: int, hi: int)
    requires lo <= 0 <= hi && volume >= 1.0
    ensures ScaleSample(hi, volume, lo, hi) == hi
    ensures ScaleSample(lo, volume, lo, hi) == lo
  {
    assert hi as real * volume >= hi as real;
    assert lo as real * volume <= lo as real;
  }
}
