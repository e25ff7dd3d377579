/** The hue arithmetic of the frame renderer: the cold-to-hot hue delta
    normalised to the short arc, its scaling by a slot's usage ratio, and the
    reduction of the interpolated hue into [0, 360). The configured hues are
    `uint16_t`, the delta an `int16_t` and the interpolated hue a `uint16_t`;
    every store into one of these types is modelled as the C conversion. */
module Hue {
  import opened FixedWidth

  /** `hue_delta` once normalised: `hot - cold` stored into an `int16_t`,
      then moved once by 360 toward zero when it lies outside [-180, 180].
      For configured hues in [0, 360) it is the signed length of the shorter
      arc from cold to hot. */
  function ShortDelta(cold: u16, hot: u16): (d: int)
    ensures -0x8000 <= d < 0x8000
    ensures cold < 360 && hot < 360 ==>
              -180 <= d <= 180 &&
              (d == hot - cold || d == hot - cold - 360 || d == hot - cold + 360)
    ensures hot - cold == 180 ==> d == 180
    ensures hot - cold == -180 ==> d == -180
  {
    var raw := ToInt16(hot - cold);
    if raw > 180 then ToInt16(raw - 360)
    else if raw < -180 then ToInt16(raw + 360)
    else raw
  }

  /** `(int16_t)(hue_delta * usage)` where usage is count / maxCount, taken
      exactly and truncated toward zero by the cast. */
  function Scaled(delta: int, count: u32, maxCount: u32): (s: int)
    requires maxCount > 0
    ensures -0x8000 <= s < 0x8000
  {
    ToInt16(TruncDiv(delta * count, maxCount))
  }

  /** The hue a slot renders with: `cold + scaled` stored into the `uint16_t`
      `hue`, then reduced below 360. */
  function HueAt(cold: u16, hot: u16, count: u32, maxCount: u32): (h: u16)
    requires maxCount > 0
    ensures h < 360
  {
    ToUint16(cold + Scaled(ShortDelta(cold, hot), count, maxCount)) % 360
  }

  /** The hue computation of the render loop, step by step as the C code
      runs it: the normalisation of the delta, the scaling, the store into
      the unsigned 16-bit hue and its reduction. */
  method InterpolateHue(cold: u16, hot: u16, count: u32, maxCount: u32) returns (hue: u16)
    requires maxCount > 0
    ensures hue == HueAt(cold, hot, count, maxCount)
  {
    var delta := ToInt16(hot - cold);
    if delta > 180 {
      delta := ToInt16(delta - 360);
    } else if delta < -180 {
      delta := ToInt16(delta + 360);
    }
    assert delta == ShortDelta(cold, hot);
    hue := ToUint16(cold + ToInt16(TruncDiv(delta * count, maxCount)));
    hue := ReduceHue(hue);
  }

  /** The loop `while (hue >= 360) hue -= 360` on the unsigned hue: it leaves
      the remainder modulo 360. The loop that follows it in the C code,
      `while (hue < 0)`, can never run on an unsigned hue and has no
      counterpart here. */
  method ReduceHue(h: u16) returns (hue: u16)
    ensures hue < 360
    ensures hue % 360 == h % 360
  {
    hue := h;
    while hue >= 360
      invariant hue % 360 == h % 360
      decreases hue
    {
      hue := hue - 360;
    }
  }

  /** For a count between 0 and the maximum, the scaled delta lies between 0
      and the delta: it is 0 for an unused slot and the whole delta for a slot
      with the maximum count. */
  lemma ScaledBounds(delta: int, count: u32, maxCount: u32)
    requires -0x8000 <= delta < 0x8000
    requires 0 < maxCount && count <= maxCount
    ensures 0 <= delta ==> 0 <= Scaled(delta, count, maxCount) <= delta
    ensures delta < 0 ==> delta <= Scaled(delta, count, maxCount) <= 0
    ensures count == 0 ==> Scaled(delta, count, maxCount) == 0
    ensures count == maxCount ==> Scaled(delta, count, maxCount) == delta
  {
    TruncDivScaled(delta, count, maxCount);
  }

  /** The scaled delta moves monotonically with the usage count, in the
      direction of the delta's sign. */
  lemma ScaledMonotone(delta: int, c1: u32, c2: u32, maxCount: u32)
    requires -0x8000 <= delta < 0x8000
    requires 0 < maxCount && c1 <= c2 <= maxCount
    ensures 0 <= delta ==> Scaled(delta, c1, maxCount) <= Scaled(delta, c2, maxCount)
    ensures delta < 0 ==> Scaled(delta, c2, maxCount) <= Scaled(delta, c1, maxCount)
  {
    ScaledBounds(delta, c1, maxCount);
    ScaledBounds(delta, c2, maxCount);
    TruncDivScaled(delta, c1, maxCount);
    TruncDivScaled(delta, c2, maxCount);
    if 0 <= delta {
      MulMonotoneLeft(c1, c2, delta + 1);
      assert delta * c1 <= delta * c2 by { MulMonotone(delta, c1, c2); }
      TruncDivMonotone(delta * c1, delta * c2, maxCount);
    } else {
      assert delta * c2 <= delta * c1 by { MulMonotone(delta, c1, c2); }
      TruncDivMonotone(delta * c2, delta * c1, maxCount);
    }
  }

  /** A never-pressed slot renders the cold hue (reduced below 360). */
  lemma HueAtUnused(cold: u16, hot: u16, maxCount: u32)
    requires maxCount > 0
    ensures HueAt(cold, hot, 0, maxCount) == cold % 360
    ensures cold < 360 ==> HueAt(cold, hot, 0, maxCount) == cold
  {
    ScaledBounds(ShortDelta(cold, hot), 0, maxCount);
  }

  /** A slot with the maximum count renders the hot hue when the short arc
      does not cross below 0 from the cold hue; otherwise the negative sum
      wraps modulo 2^16 in the unsigned hue before it is reduced, and the
      result is that wrapped value modulo 360. */
  lemma HueAtMostUsed(cold: u16, hot: u16, maxCount: u32)
    requires cold < 360 && hot < 360 && maxCount > 0
    ensures cold + ShortDelta(cold, hot) >= 0 ==> HueAt(cold, hot, maxCount, maxCount) == hot
    ensures cold + ShortDelta(cold, hot) < 0 ==>
              HueAt(cold, hot, maxCount, maxCount) == (TWO_16 + cold + ShortDelta(cold, hot)) % 360
  {
    ScaledBounds(ShortDelta(cold, hot), maxCount, maxCount);
  }

  /** The hue the renderer evidently means to produce: the interpolated hue
      reduced modulo 360 as a mathematical (never negative) remainder, which
      is what the C code's second loop `while (hue < 0) hue += 360` would do
      on a signed hue. */
  function ShortArcHue(cold: u16, hot: u16, count: u32, maxCount: u32): (h: int)
    requires maxCount > 0
    ensures 0 <= h < 360
  {
    (cold + Scaled(ShortDelta(cold, hot), count, maxCount)) % 360
  }

  /** The corrected hue runs from the cold hue at usage 0 to the hot hue at
      usage 1 for every pair of configured hues, along the shorter arc. */
  lemma ShortArcHueEnds(cold: u16, hot: u16, maxCount: u32)
    requires cold < 360 && hot < 360 && maxCount > 0
    ensures ShortArcHue(cold, hot, 0, maxCount) == cold
    ensures ShortArcHue(cold, hot, maxCount, maxCount) == hot
  {
    ScaledBounds(ShortDelta(cold, hot), 0, maxCount);
    ScaledBounds(ShortDelta(cold, hot), maxCount, maxCount);
  }

  /** The rendered hue agrees with the short-arc hue exactly when the
      interpolated sum is not negative; when it is, the 16-bit wrap adds
      65536, that is 16 modulo 360, to the hue. */
  lemma HueAtVersusShortArc(cold: u16, hot: u16, count: u32, maxCount: u32)
    requires cold < 360 && hot < 360
    requires 0 < maxCount && count <= maxCount
    ensures cold + Scaled(ShortDelta(cold, hot), count, maxCount) >= 0 ==>
              HueAt(cold, hot, count, maxCount) == ShortArcHue(cold, hot, count, maxCount)
    ensures cold + Scaled(ShortDelta(cold, hot), count, maxCount) < 0 ==>
              HueAt(cold, hot, count, maxCount) == (ShortArcHue(cold, hot, count, maxCount) + 16) % 360
  {
    var x := cold + Scaled(ShortDelta(cold, hot), count, maxCount);
    ScaledBounds(ShortDelta(cold, hot), count, maxCount);
    assert HueAt(cold, hot, count, maxCount) == ToUint16(x) % 360;
    assert ShortArcHue(cold, hot, count, maxCount) == x % 360;
    WrappedRemainder(x);
  }

  /** For a sum that may dip below 0 by at most half a turn, the remainder
      after the 16-bit wrap is the plain remainder, shifted by 16 when the
      sum is negative (65536 is 182 turns and 16 degrees). */
  lemma WrappedRemainder(x: int)
    requires -180 <= x < 540
    ensures x >= 0 ==> ToUint16(x) % 360 == x % 360
    ensures x < 0 ==> ToUint16(x) % 360 == (x % 360 + 16) % 360
  {
    if x < 0 {
      assert x % 360 == x + 360;
      assert ToUint16(x) == (x + 360 + 16) + 181 * 360;
    }
  }

  /** With cold hue 10 and hot hue 350 the short arc runs down through 0,
      and the most used slot renders hue 6 instead of 350. */
  lemma HotEndCounterexample()
    ensures HueAt(10, 350, 1, 1) == 6
    ensures ShortArcHue(10, 350, 1, 1) == 350
  {
    assert ShortDelta(10, 350) == -20;
    assert TruncDiv(-20 * 1, 1) == -20;
    assert ToUint16(10 - 20) == 65526;
  }

  /** With cold hue 350 and hot hue 10, a slot at half the maximum usage
      renders hue 0: the interpolation crosses the 0/360 seam along the
      20 degree arc instead of sweeping through 180. */
  lemma SeamCrossingExample()
    ensures HueAt(350, 10, 1, 2) == 0
  {
    assert ShortDelta(350, 10) == 20;
    assert TruncDiv(20 * 1, 2) == 10;
  }

  /** Where the C code's float ratio is not exact, its rounding can move the
      scaled delta by one, and across 0 the 16-bit wrap turns that into 15
      degrees. With cold hue 62 and hot hue 314 (delta -108) at count 7 of
      12, the exact scaled delta is -63, so the sum -1 wraps and the model
      renders hue 15; in single precision the product is just above -63,
      truncates to -62, and the firmware renders hue 0. */
  lemma FloatRoundingExample()
    ensures ShortDelta(62, 314) == -108
    ensures Scaled(-108, 7, 12) == -63
    ensures HueAt(62, 314, 7, 12) == 15
  {
    assert TruncDiv(-108 * 7, 12) == -63;
    assert ToUint16(62 - 63) == 65535;
  }
}
