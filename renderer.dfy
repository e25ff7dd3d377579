/** The frame renderer as specifications: the floored maximum over the press
    counts, the hue each slot renders with, and the pixels that compositing
    the slots' colours produces. Colour conversion and blending belong to
    the light driver and are parameters: `hslToRgb` and `blend` stand for
    them, over an unspecified colour type `C`. */
module Renderer {
  import opened FixedWidth
  import opened Hue

  /** A colour in the hue/saturation/lightness model, as handed to the
      driver's conversion. */
  datatype Hsl = Hsl(h: u16, s: u8, l: u8)

  /** The largest count, but never less than 1 so that it can divide. The
      recursion runs over the counts in slot order, as the scan does. */
  function MaxCount(counts: seq<u32>): (m: u32)
    ensures m >= 1
    ensures forall i :: 0 <= i < |counts| ==> counts[i] <= m
    ensures m == 1 || m in counts
    decreases |counts|
  {
    if counts == [] then 1
    else
      var m := MaxCount(counts[..|counts| - 1]);
      if counts[|counts| - 1] > m then counts[|counts| - 1] else m
  }

  /** The first loop of the render: `max_count` starts at 1 and is raised
      to every larger count in turn. */
  method ScanMax(counts: array<u32>) returns (maxCount: u32)
    ensures maxCount == MaxCount(counts[..])
    ensures maxCount >= 1
    ensures forall i :: 0 <= i < counts.Length ==> counts[i] <= maxCount
  {
    maxCount := 1;
    for i := 0 to counts.Length
      invariant maxCount == MaxCount(counts[..i])
    {
      assert counts[..i + 1][..i] == counts[..i];
      if counts[i] > maxCount {
        maxCount := counts[i];
      }
    }
    assert counts[..counts.Length] == counts[..];
  }

  /** The hue of every slot in one frame. */
  function FrameHues(counts: seq<u32>, cold: u16, hot: u16): (hues: seq<u16>)
    ensures |hues| == |counts|
    ensures forall i :: 0 <= i < |hues| ==> hues[i] < 360
  {
    seq(|counts|, i requires 0 <= i < |counts| => HueAt(cold, hot, counts[i], MaxCount(counts)))
  }

  /** The colour of every slot in one frame. */
  function FrameColours<C>(counts: seq<u32>, cold: u16, hot: u16, saturation: u8, lightness: u8,
                           hslToRgb: Hsl -> C): (colours: seq<C>)
    ensures |colours| == |counts|
  {
    var hues := FrameHues(counts, cold, hot);
    seq(|counts|, i requires 0 <= i < |counts| => hslToRgb(Hsl(hues[i], saturation, lightness)))
  }

  /** The pixels after the first `k` slots have been composited, in slot
      order, each into the pixel its entry of the pixel map names. */
  function Paint<C>(pixels: seq<C>, pixelMap: seq<nat>, colours: seq<C>,
                    blend: (C, C, u8) -> C, mode: u8, k: nat): (r: seq<C>)
    requires k <= |pixelMap| && k <= |colours|
    requires forall i :: 0 <= i < k ==> pixelMap[i] < |pixels|
    ensures |r| == |pixels|
    decreases k
  {
    if k == 0 then pixels
    else
      var p := Paint(pixels, pixelMap, colours, blend, mode, k - 1);
      var q := pixelMap[k - 1];
      p[q := blend(p[q], colours[k - 1], mode)]
  }

  /** A pixel that no slot maps to keeps its value. */
  lemma {:induction false} PaintOutsideMap<C>(pixels: seq<C>, pixelMap: seq<nat>, colours: seq<C>,
                                              blend: (C, C, u8) -> C, mode: u8, k: nat, q: nat)
    requires k <= |pixelMap| && k <= |colours|
    requires forall i :: 0 <= i < k ==> pixelMap[i] < |pixels|
    requires q < |pixels|
    requires forall i :: 0 <= i < k ==> pixelMap[i] != q
    ensures Paint(pixels, pixelMap, colours, blend, mode, k)[q] == pixels[q]
    decreases k
  {
    if k > 0 {
      PaintOutsideMap(pixels, pixelMap, colours, blend, mode, k - 1, q);
    }
  }

  /** When no two slots share a pixel, the pixel of slot i ends up as its
      old value blended with slot i's colour. */
  lemma {:induction false} PaintMapped<C>(pixels: seq<C>, pixelMap: seq<nat>, colours: seq<C>,
                                          blend: (C, C, u8) -> C, mode: u8, k: nat, i: nat)
    requires k <= |pixelMap| && k <= |colours|
    requires forall j :: 0 <= j < k ==> pixelMap[j] < |pixels|
    requires forall j, l :: 0 <= j < l < k ==> pixelMap[j] != pixelMap[l]
    requires i < k
    ensures Paint(pixels, pixelMap, colours, blend, mode, k)[pixelMap[i]]
            == blend(pixels[pixelMap[i]], colours[i], mode)
    decreases k
  {
    if i < k - 1 {
      PaintMapped(pixels, pixelMap, colours, blend, mode, k - 1, i);
    } else {
      PaintOutsideMap(pixels, pixelMap, colours, blend, mode, k - 1, pixelMap[i]);
    }
  }

  /** A slot that was never pressed renders the cold hue. */
  lemma FrameUnused(counts: seq<u32>, cold: u16, hot: u16, i: nat)
    requires i < |counts| && counts[i] == 0
    ensures FrameHues(counts, cold, hot)[i] == cold % 360
  {
    HueAtUnused(cold, hot, MaxCount(counts));
  }

  /** With no key pressed yet, as right after initialisation, every slot
      renders the cold hue. */
  lemma {:induction false} AllZeroFrame(n: nat, cold: u16, hot: u16)
    requires cold < 360
    ensures FrameHues(seq(n, _ => 0), cold, hot) == seq(n, _ => cold)
  {
    var counts: seq<u32> := seq(n, _ => 0);
    forall i | 0 <= i < n
      ensures FrameHues(counts, cold, hot)[i] == cold
    {
      FrameUnused(counts, cold, hot, i);
    }
  }

  /** Every slot tied at the maximum renders the hot hue, provided the
      short arc from the cold hue does not cross below 0; otherwise it
      renders the cold-plus-delta sum wrapped modulo 2^16 and reduced
      modulo 360. */
  lemma FrameMostUsed(counts: seq<u32>, cold: u16, hot: u16, i: nat)
    requires cold < 360 && hot < 360
    requires i < |counts| && counts[i] == MaxCount(counts)
    ensures cold + ShortDelta(cold, hot) >= 0 ==> FrameHues(counts, cold, hot)[i] == hot
    ensures cold + ShortDelta(cold, hot) < 0 ==>
              FrameHues(counts, cold, hot)[i] == (TWO_16 + cold + ShortDelta(cold, hot)) % 360
  {
    HueAtMostUsed(cold, hot, MaxCount(counts));
  }

  /** Three slots with counts 0, 10 and 5 and a gradient from hue 200 down
      to hue 20: the maximum is 10, the usages are 0, 1 and 1/2, and the
      hues are 200, 20 and the midpoint 110 of the 180 degree arc. */
  lemma ThreeSlotExample()
    ensures FrameHues([0, 10, 5], 200, 20) == [200, 20, 110]
  {
    var counts: seq<u32> := [0, 10, 5];
    assert MaxCount(counts[..2]) == 10;
    assert MaxCount(counts) == 10;
    var hues := FrameHues(counts, 200, 20);
    FrameUnused(counts, 200, 20, 0);
    FrameMostUsed(counts, 200, 20, 1);
    assert ShortDelta(200, 20) == -180;
    assert hues[2] == 110 by {
      assert TruncDiv(-180 * 5, 10) == -90;
      assert Scaled(-180, 5, 10) == -90;
    }
    assert hues == [200, 20, 110];
  }
}
