/** One heat-map light effect: its static configuration, the per-slot press
    counts it updates in place, its activity flag, and the operations the
    light driver and the event system call on it. */
module Heatmap {
  import opened FixedWidth
  import opened Hue
  import opened Tracker
  import opened Renderer

  class Device {
    // configuration, fixed when the device is defined
    const pixelMap: seq<nat>
    const blendingMode: u8
    const coldHue: u16
    const hotHue: u16
    const saturation: u8
    const lightness: u8

    // state
    const keyCounts: array<u32>
    var isActive: bool

    /** How many frames the effect has asked the driver to render; the
        request itself is a fire-and-forget hint to the driver's
        scheduler. */
    ghost var framesRequested: nat

    /** One press count per entry of the pixel map. */
    ghost predicate Valid() {
      keyCounts.Length == |pixelMap|
    }

    /** The device as defined from its configuration: inactive, with a
        count array as long as the pixel map whose contents initialisation
        will set. */
    constructor (pixelMap: seq<nat>, blendingMode: u8, coldHue: u16, hotHue: u16,
                 saturation: u8, lightness: u8)
      ensures Valid() && fresh(keyCounts)
      ensures this.pixelMap == pixelMap && this.blendingMode == blendingMode
      ensures this.coldHue == coldHue && this.hotHue == hotHue
      ensures this.saturation == saturation && this.lightness == lightness
      ensures !isActive && framesRequested == 0
    {
      this.pixelMap := pixelMap;
      this.blendingMode := blendingMode;
      this.coldHue := coldHue;
      this.hotHue := hotHue;
      this.saturation := saturation;
      this.lightness := lightness;
      keyCounts := new u32[|pixelMap|];
      isActive := false;
      framesRequested := 0;
    }

    /** Device initialisation: every count becomes 0. */
    method Init() returns (rc: int)
      requires Valid()
      modifies keyCounts
      ensures rc == 0
      ensures keyCounts[..] == seq(|pixelMap|, _ => 0)
    {
      for i := 0 to |pixelMap|
        invariant forall j :: 0 <= j < i ==> keyCounts[j] == 0
      {
        keyCounts[i] := 0;
      }
      return 0;
    }

    /** The key event handler. It checks, in this order, that the effect
        is active, that the event is a key-position change, that it is a
        press and that the key's slot lies inside the pixel map; only then
        does it increment that slot's count and ask for a frame. `slotOf`
        is the light driver's key-position-to-pixel lookup. */
    method OnKeyPress(event: Event, slotOf: nat -> nat) returns (rc: int)
      requires Valid()
      modifies keyCounts, this`framesRequested
      ensures isActive == old(isActive)
      ensures keyCounts[..] == Step(old(keyCounts[..]), isActive, event, slotOf)
      ensures rc == Status(Classify(isActive, event, slotOf, |pixelMap|))
      ensures framesRequested ==
                old(framesRequested) + if Classify(isActive, event, slotOf, |pixelMap|).Counted? then 1 else 0
    {
      if !isActive {
        return 0;
      }
      if event.OtherEvent? {
        return -ENOTSUP;
      }
      if !event.state {
        return 0;
      }
      var pixelIdx := slotOf(event.position);
      if pixelIdx >= |pixelMap| {
        return -EINVAL;
      }
      keyCounts[pixelIdx] := Inc32(keyCounts[pixelIdx]);
      framesRequested := framesRequested + 1;
      return 0;
    }

    /** Renders one frame into `pixels`: finds the floored maximum count,
        then, slot by slot, computes the slot's hue, converts it to the
        driver's colour type and blends it into the pixel the pixel map
        names. The C code never checks the pixel map against the size of
        the pixel buffer; that is the caller's obligation here. */
    method RenderFrame<C>(pixels: array<C>, hslToRgb: Hsl -> C, blend: (C, C, u8) -> C)
      requires Valid()
      requires forall i :: 0 <= i < |pixelMap| ==> pixelMap[i] < pixels.Length
      requires pixels as object != keyCounts
      modifies pixels
      ensures pixels[..] == Paint(old(pixels[..]), pixelMap,
                                  FrameColours(keyCounts[..], coldHue, hotHue, saturation, lightness, hslToRgb),
                                  blend, blendingMode, |pixelMap|)
      ensures keyCounts[..] == old(keyCounts[..]) && isActive == old(isActive)
    {
      var maxCount := ScanMax(keyCounts);
      ghost var colours := FrameColours(keyCounts[..], coldHue, hotHue, saturation, lightness, hslToRgb);
      ghost var before := pixels[..];
      for i := 0 to |pixelMap|
        invariant pixels[..] == Paint(before, pixelMap, colours, blend, blendingMode, i)
        invariant keyCounts[..] == old(keyCounts[..])
      {
        var hue := InterpolateHue(coldHue, hotHue, keyCounts[i], maxCount);
        var rgb := hslToRgb(Hsl(hue, saturation, lightness));
        assert rgb == colours[i];
        pixels[pixelMap[i]] := blend(pixels[pixelMap[i]], rgb, blendingMode);
      }
    }

    /** The effect becomes active and asks for one frame at once. */
    method Start()
      modifies this`isActive, this`framesRequested
      ensures isActive
      ensures framesRequested == old(framesRequested) + 1
    {
      isActive := true;
      framesRequested := framesRequested + 1;
    }

    /** The effect becomes inactive; no frame is requested. */
    method Stop()
      modifies this`isActive
      ensures !isActive
    {
      isActive := false;
    }
  }
}
