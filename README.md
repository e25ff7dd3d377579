# Heat-map light effect, modelled in Dafny

This project models the heat-map effect of the keyboard light driver
(`src/fx/heatmap.c`). The effect counts how often each key is pressed. Each
frame, it paints every key's light with a hue between a configured "cold" hue
and a configured "hot" hue, according to that key's share of the largest
count.

The model has three parts:

- **Usage tracker**. The key event handler checks its guards in the source's
  order: effect inactive, unsupported event, key release, slot outside the
  pixel map. A press that passes them increments the slot's `uint32_t`
  counter, wrapping modulo 2^32, and requests a frame.
- **Frame renderer**. It takes the maximum of the counts, floored at 1. It
  normalises the `int16_t` hue delta to the short arc and scales it by the
  usage ratio, truncating toward zero. It stores the interpolated hue into a
  `uint16_t`, reduces it below 360, converts it to the driver's colour, and
  blends it into the pixel that the pixel map names.
- **Activity gate and initialisation**. `Start` sets the flag and requests a
  frame. `Stop` clears the flag. `Init` zeroes every count.

The model is in five modules, one file each:

- `FixedWidth` (`fixed_width.dfy`): the C integer types and conversions.
- `Hue` (`hue.dfy`): the hue arithmetic.
- `Tracker` (`tracker.dfy`): what key events do to the counts.
- `Renderer` (`renderer.dfy`): specification functions for a frame.
- `Heatmap` (`heatmap.dfy`): the class `Device`. Its fields are the
  configuration, the count array it updates in place and the activity flag.
  Its methods are the handler, the renderer, start, stop and initialisation.

The methods are proved against the specification functions, and the lemmas
state what those functions promise.

Three behaviours of the code are modelled as it has them:

- The counts are `uint32_t` and wrap to 0 after 2^32 - 1.
- Initialisation always returns 0.
- The interpolated hue is stored into a `uint16_t`, so a negative value wraps
  modulo 2^16 before it is reduced below 360 (see Findings).

## Model

| member | source | states |
|---|---|---|
| FixedWidth.ToInt16 | src/fx/heatmap.c:94 | storing into `int16_t` gives a value in [-32768, 32767] congruent to the input modulo 2^16, and keeps any value already in range |
| FixedWidth.ToUint16 | src/fx/heatmap.c:103 | storing into `uint16_t` gives a value congruent modulo 2^16, keeps values already in range, and adds 65536 to values in [-65536, 0) |
| FixedWidth.Inc32 | src/fx/heatmap.c:65 | the `uint32_t` increment adds 1 below 2^32 - 1 and wraps 2^32 - 1 to 0 |
| FixedWidth.TruncDiv | src/fx/heatmap.c:90-103 | the quotient truncates toward zero: for a non-negative dividend q*b <= a < q*b + b, for a negative one a <= q*b < a + b |
| FixedWidth.TruncDivScaled | src/fx/heatmap.c:90-103 | for 0 <= c <= m, d*c/m truncated lies between 0 and d, is 0 at c = 0 and exactly d at c = m |
| FixedWidth.TruncDivMonotone | src/fx/heatmap.c:90-103 | truncating division by a positive divisor is monotone in the dividend |
| Hue.ShortDelta | src/fx/heatmap.c:94-101 | the normalised delta fits an `int16_t`; for hues in [0,360) it lies in [-180,180] and equals hot - cold, hot - cold - 360 or hot - cold + 360; a raw delta of exactly +180 or -180 is kept as it is |
| Hue.Scaled | src/fx/heatmap.c:90-103 | the delta scaled by the usage ratio count / maxCount and cast to `int16_t` (truncating toward zero) fits an `int16_t` |
| Hue.HueAt | src/fx/heatmap.c:103-107 | the rendered hue is below 360 for every count and every pair of configured hues |
| Hue.InterpolateHue | src/fx/heatmap.c:94-107 | the step-by-step hue computation of the render loop returns exactly HueAt |
| Hue.ReduceHue | src/fx/heatmap.c:106-107 | the subtraction loop ends below 360 with the same remainder modulo 360 it started with |
| Hue.ScaledBounds | src/fx/heatmap.c:90-103 | the scaled delta has the delta's sign and no larger magnitude; it is 0 for an unused slot and the whole delta at the maximum count |
| Hue.ScaledMonotone | src/fx/heatmap.c:90-103 | the scaled delta moves monotonically with the count, in the direction of the delta's sign |
| Hue.HueAtUnused | src/fx/heatmap.c:90-106 | a slot with count 0 renders the cold hue modulo 360, which is the cold hue itself when it is below 360 |
| Hue.HueAtMostUsed | src/fx/heatmap.c:94-106 | a slot at the maximum count renders the hot hue when cold + delta >= 0; otherwise it renders (65536 + cold + delta) mod 360 |
| Hue.ShortArcHue | src/fx/heatmap.c:103-107 | the corrected hue, with a true modulo 360, lies in [0,360) |
| Hue.ShortArcHueEnds | src/fx/heatmap.c:94-107 | the corrected hue is exactly the cold hue at usage 0 and exactly the hot hue at usage 1, for every pair of hues in [0,360) |
| Hue.HueAtVersusShortArc | src/fx/heatmap.c:103-107 | the rendered hue equals the corrected hue when cold + scaled >= 0, and is the corrected hue plus 16 (mod 360) otherwise |
| Hue.WrappedRemainder | src/fx/heatmap.c:103-106 | for sums in [-180,540), the remainder after the 16-bit wrap is the plain remainder, shifted by 16 for negative sums |
| Hue.HotEndCounterexample | src/fx/heatmap.c:103-106 | with cold 10 and hot 350, the most used slot renders hue 6, while the corrected hue is 350 |
| Hue.FloatRoundingExample | src/fx/heatmap.c:90-106 | with cold 62, hot 314, count 7 of 12, the delta is -108, the exact scaled delta -63, and the model's hue 15 (the wrapped -1) |
| Hue.SeamCrossingExample | src/fx/heatmap.c:94-106 | with cold 350 and hot 10, a slot at half usage renders hue 0: the gradient crosses the 0/360 seam on the 20-degree arc |
| Tracker.Classify | src/fx/heatmap.c:44-63 | nothing is examined while inactive; while active, another event is Unsupported, a release is Released, a press whose slot is outside the pixel map is InvalidSlot, and an event is counted exactly when it is a press whose slot is inside the map, the counted slot being the looked-up one |
| Tracker.Status | src/fx/heatmap.c:44-69 | the handler returns 0 for inactive, release and counted; -ENOTSUP exactly for an unsupported event; -EINVAL exactly for an out-of-range slot |
| Tracker.Step | src/fx/heatmap.c:60-65 | the counts after one handler call, incremented in place at the counted slot; there is still exactly one count per slot |
| Tracker.StepChangesOnlyCountedSlot | src/fx/heatmap.c:60-65 | one event increments only the counted slot, by one modulo 2^32, and leaves every other count unchanged |
| Tracker.Replay | src/fx/heatmap.c:38-70 | the counts after the handler has seen a sequence of events in turn; there is still exactly one count per slot |
| Tracker.ReplayCountsPresses | src/fx/heatmap.c:53-65 | while active, every count grows by exactly the number of presses of keys mapped to its slot, modulo 2^32 |
| Tracker.ReplayFromZero | src/fx/heatmap.c:53-65 | starting from zeroed counts, each count equals the number of presses of its keys, modulo 2^32 |
| Tracker.ReplayInactive | src/fx/heatmap.c:44-46 | while inactive, no sequence of events changes any count |
| Tracker.ReplayWithoutPresses | src/fx/heatmap.c:48-56 | events holding no press, that is releases and other events, leave every count unchanged, whether or not the effect is active |
| Renderer.MaxCount | src/fx/heatmap.c:80-85 | the floored maximum is at least 1, at least every count, and either 1 or one of the counts |
| Renderer.ScanMax | src/fx/heatmap.c:80-85 | the scan loop returns MaxCount of the counts: at least 1 and at least every count |
| Renderer.FrameHues | src/fx/heatmap.c:88-107 | a frame has one hue per slot, each below 360 |
| Renderer.FrameColours | src/fx/heatmap.c:109-116 | each slot's colour is the driver's conversion of its hue with the configured saturation and lightness; there is exactly one colour per slot |
| Renderer.Paint | src/fx/heatmap.c:88-120 | the pixel buffer after the first k slots are blended, in slot order, into the pixels the pixel map names; the buffer keeps its length |
| Renderer.PaintOutsideMap | src/fx/heatmap.c:88-120 | a pixel that no slot maps to keeps its old value |
| Renderer.PaintMapped | src/fx/heatmap.c:88-120 | when no two slots share a pixel, slot i's pixel becomes its old value blended with slot i's colour in the configured mode |
| Renderer.FrameUnused | src/fx/heatmap.c:88-106 | a never-pressed slot renders the cold hue, reduced modulo 360 |
| Renderer.AllZeroFrame | src/fx/heatmap.c:80-106 | with all counts zero, every slot renders the cold hue |
| Renderer.FrameMostUsed | src/fx/heatmap.c:80-106 | every slot tied at the maximum renders the hot hue when cold + delta >= 0, and the 16-bit wrapped value mod 360 otherwise |
| Renderer.ThreeSlotExample | src/fx/heatmap.c:80-106 | counts [0,10,5] with a gradient from 200 to 20 render hues [200,20,110] |
| Heatmap.Device.constructor | src/fx/heatmap.c:154-173 | a device holds its configuration, one count per pixel-map entry, starts inactive and has requested no frame |
| Heatmap.Device.Init | src/fx/heatmap.c:136-146 | initialisation sets every count to 0 and returns 0 |
| Heatmap.Device.OnKeyPress | src/fx/heatmap.c:38-70 | the new counts are Step of the old ones, the status is Status of Classify, and exactly one frame is requested when the event is counted and none otherwise; the flag is unchanged |
| Heatmap.Device.RenderFrame | src/fx/heatmap.c:72-121 | the pixel buffer becomes Paint of its old contents with the colours of FrameColours; only the buffer changes, so counts and flag stay the same |
| Heatmap.Device.Start | src/fx/heatmap.c:123-128 | the effect becomes active and exactly one frame is requested |
| Heatmap.Device.Stop | src/fx/heatmap.c:130-134 | the effect becomes inactive and no frame is requested |

## Left out

- Device instantiation from the devicetree (src/fx/heatmap.c:154-188) is reduced to the `Device` constructor's parameters. Static counts start at zero in C; here their contents are unspecified until `Init`.
- Event-manager listener and subscription registration is left out. The event type test `as_zmk_position_state_changed` becomes the `Event` datatype.
- `zmk_rgb_fx_get_pixel_by_key_position` is foreign code. It is the `slotOf` parameter, an arbitrary function from key positions to slots.
- `zmk_hsl_to_rgb` and `zmk_apply_blending_mode` are foreign colour code. They are the `hslToRgb` and `blend` parameters, over an unspecified colour type.
- `zmk_rgb_fx_request_frames(1)` is a scheduler hint. It is modelled only as the ghost counter `framesRequested`.
- The usage ratio is a `float` in C. The model computes the exact ratio and truncates toward zero, which matches the C code at usage 0 and 1. Between those ends, float rounding, and the loss of precision for counts above 2^24, can move the truncated scaled delta by one. When that move crosses between `cold + scaled` = 0 and -1, the `uint16_t` wrap makes the rendered hue differ by 15 degrees. Example (`Hue.FloatRoundingExample`): cold hue 62, hot hue 314 (delta -108), count 7 of maximum 12. In single precision 7/12 is 0.58333331 and -108 times it is -62.9999962, which truncates to -62, so the firmware renders hue 0. The exact scaled delta is -63, so the model renders hue 15.
- `int16_t` stores assume two's complement wrap-around, which is implementation-defined in C.
- Logging is left out.
- Concurrency is left out: the host serialises the handler and the renderer.
- Heatmap.Device.RenderFrame: requires every pixel-map entry to be below the pixel buffer's length. The C code never checks this, and a larger entry would write out of bounds.
- Heatmap.Device.RenderFrame: requires the pixel buffer not to be the count array. In C the two have different element types and cannot alias; the generic colour type here could otherwise coincide with the counter type.
- Renderer.PaintMapped: requires that no two slots share a pixel. With a shared pixel, `Paint` still describes the result: the later slot blends over the earlier one.

## Findings

| source | as written | input that shows it | evidently intended | confidence | as-written member | corrected member |
|---|---|---|---|---|---|---|
| src/fx/heatmap.c:103-107 | `hue` is a `uint16_t`, so a negative `cold + scaled` wraps modulo 65536 before `while (hue >= 360)` reduces it. 65536 is not a multiple of 360, and `while (hue < 0)` can never run. | cold hue 10, hot hue 350, the slot with the maximum count | hue 350, the hot hue; the short arc from 10 down through 0 ends there | high (not executed) | Hue.HotEndCounterexample | Hue.ShortArcHueEnds |

The renderer (`Heatmap.Device.RenderFrame`, through `Hue.HueAt`) keeps the
as-written behaviour, because it models the firmware as it runs.
`Hue.ShortArcHue` is the corrected definition: the interpolated hue with a
true modulo 360. `Hue.ShortArcHueEnds` proves that it reaches the cold and hot
hues at the two ends for every pair of hues. `Hue.HueAtVersusShortArc` gives
the exact gap between the two: the as-written hue is 16 degrees ahead whenever
the interpolated sum is negative.
