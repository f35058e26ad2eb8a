# Droste effect: compositing and render loop

A Dafny model of the integer core of the Droste (recursive spiral zoom)
effect for Paint.NET. For every destination pixel, the effect maps the
pixel's position through a complex-logarithmic spiral into up to three
periodic bands ("layers") of the source image. It takes a bilinear sample
in each band. It folds the samples together with an alpha-limited
compositing rule, `AddColor`, and stops once the colour is opaque. The
render loop does this row by row over a destination rectangle and checks
for cancellation before each row.

The model has three modules:

- `Pixels` (`pixels.dfy`): the BGRA pixel with byte channels,
  `ColorBgra.Zero`, the clamped constructor `FromBgraClamped`, and
  `AddColor`.
- `Layers` (`layers.dfy`): the band multiplier of each layer, the samples
  the layers visit, the specification fold `Accumulate`, and the layer loop
  `ComposeLayers` as a method proved against it. `CompositeAll` is a
  specification helper: the same fold without the early exit.
- `Rendering` (`rendering.dfy`): the row and column loops of `Render` over a
  2-D destination array. They take a per-row cancellation oracle. The ghost
  write log proves that each pixel is written exactly once. Two
  specification helpers carry the meaning of its contract. `PixelColor` is
  the colour the layer loop computes for one destination pixel.
  `RegionCells` lists the pixels of the rows done, in row-major order.

Interfaces of the model:

- A per-layer bilinear sample is a function from the band multiplier to a
  colour: `sample(m)` is what the source returns at the point the pixel maps
  to in band `m`.
- For the whole region this is `sampleAt(x, y)(m)`.
- The host's `IsCancelRequested` flag is a function `cancelled(y)`, read once
  at the start of row `y`.

A note on rounding. In the blending case, the source computes each colour
channel in `double` as `o.c * (o.A / total) + a.c * (addA / total)` and
truncates it with `(int)`. The model uses the exact rational weighted mean
`(o.c * o.A + a.c * addA) / total` and rounds it down. The channel values are
never negative, so truncation and rounding down agree. The exact mean always
lies between the two input channels, so the clamp of `FromBgraClamped` never
changes it (`BlendChannel`, `AddColorBlend`). The floating-point result can be
one less than the model's at a rounding edge. For example, blend channel 7
with alpha 1 and channel 7 with alpha 2. In doubles, `7 * (1/3.0)` is
2.333333333333333 and `7 * (2/3.0)` is 4.666666666666666. Their sum is
6.999999999999999, so `(int)` gives 6. The model gives 7. So in the source
a blended channel can fall one below both inputs.

## Model

| member | source | states |
|---|---|---|
| `Pixels.AddColor` | droste/Droste.cs:119-138 | An opaque original is returned unchanged. A transparent original gives the addition unchanged. The result alpha is always min(255, original.A + addition.A). With a non-transparent original, every colour channel lies between the two inputs' channels. |
| `Pixels.AddedAlpha` | droste/Droste.cs:129 | The alpha taken from the addition is at most the addition's alpha. Added to the original's alpha, it never exceeds 255. It is either all of the addition's alpha or exactly what fills the original to 255. |
| `Pixels.BlendChannel` | droste/Droste.cs:131-136 | A blended channel lies between the two input channels, so it is always a byte and the clamp never changes it. |
| `Pixels.FromBgraClamped` | droste/Droste.cs:133-137 | Each channel of the constructed colour is its argument clamped into 0..255. |
| `Pixels.AddColorBlend` | droste/Droste.cs:129-137 | When 0 < original.A < 255, the result alpha is original.A + min(addition.A, 255 - original.A) and each colour channel is the exact alpha-weighted mean of the two inputs' channels rounded down. |
| `Pixels.TransparentAdditionIsIdentity` | droste/Droste.cs:129-137 | Compositing a fully transparent sample over a non-transparent colour returns that colour unchanged. |
| `Layers.BandMultiplier` | droste/Droste.cs:186-188 | For layers 0..2 the multiplier is in 0..2. With inverse transparency, multiplier and layer sum to 2, so layers 0, 1 and 2 use 2, 1 and 0. Without it, the multiplier is the layer. |
| `Layers.LayerSamples` | droste/Droste.cs:181-201 | There are exactly three layer samples. Layer k samples the band given by BandMultiplier for k. |
| `Layers.InverseAlphaReversesLayers` | droste/Droste.cs:186-188 | Layer k with inverse transparency samples the same band as layer 2 - k without it. |
| `Layers.Accumulate` | droste/Droste.cs:181-201 | The folded colour's alpha is never below the starting alpha. With no layers left, or an opaque start, the colour is returned unchanged. |
| `Layers.OpaqueAbsorbs` | droste/Droste.cs:121-124 | Once a colour is opaque, compositing any further samples leaves it unchanged. |
| `Layers.EarlyExitChangesNothing` | droste/Droste.cs:181 | The loop that stops at alpha 255 gives the same colour as compositing every layer. The early exit only saves work. |
| `Layers.AccumulatedAlpha` | droste/Droste.cs:181-201 | The final alpha equals the starting alpha plus the sum of the samples' alphas, saturated at 255. |
| `Layers.ComposeLayers` | droste/Droste.cs:174-202 | The loop starts from transparent black and returns Accumulate of the three layer samples. It runs between 1 and 3 layers. The colour after layer 0 equals the first sample exactly. The colour after each later layer is AddColor of the colour before it and that layer's sample. Alpha never decreases from one layer to the next. No layer runs after alpha reaches 255. Fewer than 3 layers run only if the result is opaque. |
| `Rendering.FirstCancelledRow` | droste/Droste.cs:168-170 | The stop row is the first row from top on at which cancellation is seen, or bottom if there is none. Every row before it is uncancelled. |
| `Rendering.RowCells` | droste/Droste.cs:171 | A row visits right - left pixels (none when right <= left). Visit i is at column left + i. |
| `Rendering.RegionCellsExactlyOnce` | droste/Droste.cs:168-171 | Row-major order over the rows done has no repeated pixel. It contains (x, y) exactly when left <= x < right and top <= y < stop. |
| `Rendering.RenderRow` | droste/Droste.cs:171-204 | Every pixel of row y in the rectangle's columns is set to the composited colour of its layer samples, in column order. All other pixels keep their values. |
| `Rendering.Render` | droste/Droste.cs:168-205 | Every pixel of the rectangle in a row before the first cancelled row gets its composited colour. Every other pixel, inside or outside the rectangle, keeps its value. The write log lists exactly those pixels in row-major order. With no cancellation, every pixel of the rectangle is written exactly once. |

## Left out

- The complex logarithm and exponential, `atan2`, `cos` and `sin`, and the derivation of `rfrac`, `alpha` and `beta` are left out. So are the rotation correction and the `(float)` casts (droste/Droste.cs:143-164, 173-199). They are floating-point numerics. The model takes each layer's sample as given, as a function of the band multiplier.
- The `%` remainder on `double` in the band coordinate (droste/Droste.cs:187-188) is left out. Only the integer band multiplier is modelled.
- The degenerate pixel at the exact centre, where the complex logarithm is undefined, is left out. It only matters inside the floating-point mapping.
- `GetBilinearSample` (droste/Droste.cs:201) is a host library call whose body is not part of this model. It is the `sample`/`sampleAt` parameter.
- Pixels.AddColor: the channel bound (each blended channel lies between the two inputs' channels) holds for exact arithmetic only. In the source's `double` arithmetic a blended channel can fall one below both inputs, as in the example above.
- Pixels.AddColorBlend: the rounded-down exact mean it states can be one above the source's truncated `double` result at a rounding edge.
- Pixels.BlendChannel: uses exact rational arithmetic rounded down instead of the source's `double` weights truncated by `(int)`. The source's channel can be one lower at a rounding edge.
- Property and UI setup, plugin metadata and icon, `OnSetRenderInfo` and the dispatch of `OnRender` over several rectangles (droste/Droste.cs:12-110) are host framework code.
- Thread scheduling and the real cancellation flag are concurrency. Cancellation is a given per-row oracle.
- Off-surface rectangles are not modelled. `Render` requires the rectangle to lie within the destination surface. The host guarantees this for every render rectangle, and the surface indexer would fail outside it.
