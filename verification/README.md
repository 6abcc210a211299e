# GIMP equalize operation, modelled in Dafny

This project models the histogram-equalization point filter of GIMP's GEGL
layer (`gimp:equalize`). The filter has two halves:

- **Table builder.** Assigning a histogram to the operation fills a 3×256
  table `part[k][i]`. Each entry is a running sum of channel `k`'s bins up to
  bin `i`, divided by the VALUE channel's pixel count over bins 0..255. A
  histogram that reports one or two channels counts as grayscale. In that case
  row 0's entry is copied into rows 1 and 2 on every iteration. Assigning no
  histogram leaves the table as it was.
- **Per-sample kernel.** Each red, green and blue sample value is scaled by
  255 and clamped to [0, 255]. It is then truncated to a bin index and looked
  up in that component's row. Alpha is copied. The point-filter callback does
  this for `samples` interleaved RGBA float pixels and returns true.

Files:

- `histogram.dfy` (`Histograms`): the read-only view of the histogram, the
  running sum `Prefix`, the pixel count `Pixels`, and facts about running sums.
- `table.dfy` (`EqualizeTable`): the table type, the reference table
  `Equalized`, the loop-for-loop builder `BuildTable`, the property setter
  `SetHistogram`, and the table lemmas.
- `kernel.dfy` (`EqualizeKernel`): `Clamp` (the CLAMP macro), `BinIndex`,
  `Map`, the per-pixel kernel, the reference buffer result `Equalize`, the
  callback `Process`, and the kernel lemmas.

Modelling decisions:

- Floats and doubles are exact `real`s. The `(gint)` cast acts on a value
  already clamped to [0, 255], so it is modelled as `Floor`.
- The histogram is a value with three parts: `nChannels`, the 256 VALUE bins,
  and for k = 0, 1, 2 the 256 bins the per-channel bin query returns.
  Histogram internals are not part of this model, so the mapping from the
  builder's index k to a histogram channel is taken as given. The count query
  over bins 0..255 is taken to be the sum of the 256 VALUE bins.
- The builder divides by the pixel count without checking it. `Buildable`
  therefore requires a positive count; no error path is invented.
- Three behaviours of the code are modelled as written:
  - the bin index is truncated, not rounded;
  - an empty histogram is not reported as an error, so a positive count is a
    precondition;
  - the last entry of a row is channel `k`'s total over the VALUE total, not
    always 1. `LastEntry` proves it is 1 exactly when the two totals agree.
- The callback's buffers are sequences. `Process` returns the new output
  buffer; floats past the `samples` pixels are unchanged.

## Model

| member | source | states |
|---|---|---|
| `Histograms.Prefix` | app/gegl/gimpoperationequalize.c:162-171 | the running `sum` after n bins; over non-negative counts it is non-negative |
| `Histograms.Pixels` | app/gegl/gimpoperationequalize.c:151-152 | the VALUE count is the sum of the 256 VALUE bins, as assumed above; for a histogram of non-negative counts it is non-negative |
| `Histograms.PrefixMonotone` | app/gegl/gimpoperationequalize.c:162-171 | with non-negative bins, the running sum is non-negative and never decreases as more bins are added |
| `EqualizeTable.Equalized` | app/gegl/gimpoperationequalize.c:160-180 | the reference table has 3 rows of 256 entries; entry (k, i) is the running sum of the row's source bins through bin i over the VALUE pixel count |
| `EqualizeTable.BuildTable` | app/gegl/gimpoperationequalize.c:151-181 | the nested loops, starting from any prior table, end with exactly the reference table. With any channel count other than 1 or 2, entry (k, i) is channel k's sum through bin i over the VALUE total. With 1 or 2 channels, rows 1 and 2 equal row 0 in the final state, and row 0 is channel 0's running sum over the VALUE total |
| `EqualizeTable.SetHistogram` | app/gegl/gimpoperationequalize.c:139-183 | the new histogram is stored. A missing histogram leaves the table unchanged. A present one replaces the table with the reference table |
| `EqualizeTable.RowMonotone` | app/gegl/gimpoperationequalize.c:162-173 | with non-negative bins and a positive pixel count, every row is non-decreasing: i <= j implies part[k][i] <= part[k][j] |
| `EqualizeTable.LastEntry` | app/gegl/gimpoperationequalize.c:151-173 | the last entry of row k is the row's source-channel total over the VALUE total, and it equals 1 if and only if those two totals are equal |
| `EqualizeTable.EntryBounds` | app/gegl/gimpoperationequalize.c:151-173 | with non-negative bins behind row k, every entry of row k lies between 0 and the row's last entry |
| `EqualizeTable.ColorRowIndependent` | app/gegl/gimpoperationequalize.c:154-173 | with any channel count other than 1 or 2, two histograms that agree on channel k's bins and on the VALUE total give the same row k, whatever their other channels hold |
| `EqualizeTable.SingleBinStep` | app/gegl/gimpoperationequalize.c:151-173 | if every pixel of the VALUE channel and of each channel falls in bin b, every row is 0 before bin b and 1 from bin b on |
| `EqualizeKernel.Clamp` | app/gegl/gimpoperationequalize.c:196 | the CLAMP macro: a value above high gives high; otherwise a value below low gives low; a value already in range is returned unchanged; with low <= high the result always lies in [low, high] |
| `EqualizeKernel.BinIndex` | app/gegl/gimpoperationequalize.c:196 | the index lies in 0..255. Values <= 0 read bin 0 and values >= 1 read bin 255. Otherwise the index is the floor of value × 255 |
| `EqualizeKernel.BinIndexMonotone` | app/gegl/gimpoperationequalize.c:196 | a larger sample value never reads an earlier bin |
| `EqualizeKernel.Map` | app/gegl/gimpoperationequalize.c:191-199 | the lookup returns entry BinIndex(value) of the component's row: the first entry for values <= 0, the last for values >= 1, and otherwise the entry at the floor of value × 255 |
| `EqualizeKernel.MapMonotone` | app/gegl/gimpoperationequalize.c:196-198 | over a non-decreasing row, the looked-up value is non-decreasing in the sample value |
| `EqualizeKernel.MapInRow` | app/gegl/gimpoperationequalize.c:196-198 | over a non-decreasing row, every looked-up value lies between the row's first and last entries |
| `EqualizeKernel.EqualizePixel` | app/gegl/gimpoperationequalize.c:215-218 | an output pixel has four components, and its alpha equals the input alpha |
| `EqualizeKernel.Equalize` | app/gegl/gimpoperationequalize.c:213-222 | mapping `samples` pixels yields exactly 4 × `samples` floats |
| `EqualizeKernel.EqualizeAt` | app/gegl/gimpoperationequalize.c:213-222 | float c of output pixel n is float c of the kernel applied to input pixel n, for every n below `samples` and c below 4 |
| `EqualizeKernel.PixelIndependence` | app/gegl/gimpoperationequalize.c:213-222 | two inputs that agree at pixel n give outputs that agree at every float of pixel n |
| `EqualizeKernel.EqualizeReadsPrefix` | app/gegl/gimpoperationequalize.c:213-222 | only the first 4 × `samples` input floats affect the result |
| `EqualizeKernel.PixelOfSuffix` | app/gegl/gimpoperationequalize.c:220-221 | pixel m of a buffer that starts d pixels in (the pointers advanced by 4 floats d times) is pixel d + m of the whole buffer |
| `EqualizeKernel.RegionSplit` | app/gegl/gimpoperationequalize.c:202-224 | mapping a+b pixels in one call equals mapping the first a pixels and then the next b pixels as two buffers, one after the other |
| `EqualizeKernel.StorePixel` | app/gegl/gimpoperationequalize.c:215-218 | one loop iteration writes the mapped pixel into its four floats and leaves every other float of the output unchanged |
| `EqualizeKernel.PixelsOfResult` | app/gegl/gimpoperationequalize.c:213-222 | a buffer that starts with the reference result holds the kernel's output at each of its first `samples` pixels |
| `EqualizeKernel.ProcessIsEqualize` | app/gegl/gimpoperationequalize.c:213-222 | a buffer that holds the kernel's output at each of its first `samples` pixels, as `Process` guarantees, starts with the reference result `Equalize`; with `PixelsOfResult` this makes the two descriptions equivalent |
| `EqualizeKernel.Process` | app/gegl/gimpoperationequalize.c:201-225 | the callback always returns true. For every n below `samples`, output pixel n is the kernel applied to input pixel n: red, green and blue are looked up in their rows and alpha is copied. Output floats past the last pixel are unchanged |
| `EqualizeKernel.GrayStaysGray` | app/gegl/gimpoperationequalize.c:154-179 | on a grayscale histogram's table, an input pixel with equal red, green and blue gives an output pixel with equal red, green and blue |

## Left out

- `app/core/gimpdrawable-colorize.c`: a dispatcher that checks preconditions, builds a configuration object and hands it to the node-graph or legacy runner. The colorize kernel itself is not part of this model.
- `libgimpwidgets/test-unitentrygui.c`: GUI wiring for a test program, with no logic.
- GObject plumbing in the equalize file: type and class registration, property installation, `get_property`, and histogram reference counting in `finalize` and the setter. `SetHistogram` records only which histogram is held.
- Histogram internals: the count query and the per-channel bin query are modelled by the bins they return, as described above.
- The `roi` and `level` arguments of the callback: the code does not use them.
- GEGL tiling and concurrent calls of the callback. `RegionSplit` and `PixelIndependence` are about the reference result `Equalize`; `Process` is tied to it through `ProcessIsEqualize`, so they carry over to the callback's output.
- A negative `samples` count: the callback takes a signed `glong` and loops while a post-decremented count is non-zero, so a negative count would run until signed overflow. GEGL never passes one, and the model's count is a `nat`.
- Input and output aliasing: the model treats the input and output buffers as separate values.
- IEEE float behaviour: NaN inputs to CLAMP, rounding in the running sum, and division by a zero count. A positive count is required instead.
