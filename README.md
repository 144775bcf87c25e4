# emccd_detect in Dafny

A model of the EMCCD frame simulator `emccd_detect` and of the two text
normalisers of the `pymat_diff` script, with proofs about both.

`emccd_detect(fluxmap, frametime, ...)` builds one detector frame in two
stages:

- `image_section` places the flux map in the active area and turns it into
  electrons, using Poisson shot noise, dark current and clock-induced
  charge. It adds cosmic hits, places the active area inside the
  image-area frame and clips at the image full well.
- `serial_register` prepends a Poisson prescan and reads the frame out row
  by row. It applies the electron-multiplying gain, clips at the serial
  full well, adds fixed pattern, read noise and bias, and reshapes the
  result to the frame's shape.

`embed_fluxmap` places a map at an offset inside a frame.
`make_fixed_pattern` and `make_read_noise` build the terms added at the
end of the readout.

`matlabize` makes Python source text look more like MATLAB. It drops
imports, strips indentation, removes `np.`, the coding line and a leading
docstring line. `pythonize` makes MATLAB text look more like Python. It
drops `end` lines, strips semicolons, rewrites comments, powers,
element-wise operators and `(i)` indexing, and turns `function` lines into
`def` lines.

Files:

- `results.dfy` (module `Results`): the `Result` and `Option` types and the
  two Python errors the code can raise, ValueError and IndexError.
- `text.dfy` (module `Text`): the Python string and list primitives the
  normalisers use: `lstrip`, `rstrip`, prefix slices, `str.replace`,
  `str.index` and in-order filtering.
- `frames.dfy` (module `Frames`): frames as rows of reals, element-wise
  sums, the full-well clip, `np.append(axis=1)` and the row-major
  `ravel`/`reshape`. The in-place clip and `+=` work on arrays.
- `emccd_detect.dfy` (module `Emccd`): the pipeline. Each stage is a
  function that states its result, plus a method that builds it on arrays
  the way the source does.
- `pymat_diff.dfy` (module `PymatDiff`): `matlabize` and `pythonize` as
  loops over the lines, each proved against a function of its input.

Every random draw is an input to the model. The detector geometry is one as
well; the source reads it from `metadata.yaml`. The record `Draws` holds
the draws as functions of where they are taken:

- the two Poisson samplers, a function of the mean and the pixel;
- the gain draw of `rand_em_gain`, a function of the electrons, the gain
  and the flat index;
- the standard normal draw of `make_read_noise`, a function of the flat
  index;
- `cosmic_hits`, a function from frame to frame. The pipeline requires it
  to keep the frame's shape.

Floating-point values are modelled as reals.

## Model

| member | source | states |
|---|---|---|
| Emccd.EmccdDetect | emccd_detect/emccd_detect.py:76-82 | returns the image section's frame through the serial register, on fresh arrays; fails with ValueError exactly when `DetectedFrame` does |
| Emccd.DetectedFrame | emccd_detect/emccd_detect.py:76-82 | the detector output: `serial_register` of `image_section`, with the same `cic` passed to both; its shape is prescan rows by prescan columns plus overscan columns |
| Emccd.DetectedFrameFailure | emccd_detect/emccd_detect.py:76-82 | the detector fails iff the image section fails or the prescan draw has a negative mean; the row check of `np.append` never fires on an image section's frame |
| Emccd.DefaultsDetectorFailure | emccd_detect/emccd_detect.py:18-31 | under the default keyword arguments `cic` is positive and shot noise is on, so the detector fails iff the image section fails |
| Emccd.Clamp | emccd_detect/emccd_detect.py:228-231 | the grid point `interp2d` reads for an evaluation point: the point itself on the grid, the nearest end off it |
| Emccd.Padded | emccd_detect/emccd_detect.py:220-223 | `pad` holds the map at offset (1, 1) and zeros in its first row, its first column and beyond the map |
| Emccd.EmbedFluxmap | emccd_detect/emccd_detect.py:220-232 | fails with ValueError iff the map has at least as many rows or columns as the frame; otherwise it has the frame's shape |
| Emccd.EmbedIsShiftedCopy | emccd_detect/emccd_detect.py:220-232 | when the map leaves a zero margin on the sides the offset does not cover, the result is the frame plus the map moved by `ul` |
| Emccd.EmbedRepeatsEdgeRow | emccd_detect/emccd_detect.py:223-231 | at offset (0, 0), a map one row shorter than the frame makes the last frame row repeat the map's last row, where the shifted copy has zeros |
| Emccd.MeanPhe | emccd_detect/emccd_detect.py:121 | the mean photo-electron map has the active frame's shape, and each pixel is flux times frame time times quantum efficiency |
| Emccd.ActiveFrame | emccd_detect/emccd_detect.py:121-133 | fails, with ValueError, iff with shot noise some pixel's mean photo-electrons plus the mean noise is negative, and without shot noise iff the mean noise is negative; the actualised electrons have the active frame's shape and, with shot noise, are non-negative |
| Emccd.ActiveFrameShotNoiseOn | emccd_detect/emccd_detect.py:121-129 | with shot noise, succeeds iff every pixel's flux times frame time times quantum efficiency plus `dark_current*frametime + cic` is non-negative; each pixel is the Poisson sample of that mean |
| Emccd.ActiveFrameShotNoiseOff | emccd_detect/emccd_detect.py:121-133 | without shot noise, succeeds iff the mean noise is non-negative; each pixel is flux times frame time times quantum efficiency plus the Poisson sample of mean `dark_current*frametime + cic` |
| Emccd.ActiveFrameZeroExposure | emccd_detect/emccd_detect.py:121-133 | with zero frame time and non-negative `cic`, every pixel is the Poisson sample of mean `cic`, with or without shot noise |
| Emccd.ActiveOffset | emccd_detect/emccd_detect.py:145-146 | the active area's upper-left corner in the image frame: below the dark reference and upper transition rows, right of the dark reference columns |
| Emccd.Composite | emccd_detect/emccd_detect.py:116-147 | the unclipped image frame is prescan rows by overscan columns; errors are ValueError |
| Emccd.ImageFrame | emccd_detect/emccd_detect.py:116-151 | `image_section`'s frame has the image-frame shape and no pixel above the image full well |
| Emccd.ImageFrameClip | emccd_detect/emccd_detect.py:150 | the clip is upper-only: it never raises a pixel, keeps pixels at or below the full well and sets the others to it |
| Emccd.FullSizeFluxmapRejected | emccd_detect/emccd_detect.py:117-118 | a flux map as tall or as wide as the active area makes `image_section` raise ValueError |
| Emccd.ImageFrameFailure | emccd_detect/emccd_detect.py:116-151 | `image_section` fails iff the flux map is as tall or as wide as the active area, or the Poisson draw refuses a negative mean on the placed map, or the active area is as tall or as wide as the image frame |
| Emccd.ImageSection | emccd_detect/emccd_detect.py:116-151 | clips the frame in place on a fresh array; the array equals `ImageFrame`, with the same failures |
| Emccd.Prescan | emccd_detect/emccd_detect.py:177-179 | the prescan has the prescan shape; it raises ValueError iff it is non-empty and `cic` is negative |
| Emccd.GainAll | emccd_detect/emccd_detect.py:187 | element `i` is the gain draw of input element `i` at index `i` |
| Emccd.MakeFixedPattern | emccd_detect/emccd_detect.py:235-237 | the pattern has the frame's length; its values are stated by `FixedPatternIsIdentity` |
| Emccd.FixedPatternIsIdentity | emccd_detect/emccd_detect.py:195 | every element of the fixed pattern (`make_fixed_pattern`, lines 235-237) is zero, and adding it leaves the frame unchanged |
| Emccd.MakeReadNoise | emccd_detect/emccd_detect.py:240-242 | element `i` is `read_noise` times the normal draw at `i` |
| Emccd.ZeroReadNoiseAddsBias | emccd_detect/emccd_detect.py:196 | with zero read noise, line 196 adds only the bias |
| Emccd.PixelReadout | emccd_detect/emccd_detect.py:187-196 | after the serial clip an element is at most the full well; adding noise and bias gives at most the full well plus them; a saturated element reads exactly the full well plus them; an unsaturated one reads its gain draw plus them |
| Emccd.SerialFlat | emccd_detect/emccd_detect.py:184-196 | the flat readout has as many elements as the combined frame |
| Emccd.SerialFlatAt | emccd_detect/emccd_detect.py:184-196 | flat element `r*w + c` depends only on pixel `(r, c)`: `PixelReadout` of that pixel at that index |
| Emccd.SerialReadout | emccd_detect/emccd_detect.py:184-199 | the reshaped readout has the combined frame's shape |
| Emccd.ReadoutIndex | emccd_detect/emccd_detect.py:184-199 | the reshape puts flat element `r*w + c` at pixel `(r, c)` |
| Emccd.SerialReadoutAt | emccd_detect/emccd_detect.py:184-199 | output pixel `(r, c)` is `PixelReadout` of input pixel `(r, c)` at its row-major index |
| Emccd.SerialFrame | emccd_detect/emccd_detect.py:177-199 | `serial_register` fails with ValueError iff the prescan draw fails or the image frame does not have the prescan's rows; otherwise its output has prescan rows and prescan plus image columns |
| Emccd.SerialFrameIsReadout | emccd_detect/emccd_detect.py:177-199 | a successful `serial_register` is the readout of the prescan appended to the image frame |
| Emccd.SerialInputPixel | emccd_detect/emccd_detect.py:177-181 | the combined frame holds the prescan sample in the first prescan columns and the image pixel after them |
| Emccd.SerialPixel | emccd_detect/emccd_detect.py:177-199 | output pixel `(r, c)` is `PixelReadout`, at its row-major index, of the prescan sample (first columns) or of image pixel `(r, c - serial_prescan_cols)` |
| Emccd.FlatReadout | emccd_detect/emccd_detect.py:184-196 | builds the gain-drawn flat array, clips it and adds to it in place; the result is `SerialFlat` |
| Emccd.Readout | emccd_detect/emccd_detect.py:184-199 | the fresh array it returns is `SerialReadout` of the combined frame |
| Emccd.SerialRegister | emccd_detect/emccd_detect.py:154-199 | same failures as `SerialFrame`; on success a fresh array of the output shape equal to `SerialFrame` |
| Frames.Clip | emccd_detect/emccd_detect.py:150 | the clipped value is at most the full well; a value at or below it is kept, one above it becomes the full well |
| Frames.ClipAll | emccd_detect/emccd_detect.py:192 | `Clip` element by element |
| Frames.ClipFrame | emccd_detect/emccd_detect.py:150 | shape kept; every pixel at most the full well; pixels at or below it kept, the rest set to it |
| Frames.ClipFrameIdempotent | emccd_detect/emccd_detect.py:150 | clipping twice is clipping once, and clipping never raises a pixel |
| Frames.ClipFrameInPlace | emccd_detect/emccd_detect.py:150 | the in-place boolean-mask assignment on a 2-D array leaves `ClipFrame` of the old contents |
| Frames.ClipInPlace | emccd_detect/emccd_detect.py:192 | the in-place clip of the flat array leaves `ClipAll` of the old contents |
| Frames.AddInPlace | emccd_detect/emccd_detect.py:195-196 | `+=` leaves the element-wise sum of the old contents and the addend |
| Frames.Add | emccd_detect/emccd_detect.py:195-196 | element `i` is the sum of the elements `i` |
| Frames.AddScalar | emccd_detect/emccd_detect.py:196 | every element plus the bias |
| Frames.Zeros | emccd_detect/emccd_detect.py:117 | a zero frame of the given shape |
| Frames.AppendCols | emccd_detect/emccd_detect.py:181 | row `r` is row `r` of the first frame followed by row `r` of the second |
| Frames.AppendColsShape | emccd_detect/emccd_detect.py:181 | appending two frames with the same rows gives the summed width; the first columns are the first frame's and the rest the second's |
| Frames.Flatten | emccd_detect/emccd_detect.py:184 | `ravel`: the rows laid end to end; its length and placement are stated by `FlattenLength` and `FlattenAt` |
| Frames.FlattenLength | emccd_detect/emccd_detect.py:184 | a `rows` by `cols` frame flattens to `rows*cols` elements |
| Frames.FlattenAt | emccd_detect/emccd_detect.py:184 | pixel `(r, c)` is flat element `r*cols + c` |
| Frames.Reshape | emccd_detect/emccd_detect.py:199 | `reshape` gives a `rows` by `cols` frame |
| Frames.ReshapeAt | emccd_detect/emccd_detect.py:199 | flat element `r*cols + c` lands at pixel `(r, c)` |
| Frames.ReshapeArray | emccd_detect/emccd_detect.py:199 | a fresh `rows` by `cols` array equal to `Reshape` of the flat array |
| Frames.FlatIndex | emccd_detect/emccd_detect.py:184-199 | flat index `i` is pixel `(i / cols, i % cols)`, and `(i / cols)*cols + i % cols == i` |
| Frames.ReshapeFlatten | emccd_detect/emccd_detect.py:184-199 | reshaping a flattened frame gives the frame back |
| Frames.FlattenReshape | emccd_detect/emccd_detect.py:184-199 | flattening a reshaped sequence gives the sequence back |
| Frames.Rows | emccd_detect/emccd_detect.py:150 | the frame an array holds, element by element |
| Text.LStrip | pymat_diff.py:65 | `lstrip()`: the longest suffix not starting with white space; only white space is removed |
| Text.RStrip | pymat_diff.py:107 | `rstrip(';')`: the longest prefix not ending in `;`; only semicolons are removed |
| Text.StartsWith | pymat_diff.py:59-61 | the prefix test `line[:len(p)] == p` the source writes with a slice, false when the line is shorter than `p` |
| Text.Replace | pymat_diff.py:68 | `str.replace`: a left-to-right scan that replaces non-overlapping matches; the result is no longer than the input when the replacement is no longer than the pattern, and no shorter when it is no shorter |
| Text.IndexOf | pymat_diff.py:123 | `index`: none iff the element is absent; otherwise its first position |
| Text.Filter | pymat_diff.py:57-62 | the kept elements satisfy the test and come from the input |
| Text.FilterSnoc | pymat_diff.py:57-70 | one more loop iteration appends the line iff it passes the test |
| Text.FilterAppend | pymat_diff.py:57-70 | filtering distributes over concatenation |
| Text.MapSeq | pymat_diff.py:65-70 | each element converted, in order |
| Text.ReplaceAbsent | pymat_diff.py:68 | `replace` of a pattern that does not occur changes nothing |
| Text.ReplaceAtHead | pymat_diff.py:68 | a match at the scan position is replaced there |
| Text.ReplaceSkipsPrefix | pymat_diff.py:108-119 | the scan passes over text without the pattern's first character |
| Text.ReplaceRemovesChar | pymat_diff.py:112 | replacing a character by text without it leaves no copy of it |
| Text.ReplaceKeepsAbsence | pymat_diff.py:115-119 | a replacement introduces a character only if the replacement text has it |
| Text.ReplaceWithoutFirstChar | pymat_diff.py:108-119 | a pattern whose first character is absent changes nothing |
| Text.ReplaceAllAppend | pymat_diff.py:108-119 | applying two rule lists in turn is applying their concatenation |
| Text.ReplaceAllWithoutFirstChars | pymat_diff.py:108-119 | rules whose patterns start with absent characters leave the text alone |
| PymatDiff.IsImport | pymat_diff.py:59-62 | a line is an import iff its first six characters are `import` or its first four are `from`, as read, before any stripping |
| PymatDiff.KeepPython | pymat_diff.py:59-62 | `matlabize` keeps exactly the lines that are not imports |
| PymatDiff.MatlabLine | pymat_diff.py:65-68 | a kept line is stripped and loses every `np.` that one left-to-right scan finds, so it is never lengthened |
| PymatDiff.MatlabKept | pymat_diff.py:57-70 | the collected lines are no more than the input lines |
| PymatDiff.ListRemove | pymat_diff.py:74 | `remove`: ValueError iff absent; otherwise the first occurrence is dropped and everything else kept in order |
| PymatDiff.Matlabize | pymat_diff.py:54-78 | ValueError iff the coding line was not collected; IndexError iff it was the only one; otherwise the collected lines without the first coding line, less the first line iff it starts with `"""` |
| PymatDiff.IndentedImportKept | pymat_diff.py:59-65 | the import test comes before the strip, so an indented import is kept, without its indentation |
| PymatDiff.ImportsDropped | pymat_diff.py:59-62 | lines that start with `import` or `from` as read never reach the result |
| PymatDiff.NpRemovalSinglePass | pymat_diff.py:68 | `np.` is removed in one left-to-right pass: `nnp.p.` becomes `np.` |
| PymatDiff.KeepMatlab | pymat_diff.py:100-104 | `pythonize` drops exactly the lines whose left-stripped form is `end` |
| PymatDiff.Rewrite | pymat_diff.py:107-119 | the semicolon strip followed by the table of six replacements, in the source's order; spelled out by `RewriteSteps` |
| PymatDiff.RewriteSteps | pymat_diff.py:107-119 | the rewrite is the chain of six replacements on the semicolon-stripped line |
| PymatDiff.DefLine | pymat_diff.py:122-124 | a non-`function` line is unchanged; a `function` line fails with ValueError iff it has no `=`; otherwise it becomes `def` + the text after its first `=` + `:` |
| PymatDiff.PythonLine | pymat_diff.py:100-124 | a kept line converts by stripping, rewriting and the `def` step; it fails iff the rewritten line starts with `function` and has no `=` |
| PymatDiff.RewriteHasNoCaret | pymat_diff.py:112-119 | no `^` survives the rewrites |
| PymatDiff.DefLineKeepsAbsence | pymat_diff.py:122-124 | the `def` rewrite adds only the characters of `def` and `:` |
| PymatDiff.PythonLineHasNoCaret | pymat_diff.py:100-124 | a converted line has no `^`, a `def` line included |
| PymatDiff.ConvertLines | pymat_diff.py:98-126 | the loop over the lines read so far: the kept lines converted one by one, or the first failure; its meaning is stated by `ConvertLinesMeaning` |
| PymatDiff.ConvertLinesFailurePersists | pymat_diff.py:98-126 | once a line has failed, later lines cannot undo it |
| PymatDiff.ConvertLinesMeaning | pymat_diff.py:98-126 | the loop succeeds iff every kept line converts; then it holds one converted line per kept line, in order |
| PymatDiff.ConvertLinesSnoc | pymat_diff.py:98-126 | one more line leaves the result alone if dropped, fails if its conversion fails, and appends its conversion otherwise |
| PymatDiff.ConvertedHaveNoCaret | pymat_diff.py:112-126 | no line of a successful result holds `^` |
| PymatDiff.Pythonize | pymat_diff.py:95-130 | succeeds iff every line whose stripped form is not `end` converts; errors are ValueError; the result is those lines converted, in order, and none holds `^` |
| PymatDiff.EndWithSemicolonKept | pymat_diff.py:100-107 | the `end` test comes before the semicolon strip, so `end;` is kept and becomes `end` |
| PymatDiff.EndRewrite | pymat_diff.py:107-119 | `end;` rewrites to `end` |
| PymatDiff.ElementwisePowerBecomesPower | pymat_diff.py:112-115 | the `^` rewrite runs before the `.*` one, so `x.^y` ends as `x**y` |

## Left out

- Randomness: `np.random.poisson`, `np.random.normal`, `rand_em_gain` and `cosmic_hits` are inputs (`Draws`), not distributions. Their statistics are not modelled. `cosmic_hits` is only required to keep the frame's shape.
- The `metadata.yaml` load at module import becomes the `Geometry` argument. The YAML values themselves are not part of this model.
- `embed_fluxmap` is modelled only for offsets on the pixel lattice (the source uses integers). There, `interp2d` evaluates at grid points, and off the grid it takes the nearest grid point. Sub-pixel spline interpolation is not modelled.
- `interp2d` needs at least two grid points along each axis. The model requires this through `ValidGeometry` instead of modelling the library's error for smaller frames.
- For a frame with one row (or one column), the slice `pad[1:1+h, 1:1+w]` is empty, and numpy broadcasts a one-row (one-column) map into it without error. `interp2d` then fails on that frame, and `ValidGeometry` excludes it. A one-row map in a frame of two or more rows is assigned exactly and is modelled.
- A frame with zero rows is taken to have zero columns, because frames are sequences of rows.
- Emccd.ActiveFrame: models only the `lam < 0` ValueError of `np.random.poisson`, not its error for too-large means.
- Emccd.Prescan: models only the `lam < 0` ValueError of `np.random.poisson`, not its error for too-large means.
- Floating point is modelled as real arithmetic, with no rounding, overflow, NaN or infinities. The Poisson counts are naturals converted to reals.
- `sat_tails` is commented out in the source and is not modelled.
- The scripts (`mini_model_script.py`, `nonlinearity_script.py`), `setup.py`, `arcticpy` and the rest of `pymat_diff.py` (file reading, path handling, the diff itself, the `__main__` block) are not part of this model.
- `cosmics.py` and `rand_em_gain.py` are not part of this model. They enter only as the draws above.

## Findings

| source | as written | input that shows it | evidently intended | confidence | as-written member | corrected member |
|---|---|---|---|---|---|---|
| emccd_detect/emccd_detect.py:116-118, 220-232 | `image_section` embeds at `ul = (0, 0)`, so the evaluation points `rows - (ul - 1)` reach one row and one column past the padded map, and `interp2d` repeats the nearest edge | a map with `image_rows - 1` rows (or `image_cols - 1` columns) at `ul = (0, 0)`: the last active row (column) repeats the map's last row (column) instead of staying zero | the map copied into the frame at `ul`, "padded all around" as the comment at line 222 says, with zeros elsewhere | not executed | Emccd.EmbedRepeatsEdgeRow | Emccd.EmbedIsShiftedCopy |

`ImageSection` and `EmccdDetect` keep `embed_fluxmap` as written. `EmbedIsShiftedCopy` proves the intended exact copy, with zeros outside the map, for every map that leaves two spare rows and two spare columns at `ul = (0, 0)`. Along an axis where the offset is at least 1, the slice fit alone is enough.
