/** The frame-synthesis pipeline of emccd_detect.py with every random draw
    supplied from outside: `image_section` places the flux map, turns it
    into electrons, places the active area in the image frame and clips at
    the image full well; `serial_register` prepends the prescan, reads the
    frame out row by row, applies the gain, clips at the serial full well,
    adds fixed pattern, read noise and bias and reshapes; `emccd_detect`
    chains the two. */
module Emccd {
  import opened Results
  import opened Frames

  /** The detector geometry (`meta.geom`). */
  datatype Geometry = Geometry(
    imageRows: nat,
    imageCols: nat,
    serialPrescanRows: nat,
    serialPrescanCols: nat,
    parallelOverscanCols: nat,
    darkReferenceRows: nat,
    darkReferenceCols: nat,
    transitionRowsUpper: nat)

  /** `interp2d` fits its spline on the pixel grid of the frame it embeds
      into and needs two grid points along each axis: the active area and
      the image frame must be at least 2 by 2. */
  predicate ValidGeometry(g: Geometry) {
    && g.imageRows >= 2 && g.imageCols >= 2
    && g.serialPrescanRows >= 2 && g.parallelOverscanCols >= 2
  }

  /** The keyword arguments of `emccd_detect`. */
  datatype Params = Params(
    emGain: real,
    fullWellImage: real,
    fullWellSerial: real,
    darkCurrent: real,
    cic: real,
    readNoise: real,
    bias: real,
    qe: real,
    crRate: real,
    pixelPitch: real,
    shotNoiseOn: bool)

  /** The defaults `emccd_detect` declares. */
  const Defaults := Params(5000.0, 50000.0, 90000.0, 0.0028, 0.01, 100.0, 0.0, 0.9, 0.0, 0.000013, true)

  /** The random draws of one call, as functions of where they are taken. */
  datatype Draws = Draws(
    /** `np.random.poisson` in `image_section`: mean and pixel to count. */
    poisson: (real, nat, nat) -> nat,
    /** `np.random.poisson` of the prescan in `serial_register`. */
    prescanPoisson: (real, nat, nat) -> nat,
    /** `rand_em_gain`: electrons in, gain and flat index to electrons out. */
    emGain: (real, real, nat) -> real,
    /** `np.random.normal` in `make_read_noise`, by flat index. */
    normal: nat -> real,
    /** `cosmic_hits(frame, cr_rate, frametime, pixel_pitch, full_well)`. */
    cosmicHits: (Frame, real, real, real, real) -> Frame)

  /** `cosmic_hits` returns a frame of the shape it was given. */
  ghost predicate PreservesShape(hits: (Frame, real, real, real, real) -> Frame, rows: nat, cols: nat) {
    forall f, crRate, frametime, pitch, fullWell ::
      IsShape(f, rows, cols) ==> IsShape(hits(f, crRate, frametime, pitch, fullWell), rows, cols)
  }

  // ---------------------------------------------------------------- embed_fluxmap

  /** Where `interp2d` reads an evaluation point outside its grid: the
      nearest grid point. */
  function Clamp(x: int, n: nat): (i: nat)
    requires n > 0
    ensures i < n
    ensures 0 <= x < n ==> i == x
    ensures x < 0 ==> i == 0
    ensures x >= n ==> i == n - 1
  {
    if x < 0 then 0 else if x >= n then n - 1 else x
  }

  /** `pad` once the map is written at offset (1, 1) of a zero frame. */
  function Padded(fluxmap: Frame, rows: nat, cols: nat): (pad: Frame)
    requires IsRect(fluxmap) && |fluxmap| < rows && Width(fluxmap) < cols
    ensures IsShape(pad, rows, cols)
    ensures forall i, j :: 0 <= i < rows && 0 <= j < cols && (i == 0 || j == 0) ==>
      pad[i][j] == 0.0
    ensures forall i, j :: 0 <= i < rows && 0 <= j < cols && (i > |fluxmap| || j > Width(fluxmap)) ==>
      pad[i][j] == 0.0
    ensures forall i, j :: 1 <= i <= |fluxmap| && 1 <= j <= Width(fluxmap) ==>
      pad[i][j] == fluxmap[i - 1][j - 1]
  {
    seq(rows, i requires 0 <= i < rows =>
      seq(cols, j requires 0 <= j < cols =>
        if 1 <= i <= |fluxmap| && 1 <= j <= Width(fluxmap) then fluxmap[i - 1][j - 1] else 0.0))
  }

  /** `embed_fluxmap(fluxmap, frame, ul)` for an offset on the pixel lattice:
      the slice assignment fails unless the map fits inside the frame with a
      row and a column to spare; then pixel `(r, c)` adds the padded map at
      `(r - ul.0 + 1, c - ul.1 + 1)`, the nearest grid point when that
      falls off the grid. */
  function EmbedFluxmap(fluxmap: Frame, frame: Frame, ul: (nat, nat)): (r: Result<Frame>)
    requires IsRect(fluxmap) && IsRect(frame) && |frame| >= 2 && Width(frame) >= 2
    ensures r.Failure? <==> |fluxmap| >= |frame| || Width(fluxmap) >= Width(frame)
    ensures r.Failure? ==> r.error == ValueError
    ensures r.Success? ==> IsShape(r.value, |frame|, Width(frame))
  {
    var rows, cols := |frame|, Width(frame);
    if |fluxmap| >= rows || Width(fluxmap) >= cols then Failure(ValueError)
    else
      var pad := Padded(fluxmap, rows, cols);
      Success(seq(rows, r requires 0 <= r < rows =>
        seq(cols, c requires 0 <= c < cols =>
          frame[r][c] + pad[Clamp(r - ul.0 + 1, rows)][Clamp(c - ul.1 + 1, cols)])))
  }

  /** The map moved by `ul`: its pixel `(r - ul.0, c - ul.1)` inside its
      footprint, zero elsewhere. */
  function Shifted(fluxmap: Frame, ul: (nat, nat), r: nat, c: nat): real
    requires IsRect(fluxmap)
  {
    if ul.0 <= r < ul.0 + |fluxmap| && ul.1 <= c < ul.1 + Width(fluxmap)
    then fluxmap[r - ul.0][c - ul.1] else 0.0
  }

  /** When the nearest-neighbour extrapolation of `interp2d` only ever
      reaches the zero padding, embedding adds the shifted map to the frame. */
  lemma EmbedIsShiftedCopy(fluxmap: Frame, frame: Frame, ul: (nat, nat))
    requires IsRect(fluxmap) && IsRect(frame) && |frame| >= 2 && Width(frame) >= 2
    requires |fluxmap| < |frame| && Width(fluxmap) < Width(frame)
    requires ul.0 >= 1 || |fluxmap| + 2 <= |frame|
    requires ul.1 >= 1 || Width(fluxmap) + 2 <= Width(frame)
    ensures EmbedFluxmap(fluxmap, frame, ul).Success?
    ensures forall r, c :: 0 <= r < |frame| && 0 <= c < Width(frame) ==>
      EmbedFluxmap(fluxmap, frame, ul).value[r][c] == frame[r][c] + Shifted(fluxmap, ul, r, c)
  {
    var rows, cols := |frame|, Width(frame);
    var pad := Padded(fluxmap, rows, cols);
    forall r, c | 0 <= r < rows && 0 <= c < cols
      ensures pad[Clamp(r - ul.0 + 1, rows)][Clamp(c - ul.1 + 1, cols)] == Shifted(fluxmap, ul, r, c)
    {
      var i, j := Clamp(r - ul.0 + 1, rows), Clamp(c - ul.1 + 1, cols);
      if 1 <= i <= |fluxmap| && 1 <= j <= Width(fluxmap) {
        assert i == r - ul.0 + 1 && j == c - ul.1 + 1;
      }
    }
  }

  /** At offset (0, 0) a map one row shorter than the frame has no zero row
      below it, so the last frame row repeats the map's last row instead of
      staying as it was. */
  lemma EmbedRepeatsEdgeRow(fluxmap: Frame, frame: Frame, c: nat)
    requires IsRect(fluxmap) && IsRect(frame) && |frame| >= 2 && Width(frame) >= 2
    requires |fluxmap| == |frame| - 1 && Width(fluxmap) < Width(frame) && c < Width(fluxmap)
    ensures EmbedFluxmap(fluxmap, frame, (0, 0)).Success?
    ensures EmbedFluxmap(fluxmap, frame, (0, 0)).value[|frame| - 1][c] ==
      frame[|frame| - 1][c] + fluxmap[|frame| - 2][c]
    ensures Shifted(fluxmap, (0, 0), |frame| - 1, c) == 0.0
  {
    var rows, cols := |frame|, Width(frame);
    assert Clamp(rows - 1 + 1, rows) == rows - 1;
    assert Clamp(c + 1, cols) == c + 1;
  }

  // ---------------------------------------------------------------- image_section

  /** `active_frame * frametime * qe`. */
  function MeanPhe(active: Frame, frametime: real, qe: real): (phe: Frame)
    ensures |phe| == |active| && forall r :: 0 <= r < |active| ==> |phe[r]| == |active[r]|
    ensures forall r, c :: 0 <= r < |active| && 0 <= c < |active[r]| ==>
      phe[r][c] == active[r][c] * frametime * qe
  {
    seq(|active|, r requires 0 <= r < |active| =>
      seq(|active[r]|, c requires 0 <= c < |active[r]| => active[r][c] * frametime * qe))
  }

  /** Some mean handed to `np.random.poisson` as an array is negative. */
  predicate SomeNegative(phe: Frame, meanNoise: real) {
    exists r, c | 0 <= r < |phe| && 0 <= c < |phe[r]| :: phe[r][c] + meanNoise < 0.0
  }

  /** The electrons `image_section` actualises at the pixels. With shot noise
      every pixel is a Poisson count of its mean photo-electrons plus the
      mean dark and clock-induced charge; without it the photo-electrons
      are kept as they are and only the noise is drawn. A negative mean
      makes `np.random.poisson` raise ValueError. */
  function ActiveFrame(active: Frame, frametime: real, darkCurrent: real, cic: real, qe: real,
                       shotNoiseOn: bool, poisson: (real, nat, nat) -> nat): (r: Result<Frame>)
    requires IsRect(active)
    ensures var meanNoise := darkCurrent * frametime + cic;
      r.Failure? <==>
        if shotNoiseOn then SomeNegative(MeanPhe(active, frametime, qe), meanNoise)
        else meanNoise < 0.0
    ensures r.Failure? ==> r.error == ValueError
    ensures r.Success? ==> IsShape(r.value, |active|, Width(active))
    ensures shotNoiseOn && r.Success? ==>
      forall i, j :: 0 <= i < |active| && 0 <= j < Width(active) ==> r.value[i][j] >= 0.0
  {
    var phe := MeanPhe(active, frametime, qe);
    var meanNoise := darkCurrent * frametime + cic;
    if shotNoiseOn then
      if SomeNegative(phe, meanNoise) then Failure(ValueError)
      else Success(seq(|phe|, i requires 0 <= i < |phe| =>
        seq(|phe[i]|, j requires 0 <= j < |phe[i]| => poisson(phe[i][j] + meanNoise, i, j) as real)))
    else
      if meanNoise < 0.0 then Failure(ValueError)
      else Success(seq(|phe|, i requires 0 <= i < |phe| =>
        seq(|phe[i]|, j requires 0 <= j < |phe[i]| => phe[i][j] + poisson(meanNoise, i, j) as real)))
  }

  /** With shot noise each pixel is the Poisson draw whose mean is its flux
      times frame time times quantum efficiency plus the mean noise; this
      fails exactly when one of those means is negative. */
  lemma ActiveFrameShotNoiseOn(active: Frame, frametime: real, darkCurrent: real, cic: real,
                               qe: real, poisson: (real, nat, nat) -> nat)
    requires IsRect(active)
    ensures var r := ActiveFrame(active, frametime, darkCurrent, cic, qe, true, poisson);
      r.Success? <==> forall i, j :: 0 <= i < |active| && 0 <= j < Width(active) ==>
        active[i][j] * frametime * qe + (darkCurrent * frametime + cic) >= 0.0
    ensures var r := ActiveFrame(active, frametime, darkCurrent, cic, qe, true, poisson);
      r.Success? ==> forall i, j :: 0 <= i < |active| && 0 <= j < Width(active) ==>
        r.value[i][j] == poisson(active[i][j] * frametime * qe + (darkCurrent * frametime + cic), i, j) as real
  {
  }

  /** Without shot noise each pixel is its flux times frame time times
      quantum efficiency plus the noise sample; this fails exactly when the
      mean noise is negative. */
  lemma ActiveFrameShotNoiseOff(active: Frame, frametime: real, darkCurrent: real, cic: real,
                                qe: real, poisson: (real, nat, nat) -> nat)
    requires IsRect(active)
    ensures var r := ActiveFrame(active, frametime, darkCurrent, cic, qe, false, poisson);
      r.Success? <==> darkCurrent * frametime + cic >= 0.0
    ensures var r := ActiveFrame(active, frametime, darkCurrent, cic, qe, false, poisson);
      r.Success? ==> forall i, j :: 0 <= i < |active| && 0 <= j < Width(active) ==>
        r.value[i][j] == active[i][j] * frametime * qe +
          poisson(darkCurrent * frametime + cic, i, j) as real
  {
  }

  /** With no exposure only the clock-induced charge is drawn, with or
      without shot noise. */
  lemma ActiveFrameZeroExposure(active: Frame, darkCurrent: real, cic: real, qe: real,
                                shotNoiseOn: bool, poisson: (real, nat, nat) -> nat)
    requires IsRect(active) && cic >= 0.0
    ensures var r := ActiveFrame(active, 0.0, darkCurrent, cic, qe, shotNoiseOn, poisson);
      r.Success? && forall i, j :: 0 <= i < |active| && 0 <= j < Width(active) ==>
        r.value[i][j] == poisson(cic, i, j) as real
  {
    var phe := MeanPhe(active, 0.0, qe);
    assert forall i, j :: 0 <= i < |phe| && 0 <= j < |phe[i]| ==> phe[i][j] == 0.0;
    assert !SomeNegative(phe, darkCurrent * 0.0 + cic);
  }

  /** Where the active area sits in the image frame. */
  function ActiveOffset(g: Geometry): (nat, nat) {
    (g.darkReferenceRows + g.transitionRowsUpper, g.darkReferenceCols)
  }

  /** The frame `image_section` builds before its full-well clip. */
  function Composite(g: Geometry, fluxmap: Frame, frametime: real, p: Params, d: Draws): (r: Result<Frame>)
    requires ValidGeometry(g) && IsRect(fluxmap)
    requires PreservesShape(d.cosmicHits, g.imageRows, g.imageCols)
    ensures r.Failure? ==> r.error == ValueError
    ensures r.Success? ==> IsShape(r.value, g.serialPrescanRows, g.parallelOverscanCols)
  {
    var zeros := Zeros(g.imageRows, g.imageCols);
    var placed :- EmbedFluxmap(fluxmap, zeros, (0, 0));
    var active :- ActiveFrame(placed, frametime, p.darkCurrent, p.cic, p.qe, p.shotNoiseOn, d.poisson);
    var hit := d.cosmicHits(active, p.crRate, frametime, p.pixelPitch, p.fullWellImage);
    EmbedFluxmap(hit, Zeros(g.serialPrescanRows, g.parallelOverscanCols), ActiveOffset(g))
  }

  /** What `image_section` returns. */
  function ImageFrame(g: Geometry, fluxmap: Frame, frametime: real, p: Params, d: Draws): (r: Result<Frame>)
    requires ValidGeometry(g) && IsRect(fluxmap)
    requires PreservesShape(d.cosmicHits, g.imageRows, g.imageCols)
    ensures r.Failure? ==> r.error == ValueError
    ensures r.Success? ==> IsShape(r.value, g.serialPrescanRows, g.parallelOverscanCols)
    ensures r.Success? ==> forall i, j :: 0 <= i < g.serialPrescanRows && 0 <= j < g.parallelOverscanCols ==>
      r.value[i][j] <= p.fullWellImage
  {
    var framed :- Composite(g, fluxmap, frametime, p, d);
    Success(ClipFrame(framed, p.fullWellImage))
  }

  /** The full-well clip of `image_section` is upper-only: pixels at or below the image full
      well keep their value and none is raised. */
  lemma ImageFrameClip(g: Geometry, fluxmap: Frame, frametime: real, p: Params, d: Draws)
    requires ValidGeometry(g) && IsRect(fluxmap)
    requires PreservesShape(d.cosmicHits, g.imageRows, g.imageCols)
    ensures ImageFrame(g, fluxmap, frametime, p, d).Success? <==>
      Composite(g, fluxmap, frametime, p, d).Success?
    ensures ImageFrame(g, fluxmap, frametime, p, d).Success? ==>
      var framed := Composite(g, fluxmap, frametime, p, d).value;
      var image := ImageFrame(g, fluxmap, frametime, p, d).value;
      forall i, j :: 0 <= i < g.serialPrescanRows && 0 <= j < g.parallelOverscanCols ==>
        && image[i][j] <= framed[i][j]
        && (framed[i][j] <= p.fullWellImage ==> image[i][j] == framed[i][j])
        && (framed[i][j] > p.fullWellImage ==> image[i][j] == p.fullWellImage)
  {
  }

  /** A flux map as tall or as wide as the active area is refused by the
      first slice assignment. */
  lemma FullSizeFluxmapRejected(g: Geometry, fluxmap: Frame, frametime: real, p: Params, d: Draws)
    requires ValidGeometry(g) && IsRect(fluxmap)
    requires PreservesShape(d.cosmicHits, g.imageRows, g.imageCols)
    requires |fluxmap| >= g.imageRows || Width(fluxmap) >= g.imageCols
    ensures ImageFrame(g, fluxmap, frametime, p, d) == Failure(ValueError)
  {
  }

  /** `image_section` fails exactly when the flux map does not fit the
      active area with a row and a column to spare, when the Poisson draw
      refuses a negative mean, or when the active area does not fit the
      image frame that way. */
  lemma ImageFrameFailure(g: Geometry, fluxmap: Frame, frametime: real, p: Params, d: Draws)
    requires ValidGeometry(g) && IsRect(fluxmap)
    requires PreservesShape(d.cosmicHits, g.imageRows, g.imageCols)
    ensures var placed := EmbedFluxmap(fluxmap, Zeros(g.imageRows, g.imageCols), (0, 0));
      ImageFrame(g, fluxmap, frametime, p, d).Failure? <==>
        || |fluxmap| >= g.imageRows || Width(fluxmap) >= g.imageCols
        || ActiveFrame(placed.value, frametime, p.darkCurrent, p.cic, p.qe, p.shotNoiseOn, d.poisson).Failure?
        || g.imageRows >= g.serialPrescanRows || g.imageCols >= g.parallelOverscanCols
  {
    var placed := EmbedFluxmap(fluxmap, Zeros(g.imageRows, g.imageCols), (0, 0));
    if placed.Success? {
      var active := ActiveFrame(placed.value, frametime, p.darkCurrent, p.cic, p.qe, p.shotNoiseOn, d.poisson);
      if active.Success? {
        var hit := d.cosmicHits(active.value, p.crRate, frametime, p.pixelPitch, p.fullWellImage);
        assert IsShape(hit, g.imageRows, g.imageCols);
        assert Width(hit) == g.imageCols;
      }
    }
  }

  /** `image_section`: the frame is built as a value, then clipped in place. */
  method ImageSection(g: Geometry, fluxmap: Frame, frametime: real, p: Params, d: Draws)
    returns (r: Result<array2<real>>)
    requires ValidGeometry(g) && IsRect(fluxmap)
    requires PreservesShape(d.cosmicHits, g.imageRows, g.imageCols)
    ensures r.Failure? <==> ImageFrame(g, fluxmap, frametime, p, d).Failure?
    ensures r.Failure? ==> r.error == ValueError
    ensures r.Success? ==>
      && fresh(r.value)
      && r.value.Length0 == g.serialPrescanRows && r.value.Length1 == g.parallelOverscanCols
      && Rows(r.value) == ImageFrame(g, fluxmap, frametime, p, d).value
  {
    var framed :- Composite(g, fluxmap, frametime, p, d);
    var rows, cols := g.serialPrescanRows, g.parallelOverscanCols;
    var imageFrame := new real[rows, cols]((i, j) requires 0 <= i < rows && 0 <= j < cols => framed[i][j]);
    FrameExt(Rows(imageFrame), framed, rows, cols);
    ClipFrameInPlace(imageFrame, p.fullWellImage);
    return Success(imageFrame);
  }

  // ---------------------------------------------------------------- serial_register

  /** The prescan of `serial_register` is a Poisson draw of mean `cic` per pixel;
      a negative mean raises ValueError unless the prescan is empty. */
  function Prescan(g: Geometry, cic: real, prescanPoisson: (real, nat, nat) -> nat): (r: Result<Frame>)
    ensures r.Failure? <==> g.serialPrescanRows > 0 && g.serialPrescanCols > 0 && cic < 0.0
    ensures r.Failure? ==> r.error == ValueError
    ensures r.Success? ==> IsShape(r.value, g.serialPrescanRows, g.serialPrescanCols)
  {
    if g.serialPrescanRows > 0 && g.serialPrescanCols > 0 && cic < 0.0 then Failure(ValueError)
    else Success(seq(g.serialPrescanRows, i requires 0 <= i < g.serialPrescanRows =>
      seq(g.serialPrescanCols, j requires 0 <= j < g.serialPrescanCols => prescanPoisson(cic, i, j) as real)))
  }

  /** `rand_em_gain(serial_frame, em_gain)`, drawn element by element. */
  function GainAll(s: seq<real>, emGain: real, gain: (real, real, nat) -> real): (t: seq<real>)
    ensures |t| == |s| && forall i :: 0 <= i < |s| ==> t[i] == gain(s[i], emGain, i)
  {
    seq(|s|, i requires 0 <= i < |s| => gain(s[i], emGain, i))
  }

  /** `make_fixed_pattern(serial_frame)`: zeros of the frame's shape. */
  function MakeFixedPattern(serialFrame: seq<real>): (z: seq<real>)
    ensures |z| == |serialFrame|
  {
    seq(|serialFrame|, _ => 0.0)
  }

  /** The fixed pattern is all zeros, so adding it leaves the frame as it was. */
  lemma FixedPatternIsIdentity(serialFrame: seq<real>)
    ensures forall i :: 0 <= i < |serialFrame| ==> MakeFixedPattern(serialFrame)[i] == 0.0
    ensures Add(serialFrame, MakeFixedPattern(serialFrame)) == serialFrame
  {
  }

  /** `make_read_noise(serial_frame, read_noise)`: `read_noise` times a
      standard normal draw per element. */
  function MakeReadNoise(serialFrame: seq<real>, readNoise: real, normal: nat -> real): (n: seq<real>)
    ensures |n| == |serialFrame|
    ensures forall i :: 0 <= i < |serialFrame| ==> n[i] == readNoise * normal(i)
  {
    seq(|serialFrame|, i requires 0 <= i < |serialFrame| => readNoise * normal(i))
  }

  /** With no read noise, the last addition of `serial_register` adds only
      the bias. */
  lemma ZeroReadNoiseAddsBias(serialFrame: seq<real>, bias: real, normal: nat -> real)
    ensures Add(serialFrame, AddScalar(MakeReadNoise(serialFrame, 0.0, normal), bias)) ==
      AddScalar(serialFrame, bias)
  {
  }

  /** What one element becomes at flat index `i`: the gain draw, the clip
      to the serial full well, then read noise and bias, as in
      `serial_register`. */
  function PixelReadout(x: real, i: nat, emGain: real, fullWellSerial: real, readNoise: real,
                        bias: real, d: Draws): (y: real)
    ensures var noise := readNoise * d.normal(i) + bias;
      && y <= fullWellSerial + noise
      && (d.emGain(x, emGain, i) >= fullWellSerial ==> y == fullWellSerial + noise)
      && (d.emGain(x, emGain, i) <= fullWellSerial ==> y == d.emGain(x, emGain, i) + noise)
  {
    Clip(d.emGain(x, emGain, i), fullWellSerial) + (readNoise * d.normal(i) + bias)
  }

  /** The steps of `serial_register` on the flat frame: gain, clip, fixed
      pattern, read noise and bias. */
  function SerialFlat(frame2d: Frame, emGain: real, fullWellSerial: real, readNoise: real,
                      bias: real, d: Draws): (s: seq<real>)
    ensures |s| == |Flatten(frame2d)|
  {
    var gained := GainAll(Flatten(frame2d), emGain, d.emGain);
    var clipped := ClipAll(gained, fullWellSerial);
    var patterned := Add(clipped, MakeFixedPattern(clipped));
    Add(patterned, AddScalar(MakeReadNoise(patterned, readNoise, d.normal), bias))
  }

  /** Element `r * w + c` of the flat steps depends on pixel `(r, c)` of
      the frame alone. */
  lemma SerialFlatAt(frame2d: Frame, rows: nat, w: nat, emGain: real, fullWellSerial: real,
                     readNoise: real, bias: real, d: Draws, r: nat, c: nat)
    requires IsShape(frame2d, rows, w) && r < rows && c < w
    ensures r * w + c < |Flatten(frame2d)|
    ensures var i := Index(r, c, w);
      SerialFlat(frame2d, emGain, fullWellSerial, readNoise, bias, d)[i] ==
        PixelReadout(frame2d[r][c], i, emGain, fullWellSerial, readNoise, bias, d)
  {
    FlattenAt(frame2d, rows, w, r, c);
    var i := Index(r, c, w);
    var gained := GainAll(Flatten(frame2d), emGain, d.emGain);
    assert gained[i] == d.emGain(frame2d[r][c], emGain, i);
    var clipped := ClipAll(gained, fullWellSerial);
    assert clipped[i] == Clip(gained[i], fullWellSerial);
    FixedPatternIsIdentity(clipped);
  }

  /** The readout of `serial_register` on the combined `rows` by `w` frame: flatten, the flat
      steps, and the reshape back to the frame's shape. */
  function SerialReadout(frame2d: Frame, rows: nat, w: nat, emGain: real, fullWellSerial: real,
                         readNoise: real, bias: real, d: Draws): (f: Frame)
    requires IsShape(frame2d, rows, w)
    ensures IsShape(f, rows, w)
  {
    FlattenLength(frame2d, rows, w);
    Reshape(SerialFlat(frame2d, emGain, fullWellSerial, readNoise, bias, d), rows, w)
  }

  /** The reshape puts flat element `r * w + c` at pixel `(r, c)`. */
  lemma ReadoutIndex(frame2d: Frame, rows: nat, w: nat, emGain: real, fullWellSerial: real,
                     readNoise: real, bias: real, d: Draws, r: nat, c: nat)
    requires IsShape(frame2d, rows, w) && r < rows && c < w
    ensures r * w + c < |Flatten(frame2d)|
    ensures SerialReadout(frame2d, rows, w, emGain, fullWellSerial, readNoise, bias, d)[r][c] ==
      SerialFlat(frame2d, emGain, fullWellSerial, readNoise, bias, d)[r * w + c]
  {
    FlattenLength(frame2d, rows, w);
    ReshapeAt(SerialFlat(frame2d, emGain, fullWellSerial, readNoise, bias, d), rows, w, r, c);
  }

  /** Pixel `(r, c)` of the readout is pixel `(r, c)` of its input through
      the gain draw at its row-major index `r * w + c`, the serial full-well
      clip, and read noise and bias at that same index. */
  lemma SerialReadoutAt(frame2d: Frame, rows: nat, w: nat, emGain: real, fullWellSerial: real,
                        readNoise: real, bias: real, d: Draws, r: nat, c: nat)
    requires IsShape(frame2d, rows, w) && r < rows && c < w
    ensures var i := Index(r, c, w);
      SerialReadout(frame2d, rows, w, emGain, fullWellSerial, readNoise, bias, d)[r][c] ==
        PixelReadout(frame2d[r][c], i, emGain, fullWellSerial, readNoise, bias, d)
  {
    ReadoutIndex(frame2d, rows, w, emGain, fullWellSerial, readNoise, bias, d, r, c);
    SerialFlatAt(frame2d, rows, w, emGain, fullWellSerial, readNoise, bias, d, r, c);
  }

  /** What `serial_register` returns for an image frame of `width` columns.
      `np.append` raises ValueError unless the image frame has as many rows
      as the prescan. */
  function SerialFrame(g: Geometry, image: Frame, width: nat, emGain: real, cic: real,
                       fullWellSerial: real, readNoise: real, bias: real, d: Draws): (r: Result<Frame>)
    requires IsShape(image, |image|, width)
    ensures r.Failure? <==>
      (g.serialPrescanRows > 0 && g.serialPrescanCols > 0 && cic < 0.0) || |image| != g.serialPrescanRows
    ensures r.Failure? ==> r.error == ValueError
    ensures r.Success? ==> IsShape(r.value, g.serialPrescanRows, g.serialPrescanCols + width)
  {
    var prescan :- Prescan(g, cic, d.prescanPoisson);
    if |image| != g.serialPrescanRows then Failure(ValueError)
    else
      AppendColsShape(prescan, image, g.serialPrescanRows, g.serialPrescanCols, width);
      Success(SerialReadout(AppendCols(prescan, image), g.serialPrescanRows,
                            g.serialPrescanCols + width, emGain, fullWellSerial, readNoise, bias, d))
  }

  /** A successful serial frame is the readout of the prescan with the image frame appended. */
  lemma SerialFrameIsReadout(g: Geometry, image: Frame, width: nat, emGain: real, cic: real,
                             fullWellSerial: real, readNoise: real, bias: real, d: Draws)
    requires IsShape(image, |image|, width)
    requires SerialFrame(g, image, width, emGain, cic, fullWellSerial, readNoise, bias, d).Success?
    ensures Prescan(g, cic, d.prescanPoisson).Success? && |image| == g.serialPrescanRows
    ensures var prescan := Prescan(g, cic, d.prescanPoisson).value;
      && IsShape(AppendCols(prescan, image), g.serialPrescanRows, g.serialPrescanCols + width)
      && SerialFrame(g, image, width, emGain, cic, fullWellSerial, readNoise, bias, d).value ==
        SerialReadout(AppendCols(prescan, image), g.serialPrescanRows, g.serialPrescanCols + width,
                      emGain, fullWellSerial, readNoise, bias, d)
  {
    var prescan := Prescan(g, cic, d.prescanPoisson).value;
    AppendColsShape(prescan, image, g.serialPrescanRows, g.serialPrescanCols, width);
  }

  /** Pixel identity through the serial register: output pixel `(r, c)` is
      input pixel `(r, c)` (a prescan sample in the first columns, an image
      pixel after them) through the gain draw at its row-major index, the
      serial full-well clip, and read noise and bias at that same index. */
  lemma SerialPixel(g: Geometry, image: Frame, width: nat, emGain: real, cic: real,
                    fullWellSerial: real, readNoise: real, bias: real, d: Draws, out: Frame, r: nat, c: nat)
    requires IsShape(image, |image|, width)
    requires SerialFrame(g, image, width, emGain, cic, fullWellSerial, readNoise, bias, d) == Success(out)
    requires r < g.serialPrescanRows && c < g.serialPrescanCols + width
    ensures r < |out| && c < |out[r]|
    ensures var i := Index(r, c, g.serialPrescanCols + width);
      out[r][c] ==
        PixelReadout(SerialInputAt(g, image, cic, d, r, c), i, emGain, fullWellSerial, readNoise, bias, d)
  {
    var rows, w := g.serialPrescanRows, g.serialPrescanCols + width;
    SerialFrameIsReadout(g, image, width, emGain, cic, fullWellSerial, readNoise, bias, d);
    var frame2d := AppendCols(Prescan(g, cic, d.prescanPoisson).value, image);
    assert out == SerialReadout(frame2d, rows, w, emGain, fullWellSerial, readNoise, bias, d);
    SerialInputPixel(g, image, width, cic, d, r, c);
    SerialReadoutAt(frame2d, rows, w, emGain, fullWellSerial, readNoise, bias, d, r, c);
  }

  /** The combined frame holds the prescan sample or the image pixel. */
  lemma SerialInputPixel(g: Geometry, image: Frame, width: nat, cic: real, d: Draws, r: nat, c: nat)
    requires IsShape(image, g.serialPrescanRows, width)
    requires Prescan(g, cic, d.prescanPoisson).Success?
    requires r < g.serialPrescanRows && c < g.serialPrescanCols + width
    ensures var prescan := Prescan(g, cic, d.prescanPoisson).value;
      AppendCols(prescan, image)[r][c] == SerialInputAt(g, image, cic, d, r, c)
  {
    var prescan := Prescan(g, cic, d.prescanPoisson).value;
    AppendColsShape(prescan, image, g.serialPrescanRows, g.serialPrescanCols, width);
  }

  /** Pixel `(r, c)` entering the readout: a prescan sample in the first
      `serial_prescan_cols` columns; pixel `(r, c - serial_prescan_cols)`
      of the image frame after them. */
  function SerialInputAt(g: Geometry, image: Frame, cic: real, d: Draws, r: nat, c: nat): real
    requires |image| == g.serialPrescanRows && r < |image|
    requires g.serialPrescanCols <= c < g.serialPrescanCols + |image[r]| || c < g.serialPrescanCols
  {
    if c < g.serialPrescanCols then d.prescanPoisson(cic, r, c) as real
    else image[r][c - g.serialPrescanCols]
  }

  /** The readout of `serial_register` on arrays: the flat array is made by the gain draw, clipped and
      added to in place, and reshaped into a new array. */
  method Readout(frame2d: Frame, rows: nat, w: nat, emGain: real, fullWellSerial: real,
                 readNoise: real, bias: real, d: Draws) returns (a: array2<real>)
    requires IsShape(frame2d, rows, w)
    ensures fresh(a) && a.Length0 == rows && a.Length1 == w
    ensures Rows(a) == SerialReadout(frame2d, rows, w, emGain, fullWellSerial, readNoise, bias, d)
  {
    FlattenLength(frame2d, rows, w);
    var serialFrame := FlatReadout(frame2d, emGain, fullWellSerial, readNoise, bias, d);
    a := ReshapeArray(serialFrame, rows, w);
  }

  /** The flat steps of `serial_register`: the gain draw makes the flat array, which is then
      clipped and added to in place. */
  method FlatReadout(frame2d: Frame, emGain: real, fullWellSerial: real,
                     readNoise: real, bias: real, d: Draws) returns (serialFrame: array<real>)
    ensures fresh(serialFrame)
    ensures serialFrame[..] == SerialFlat(frame2d, emGain, fullWellSerial, readNoise, bias, d)
  {
    var flat := Flatten(frame2d);
    serialFrame := new real[|flat|](i requires 0 <= i < |flat| => d.emGain(flat[i], emGain, i));
    assert serialFrame[..] == GainAll(flat, emGain, d.emGain);
    ClipInPlace(serialFrame, fullWellSerial);
    AddInPlace(serialFrame, MakeFixedPattern(serialFrame[..]));
    AddInPlace(serialFrame, AddScalar(MakeReadNoise(serialFrame[..], readNoise, d.normal), bias));
  }


  /** `serial_register`. */
  method SerialRegister(g: Geometry, imageFrame: array2<real>, emGain: real, cic: real,
                        fullWellSerial: real, readNoise: real, bias: real, d: Draws)
    returns (r: Result<array2<real>>)
    ensures var spec := SerialFrame(g, Rows(imageFrame), imageFrame.Length1, emGain, cic,
                                    fullWellSerial, readNoise, bias, d);
      (r.Failure? <==> spec.Failure?) && (r.Failure? ==> r.error == ValueError)
    ensures r.Success? ==>
      && fresh(r.value)
      && r.value.Length0 == g.serialPrescanRows
      && r.value.Length1 == g.serialPrescanCols + imageFrame.Length1
      && Rows(r.value) == SerialFrame(g, Rows(imageFrame), imageFrame.Length1, emGain, cic,
                                      fullWellSerial, readNoise, bias, d).value
  {
    var prescan :- Prescan(g, cic, d.prescanPoisson);
    if imageFrame.Length0 != g.serialPrescanRows {
      return Failure(ValueError);
    }
    var image := Rows(imageFrame);
    AppendColsShape(prescan, image, g.serialPrescanRows, g.serialPrescanCols, imageFrame.Length1);
    var serialFrame2d := AppendCols(prescan, image);
    var serialFrame := Readout(serialFrame2d, g.serialPrescanRows, g.serialPrescanCols + imageFrame.Length1,
                               emGain, fullWellSerial, readNoise, bias, d);
    return Success(serialFrame);
  }

  // ---------------------------------------------------------------- emccd_detect

  /** What `emccd_detect` returns: the image section's frame through the
      serial register, with the same `cic` for both. */
  function DetectedFrame(g: Geometry, fluxmap: Frame, frametime: real, p: Params, d: Draws): (r: Result<Frame>)
    requires ValidGeometry(g) && IsRect(fluxmap)
    requires PreservesShape(d.cosmicHits, g.imageRows, g.imageCols)
    ensures r.Failure? ==> r.error == ValueError
    ensures r.Success? ==>
      IsShape(r.value, g.serialPrescanRows, g.serialPrescanCols + g.parallelOverscanCols)
  {
    var image :- ImageFrame(g, fluxmap, frametime, p, d);
    SerialFrame(g, image, g.parallelOverscanCols, p.emGain, p.cic, p.fullWellSerial,
                p.readNoise, p.bias, d)
  }

  /** The image section's frame always has the rows the serial register
      demands, so the detector fails only where the image section fails or
      where the prescan draw does. */
  lemma DetectedFrameFailure(g: Geometry, fluxmap: Frame, frametime: real, p: Params, d: Draws)
    requires ValidGeometry(g) && IsRect(fluxmap)
    requires PreservesShape(d.cosmicHits, g.imageRows, g.imageCols)
    ensures DetectedFrame(g, fluxmap, frametime, p, d).Failure? <==>
      || ImageFrame(g, fluxmap, frametime, p, d).Failure?
      || (g.serialPrescanRows > 0 && g.serialPrescanCols > 0 && p.cic < 0.0)
  {
  }

  /** Under the default keyword arguments the prescan draw cannot fail, so
      the detector fails only where the image section does. */
  lemma DefaultsDetectorFailure(g: Geometry, fluxmap: Frame, frametime: real, d: Draws)
    requires ValidGeometry(g) && IsRect(fluxmap)
    requires PreservesShape(d.cosmicHits, g.imageRows, g.imageCols)
    ensures Defaults.cic > 0.0 && Defaults.shotNoiseOn
    ensures DetectedFrame(g, fluxmap, frametime, Defaults, d).Failure? <==>
      ImageFrame(g, fluxmap, frametime, Defaults, d).Failure?
  {
    DetectedFrameFailure(g, fluxmap, frametime, Defaults, d);
  }

  /** `emccd_detect`. */
  method EmccdDetect(g: Geometry, fluxmap: Frame, frametime: real, p: Params, d: Draws)
    returns (r: Result<array2<real>>)
    requires ValidGeometry(g) && IsRect(fluxmap)
    requires PreservesShape(d.cosmicHits, g.imageRows, g.imageCols)
    ensures r.Failure? <==> DetectedFrame(g, fluxmap, frametime, p, d).Failure?
    ensures r.Failure? ==> r.error == ValueError
    ensures r.Success? ==> fresh(r.value) && Rows(r.value) == DetectedFrame(g, fluxmap, frametime, p, d).value
  {
    var imageFrame :- ImageSection(g, fluxmap, frametime, p, d);
    r := SerialRegister(g, imageFrame, p.emGain, p.cic, p.fullWellSerial, p.readNoise, p.bias, d);
  }
}
