/**
 * The raster drivers: the crop window around the ignition pixel, saving a
 * (cropped) frame with its updated metadata, the timestep loop, and the two
 * entry points (the service's run_geotiff_simulation and the script's main).
 * What the drivers do to the outside world is recorded as a list of effects:
 * creating the output directory and writing one raster per frame.
 */
module RasterRun {
  import opened Wrappers
  import opened Draws
  import opened Automaton

  const Timesteps: nat := 20
  const EnableCrop: bool := true
  const CropBuffer: int := 100
  const PIgnition: real := 0.40
  const PSpontaneous: real := 0.0

  // ---------------------------------------------------------------------
  // Grids
  // ---------------------------------------------------------------------

  function Height(g: Grid): nat { |g| }

  function Width(g: Grid): nat { if |g| == 0 then 0 else |g[0]| }

  /** A numpy array: every row has the width of the first. */
  predicate IsRect(g: Grid)
  {
    forall i :: 0 <= i < |g| ==> |g[i]| == Width(g)
  }

  /** A uint8 array. */
  predicate IsByteGrid(g: Grid)
  {
    forall i, j :: 0 <= i < |g| && 0 <= j < |g[i]| ==> 0 <= g[i][j] < 256
  }

  /** astype(np.uint8) on integer cells: reduction modulo 256. */
  function CastUint8(g: Grid): (r: Grid)
    ensures SameShape(r, g) && IsByteGrid(r)
    ensures forall i, j {:trigger r[i][j]} :: InGrid(g, i, j) ==> r[i][j] == g[i][j] % 256
  {
    if |g| == 0 then [] else CastUint8(g[..|g| - 1]) + [CastRow(g[|g| - 1])]
  }

  /** One row of the cast. */
  function CastRow(row: seq<int>): (r: seq<int>)
    ensures |r| == |row|
    ensures forall j :: 0 <= j < |row| ==> r[j] == row[j] % 256
  {
    if |row| == 0 then [] else CastRow(row[..|row| - 1]) + [row[|row| - 1] % 256]
  }

  /** The cast changes nothing on a grid that already holds bytes. */
  lemma CastUint8OfBytes(g: Grid)
    requires IsByteGrid(g)
    ensures CastUint8(g) == g
  {
    var r := CastUint8(g);
    forall i, j | InGrid(g, i, j)
      ensures r[i][j] == g[i][j]
    {
      assert r[i][j] == g[i][j] % 256;
      ByteModIsByte(g[i][j]);
    }
    CellwiseEqual(r, g);
  }

  lemma ByteModIsByte(x: int)
    requires 0 <= x < 256
    ensures x % 256 == x
  {
  }

  /** Two grids of the same shape that agree on every cell are equal. */
  lemma CellwiseEqual(r: Grid, g: Grid)
    requires SameShape(r, g)
    requires forall i, j :: InGrid(g, i, j) ==> r[i][j] == g[i][j]
    ensures r == g
  {
    forall i | 0 <= i < |g|
      ensures r[i] == g[i]
    {
      assert forall j :: 0 <= j < |g[i]| ==> InGrid(g, i, j);
    }
  }

  /** A step keeps a byte grid a byte grid. */
  lemma CaStepKeepsBytes(g: Grid, rn: Field, rs: Field, pIgnite: real, pSpontaneous: real)
    requires SameShape(rn, g) && SameShape(rs, g) && IsByteGrid(g)
    ensures IsByteGrid(CaStep(g, rn, rs, pIgnite, pSpontaneous))
  {
    var next := CaStep(g, rn, rs, pIgnite, pSpontaneous);
    forall i, j | 0 <= i < |next| && 0 <= j < |next[i]|
      ensures 0 <= next[i][j] < 256
    {
      CaStepTransitions(g, rn, rs, pIgnite, pSpontaneous, i, j);
    }
  }

  /** np.sum(grid == v) over a row and over the grid. */
  function CountRow(row: seq<int>, v: int): nat
  {
    if |row| == 0 then 0 else CountRow(row[..|row| - 1], v) + (if row[|row| - 1] == v then 1 else 0)
  }

  function CountCells(g: Grid, v: int): nat
  {
    if |g| == 0 then 0 else CountCells(g[..|g| - 1], v) + CountRow(g[|g| - 1], v)
  }

  /** np.sum(grid == BURNING) == 0: by CountCellsZero, no cell is burning. */
  predicate NoneBurning(g: Grid)
  {
    CountCells(g, Burning) == 0
  }

  lemma {:induction false} CountRowZero(row: seq<int>, v: int)
    ensures CountRow(row, v) == 0 <==> forall j :: 0 <= j < |row| ==> row[j] != v
  {
    if |row| > 0 {
      CountRowZero(row[..|row| - 1], v);
      assert forall j :: 0 <= j < |row| - 1 ==> row[..|row| - 1][j] == row[j];
    }
  }

  /** The sum of a mask is zero exactly when no cell has the value. */
  lemma {:induction false} CountCellsZero(g: Grid, v: int)
    ensures CountCells(g, v) == 0 <==> forall i, j :: 0 <= i < |g| && 0 <= j < |g[i]| ==> g[i][j] != v
  {
    if |g| > 0 {
      CountCellsZero(g[..|g| - 1], v);
      CountRowZero(g[|g| - 1], v);
      assert forall i :: 0 <= i < |g| - 1 ==> g[..|g| - 1][i] == g[i];
    }
  }

  /** Cell p comes strictly before cell q in row-major order. */
  predicate CellBefore(p: (int, int), q: (int, int))
  {
    p.0 < q.0 || (p.0 == q.0 && p.1 < q.1)
  }

  /** The cells holding v in row-major order (np.where): each such cell
      once, in strictly increasing row-major order, as many as the mask sums to. */
  function CellsWith(g: Grid, v: int): (cells: seq<(int, int)>)
    ensures forall k :: 0 <= k < |cells| ==> InGrid(g, cells[k].0, cells[k].1) && g[cells[k].0][cells[k].1] == v
    ensures forall i, j :: InGrid(g, i, j) && g[i][j] == v ==> (i, j) in cells
    ensures forall k1, k2 :: 0 <= k1 < k2 < |cells| ==> CellBefore(cells[k1], cells[k2])
    ensures |cells| == CountCells(g, v)
  {
    if |g| == 0 then []
    else
      var init := CellsWith(g[..|g| - 1], v);
      var r := |g| - 1;
      assert forall i, j :: InGrid(g[..r], i, j) <==> 0 <= i < r && InGrid(g, i, j);
      assert g[r][..|g[r]|] == g[r];
      init + RowCellsWith(g[r], r, v, |g[r]|)
  }

  /** The columns j < n of row r holding v, in increasing order, as many
      as the row's first n cells count. */
  function RowCellsWith(row: seq<int>, r: int, v: int, n: nat): (cells: seq<(int, int)>)
    requires n <= |row|
    ensures forall k :: 0 <= k < |cells| ==> cells[k].0 == r && 0 <= cells[k].1 < n && row[cells[k].1] == v
    ensures forall j :: 0 <= j < n && row[j] == v ==> (r, j) in cells
    ensures forall k1, k2 :: 0 <= k1 < k2 < |cells| ==> cells[k1].1 < cells[k2].1
    ensures |cells| == CountRow(row[..n], v)
  {
    if n == 0 then []
    else
      var init := RowCellsWith(row, r, v, n - 1);
      var last: seq<(int, int)> := if row[n - 1] == v then [(r, n - 1)] else [];
      assert row[..n][..n - 1] == row[..n - 1];
      assert CountRow(row[..n], v) == |init| + |last|;
      assert forall k :: 0 <= k < |init| ==> init[k].1 < n - 1;
      init + last
  }

  // ---------------------------------------------------------------------
  // The crop window and the slice
  // ---------------------------------------------------------------------

  /** A rasterio window: offsets and size in pixels. */
  datatype Window = Window(colOff: int, rowOff: int, width: int, height: int)

  predicate WindowWithin(win: Window, h: int, w: int)
  {
    0 <= win.rowOff && 0 <= win.height && win.rowOff + win.height <= h &&
    0 <= win.colOff && 0 <= win.width && win.colOff + win.width <= w
  }

  function IntMax(x: int, y: int): int { if x >= y then x else y }

  function IntMin(x: int, y: int): int { if x <= y then x else y }

  /** The window of CROP_BUFFER pixels on each side of the start pixel,
      clamped to the raster. */
  function CropWindow(h: int, w: int, sy: int, sx: int): (win: Window)
    requires 0 <= sy < h && 0 <= sx < w
    ensures WindowWithin(win, h, w)
    ensures win.rowOff <= sy < win.rowOff + win.height && win.colOff <= sx < win.colOff + win.width
    ensures 0 < win.height <= 2 * CropBuffer && 0 < win.width <= 2 * CropBuffer
  {
    var yMin := IntMax(0, sy - CropBuffer);
    var yMax := IntMin(h, sy + CropBuffer);
    var xMin := IntMax(0, sx - CropBuffer);
    var xMax := IntMin(w, sx + CropBuffer);
    Window(xMin, yMin, xMax - xMin, yMax - yMin)
  }

  /** data[row_off:row_off + height, col_off:col_off + width]. */
  function CropGrid(g: Grid, win: Window): (out: Grid)
    requires IsRect(g) && WindowWithin(win, Height(g), Width(g))
    ensures |out| == win.height && forall r :: 0 <= r < |out| ==> |out[r]| == win.width
    ensures forall r, c :: 0 <= r < win.height && 0 <= c < win.width ==>
              out[r][c] == g[win.rowOff + r][win.colOff + c]
  {
    CropRows(g, win, win.height)
  }

  /** The first n rows of the window. */
  function CropRows(g: Grid, win: Window, n: nat): (out: Grid)
    requires IsRect(g) && WindowWithin(win, Height(g), Width(g)) && n <= win.height
    ensures |out| == n && forall r :: 0 <= r < |out| ==> |out[r]| == win.width
    ensures forall r, c :: 0 <= r < n && 0 <= c < win.width ==>
              out[r][c] == g[win.rowOff + r][win.colOff + c]
  {
    if n == 0 then [] else CropRows(g, win, n - 1) + [g[win.rowOff + n - 1][win.colOff .. win.colOff + win.width]]
  }

  // ---------------------------------------------------------------------
  // Georeferencing and the raster metadata
  // ---------------------------------------------------------------------

  /** An affine pixel-to-world transform (x = a*col + b*row + c,
      y = d*col + e*row + f). */
  datatype Affine = Affine(a: real, b: real, c: real, d: real, e: real, f: real)

  function ApplyAffine(t: Affine, col: real, row: real): (real, real)
  {
    (t.a * col + t.b * row + t.c, t.d * col + t.e * row + t.f)
  }

  /** window_transform: the transform moved to the window's corner. */
  function WindowTransform(win: Window, t: Affine): Affine
  {
    var corner := ApplyAffine(t, win.colOff as real, win.rowOff as real);
    t.(c := corner.0, f := corner.1)
  }

  /** A cropped raster keeps its georeferencing: pixel (row, col) of the
      window lands where pixel (row_off + row, col_off + col) of the full
      raster does. */
  lemma WindowTransformKeepsPlaces(win: Window, t: Affine, col: real, row: real)
    ensures ApplyAffine(WindowTransform(win, t), col, row) ==
            ApplyAffine(t, win.colOff as real + col, win.rowOff as real + row)
  {
    var co, ro := win.colOff as real, win.rowOff as real;
    var w := WindowTransform(win, t);
    assert w.c == t.a * co + t.b * ro + t.c && w.f == t.d * co + t.e * ro + t.f;
    assert t.a * (co + col) == t.a * co + t.a * col;
    assert t.b * (ro + row) == t.b * ro + t.b * row;
    assert t.d * (co + col) == t.d * co + t.d * col;
    assert t.e * (ro + row) == t.e * ro + t.e * row;
    assert ApplyAffine(w, col, row).0 == ApplyAffine(t, co + col, ro + row).0;
    assert ApplyAffine(w, col, row).1 == ApplyAffine(t, co + col, ro + row).1;
  }

  /** The entries of the metadata dictionary the drivers use. */
  datatype Profile = Profile(transform: Affine, height: int, width: int, dtype: string, count: int, compress: string)

  /** The metadata dictionary, updated in place when a frame is saved. */
  class Meta {
    var transform: Affine
    var height: int
    var width: int
    var dtype: string
    var count: int
    var compress: string

    function Value(): Profile
      reads this
    {
      Profile(transform, height, width, dtype, count, compress)
    }

    /** meta.copy() */
    constructor (p: Profile)
      ensures Value() == p
    {
      transform, height, width := p.transform, p.height, p.width;
      dtype, count, compress := p.dtype, p.count, p.compress;
    }
  }

  /** The data a save writes: the window's slice, or the whole grid, as bytes. */
  function SavedData(data: Grid, crop: Option<Window>): (out: Grid)
    requires IsRect(data) && (crop.Some? ==> WindowWithin(crop.value, Height(data), Width(data)))
    ensures IsByteGrid(out)
    ensures crop.Some? ==> |out| == crop.value.height && forall r :: 0 <= r < |out| ==> |out[r]| == crop.value.width
    ensures crop.None? ==> SameShape(out, data)
  {
    CastUint8(if crop.Some? then CropGrid(data, crop.value) else data)
  }

  /** The metadata a save writes with. */
  function SavedProfile(p: Profile, crop: Option<Window>): (q: Profile)
    ensures q.dtype == "uint8" && q.count == 1 && q.compress == "lzw"
    ensures crop.Some? ==> q.transform == WindowTransform(crop.value, p.transform) &&
                           q.height == crop.value.height && q.width == crop.value.width
    ensures crop.None? ==> q.transform == p.transform && q.height == p.height && q.width == p.width
  {
    var q := if crop.Some? then p.(transform := WindowTransform(crop.value, p.transform),
                                   height := crop.value.height, width := crop.value.width)
             else p;
    q.(dtype := "uint8", count := 1, compress := "lzw")
  }

  /** A saved raster's declared size is the size of the data written, when
      the original metadata described the full grid. */
  lemma SavedSizeMatches(data: Grid, p: Profile, crop: Option<Window>)
    requires IsRect(data) && (crop.Some? ==> WindowWithin(crop.value, Height(data), Width(data)))
    requires crop.Some? ==> crop.value.height > 0
    requires p.height == Height(data) && p.width == Width(data)
    ensures SavedProfile(p, crop).height == Height(SavedData(data, crop))
    ensures SavedProfile(p, crop).width == Width(SavedData(data, crop))
  {
  }

  /** _save_raster / save_raster: slices to the window, moves the transform
      and sets the size when cropping, then casts to bytes and sets the type,
      band count and compression. Returns the data written. */
  method SaveRaster(data: Grid, meta: Meta, crop: Option<Window>) returns (written: Grid)
    requires IsRect(data) && (crop.Some? ==> WindowWithin(crop.value, Height(data), Width(data)))
    modifies meta
    ensures written == SavedData(data, crop)
    ensures meta.Value() == SavedProfile(old(meta.Value()), crop)
  {
    var toSave := data;
    if crop.Some? {
      var win := crop.value;
      var newTransform := WindowTransform(win, meta.transform);
      toSave := CropGrid(data, win);
      meta.transform, meta.height, meta.width := newTransform, win.height, win.width;
    }
    written := CastUint8(toSave);
    meta.dtype, meta.count, meta.compress := "uint8", 1, "lzw";
  }

  // ---------------------------------------------------------------------
  // The timestep loop
  // ---------------------------------------------------------------------

  /** The random fields of the loop: np.random.rand draws for the
      neighbour test and for the spontaneous test, by timestep and cell. */
  datatype RasterDraws = RasterDraws(neighbour: (nat, int, int) -> real, spontaneous: (nat, int, int) -> real)

  /** The field a draw oracle gives for timestep t, shaped like g. */
  function DrawField(f: (nat, int, int) -> real, t: nat, g: Grid): (r: Field)
    ensures SameShape(r, g)
    ensures forall i, j :: InGrid(g, i, j) ==> r[i][j] == f(t, i, j)
  {
    seq(|g|, i requires 0 <= i < |g| => seq(|g[i]|, j requires 0 <= j < |g[i]| => f(t, i, j)))
  }

  /** A step of the loop: the next state from a state and the timestep. */
  type StepFn = (Grid, nat) -> Grid

  /** A step that keeps the shape of every grid. */
  ghost predicate KeepsShape(step: StepFn)
  {
    forall s: Grid, t: nat :: SameShape(step(s, t), s)
  }

  /** The loop's step: the automaton step with the draws of the timestep. */
  function RasterStep(d: RasterDraws): (step: StepFn)
    ensures KeepsShape(step)
  {
    (s: Grid, t: nat) => CaStep(s, DrawField(d.neighbour, t, s), DrawField(d.spontaneous, t, s), PIgnition, PSpontaneous)
  }

  /** The state after t steps from g. */
  function StateAt(g: Grid, step: StepFn, t: nat): (s: Grid)
    requires KeepsShape(step)
    ensures SameShape(s, g)
  {
    if t == 0 then g else step(StateAt(g, step, t - 1), t)
  }

  /** The raster file written for frame t. */
  datatype Effect = MadeOutputDir | Wrote(timestep: nat, data: Grid, profile: Profile)

  predicate CropFits(g: Grid, crop: Option<Window>)
  {
    crop.Some? ==> WindowWithin(crop.value, Height(g), Width(g))
  }

  /** Shapes carry over: a grid shaped like a rectangular one is rectangular
      and has its size. */
  lemma SameShapeRect(s: Grid, g: Grid)
    requires IsRect(g) && SameShape(s, g)
    ensures IsRect(s) && Height(s) == Height(g) && Width(s) == Width(g)
  {
  }

  /** What the run sets out from: a raster, the crop that fits it, and a
      step that keeps its shape. */
  ghost predicate RunStart(g: Grid, crop: Option<Window>, step: StepFn)
  {
    IsRect(g) && CropFits(g, crop) && KeepsShape(step)
  }

  function Frame(g: Grid, p: Profile, crop: Option<Window>, step: StepFn, t: nat): Effect
    requires RunStart(g, crop, step)
  {
    var s := StateAt(g, step, t);
    SameShapeRect(s, g);
    Wrote(t, SavedData(s, crop), SavedProfile(p, crop))
  }

  /** frames are the first n frames of the run from g: frame t is the save
      of state t. */
  ghost predicate AreFrames(frames: seq<Effect>, g: Grid, p: Profile, crop: Option<Window>, step: StepFn, n: nat)
    requires RunStart(g, crop, step)
  {
    |frames| == n && forall t :: 0 <= t < n ==> frames[t] == Frame(g, p, crop, step, t)
  }

  /** Saving frame n extends the first n frames to the first n + 1. */
  lemma AreFramesSnoc(frames: seq<Effect>, e: Effect, g: Grid, p: Profile, crop: Option<Window>, step: StepFn, n: nat)
    requires RunStart(g, crop, step) && AreFrames(frames, g, p, crop, step, n)
    requires e == Frame(g, p, crop, step, n)
    ensures AreFrames(frames + [e], g, p, crop, step, n + 1)
  {
    var all := frames + [e];
    forall t | 0 <= t < n + 1
      ensures all[t] == Frame(g, p, crop, step, t)
    {
      if t < n {
        assert all[t] == frames[t];
      }
    }
  }

  /** Something burns in every state from 1 up to but excluding n. */
  ghost predicate BurnsBefore(g: Grid, step: StepFn, n: nat)
    requires KeepsShape(step)
  {
    forall t :: 1 <= t < n ==> !NoneBurning(StateAt(g, step, t))
  }

  /** The frames of a run from g that ends with step last: the frames of
      states 0..last, at most TIMESTEPS steps, and a stop at the first step
      whose result has nothing burning. */
  ghost predicate RunFrames(frames: seq<Effect>, g: Grid, p: Profile, crop: Option<Window>, step: StepFn, last: nat)
    requires RunStart(g, crop, step)
  {
    last <= Timesteps &&
    AreFrames(frames, g, p, crop, step, last + 1) &&
    BurnsBefore(g, step, last) &&
    (last < Timesteps ==> last >= 1 && NoneBurning(StateAt(g, step, last)))
  }

  /** BurnsBefore stated step by step from the last one, the form the loop
      extends. */
  ghost predicate BurningSoFar(g: Grid, step: StepFn, n: nat)
    requires KeepsShape(step)
  {
    n <= 1 || (BurningSoFar(g, step, n - 1) && !NoneBurning(StateAt(g, step, n - 1)))
  }

  lemma {:induction false} BurningSoFarBefore(g: Grid, step: StepFn, n: nat)
    requires KeepsShape(step) && BurningSoFar(g, step, n)
    ensures BurnsBefore(g, step, n)
  {
    if n > 1 {
      BurningSoFarBefore(g, step, n - 1);
      forall t | 1 <= t < n ensures !NoneBurning(StateAt(g, step, t)) {
        if t == n - 1 {
          assert StateAt(g, step, t) == StateAt(g, step, n - 1);
        }
      }
    }
  }

  /** A run that stopped after frame n, because nothing burns or because
      the last timestep was reached. */
  lemma RunEnds(frames: seq<Effect>, g: Grid, p: Profile, crop: Option<Window>, step: StepFn, n: nat)
    requires RunStart(g, crop, step) && 1 <= n <= Timesteps
    requires AreFrames(frames, g, p, crop, step, n + 1) && BurningSoFar(g, step, n)
    requires NoneBurning(StateAt(g, step, n)) || n == Timesteps
    ensures RunFrames(frames, g, p, crop, step, n)
  {
    BurningSoFarBefore(g, step, n);
  }

  /** Saves state t of the run from g as frame t. */
  method SaveFrame(g: Grid, p: Profile, crop: Option<Window>, step: StepFn, t: nat, s: Grid) returns (e: Effect)
    requires RunStart(g, crop, step) && s == StateAt(g, step, t)
    ensures e == Frame(g, p, crop, step, t)
  {
    SameShapeRect(s, g);
    var meta := new Meta(p);
    var written := SaveRaster(s, meta, crop);
    e := Wrote(t, written, meta.Value());
  }

  /** The loop state before timestep t: the current state is state t - 1,
      frames 0..t - 1 are saved, and either something has burned in every
      state so far or the run has reached its end. */
  ghost predicate Progress(g: Grid, p: Profile, crop: Option<Window>, step: StepFn, t: nat,
                           current: Grid, frames: seq<Effect>)
    requires RunStart(g, crop, step)
  {
    1 <= t <= Timesteps + 1 &&
    current == StateAt(g, step, t - 1) && AreFrames(frames, g, p, crop, step, t) &&
    (t <= Timesteps ==> BurningSoFar(g, step, t)) &&
    (t > Timesteps ==> RunFrames(frames, g, p, crop, step, t - 1))
  }

  /** One pass of the loop body: step to state t, save it as frame t, and
      report whether nothing burns any more. */
  method StepAndSave(g: Grid, p: Profile, crop: Option<Window>, step: StepFn, t: nat, current: Grid,
                     frames: seq<Effect>) returns (next: Grid, frames': seq<Effect>, stop: bool)
    requires RunStart(g, crop, step) && t <= Timesteps && Progress(g, p, crop, step, t, current, frames)
    ensures stop ==> RunFrames(frames', g, p, crop, step, t)
    ensures !stop ==> Progress(g, p, crop, step, t + 1, next, frames')
  {
    next := step(current, t);
    var e := SaveFrame(g, p, crop, step, t, next);
    AreFramesSnoc(frames, e, g, p, crop, step, t);
    frames' := frames + [e];
    stop := CountCells(next, Burning) == 0;
    if stop || t == Timesteps {
      RunEnds(frames', g, p, crop, step, t);
    }
  }

  /** The save of the ignited raster before the first step. */
  method SaveFirstFrame(g: Grid, p: Profile, crop: Option<Window>, step: StepFn) returns (frames: seq<Effect>)
    requires RunStart(g, crop, step)
    ensures Progress(g, p, crop, step, 1, g, frames)
  {
    var first := SaveFrame(g, p, crop, step, 0, g);
    frames := [first];
  }

  /** Save t = 0, then for t in 1..TIMESTEPS step the full state, save the
      result and stop once nothing burns. */
  method RunSteps(g: Grid, p: Profile, crop: Option<Window>, step: StepFn)
    returns (frames: seq<Effect>, ghost last: nat)
    requires RunStart(g, crop, step)
    ensures RunFrames(frames, g, p, crop, step, last)
  {
    frames := SaveFirstFrame(g, p, crop, step);
    var current := g;
    var t := 1;
    while t <= Timesteps
      invariant Progress(g, p, crop, step, t, current, frames)
    {
      var next, stop;
      next, frames, stop := StepAndSave(g, p, crop, step, t, current, frames);
      if stop {
        last := t;
        return;
      }
      current := next;
      t := t + 1;
    }
    last := t - 1;
  }

  // ---------------------------------------------------------------------
  // The entry points
  // ---------------------------------------------------------------------

  /** Why a run stops without simulating. */
  datatype RunError =
    | DirectoryNotFound     // FileNotFoundError: no GeoTIFF directory
    | NoRasterFile          // FileNotFoundError: no file for the county
    | ReadFailed            // IOError (service) or the printed read error (script)
    | PixelOutOfBounds      // IndexError, or the script's bounds message
    | NotForestPixel        // ValueError, or the script's not-forest message
    | NoForestCells
    | UnknownIgnitionMode

  datatype RunOutcome = Completed | Failed(error: RunError)

  /** Opening the input raster: band 1 and its metadata, or why it failed. */
  datatype RasterLoad = MissingDirectory | MissingFile | Unreadable | Read(band: Grid, profile: Profile)

  /** The grid with the start pixel set burning. */
  function Ignite(g: Grid, sy: int, sx: int): (r: Grid)
    requires InGrid(g, sy, sx)
    ensures SameShape(r, g) && r[sy][sx] == Burning
    ensures forall i, j :: InGrid(g, i, j) && (i, j) != (sy, sx) ==> r[i][j] == g[i][j]
  {
    g[sy := g[sy][sx := Burning]]
  }

  /** Crop window, ignition and the loop, shared by both entry points. */
  method IgniteAndRun(g: Grid, p: Profile, sy: int, sx: int, d: RasterDraws)
    returns (frames: seq<Effect>, ghost last: nat)
    requires IsRect(g) && 0 <= sy < Height(g) && 0 <= sx < Width(g)
    ensures var start := Ignite(g, sy, sx);
            var crop := if EnableCrop then Some(CropWindow(Height(g), Width(g), sy, sx)) else None;
            RunStart(start, crop, RasterStep(d)) && RunFrames(frames, start, p, crop, RasterStep(d), last)
  {
    var crop: Option<Window> := None;
    if EnableCrop {
      crop := Some(CropWindow(Height(g), Width(g), sy, sx));
    }
    var start := g[sy := g[sy][sx := Burning]];
    SameShapeRect(start, g);
    frames, last := RunSteps(start, p, crop, RasterStep(d));
  }

  /** run_geotiff_simulation: find and read the raster, validate the
      ignition pixel (given by the raster's coordinate lookup), then create
      the output directory and run. Both pixel errors come before anything
      is created or written. */
  method RunGeotiffSimulation(load: RasterLoad, pixel: (int, int), d: RasterDraws)
    returns (outcome: RunOutcome, effects: seq<Effect>, ghost last: nat)
    requires load.Read? ==> IsRect(load.band)
    ensures load.MissingDirectory? ==> outcome == Failed(DirectoryNotFound) && effects == []
    ensures load.MissingFile? ==> outcome == Failed(NoRasterFile) && effects == []
    ensures load.Unreadable? ==> outcome == Failed(ReadFailed) && effects == []
    ensures load.Read? && !InGrid(CastUint8(load.band), pixel.0, pixel.1) ==>
              outcome == Failed(PixelOutOfBounds) && effects == []
    ensures load.Read? && InGrid(CastUint8(load.band), pixel.0, pixel.1) &&
            CastUint8(load.band)[pixel.0][pixel.1] != Forest ==>
              outcome == Failed(NotForestPixel) && effects == []
    ensures outcome.Completed? <==>
              load.Read? && InGrid(CastUint8(load.band), pixel.0, pixel.1) &&
              CastUint8(load.band)[pixel.0][pixel.1] == Forest
    ensures outcome.Completed? ==>
              var g := CastUint8(load.band);
              |effects| >= 2 && effects[0] == MadeOutputDir &&
              IsRect(g) && InGrid(g, pixel.0, pixel.1) &&
              var start := Ignite(g, pixel.0, pixel.1);
              var crop := Some(CropWindow(Height(g), Width(g), pixel.0, pixel.1));
              RunStart(start, crop, RasterStep(d)) && RunFrames(effects[1..], start, load.profile, crop, RasterStep(d), last)
  {
    effects := [];
    if load.MissingDirectory? {
      return Failed(DirectoryNotFound), effects, 0;
    }
    if load.MissingFile? {
      return Failed(NoRasterFile), effects, 0;
    }
    if load.Unreadable? {
      return Failed(ReadFailed), effects, 0;
    }
    var state := CastUint8(load.band);
    SameShapeRect(state, load.band);
    var sy, sx := pixel.0, pixel.1;
    if sy < 0 || sy >= Height(state) || sx < 0 || sx >= Width(state) {
      return Failed(PixelOutOfBounds), effects, 0;
    }
    if state[sy][sx] != Forest {
      return Failed(NotForestPixel), effects, 0;
    }
    effects := [MadeOutputDir];
    var frames;
    frames, last := IgniteAndRun(state, load.profile, sy, sx, d);
    effects := effects + frames;
    assert effects[1..] == frames;
    outcome := Completed;
  }

  /** IGNITION_MODE with USER_SET_COORDS. */
  datatype IgnitionMode = RandomMode | UserSet(y: int, x: int) | UnknownMode

  /** The start pixel of the script: a random forest cell, or the user's
      pixel when it lies on the raster and is forest; None when the mode
      gives no start. */
  function StartPixel(g: Grid, mode: IgnitionMode, pick: nat): (s: Option<(int, int)>)
    requires IsRect(g)
    ensures s.Some? ==> 0 <= s.value.0 < Height(g) && 0 <= s.value.1 < Width(g) &&
                        g[s.value.0][s.value.1] == Forest
    ensures mode.RandomMode? ==> (s.None? <==> forall i, j :: InGrid(g, i, j) ==> g[i][j] != Forest)
    ensures mode.UserSet? ==> (s.Some? <==> InGrid(g, mode.y, mode.x) && g[mode.y][mode.x] == Forest)
    ensures mode.UserSet? && s.Some? ==> s.value == (mode.y, mode.x)
    ensures mode.UnknownMode? ==> s.None?
  {
    match mode
    case RandomMode =>
      var cells := CellsWith(g, Forest);
      if |cells| == 0 then None
      else
        var k := pick % |cells|;
        Some(cells[k])
    case UserSet(y, x) =>
      if 0 <= y < Height(g) && 0 <= x < Width(g) && g[y][x] == Forest then Some((y, x)) else None
    case UnknownMode => None
  }

  /** The script's main: read the raster, create the output directory, pick
      the start pixel by mode, then run. Every failure after the read leaves
      the created directory and writes no raster. */
  method GeotiffScript(load: RasterLoad, mode: IgnitionMode, pick: nat, d: RasterDraws)
    returns (outcome: RunOutcome, effects: seq<Effect>, ghost last: nat)
    requires load.Read? ==> IsRect(load.band)
    ensures !load.Read? ==> outcome == Failed(ReadFailed) && effects == []
    ensures load.Read? ==> |effects| >= 1 && effects[0] == MadeOutputDir
    ensures load.Read? && mode.UserSet? && !InGrid(CastUint8(load.band), mode.y, mode.x) ==>
              outcome == Failed(PixelOutOfBounds) && effects == [MadeOutputDir]
    ensures load.Read? && mode.UserSet? && InGrid(CastUint8(load.band), mode.y, mode.x) &&
            CastUint8(load.band)[mode.y][mode.x] != Forest ==>
              outcome == Failed(NotForestPixel) && effects == [MadeOutputDir]
    ensures load.Read? && mode.RandomMode? && CellsWith(CastUint8(load.band), Forest) == [] ==>
              outcome == Failed(NoForestCells) && effects == [MadeOutputDir]
    ensures load.Read? && mode.UnknownMode? ==> outcome == Failed(UnknownIgnitionMode) && effects == [MadeOutputDir]
    ensures outcome.Completed? ==>
              var g := CastUint8(load.band);
              IsRect(g) && StartPixel(g, mode, pick).Some? && |effects| >= 2 &&
              var s := StartPixel(g, mode, pick).value;
              var start := Ignite(g, s.0, s.1);
              var crop := Some(CropWindow(Height(g), Width(g), s.0, s.1));
              RunStart(start, crop, RasterStep(d)) && RunFrames(effects[1..], start, load.profile, crop, RasterStep(d), last)
  {
    effects := [];
    if !load.Read? {
      return Failed(ReadFailed), effects, 0;
    }
    var state := CastUint8(load.band);
    SameShapeRect(state, load.band);
    effects := [MadeOutputDir];
    var sy, sx := -1, -1;
    match mode {
      case RandomMode =>
        var cells := CellsWith(state, Forest);
        if |cells| == 0 {
          return Failed(NoForestCells), effects, 0;
        }
        var k := pick % |cells|;
        sy, sx := cells[k].0, cells[k].1;
      case UserSet(y, x) =>
        if 0 <= y < Height(state) && 0 <= x < Width(state) {
          if state[y][x] == Forest {
            sy, sx := y, x;
          } else {
            return Failed(NotForestPixel), effects, 0;
          }
        } else {
          return Failed(PixelOutOfBounds), effects, 0;
        }
      case UnknownMode =>
        return Failed(UnknownIgnitionMode), effects, 0;
    }
    assert StartPixel(state, mode, pick) == Some((sy, sx));
    var frames;
    frames, last := IgniteAndRun(state, load.profile, sy, sx, d);
    effects := effects + frames;
    assert effects[1..] == frames;
    outcome := Completed;
  }
}
