/** The array operations the detector model is built from: frames as
    row-major sequences of rows, numpy's `zeros`, elementwise sums, the
    masked clip `a[a > fw] = fw`, `np.append(a, b, axis=1)`, `ravel` and
    `reshape`. */
module Frames {

  /** A two-dimensional numpy array of floats, row by row. */
  type Frame = seq<seq<real>>

  predicate IsShape(f: Frame, rows: nat, cols: nat) {
    |f| == rows && forall r :: 0 <= r < rows ==> |f[r]| == cols
  }

  /** The number of columns of a frame (of its first row). */
  function Width(f: Frame): nat {
    if f == [] then 0 else |f[0]|
  }

  /** Every row is as long as the first: what any numpy array satisfies. */
  predicate IsRect(f: Frame) {
    IsShape(f, |f|, Width(f))
  }

  /** `np.zeros([rows, cols])`. */
  function Zeros(rows: nat, cols: nat): (z: Frame)
    ensures IsShape(z, rows, cols)
    ensures forall r, c :: 0 <= r < rows && 0 <= c < cols ==> z[r][c] == 0.0
  {
    seq(rows, _ => seq(cols, _ => 0.0))
  }

  /** Two frames of the same shape that agree at every pixel are equal. */
  lemma FrameExt(f: Frame, g: Frame, rows: nat, cols: nat)
    requires IsShape(f, rows, cols) && IsShape(g, rows, cols)
    requires forall r, c :: 0 <= r < rows && 0 <= c < cols ==> f[r][c] == g[r][c]
    ensures f == g
  {
    forall r | 0 <= r < rows
      ensures f[r] == g[r]
    {
      assert forall c :: 0 <= c < cols ==> f[r][c] == g[r][c];
    }
  }

  // ------------------------------------------------------------ elementwise

  /** `x + y` on two flat arrays of the same length. */
  function Add(x: seq<real>, y: seq<real>): (z: seq<real>)
    requires |x| == |y|
    ensures |z| == |x| && forall i :: 0 <= i < |x| ==> z[i] == x[i] + y[i]
  {
    seq(|x|, i requires 0 <= i < |x| => x[i] + y[i])
  }

  /** `x + c` for a scalar `c`, broadcast to every element. */
  function AddScalar(x: seq<real>, c: real): (z: seq<real>)
    ensures |z| == |x| && forall i :: 0 <= i < |x| ==> z[i] == x[i] + c
  {
    seq(|x|, i requires 0 <= i < |x| => x[i] + c)
  }

  /** One element of the masked assignment `a[a > fullWell] = fullWell`:
      a value above the full well is replaced by it, any other is kept. */
  function Clip(x: real, fullWell: real): (y: real)
    ensures y <= fullWell
    ensures x <= fullWell ==> y == x
    ensures x > fullWell ==> y == fullWell
  {
    if x > fullWell then fullWell else x
  }

  /** The masked clip on a flat array. */
  function ClipAll(s: seq<real>, fullWell: real): (t: seq<real>)
    ensures |t| == |s|
    ensures forall i :: 0 <= i < |s| ==> t[i] <= fullWell
    ensures forall i :: 0 <= i < |s| && s[i] <= fullWell ==> t[i] == s[i]
    ensures forall i :: 0 <= i < |s| && s[i] > fullWell ==> t[i] == fullWell
  {
    seq(|s|, i requires 0 <= i < |s| => Clip(s[i], fullWell))
  }

  /** The masked clip on a frame. */
  function ClipFrame(f: Frame, fullWell: real): (g: Frame)
    ensures |g| == |f| && forall r :: 0 <= r < |f| ==> |g[r]| == |f[r]|
    ensures forall r, c :: 0 <= r < |f| && 0 <= c < |f[r]| ==> g[r][c] <= fullWell
    ensures forall r, c :: 0 <= r < |f| && 0 <= c < |f[r]| && f[r][c] <= fullWell ==>
      g[r][c] == f[r][c]
    ensures forall r, c :: 0 <= r < |f| && 0 <= c < |f[r]| && f[r][c] > fullWell ==>
      g[r][c] == fullWell
  {
    seq(|f|, r requires 0 <= r < |f| => ClipAll(f[r], fullWell))
  }

  /** Clipping is upper-only: no value is raised, and a clipped frame is
      left alone by a second clip. */
  lemma ClipFrameIdempotent(f: Frame, fullWell: real)
    ensures ClipFrame(ClipFrame(f, fullWell), fullWell) == ClipFrame(f, fullWell)
    ensures forall r, c :: 0 <= r < |f| && 0 <= c < |f[r]| ==>
      ClipFrame(f, fullWell)[r][c] <= f[r][c]
  {
    var g := ClipFrame(f, fullWell);
    forall r | 0 <= r < |f|
      ensures ClipFrame(g, fullWell)[r] == g[r]
    {
      assert |ClipFrame(g, fullWell)[r]| == |g[r]|;
    }
  }

  // ------------------------------------------------------------ arrays

  /** The contents of a two-dimensional array, row by row. */
  function Rows(a: array2<real>): (f: Frame)
    reads a
    ensures IsShape(f, a.Length0, a.Length1)
    ensures forall i, j :: 0 <= i < a.Length0 && 0 <= j < a.Length1 ==> f[i][j] == a[i, j]
  {
    seq(a.Length0, i requires 0 <= i < a.Length0 reads a =>
      seq(a.Length1, j requires 0 <= j < a.Length1 reads a => a[i, j]))
  }

  /** `a[a > fullWell] = fullWell` on a two-dimensional array, in place. */
  method ClipFrameInPlace(a: array2<real>, fullWell: real)
    modifies a
    ensures Rows(a) == ClipFrame(old(Rows(a)), fullWell)
  {
    ghost var before := Rows(a);
    for i := 0 to a.Length0
      invariant forall i', j :: 0 <= i' < i && 0 <= j < a.Length1 ==>
        a[i', j] == Clip(before[i'][j], fullWell)
      invariant forall i', j :: i <= i' < a.Length0 && 0 <= j < a.Length1 ==>
        a[i', j] == before[i'][j]
    {
      for j := 0 to a.Length1
        invariant forall i', j' :: 0 <= i' < i && 0 <= j' < a.Length1 ==>
          a[i', j'] == Clip(before[i'][j'], fullWell)
        invariant forall j' :: 0 <= j' < j ==> a[i, j'] == Clip(before[i][j'], fullWell)
        invariant forall j' :: j <= j' < a.Length1 ==> a[i, j'] == before[i][j']
        invariant forall i', j' :: i < i' < a.Length0 && 0 <= j' < a.Length1 ==>
          a[i', j'] == before[i'][j']
      {
        if a[i, j] > fullWell {
          a[i, j] := fullWell;
        }
      }
    }
    FrameExt(Rows(a), ClipFrame(before, fullWell), a.Length0, a.Length1);
  }

  /** `a[a > fullWell] = fullWell` on a flat array, in place. */
  method ClipInPlace(a: array<real>, fullWell: real)
    modifies a
    ensures a[..] == ClipAll(old(a[..]), fullWell)
  {
    ghost var before := a[..];
    for i := 0 to a.Length
      invariant forall k :: 0 <= k < i ==> a[k] == Clip(before[k], fullWell)
      invariant forall k :: i <= k < a.Length ==> a[k] == before[k]
    {
      if a[i] > fullWell {
        a[i] := fullWell;
      }
    }
  }

  /** `a += b` on a flat array, in place. */
  method AddInPlace(a: array<real>, b: seq<real>)
    requires |b| == a.Length
    modifies a
    ensures a[..] == Add(old(a[..]), b)
  {
    ghost var before := a[..];
    for i := 0 to a.Length
      invariant forall k :: 0 <= k < i ==> a[k] == before[k] + b[k]
      invariant forall k :: i <= k < a.Length ==> a[k] == before[k]
    {
      a[i] := a[i] + b[i];
    }
  }

  // ------------------------------------------------------------ shapes

  /** `np.append(a, b, axis=1)`: each row of `a` followed by the same row of `b`. */
  function AppendCols(a: Frame, b: Frame): (f: Frame)
    requires |a| == |b|
    ensures |f| == |a| && forall r :: 0 <= r < |a| ==> f[r] == a[r] + b[r]
  {
    seq(|a|, r requires 0 <= r < |a| => a[r] + b[r])
  }

  /** Appending a `rows` by `w1` frame and a `rows` by `w2` frame gives a
      `rows` by `w1 + w2` frame whose first `w1` columns are the first frame's. */
  lemma AppendColsShape(a: Frame, b: Frame, rows: nat, w1: nat, w2: nat)
    requires IsShape(a, rows, w1) && IsShape(b, rows, w2)
    ensures IsShape(AppendCols(a, b), rows, w1 + w2)
    ensures forall r, c :: 0 <= r < rows && 0 <= c < w1 + w2 ==>
      AppendCols(a, b)[r][c] == if c < w1 then a[r][c] else b[r][c - w1]
  {
  }

  /** `ravel()`: the rows one after the other. */
  function Flatten(f: Frame): seq<real> {
    if f == [] then [] else f[0] + Flatten(f[1..])
  }

  /** `ravel()` of a `rows` by `cols` frame has `rows * cols` elements. */
  lemma {:induction false} FlattenLength(f: Frame, rows: nat, cols: nat)
    requires IsShape(f, rows, cols)
    ensures |Flatten(f)| == rows * cols
  {
    if rows > 0 {
      FlattenLength(f[1..], rows - 1, cols);
    }
  }

  /** Row-major order: pixel `(r, c)` lands at flat index `r * cols + c`. */
  lemma {:induction false} FlattenAt(f: Frame, rows: nat, cols: nat, r: nat, c: nat)
    requires IsShape(f, rows, cols) && r < rows && c < cols
    ensures r * cols + c < |Flatten(f)| && Flatten(f)[r * cols + c] == f[r][c]
  {
    FlattenLength(f[1..], rows - 1, cols);
    if r > 0 {
      FlattenAt(f[1..], rows - 1, cols, r - 1, c);
      assert r * cols + c == cols + ((r - 1) * cols + c);
    }
  }

  /** The row-major flat index of pixel `(r, c)` in a frame of `cols` columns. */
  function Index(r: nat, c: nat, cols: nat): nat {
    r * cols + c
  }

  /** Multiplying by the same natural keeps the order. */
  lemma MulMono(a: nat, b: nat, c: nat)
    requires a <= b
    ensures a * c <= b * c
  {
  }

  /** Row `r` of a `rows` by `cols` grid occupies flat indices
      `r * cols` up to `r * cols + cols`. */
  lemma RowBounds(r: nat, rows: nat, cols: nat)
    requires r < rows
    ensures r * cols + cols <= rows * cols
  {
    MulMono(r + 1, rows, cols);
  }

  /** `reshape(rows, cols)` of a flat array of `rows * cols` elements. */
  function Reshape(s: seq<real>, rows: nat, cols: nat): (f: Frame)
    requires |s| == rows * cols
    ensures IsShape(f, rows, cols)
  {
    seq(rows, r requires 0 <= r < rows => RowOf(s, rows, cols, r))
  }

  /** Row `r` of `Reshape(s, rows, cols)`. */
  function RowOf(s: seq<real>, rows: nat, cols: nat, r: nat): (row: seq<real>)
    requires |s| == rows * cols && r < rows
    ensures |row| == cols
  {
    RowBounds(r, rows, cols);
    s[r * cols..r * cols + cols]
  }

  /** Pixel `(r, c)` of a reshaped array is flat element `r * cols + c`. */
  lemma ReshapeAt(s: seq<real>, rows: nat, cols: nat, r: nat, c: nat)
    requires |s| == rows * cols && r < rows && c < cols
    ensures r * cols + c < |s| && Reshape(s, rows, cols)[r][c] == s[r * cols + c]
  {
    RowBounds(r, rows, cols);
  }

  /** `a.reshape(rows, cols)` of a flat array, into a new array. */
  method ReshapeArray(s: array<real>, rows: nat, cols: nat) returns (a: array2<real>)
    requires s.Length == rows * cols
    ensures fresh(a) && a.Length0 == rows && a.Length1 == cols
    ensures Rows(a) == Reshape(s[..], rows, cols)
  {
    a := new real[rows, cols]((i, j) reads s requires 0 <= i < rows && 0 <= j < cols =>
      RowBounds(i, rows, cols);
      s[i * cols + j]);
    forall i, j | 0 <= i < rows && 0 <= j < cols
      ensures Rows(a)[i][j] == Reshape(s[..], rows, cols)[i][j]
    {
      ReshapeAt(s[..], rows, cols, i, j);
    }
    FrameExt(Rows(a), Reshape(s[..], rows, cols), rows, cols);
  }

  /** The flat index `i` and the pixel `(i / cols, i % cols)` name each other. */
  lemma FlatIndex(i: nat, rows: nat, cols: nat)
    requires i < rows * cols
    ensures cols > 0 && i / cols < rows && i % cols < cols
    ensures (i / cols) * cols + i % cols == i
  {
    if i / cols >= rows {
      MulMono(rows, i / cols, cols);
    }
  }

  /** Flattening a grid and reshaping it back gives the grid again. */
  lemma ReshapeFlatten(f: Frame, rows: nat, cols: nat)
    requires IsShape(f, rows, cols)
    ensures |Flatten(f)| == rows * cols && Reshape(Flatten(f), rows, cols) == f
  {
    FlattenLength(f, rows, cols);
    var g := Reshape(Flatten(f), rows, cols);
    forall r, c | 0 <= r < rows && 0 <= c < cols
      ensures g[r][c] == f[r][c]
    {
      ReshapeAt(Flatten(f), rows, cols, r, c);
      FlattenAt(f, rows, cols, r, c);
    }
    FrameExt(g, f, rows, cols);
  }

  /** Reshaping a flat array and flattening it back gives the array again. */
  lemma FlattenReshape(s: seq<real>, rows: nat, cols: nat)
    requires |s| == rows * cols
    ensures Flatten(Reshape(s, rows, cols)) == s
  {
    var flat := Flatten(Reshape(s, rows, cols));
    FlattenLength(Reshape(s, rows, cols), rows, cols);
    forall i | 0 <= i < |s|
      ensures flat[i] == s[i]
    {
      FlattenReshapeAt(s, rows, cols, i);
    }
  }

  /** Element `i` of ravel after reshape is element `i` of the sequence. */
  lemma FlattenReshapeAt(s: seq<real>, rows: nat, cols: nat, i: nat)
    requires |s| == rows * cols && i < |s|
    ensures i < |Flatten(Reshape(s, rows, cols))|
    ensures Flatten(Reshape(s, rows, cols))[i] == s[i]
  {
    FlatIndex(i, rows, cols);
    var r, c := i / cols, i % cols;
    FlattenAt(Reshape(s, rows, cols), rows, cols, r, c);
    ReshapeAt(s, rows, cols, r, c);
  }
}
