/**
 The tile store of the scroll cache seen as a torus: rows and columns of 512x512 textures that a pan
 rotates instead of copying.
 */
module TileGrid {
  import opened Geometry

  const EDGE := 512

  type Color = int

  /** A texture, or any picture, as the colour of each of its pixels. */
  type PixelMap = (int, int) -> Color

  /** A dirty rectangle with any extent starts inside its tile. */
  predicate StartsInTile(r: Rect) {
    r.w > 0 && r.h > 0 ==> 0 <= r.left < EDGE && 0 <= r.top < EDGE
  }

  type DirtyRect = r: Rect | StartsInTile(r) witness Rect(0, 0, 0, 0)

  datatype Tile = Tile(surface: PixelMap, dirty: DirtyRect)

  type Grid = seq<seq<Tile>>

  /** Every row has the same, positive number of tiles. */
  ghost predicate IsGrid(g: Grid, rows: nat, cols: nat) {
    && |g| == rows > 0
    && cols > 0
    && forall y :: 0 <= y < rows ==> |g[y]| == cols
  }

  /** The position, among n, that i denotes once positions repeat with period n. */
  function Wrap(i: int, n: int): (r: int)
    requires n > 0
    ensures 0 <= r < n
    decreases i < 0, Abs(i)
  {
    if i < 0 then Wrap(i + n, n) else if i >= n then Wrap(i - n, n) else i
  }

  /** Rotates a sequence to the left by k places; to the right when k is negative. */
  function Rotated<T>(s: seq<T>, k: int): (r: seq<T>)
    ensures |r| == |s|
  {
    if s == [] then [] else seq(|s|, i requires 0 <= i < |s| => s[Wrap(i + k, |s|)])
  }

  lemma RotatedAt<T>(s: seq<T>, k: int, i: int)
    requires 0 <= i < |s|
    ensures Rotated(s, k)[i] == s[Wrap(i + k, |s|)]
  {
  }

  function RotatedRows(g: Grid, k: int): (r: Grid)
    ensures |r| == |g|
  {
    seq(|g|, y requires 0 <= y < |g| => Rotated(g[y], k))
  }

  /** Colour at a grid pixel; coordinates wrap round at the edges of the grid. */
  ghost function Texel(g: Grid, rows: nat, cols: nat, x: int, y: int): Color
    requires IsGrid(g, rows, cols)
  {
    g[Wrap(y / EDGE, rows)][Wrap(x / EDGE, cols)].surface(x % EDGE, y % EDGE)
  }

  lemma WrapPeriod(i: int, n: int)
    requires n > 0
    ensures Wrap(i + n, n) == Wrap(i, n)
  {
  }

  lemma {:induction false} WrapOfSum(a: int, k: int, n: int)
    requires n > 0
    ensures Wrap(Wrap(a, n) + k, n) == Wrap(a + k, n)
    decreases a < 0, Abs(a)
  {
    if a < 0 {
      WrapOfSum(a + n, k, n);
      WrapPeriod(a + k, n);
    } else if a >= n {
      WrapOfSum(a - n, k, n);
      WrapPeriod(a - n + k, n);
    }
  }

  /** Rotating twice adds the distances, so that opposite rotations cancel. */
  lemma RotationsAdd<T>(s: seq<T>, j: int, k: int)
    ensures Rotated(Rotated(s, j), k) == Rotated(s, j + k)
    ensures Rotated(s, 0) == s
  {
    if s != [] {
      forall i | 0 <= i < |s|
        ensures Rotated(s, 0)[i] == s[i]
      {
        RotatedAt(s, 0, i);
      }
      forall i | 0 <= i < |s|
        ensures Rotated(Rotated(s, j), k)[i] == Rotated(s, j + k)[i]
      {
        RotatedAt(Rotated(s, j), k, i);
        WrapOfSum(i + k, j, |s|);
        assert (i + k) + j == i + (j + k);
      }
    }
  }

  /** One step of the deque: the front element moves to the back. */
  lemma RotateOneLeft<T>(s: seq<T>, k: int)
    requires s != []
    ensures var r := Rotated(s, k); r[1..] + [r[0]] == Rotated(s, k + 1)
  {
    var r := Rotated(s, k);
    RotationsAdd(s, k, 1);
    forall i | 0 <= i < |s|
      ensures (r[1..] + [r[0]])[i] == Rotated(r, 1)[i]
    {
      RotatedAt(r, 1, i);
    }
  }

  /** One step of the deque: the back element moves to the front. */
  lemma RotateOneRight<T>(s: seq<T>, k: int)
    requires s != []
    ensures var r := Rotated(s, k); [r[|r| - 1]] + r[..|r| - 1] == Rotated(s, k - 1)
  {
    var r := Rotated(s, k);
    RotationsAdd(s, k, -1);
    forall i | 0 <= i < |s|
      ensures ([r[|r| - 1]] + r[..|r| - 1])[i] == Rotated(r, -1)[i]
    {
      RotatedAt(r, -1, i);
    }
  }

  /**
   Where the grid stands after its origin moved by `pt` pixels: whole tiles become rotations, the
   remainder stays in the offset.
   */
  function ShiftedOffset(off: Size, pt: Size): (r: Size)
    ensures 0 <= r.w < EDGE && 0 <= r.h < EDGE
  {
    Size((off.w - pt.w) % EDGE, (off.h - pt.h) % EDGE)
  }

  function ShiftedGrid(g: Grid, off: Size, pt: Size): (r: Grid)
    ensures |r| == |g|
  {
    RotatedRows(Rotated(g, (off.h - pt.h) / EDGE), (off.w - pt.w) / EDGE)
  }

  lemma RotationKeepsGrid(g: Grid, rows: nat, cols: nat, ky: int, kx: int)
    requires IsGrid(g, rows, cols)
    ensures IsGrid(Rotated(g, ky), rows, cols)
    ensures IsGrid(RotatedRows(Rotated(g, ky), kx), rows, cols)
  {
    forall y | 0 <= y < rows
      ensures |Rotated(g, ky)[y]| == cols
    {
      RotatedAt(g, ky, y);
    }
  }

  lemma RotationMovesTexels(g: Grid, rows: nat, cols: nat, ky: int, kx: int, x: int, y: int)
    requires IsGrid(g, rows, cols)
    ensures IsGrid(RotatedRows(Rotated(g, ky), kx), rows, cols)
    ensures Texel(RotatedRows(Rotated(g, ky), kx), rows, cols, x, y)
            == Texel(g, rows, cols, x + kx * EDGE, y + ky * EDGE)
  {
    RotationKeepsGrid(g, rows, cols, ky, kx);
    WrapOfSum(y / EDGE, ky, rows);
    WrapOfSum(x / EDGE, kx, cols);
    assert (y + ky * EDGE) / EDGE == y / EDGE + ky && (y + ky * EDGE) % EDGE == y % EDGE;
    assert (x + kx * EDGE) / EDGE == x / EDGE + kx && (x + kx * EDGE) % EDGE == x % EDGE;
  }

  /** Colour at (x, y) of the picture seen through an offset into the grid. */
  ghost function Seen(g: Grid, rows: nat, cols: nat, off: Size, x: int, y: int): Color
    requires IsGrid(g, rows, cols)
  {
    Texel(g, rows, cols, x + off.w, y + off.h)
  }

  /** The picture is what the grid shows through the offset, wrapped round without end. */
  ghost predicate Depicts(g: Grid, rows: nat, cols: nat, off: Size, picture: PixelMap)
    requires IsGrid(g, rows, cols)
  {
    forall x, y {:trigger Seen(g, rows, cols, off, x, y)} :: Seen(g, rows, cols, off, x, y) == picture(x, y)
  }

  /** The picture seen through the offset moves by exactly `pt`, everywhere on the torus. */
  lemma ShiftMovesView(g: Grid, off: Size, pt: Size, rows: nat, cols: nat)
    requires IsGrid(g, rows, cols)
    ensures IsGrid(ShiftedGrid(g, off, pt), rows, cols)
    ensures var s, o := ShiftedGrid(g, off, pt), ShiftedOffset(off, pt);
            forall x, y :: Seen(s, rows, cols, o, x, y) == Seen(g, rows, cols, off, x - pt.w, y - pt.h)
  {
    var s, o := ShiftedGrid(g, off, pt), ShiftedOffset(off, pt);
    var ky, kx := (off.h - pt.h) / EDGE, (off.w - pt.w) / EDGE;
    RotationKeepsGrid(g, rows, cols, ky, kx);
    forall x, y
      ensures Seen(s, rows, cols, o, x, y) == Seen(g, rows, cols, off, x - pt.w, y - pt.h)
    {
      RotationMovesTexels(g, rows, cols, ky, kx, x + o.w, y + o.h);
      assert x + o.w + kx * EDGE == x - pt.w + off.w;
      assert y + o.h + ky * EDGE == y - pt.h + off.h;
    }
  }

  lemma RotatedRowsAdd(g: Grid, j: int, k: int)
    ensures RotatedRows(RotatedRows(g, j), k) == RotatedRows(g, j + k)
    ensures RotatedRows(g, 0) == g
  {
    forall y | 0 <= y < |g|
      ensures RotatedRows(RotatedRows(g, j), k)[y] == RotatedRows(g, j + k)[y]
      ensures RotatedRows(g, 0)[y] == g[y]
    {
      RotationsAdd(g[y], j, k);
    }
  }

  lemma RotationsCommute(g: Grid, j: int, k: int)
    ensures Rotated(RotatedRows(g, j), k) == RotatedRows(Rotated(g, k), j)
  {
    forall y | 0 <= y < |g|
      ensures Rotated(RotatedRows(g, j), k)[y] == RotatedRows(Rotated(g, k), j)[y]
    {
      RotatedAt(RotatedRows(g, j), k, y);
      RotatedAt(g, k, y);
    }
  }

  lemma AxisShifts(off: int, a: int, b: int)
    requires 0 <= off < EDGE
    ensures ((off - a) % EDGE - b) % EDGE == (off - (a + b)) % EDGE
    ensures (off - a) / EDGE + ((off - a) % EDGE - b) / EDGE == (off - (a + b)) / EDGE
    ensures b == -a ==> (off - (a + b)) % EDGE == off && (off - (a + b)) / EDGE == 0
  {
    var q, r := (off - a) / EDGE, (off - a) % EDGE;
    var q2, r2 := (r - b) / EDGE, (r - b) % EDGE;
    assert off - (a + b) == (q + q2) * EDGE + r2;
  }

  lemma RotationsCompose(g: Grid, ja: int, ia: int, jb: int, ib: int)
    ensures RotatedRows(Rotated(RotatedRows(Rotated(g, ja), ia), jb), ib) == RotatedRows(Rotated(g, ja + jb), ia + ib)
  {
    var g1 := Rotated(g, ja);
    RotationsCommute(g1, ia, jb);
    RotationsAdd(g, ja, jb);
    RotatedRowsAdd(Rotated(g1, jb), ia, ib);
  }

  lemma NoRotation(g: Grid)
    ensures RotatedRows(Rotated(g, 0), 0) == g
  {
    RotationsAdd(g, 0, 0);
    RotatedRowsAdd(Rotated(g, 0), 0, 0);
  }

  /** Shifting is an action: two shifts make one, and the opposite shift is the inverse. */
  lemma ShiftsCompose(g: Grid, off: Size, a: Size, b: Size)
    requires 0 <= off.w < EDGE && 0 <= off.h < EDGE
    ensures var ab := Size(a.w + b.w, a.h + b.h);
            && ShiftedGrid(ShiftedGrid(g, off, a), ShiftedOffset(off, a), b) == ShiftedGrid(g, off, ab)
            && ShiftedOffset(ShiftedOffset(off, a), b) == ShiftedOffset(off, ab)
    ensures b == Size(-a.w, -a.h) ==>
            && ShiftedGrid(ShiftedGrid(g, off, a), ShiftedOffset(off, a), b) == g
            && ShiftedOffset(ShiftedOffset(off, a), b) == off
  {
    var o := ShiftedOffset(off, a);
    AxisShifts(off.w, a.w, b.w);
    AxisShifts(off.h, a.h, b.h);
    RotationsCompose(g, (off.h - a.h) / EDGE, (off.w - a.w) / EDGE, (o.h - b.h) / EDGE, (o.w - b.w) / EDGE);
    NoRotation(g);
  }
}
