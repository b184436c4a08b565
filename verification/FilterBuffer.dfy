/** Pixel buffers as the filters see them: memory, a size and a stride, and the images they show. */
module FilterBuffers {
  import opened Geometry
  import opened Buffers
  import opened Rotation

  datatype FilterBuffer<!T> = FilterBuffer(data: array<T>, size: Size, stride: nat)

  /** A rectangle of a buffer. */
  function Area<T>(b: FilterBuffer<T>, topLeft: Point, size: Size): Region
    requires 0 <= topLeft.x && 0 <= topLeft.y && 0 <= size.w && 0 <= size.h
  {
    Region(topLeft.x + RowStart(topLeft.y, b.stride), size.w, size.h, b.stride)
  }

  /** Pixel (x, y) of the rectangle is the one at (left + x, top + y) of the buffer. */
  lemma AreaPlace<T>(b: FilterBuffer<T>, topLeft: Point, size: Size, x: nat, y: nat)
    requires 0 <= topLeft.x && 0 <= topLeft.y && 0 <= size.w && 0 <= size.h
    ensures Area(b, topLeft, size).At(y) + x == (topLeft.y + y) * b.stride + topLeft.x + x
  {
    RowStartIs(topLeft.y, b.stride);
    RowStartIs(y, b.stride);
    assert topLeft.y * b.stride + y * b.stride == (topLeft.y + y) * b.stride;
  }

  ghost predicate Fits<T>(b: FilterBuffer<T>, topLeft: Point, size: Size) {
    && 0 <= topLeft.x && 0 <= topLeft.y && 0 <= size.w && 0 <= size.h
    && Area(b, topLeft, size).FitsIn(b.data.Length)
  }

  /** The image that a region of a buffer shows. */
  function ImageIn<T>(buffer: seq<T>, g: Region): (image: Image<T>)
    requires g.FitsIn(|buffer|)
    ensures image.Valid() && image.size == Size(g.width, g.height)
  {
    HoldsOnlyRows(buffer, g, RowsIn(buffer, g));
    Image(Size(g.width, g.height), RowsIn(buffer, g))
  }

  lemma PixelOf<T>(buffer: seq<T>, g: Region, x: nat, y: nat)
    requires g.FitsIn(|buffer|) && x < g.width && y < g.height
    ensures g.At(y) + x < |buffer| && buffer[g.At(y) + x] == ImageIn(buffer, g).At(Point(x, y))
  {
    g.RowFits(y, |buffer|);
    assert HoldsRow(buffer, g, y, RowsIn(buffer, g)[y]);
  }

  lemma RowOfPart<T>(b: FilterBuffer<T>, r: Rect, y: nat)
    requires Within(r, b.size)
    ensures Area(b, Point(r.left, r.top), Size(r.w, r.h)).At(y) == Area(b, Point(0, 0), b.size).At(r.top + y) + r.left
  {
    RowStartSum(r.top, y, b.stride);
  }

  lemma PartFits<T>(b: FilterBuffer<T>, r: Rect, length: nat)
    requires Within(r, b.size) && Area(b, Point(0, 0), b.size).FitsIn(length)
    ensures Area(b, Point(r.left, r.top), Size(r.w, r.h)).FitsIn(length)
  {
    if r.h > 0 {
      RowOfPart(b, r, r.h - 1);
      Area(b, Point(0, 0), b.size).RowFits(r.top + r.h - 1, length);
    }
  }

  lemma PixelOfPart<T>(buffer: seq<T>, b: FilterBuffer<T>, r: Rect, p: Point)
    requires Within(r, b.size) && Area(b, Point(0, 0), b.size).FitsIn(|buffer|) && Inside(Size(r.w, r.h), p)
    requires Area(b, Point(r.left, r.top), Size(r.w, r.h)).FitsIn(|buffer|)
    ensures ImageIn(buffer, Area(b, Point(r.left, r.top), Size(r.w, r.h))).At(p)
            == ImageIn(buffer, Area(b, Point(0, 0), b.size)).At(Point(r.left + p.x, r.top + p.y))
  {
    RowOfPart(b, r, p.y);
    PixelOf(buffer, Area(b, Point(r.left, r.top), Size(r.w, r.h)), p.x, p.y);
    PixelOf(buffer, Area(b, Point(0, 0), b.size), r.left + p.x, r.top + p.y);
  }

  /** A rectangle of a buffer shows that part of the image that the buffer shows. */
  lemma PartIsCrop<T>(buffer: seq<T>, b: FilterBuffer<T>, r: Rect)
    requires Within(r, b.size) && Area(b, Point(0, 0), b.size).FitsIn(|buffer|)
    ensures var part := Area(b, Point(r.left, r.top), Size(r.w, r.h));
            part.FitsIn(|buffer|) && ImageIn(buffer, part) == Crop(ImageIn(buffer, Area(b, Point(0, 0), b.size)), r)
  {
    var whole, part := Area(b, Point(0, 0), b.size), Area(b, Point(r.left, r.top), Size(r.w, r.h));
    PartFits(b, r, |buffer|);
    forall p | Inside(Size(r.w, r.h), p)
      ensures ImageIn(buffer, part).At(p) == Crop(ImageIn(buffer, whole), r).At(p)
    {
      PixelOfPart(buffer, b, r, p);
      CropAt(ImageIn(buffer, whole), r, p);
    }
    SameImage(ImageIn(buffer, part), Crop(ImageIn(buffer, whole), r));
  }

  /** What is outside the buffer's rows is outside those of its rectangles. */
  lemma PartCovers<T>(before: seq<T>, after: seq<T>, b: FilterBuffer<T>, r: Rect)
    requires Within(r, b.size) && OutsideKept(before, after, Area(b, Point(r.left, r.top), Size(r.w, r.h)))
    ensures OutsideKept(before, after, Area(b, Point(0, 0), b.size))
  {
    var whole, part := Area(b, Point(0, 0), b.size), Area(b, Point(r.left, r.top), Size(r.w, r.h));
    forall i | 0 <= i < |before| && !whole.Covers(i)
      ensures after[i] == before[i]
    {
      forall y | 0 <= y < part.height
        ensures !(part.At(y) <= i < part.At(y) + part.width)
      {
        RowOfPart(b, r, y);
        assert !(whole.At(r.top + y) <= i < whole.At(r.top + y) + whole.width);
      }
    }
  }

  /** An image with one pixel replaced. */
  function Dotted<T>(image: Image<T>, p: Point, v: T): (r: Image<T>)
    requires image.Valid() && Inside(image.size, p)
    ensures r.Valid() && r.size == image.size
    ensures forall q | Inside(image.size, q) :: r.At(q) == if q == p then v else image.At(q)
  {
    Image(image.size, image.rows[p.y := image.rows[p.y][p.x := v]])
  }

  lemma PixelWritten<T>(buffer: seq<T>, g: Region, x: nat, y: nat, v: T)
    requires g.FitsIn(|buffer|) && x < g.width && y < g.height
    ensures g.At(y) + x < |buffer|
    ensures var after := buffer[g.At(y) + x := v];
            ImageIn(after, g) == Dotted(ImageIn(buffer, g), Point(x, y), v) && OutsideKept(buffer, after, g)
  {
    g.RowFits(y, |buffer|);
    var after, rows := buffer[g.At(y) + x := v], RowsIn(buffer, g);
    assert HoldsRow(buffer, g, y, rows[y]);
    RowRewritten(buffer, after, g, rows, y, rows[y][x := v]);
    HoldsOnlyRows(after, g, rows[y := rows[y][x := v]]);
  }

  // Painting an image pixel by pixel.

  /** The pixels before (x, y) are those of the goal, the others as they were. */
  ghost predicate Painted<T>(goal: Image<T>, before: Image<T>, now: Image<T>, x: int, y: int) {
    && goal.Valid() && before.Valid() && now.Valid() && goal.size == before.size == now.size
    && forall p | Inside(now.size, p) ::
         now.At(p) == if p.y < y || (p.y == y && p.x < x) then goal.At(p) else before.At(p)
  }

  lemma PaintedMore<T>(goal: Image<T>, before: Image<T>, now: Image<T>, x: nat, y: nat)
    requires Painted(goal, before, now, x, y) && x < goal.size.w && y < goal.size.h
    ensures now.At(Point(x, y)) == before.At(Point(x, y))
    ensures Painted(goal, before, Dotted(now, Point(x, y), goal.At(Point(x, y))), x + 1, y)
  {
  }

  lemma PaintedRow<T>(goal: Image<T>, before: Image<T>, now: Image<T>, y: nat)
    requires Painted(goal, before, now, goal.size.w, y)
    ensures Painted(goal, before, now, 0, y + 1)
  {
  }

  lemma PaintedAll<T>(goal: Image<T>, before: Image<T>, now: Image<T>)
    requires Painted(goal, before, now, 0, goal.size.h)
    ensures now == goal
  {
    SameImage(now, goal);
  }

  /** Writes one pixel of a region. */
  method PutPixel<T>(dst: array<T>, dg: Region, x: nat, y: nat, v: T, ghost goal: Image<T>, ghost before: Image<T>)
    requires dg.FitsIn(dst.Length) && x < dg.width && y < dg.height
    requires Painted(goal, before, ImageIn(dst[..], dg), x, y) && v == goal.At(Point(x, y))
    modifies dst
    ensures Painted(goal, before, ImageIn(dst[..], dg), x + 1, y)
    ensures OutsideKept(old(dst[..]), dst[..], dg)
  {
    PaintedMore(goal, before, ImageIn(dst[..], dg), x, y);
    PixelWritten(dst[..], dg, x, y, v);
    ghost var now := dst[..];
    dst[dg.At(y) + x] := v;
    assert dst[..] == now[dg.At(y) + x := v];
  }
}
