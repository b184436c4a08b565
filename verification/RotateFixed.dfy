/** Turning a region of a pixel buffer into another buffer or, where that is possible, in place. */
module RotateFixed {
  import opened Geometry
  import opened Buffers
  import opened Rotation
  import opened FilterBuffers

  // Copying pixel by pixel, in the order of the source.

  /** The pixels of the source before (x, y) have reached their places; the others still show what was there. */
  ghost predicate Copied<T>(angle: Angle, source: Image<T>, before: Image<T>, now: Image<T>, x: int, y: int) {
    && source.Valid() && before.Valid() && now.Valid() && before.size == now.size == TurnedSize(source.size, angle)
    && forall p | Inside(now.size, p) ::
         now.At(p) == var o := Origin(angle, source.size, p);
                      if o.y < y || (o.y == y && o.x < x) then source.At(o) else before.At(p)
  }

  /** Where a pixel of the source goes. */
  function Target(angle: Angle, size: Size, o: Point): (p: Point)
    ensures Origin(angle, size, p) == o
  {
    match angle
    case RotateDefault => o
    case FlipX => Point(size.w - 1 - o.x, o.y)
    case FlipY => Point(o.x, size.h - 1 - o.y)
    case Rotate90 => Point(size.h - 1 - o.y, o.x)
    case Rotate90FlipY => Point(size.h - 1 - o.y, size.w - 1 - o.x)
    case Rotate180 => Point(size.w - 1 - o.x, size.h - 1 - o.y)
    case Rotate270 => Point(o.y, size.w - 1 - o.x)
    case Rotate270FlipY => Point(o.y, o.x)
  }

  lemma OneOrigin(angle: Angle, size: Size, p: Point, q: Point)
    requires Origin(angle, size, p) == Origin(angle, size, q)
    ensures p == q
  {
  }

  lemma CopiedNothing<T>(angle: Angle, source: Image<T>, before: Image<T>)
    requires source.Valid() && before.Valid() && before.size == TurnedSize(source.size, angle)
    ensures Copied(angle, source, before, before, 0, 0)
  {
  }

  lemma CopiedMore<T>(angle: Angle, source: Image<T>, before: Image<T>, now: Image<T>, x: nat, y: nat)
    requires Copied(angle, source, before, now, x, y) && x < source.size.w && y < source.size.h
    ensures var p := Target(angle, source.size, Point(x, y));
            Inside(now.size, p) && Copied(angle, source, before, Dotted(now, p, source.At(Point(x, y))), x + 1, y)
  {
    var t, v := Target(angle, source.size, Point(x, y)), source.At(Point(x, y));
    forall p | Inside(now.size, p)
      ensures Dotted(now, t, v).At(p) == var o := Origin(angle, source.size, p);
                                         if o.y < y || (o.y == y && o.x < x + 1) then source.At(o) else before.At(p)
    {
      CopiedPixelMore(angle, source, before, now, x, y, t, p);
    }
  }

  lemma CopiedPixelMore<T>(angle: Angle, source: Image<T>, before: Image<T>, now: Image<T>, x: nat, y: nat, t: Point,
                           p: Point)
    requires source.Valid() && before.Valid() && now.Valid() && x < source.size.w && y < source.size.h
    requires before.size == now.size == TurnedSize(source.size, angle) && Inside(now.size, t) && Inside(now.size, p)
    requires t == Target(angle, source.size, Point(x, y))
    requires now.At(p) == var o := Origin(angle, source.size, p);
                          if o.y < y || (o.y == y && o.x < x) then source.At(o) else before.At(p)
    ensures Dotted(now, t, source.At(Point(x, y))).At(p)
            == var o := Origin(angle, source.size, p);
               if o.y < y || (o.y == y && o.x < x + 1) then source.At(o) else before.At(p)
  {
    if Origin(angle, source.size, p) == Point(x, y) {
      OneOrigin(angle, source.size, p, t);
    } else {
      assert p != t;
    }
  }

  lemma CopiedRow<T>(angle: Angle, source: Image<T>, before: Image<T>, now: Image<T>, y: nat)
    requires Copied(angle, source, before, now, source.size.w, y)
    ensures Copied(angle, source, before, now, 0, y + 1)
  {
  }

  lemma CopiedAll<T>(angle: Angle, source: Image<T>, before: Image<T>, now: Image<T>)
    requires Copied(angle, source, before, now, 0, source.size.h)
    ensures now == Rotated(source, angle)
  {
    forall p | Inside(now.size, p)
      ensures now.At(p) == Rotated(source, angle).At(p)
    {
      RotatedAt(source, angle, p);
    }
    SameImage(now, Rotated(source, angle));
  }

  method CopyPixel<T>(src: array<T>, sg: Region, dst: array<T>, dg: Region, x: nat, y: nat, tx: nat, ty: nat,
                      ghost angle: Angle, ghost before: Image<T>)
    requires src != dst && sg.FitsIn(src.Length) && dg.FitsIn(dst.Length) && x < sg.width && y < sg.height
    requires Target(angle, Size(sg.width, sg.height), Point(x, y)) == Point(tx, ty)
    requires Copied(angle, ImageIn(src[..], sg), before, ImageIn(dst[..], dg), x, y)
    modifies dst
    ensures Copied(angle, ImageIn(src[..], sg), before, ImageIn(dst[..], dg), x + 1, y)
    ensures OutsideKept(old(dst[..]), dst[..], dg)
  {
    CopiedMore(angle, ImageIn(src[..], sg), before, ImageIn(dst[..], dg), x, y);
    PixelOf(src[..], sg, x, y);
    PixelWritten(dst[..], dg, tx, ty, src[sg.At(y) + x]);
    ghost var now := dst[..];
    dst[dg.At(ty) + tx] := src[sg.At(y) + x];
    assert dst[..] == now[dg.At(ty) + tx := src[sg.At(y) + x]];
  }

  /** The source row by row, each backwards. */
  method MirrorCopy<T>(src: array<T>, sg: Region, dst: array<T>, dg: Region)
    requires src != dst && sg.FitsIn(src.Length) && dg.FitsIn(dst.Length)
    requires dg.width == sg.width && dg.height == sg.height
    modifies dst
    ensures ImageIn(dst[..], dg) == Rotated(ImageIn(src[..], sg), FlipX)
    ensures OutsideKept(old(dst[..]), dst[..], dg)
  {
    ghost var image, before := ImageIn(src[..], sg), ImageIn(dst[..], dg);
    CopiedNothing(FlipX, image, before);
    for y := 0 to sg.height
      invariant Copied(FlipX, image, before, ImageIn(dst[..], dg), 0, y) && OutsideKept(old(dst[..]), dst[..], dg)
    {
      for x := 0 to sg.width
        invariant Copied(FlipX, image, before, ImageIn(dst[..], dg), x, y) && OutsideKept(old(dst[..]), dst[..], dg)
      {
        CopyPixel(src, sg, dst, dg, x, y, sg.width - 1 - x, y, FlipX, before);
      }
      CopiedRow(FlipX, image, before, ImageIn(dst[..], dg), y);
    }
    CopiedAll(FlipX, image, before, ImageIn(dst[..], dg));
  }

  /** Rows become columns, the first one rightmost. */
  method Rot90<T>(src: array<T>, sg: Region, dst: array<T>, dg: Region)
    requires src != dst && sg.FitsIn(src.Length) && dg.FitsIn(dst.Length)
    requires dg.width == sg.height && dg.height == sg.width
    modifies dst
    ensures ImageIn(dst[..], dg) == Rotated(ImageIn(src[..], sg), Rotate90)
    ensures OutsideKept(old(dst[..]), dst[..], dg)
  {
    ghost var image, before := ImageIn(src[..], sg), ImageIn(dst[..], dg);
    CopiedNothing(Rotate90, image, before);
    for y := 0 to sg.height
      invariant Copied(Rotate90, image, before, ImageIn(dst[..], dg), 0, y) && OutsideKept(old(dst[..]), dst[..], dg)
    {
      for x := 0 to sg.width
        invariant Copied(Rotate90, image, before, ImageIn(dst[..], dg), x, y) && OutsideKept(old(dst[..]), dst[..], dg)
      {
        CopyPixel(src, sg, dst, dg, x, y, sg.height - y - 1, x, Rotate90, before);
      }
      CopiedRow(Rotate90, image, before, ImageIn(dst[..], dg), y);
    }
    CopiedAll(Rotate90, image, before, ImageIn(dst[..], dg));
  }

  /** Rows become columns, the first one leftmost and upside down. */
  method Rot270<T>(src: array<T>, sg: Region, dst: array<T>, dg: Region)
    requires src != dst && sg.FitsIn(src.Length) && dg.FitsIn(dst.Length)
    requires dg.width == sg.height && dg.height == sg.width
    modifies dst
    ensures ImageIn(dst[..], dg) == Rotated(ImageIn(src[..], sg), Rotate270)
    ensures OutsideKept(old(dst[..]), dst[..], dg)
  {
    ghost var image, before := ImageIn(src[..], sg), ImageIn(dst[..], dg);
    CopiedNothing(Rotate270, image, before);
    for y := 0 to sg.height
      invariant Copied(Rotate270, image, before, ImageIn(dst[..], dg), 0, y) && OutsideKept(old(dst[..]), dst[..], dg)
    {
      for x := 0 to sg.width
        invariant Copied(Rotate270, image, before, ImageIn(dst[..], dg), x, y) && OutsideKept(old(dst[..]), dst[..], dg)
      {
        CopyPixel(src, sg, dst, dg, x, y, y, sg.width - x - 1, Rotate270, before);
      }
      CopiedRow(Rotate270, image, before, ImageIn(dst[..], dg), y);
    }
    CopiedAll(Rotate270, image, before, ImageIn(dst[..], dg));
  }

  /** The last rows have come from the first of the source. */
  function Flipping<T>(source: seq<T>, before: seq<T>, y: nat): (r: seq<T>)
    requires |source| == |before|
    ensures |r| == |before|
  {
    seq(|before|, k requires 0 <= k < |before| => if |before| - 1 - k < y then source[|before| - 1 - k] else before[k])
  }

  lemma FlippingOnce<T>(source: seq<T>, before: seq<T>, y: nat)
    requires |source| == |before| && y < |before|
    ensures Flipping(source, before, y)[|before| - 1 - y := source[y]] == Flipping(source, before, y + 1)
  {
  }

  lemma FlippingEnds<T>(source: seq<T>, before: seq<T>)
    requires |source| == |before|
    ensures Flipping(source, before, 0) == before && Flipping(source, before, |before|) == Reversed(source)
  {
  }

  /** Whole rows, the first one to the bottom. */
  method FlipCopy<T>(src: array<T>, sg: Region, dst: array<T>, dg: Region)
    requires src != dst && sg.FitsIn(src.Length) && dg.FitsIn(dst.Length)
    requires dg.width == sg.width && dg.height == sg.height
    modifies dst
    ensures ImageIn(dst[..], dg) == Rotated(ImageIn(src[..], sg), FlipY)
    ensures OutsideKept(old(dst[..]), dst[..], dg)
  {
    ghost var image, before := ImageIn(src[..], sg), RowsIn(dst[..], dg);
    FlippingEnds(image.rows, before);
    for y := 0 to sg.height
      invariant RowsIn(dst[..], dg) == Flipping(image.rows, before, y) && OutsideKept(old(dst[..]), dst[..], dg)
    {
      FlippingOnce(image.rows, before, y);
      sg.RowFits(y, src.Length);
      assert HoldsRow(src[..], sg, y, image.rows[y]);
      PutRow(dst, dg, sg.height - 1 - y, src[sg.At(y)..sg.At(y) + sg.width]);
    }
    RowsExchanged(image, ImageIn(dst[..], dg));
  }

  // In place.

  /** The first rows are reversed, the others as they were. */
  ghost predicate MirroredRows<T>(before: seq<seq<T>>, now: seq<seq<T>>, y: nat) {
    |now| == |before| && forall k :: 0 <= k < |now| ==> now[k] == if k < y then Reversed(before[k]) else before[k]
  }

  method MirrorInPlace<T>(a: array<T>, g: Region)
    requires g.FitsIn(a.Length)
    modifies a
    ensures ImageIn(a[..], g) == Rotated(old(ImageIn(a[..], g)), FlipX)
    ensures OutsideKept(old(a[..]), a[..], g)
  {
    ghost var image, before := ImageIn(a[..], g), RowsIn(a[..], g);
    for y := 0 to g.height
      invariant MirroredRows(before, RowsIn(a[..], g), y) && OutsideKept(old(a[..]), a[..], g)
    {
      g.RowFits(y, a.Length);
      ghost var was, rows := a[..], RowsIn(a[..], g);
      assert HoldsRow(was, g, y, rows[y]);
      ReverseStretch(a, g.At(y), g.width);
      RowRewritten(was, a[..], g, rows, y, Reversed(rows[y]));
      HoldsOnlyRows(a[..], g, rows[y := Reversed(rows[y])]);
    }
    RowsReversed(image, ImageIn(a[..], g));
  }

  lemma RowsReversed<T>(image: Image<T>, now: Image<T>)
    requires image.Valid() && now.Valid() && now.size == image.size && MirroredRows(image.rows, now.rows, image.size.h)
    ensures now == Rotated(image, FlipX)
  {
    forall p | Inside(now.size, p)
      ensures now.At(p) == Rotated(image, FlipX).At(p)
    {
      RotatedAt(image, FlipX, p);
      assert now.rows[p.y] == Reversed(image.rows[p.y]);
    }
    SameImage(now, Rotated(image, FlipX));
  }

  /** Exchanges a row from above with one from below, through a temporary row. */
  method FlipInPlace<T>(a: array<T>, g: Region)
    requires g.FitsIn(a.Length)
    modifies a
    ensures ImageIn(a[..], g) == Rotated(old(ImageIn(a[..], g)), FlipY)
    ensures OutsideKept(old(a[..]), a[..], g)
  {
    ghost var image, before := ImageIn(a[..], g), RowsIn(a[..], g);
    SwappedEnds(before);
    for i := 0 to g.height / 2
      invariant RowsIn(a[..], g) == Swapped(before, i) && OutsideKept(old(a[..]), a[..], g)
    {
      SwappedOnce(before, i);
      SwapRows(a, g, i, g.height - 1 - i);
    }
    RowsExchanged(image, ImageIn(a[..], g));
  }

  lemma RowsExchanged<T>(image: Image<T>, now: Image<T>)
    requires image.Valid() && now.Valid() && now.size == image.size && now.rows == Reversed(image.rows)
    ensures now == Rotated(image, FlipY)
  {
    forall p | Inside(now.size, p)
      ensures now.At(p) == Rotated(image, FlipY).At(p)
    {
      RotatedAt(image, FlipY, p);
    }
    SameImage(now, Rotated(image, FlipY));
  }

  method SwapRows<T>(a: array<T>, g: Region, i: nat, j: nat)
    requires g.FitsIn(a.Length) && i < g.height && j < g.height
    modifies a
    ensures var rows := old(RowsIn(a[..], g)); RowsIn(a[..], g) == rows[i := rows[j]][j := rows[i]]
    ensures OutsideKept(old(a[..]), a[..], g)
  {
    g.RowFits(i, a.Length);
    g.RowFits(j, a.Length);
    ghost var rows := RowsIn(a[..], g);
    assert HoldsRow(a[..], g, i, rows[i]) && HoldsRow(a[..], g, j, rows[j]);
    var temporary, other := a[g.At(i)..g.At(i) + g.width], a[g.At(j)..g.At(j) + g.width];
    PutRow(a, g, i, other);
    PutRow(a, g, j, temporary);
  }

  method PutRow<T>(a: array<T>, g: Region, y: nat, row: seq<T>)
    requires g.FitsIn(a.Length) && y < g.height && |row| == g.width
    modifies a
    ensures RowsIn(a[..], g) == old(RowsIn(a[..], g))[y := row]
    ensures OutsideKept(old(a[..]), a[..], g)
  {
    g.RowFits(y, a.Length);
    ghost var before := a[..];
    ghost var rows := RowsIn(before, g);
    CopyRow(a, g.At(y), row);
    RowRewritten(before, a[..], g, rows, y, row);
    HoldsOnlyRows(a[..], g, rows[y := row]);
  }

  method CopyRow<T>(a: array<T>, at: nat, row: seq<T>)
    requires at + |row| <= a.Length
    modifies a
    ensures a[..] == Patched(old(a[..]), at, row)
  {
    ghost var before := a[..];
    assert before == Patched(before, at, row[..0]);
    for x := 0 to |row|
      invariant a[..] == Patched(before, at, row[..x])
    {
      PatchedOn(before, at, row[..x], [row[x]]);
      assert row[..x] + [row[x]] == row[..x + 1];
      a[at + x] := row[x];
      assert a[..] == Patched(Patched(before, at, row[..x]), at + x, [row[x]]);
    }
    assert row[..|row|] == row;
  }

  // The operations on buffers.

  datatype Outcome = Done | InvalidParam

  /** The image that a rectangle of a buffer shows. */
  ghost function Part<T>(b: FilterBuffer<T>, r: Rect): (image: Image<T>)
    reads b.data
    requires Fits(b, Point(r.left, r.top), Size(r.w, r.h))
    ensures image.Valid() && image.size == Size(r.w, r.h)
  {
    ImageIn(b.data[..], Area(b, Point(r.left, r.top), Size(r.w, r.h)))
  }

  predicate Supported(angle: Angle) { angle in {RotateDefault, FlipX, FlipY, Rotate90, Rotate180, Rotate270} }

  method MirrorRegion<T>(source: FilterBuffer<T>, dest: FilterBuffer<T>, region: Rect, to: Point) returns (r: Outcome)
    requires Fits(source, Point(region.left, region.top), Size(region.w, region.h))
             && Fits(dest, to, Size(region.w, region.h))
    requires source.data == dest.data ==> source == dest
    modifies dest.data
    ensures r == InvalidParam <==> source == dest && Point(region.left, region.top) != to
    ensures r == InvalidParam ==> dest.data[..] == old(dest.data[..])
    ensures r == Done ==> Shows(dest, to, old(Part(source, region)), FlipX)
    ensures OutsideKept(old(dest.data[..]), dest.data[..], Area(dest, to, Size(region.w, region.h)))
  {
    var from, size := Point(region.left, region.top), Size(region.w, region.h);
    if source == dest && from != to {
      return InvalidParam;
    }
    if source == dest {
      MirrorInPlace(dest.data, Area(dest, to, size));
    } else {
      MirrorCopy(source.data, Area(source, from, size), dest.data, Area(dest, to, size));
    }
    return Done;
  }

  /** The buffer shows the image turned. */
  ghost predicate Shows<T>(dest: FilterBuffer<T>, to: Point, image: Image<T>, angle: Angle)
    reads dest.data
    requires image.Valid()
  {
    && Fits(dest, to, TurnedSize(image.size, angle))
    && ImageIn(dest.data[..], Area(dest, to, TurnedSize(image.size, angle))) == Rotated(image, angle)
  }

  method FlipRegion<T>(source: FilterBuffer<T>, dest: FilterBuffer<T>, region: Rect, to: Point) returns (r: Outcome)
    requires Fits(source, Point(region.left, region.top), Size(region.w, region.h))
             && Fits(dest, to, Size(region.w, region.h))
    requires source.data == dest.data ==> source == dest
    modifies dest.data
    ensures r == InvalidParam <==> source == dest && Point(region.left, region.top) != to
    ensures r == InvalidParam ==> dest.data[..] == old(dest.data[..])
    ensures r == Done ==> Shows(dest, to, old(Part(source, region)), FlipY)
    ensures OutsideKept(old(dest.data[..]), dest.data[..], Area(dest, to, Size(region.w, region.h)))
  {
    var from, size := Point(region.left, region.top), Size(region.w, region.h);
    if source == dest && from != to {
      return InvalidParam;
    }
    if source.data == dest.data {
      FlipInPlace(dest.data, Area(dest, to, size));
    } else {
      FlipCopy(source.data, Area(source, from, size), dest.data, Area(dest, to, size));
    }
    return Done;
  }

  /** Mirrors into the destination, then flips there. */
  method Rotate180Region<T>(source: FilterBuffer<T>, dest: FilterBuffer<T>, region: Rect, to: Point)
    returns (r: Outcome)
    requires Fits(source, Point(region.left, region.top), Size(region.w, region.h))
             && Fits(dest, to, Size(region.w, region.h))
    requires source.data == dest.data ==> source == dest
    modifies dest.data
    ensures r == InvalidParam <==> source == dest && Point(region.left, region.top) != to
    ensures r == InvalidParam ==> dest.data[..] == old(dest.data[..])
    ensures r == Done ==> Shows(dest, to, old(Part(source, region)), Rotate180)
    ensures OutsideKept(old(dest.data[..]), dest.data[..], Area(dest, to, Size(region.w, region.h)))
  {
    ghost var image := Part(source, region);
    r := MirrorRegion(source, dest, region, to);
    if r == Done {
      r := FlipRegion(dest, dest, Rect(to.x, to.y, region.w, region.h), to);
      FinalAngleIsBoth(image, FlipX, FlipY);
    }
  }

  /**
   Turns a region of one buffer into another: afterwards the destination shows the region turned, and nothing
   around it has changed. Quarter turns need two buffers; two angles are not supported.
   */
  method RotateRegion<T>(source: FilterBuffer<T>, dest: FilterBuffer<T>, region: Rect, to: Point, angle: Angle)
    returns (r: Outcome)
    requires Fits(source, Point(region.left, region.top), Size(region.w, region.h))
    requires Fits(dest, to, TurnedSize(Size(region.w, region.h), angle))
    requires source.data == dest.data ==> source == dest
    modifies dest.data
    ensures r == InvalidParam <==>
              || !Supported(angle)
              || (angle == RotateDefault && source != dest)
              || (Turns(angle) && source == dest)
              || (angle in {FlipX, FlipY, Rotate180} && source == dest && Point(region.left, region.top) != to)
    ensures r == InvalidParam ==> dest.data[..] == old(dest.data[..])
    ensures r == Done && (angle == RotateDefault ==> Point(region.left, region.top) == to) ==>
              Shows(dest, to, old(Part(source, region)), angle)
    ensures OutsideKept(old(dest.data[..]), dest.data[..], Area(dest, to, TurnedSize(Size(region.w, region.h), angle)))
  {
    var from, size := Point(region.left, region.top), Size(region.w, region.h);
    match angle
    case RotateDefault =>
      if source.data != dest.data {
        return InvalidParam;
      }
      DefaultKeeps(ImageIn(source.data[..], Area(source, from, size)));
      return Done;
    case FlipX =>
      r := MirrorRegion(source, dest, region, to);
    case FlipY =>
      r := FlipRegion(source, dest, region, to);
    case Rotate180 =>
      r := Rotate180Region(source, dest, region, to);
    case Rotate90 =>
      if source.data == dest.data {
        return InvalidParam;
      }
      Rot90(source.data, Area(source, from, size), dest.data, Area(dest, to, TurnedSize(size, angle)));
      return Done;
    case Rotate270 =>
      if source.data == dest.data {
        return InvalidParam;
      }
      Rot270(source.data, Area(source, from, size), dest.data, Area(dest, to, TurnedSize(size, angle)));
      return Done;
    case _ =>
      return InvalidParam;
  }

  /**
   Turning by the angle of the metadata and then, through a buffer between, by the one requested leaves the image
   that one call with the final angle leaves.
   */
  method TurnTwiceAndOnce<T>(source: FilterBuffer<T>, region: Rect, meta: Angle, requested: Angle,
                             middle: FilterBuffer<T>,
                             twice: FilterBuffer<T>, once: FilterBuffer<T>) returns (both: bool, single: bool)
    requires Fits(source, Point(region.left, region.top), Size(region.w, region.h))
    requires Fits(middle, Point(0, 0), TurnedSize(Size(region.w, region.h), meta))
    requires Fits(twice, Point(0, 0), TurnedSize(TurnedSize(Size(region.w, region.h), meta), requested))
    requires Fits(once, Point(0, 0), TurnedSize(Size(region.w, region.h), FinalAngle(meta, requested)))
    requires source.data != middle.data && source.data != twice.data && source.data != once.data
    requires middle.data != twice.data && middle.data != once.data && twice.data != once.data
    modifies middle.data, twice.data, once.data
    ensures both <==> Supported(meta) && Supported(requested) && meta != RotateDefault && requested != RotateDefault
    ensures single <==> Supported(FinalAngle(meta, requested)) && FinalAngle(meta, requested) != RotateDefault
    ensures both ==> Shows(twice, Point(0, 0), old(Part(source, region)), FinalAngle(meta, requested))
    ensures both && single ==>
              var size := TurnedSize(Size(region.w, region.h), FinalAngle(meta, requested));
              && Fits(twice, Point(0, 0), size)
              && ImageIn(twice.data[..], Area(twice, Point(0, 0), size))
                == ImageIn(once.data[..], Area(once, Point(0, 0), size))
  {
    ghost var image := Part(source, region);
    FinalAngleIsBoth(image, meta, requested);
    var r := RotateRegion(source, once, region, Point(0, 0), FinalAngle(meta, requested));
    single := r == Done;
    both := TurnTwice(source, region, meta, requested, middle, twice);
  }

  method TurnTwice<T>(source: FilterBuffer<T>, region: Rect, meta: Angle, requested: Angle, middle: FilterBuffer<T>,
                      dest: FilterBuffer<T>) returns (both: bool)
    requires Fits(source, Point(region.left, region.top), Size(region.w, region.h))
    requires Fits(middle, Point(0, 0), TurnedSize(Size(region.w, region.h), meta))
    requires Fits(dest, Point(0, 0), TurnedSize(TurnedSize(Size(region.w, region.h), meta), requested))
    requires source.data != middle.data && source.data != dest.data && middle.data != dest.data
    modifies middle.data, dest.data
    ensures both <==> Supported(meta) && Supported(requested) && meta != RotateDefault && requested != RotateDefault
    ensures both ==> Shows(dest, Point(0, 0), old(Part(source, region)), FinalAngle(meta, requested))
  {
    ghost var image := Part(source, region);
    var size := TurnedSize(Size(region.w, region.h), meta);
    var first := RotateRegion(source, middle, region, Point(0, 0), meta);
    if first != Done {
      return false;
    }
    var second := RotateRegion(middle, dest, Rect(0, 0, size.w, size.h), Point(0, 0), requested);
    FinalAngleIsBoth(image, meta, requested);
    both := second == Done;
  }
}
