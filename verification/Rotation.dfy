/** The eight ways to turn an image, how they combine, and what they do to rectangles. */
module Rotation {
  import opened Common
  import opened Geometry

  datatype Angle = RotateDefault | FlipX | FlipY | Rotate90 | Rotate90FlipY | Rotate180 | Rotate270 | Rotate270FlipY

  /** Half of the angles exchange width and height. */
  predicate Turns(angle: Angle) { angle in {Rotate90, Rotate90FlipY, Rotate270, Rotate270FlipY} }

  function TurnedSize(s: Size, angle: Angle): Size {
    if Turns(angle) then Size(s.h, s.w) else s
  }

  function RotateRight(angle: Angle): Angle {
    match angle
    case RotateDefault => Rotate90
    case FlipX => Rotate90FlipY
    case FlipY => Rotate270FlipY
    case Rotate90 => Rotate180
    case Rotate90FlipY => FlipY
    case Rotate180 => Rotate270
    case Rotate270 => RotateDefault
    case Rotate270FlipY => FlipX
  }

  function RotateLeft(angle: Angle): Angle { RotateRight(RotateRight(RotateRight(angle))) }

  function Mirror(angle: Angle): Angle {
    match angle
    case RotateDefault => FlipX
    case FlipX => RotateDefault
    case FlipY => Rotate180
    case Rotate90 => Rotate270FlipY
    case Rotate90FlipY => Rotate270
    case Rotate180 => FlipY
    case Rotate270 => Rotate90FlipY
    case Rotate270FlipY => Rotate90
  }

  function Flip(angle: Angle): Angle {
    match angle
    case RotateDefault => FlipY
    case FlipX => Rotate180
    case FlipY => RotateDefault
    case Rotate90 => Rotate90FlipY
    case Rotate90FlipY => Rotate90
    case Rotate180 => FlipX
    case Rotate270 => Rotate270FlipY
    case Rotate270FlipY => Rotate270
  }

  /** The angle of the metadata with the one requested on top. */
  function FinalAngle(meta: Angle, requested: Angle): Angle {
    match requested
    case RotateDefault => meta
    case FlipX => Mirror(meta)
    case FlipY => Flip(meta)
    case Rotate90 => RotateRight(meta)
    case Rotate90FlipY => Flip(RotateRight(meta))
    case Rotate180 => RotateRight(RotateRight(meta))
    case Rotate270 => RotateLeft(meta)
    case Rotate270FlipY => Flip(RotateLeft(meta))
  }

  /** An image as a value: its size, and its rows from the top. */
  datatype Image<T> = Image(size: Size, rows: seq<seq<T>>)
  {
    ghost predicate Valid() {
      && 0 <= size.w && 0 <= size.h == |rows|
      && forall y :: 0 <= y < size.h ==> |rows[y]| == size.w
    }

    function At(p: Point): T
      requires Valid() && 0 <= p.x < size.w && 0 <= p.y < size.h
    {
      rows[p.y][p.x]
    }
  }

  predicate Inside(size: Size, p: Point) { 0 <= p.x < size.w && 0 <= p.y < size.h }

  /** The pixel of an image that ends up at a point of the turned image; a quarter turn is clockwise. */
  function Origin(angle: Angle, size: Size, p: Point): (o: Point)
    ensures Inside(size, o) <==> Inside(TurnedSize(size, angle), p)
  {
    match angle
    case RotateDefault => p
    case FlipX => Point(size.w - 1 - p.x, p.y)
    case FlipY => Point(p.x, size.h - 1 - p.y)
    case Rotate90 => Point(p.y, size.h - 1 - p.x)
    case Rotate90FlipY => Point(size.w - 1 - p.y, size.h - 1 - p.x)
    case Rotate180 => Point(size.w - 1 - p.x, size.h - 1 - p.y)
    case Rotate270 => Point(size.w - 1 - p.y, p.x)
    case Rotate270FlipY => Point(p.y, p.x)
  }

  function Rotated<T>(image: Image<T>, angle: Angle): (r: Image<T>)
    requires image.Valid()
    ensures r.Valid() && r.size == TurnedSize(image.size, angle)
  {
    var size := TurnedSize(image.size, angle);
    Image(size, seq(size.h, y requires 0 <= y < size.h =>
      seq(size.w, x requires 0 <= x < size.w => image.At(Origin(angle, image.size, Point(x, y))))))
  }

  lemma RotatedAt<T>(image: Image<T>, angle: Angle, p: Point)
    requires image.Valid() && Inside(TurnedSize(image.size, angle), p)
    ensures Rotated(image, angle).At(p) == image.At(Origin(angle, image.size, p))
  {
  }

  lemma SameImage<T>(a: Image<T>, b: Image<T>)
    requires a.Valid() && b.Valid() && a.size == b.size
    requires forall p | Inside(a.size, p) :: a.At(p) == b.At(p)
    ensures a == b
  {
    forall y | 0 <= y < a.size.h
      ensures a.rows[y] == b.rows[y]
    {
      forall x | 0 <= x < a.size.w
        ensures a.rows[y][x] == b.rows[y][x]
      {
        assert a.At(Point(x, y)) == b.At(Point(x, y));
      }
    }
  }

  lemma OriginsCombine(meta: Angle, requested: Angle, size: Size, p: Point)
    ensures TurnedSize(TurnedSize(size, meta), requested) == TurnedSize(size, FinalAngle(meta, requested))
    ensures Origin(meta, size, Origin(requested, TurnedSize(size, meta), p))
            == Origin(FinalAngle(meta, requested), size, p)
  {
  }

  /** Turning by one angle and then by another is turning by the final angle. */
  lemma FinalAngleIsBoth<T>(image: Image<T>, meta: Angle, requested: Angle)
    requires image.Valid()
    ensures Rotated(Rotated(image, meta), requested) == Rotated(image, FinalAngle(meta, requested))
  {
    var twice, once := Rotated(Rotated(image, meta), requested), Rotated(image, FinalAngle(meta, requested));
    OriginsCombine(meta, requested, image.size, Point(0, 0));
    forall p | Inside(once.size, p)
      ensures twice.At(p) == once.At(p)
    {
      OriginsCombine(meta, requested, image.size, p);
      RotatedAt(Rotated(image, meta), requested, p);
      RotatedAt(image, meta, Origin(requested, TurnedSize(image.size, meta), p));
      RotatedAt(image, FinalAngle(meta, requested), p);
    }
    SameImage(twice, once);
  }

  /** Every angle has one that undoes it. */
  function Inverse(angle: Angle): Angle {
    if angle == Rotate90 then Rotate270 else if angle == Rotate270 then Rotate90 else angle
  }

  lemma RotationIsUndone<T>(image: Image<T>, angle: Angle)
    requires image.Valid()
    ensures Rotated(Rotated(image, angle), Inverse(angle)) == image
  {
    FinalAngleIsBoth(image, angle, Inverse(angle));
    DefaultKeeps(image);
  }

  lemma DefaultKeeps<T>(image: Image<T>)
    requires image.Valid()
    ensures Rotated(image, RotateDefault) == image
  {
    forall p | Inside(image.size, p)
      ensures Rotated(image, RotateDefault).At(p) == image.At(p)
    {
      RotatedAt(image, RotateDefault, p);
    }
    SameImage(Rotated(image, RotateDefault), image);
  }

  // Rectangles.

  function Crop<T>(image: Image<T>, r: Rect): (c: Image<T>)
    requires image.Valid() && Within(r, image.size)
    ensures c.Valid() && c.size == Size(r.w, r.h)
  {
    Image(Size(r.w, r.h), seq(r.h, y requires 0 <= y < r.h => image.rows[r.top + y][r.left..r.left + r.w]))
  }

  lemma CropAt<T>(image: Image<T>, r: Rect, p: Point)
    requires image.Valid() && Within(r, image.size) && Inside(Size(r.w, r.h), p)
    ensures Crop(image, r).At(p) == image.At(Point(r.left + p.x, r.top + p.y))
  {
  }

  predicate Within(r: Rect, size: Size) {
    0 <= r.w && 0 <= r.h && 0 <= r.left && r.left + r.w <= size.w && 0 <= r.top && r.top + r.h <= size.h
  }

  /** The part of the unturned image for a region of the turned one, whose size is given. Two angles are unsupported. */
  function RotateRect(r: Rect, boundaries: Size, angle: Angle): Option<Rect> {
    match angle
    case RotateDefault => Some(r)
    case FlipX => Some(MirroredRect(r, boundaries))
    case FlipY => Some(FlippedRect(r, boundaries))
    case Rotate90 => Some(TurnedRect(r, boundaries))
    case Rotate180 => Some(MirroredRect(FlippedRect(r, boundaries), boundaries))
    case Rotate270 => Some(TurnedRect(MirroredRect(FlippedRect(r, boundaries), boundaries), boundaries))
    case Rotate90FlipY => None
    case Rotate270FlipY => None
  }

  function MirroredRect(r: Rect, boundaries: Size): Rect { Rect(boundaries.w - r.left - r.w, r.top, r.w, r.h) }

  function FlippedRect(r: Rect, boundaries: Size): Rect { Rect(r.left, boundaries.h - r.top - r.h, r.w, r.h) }

  function TurnedRect(r: Rect, boundaries: Size): Rect { Rect(r.top, boundaries.w - r.Right(), r.h, r.w) }

  lemma RectOrigins(size: Size, region: Rect, angle: Angle, p: Point)
    requires 0 <= size.w && 0 <= size.h && Within(region, TurnedSize(size, angle))
    ensures var r := RotateRect(region, TurnedSize(size, angle), angle);
            && (r.None? <==> angle in {Rotate90FlipY, Rotate270FlipY})
            && (r.Some? ==>
                  && Within(r.value, size) && TurnedSize(Size(r.value.w, r.value.h), angle) == Size(region.w, region.h)
                  && var o := Origin(angle, Size(r.value.w, r.value.h), p);
                     Origin(angle, size, Point(region.left + p.x, region.top + p.y))
                       == Point(r.value.left + o.x, r.value.top + o.y))
  {
  }

  lemma PixelOfCrop<T>(image: Image<T>, region: Rect, angle: Angle, r: Rect, p: Point, o: Point, q: Point)
    requires image.Valid() && Within(region, TurnedSize(image.size, angle)) && Inside(Size(region.w, region.h), p)
    requires Within(r, image.size) && TurnedSize(Size(r.w, r.h), angle) == Size(region.w, region.h)
    requires o == Origin(angle, Size(r.w, r.h), p) && q == Point(region.left + p.x, region.top + p.y)
    requires Origin(angle, image.size, q) == Point(r.left + o.x, r.top + o.y)
    ensures Rotated(Crop(image, r), angle).At(p) == Crop(Rotated(image, angle), region).At(p)
  {
    OfCropFirst(image, angle, r, p, o);
    OfTurnFirst(image, angle, region, p, q);
  }

  lemma OfCropFirst<T>(image: Image<T>, angle: Angle, r: Rect, p: Point, o: Point)
    requires image.Valid() && Within(r, image.size) && Inside(TurnedSize(Size(r.w, r.h), angle), p)
    requires o == Origin(angle, Size(r.w, r.h), p)
    ensures Inside(Size(r.w, r.h), o)
            && Rotated(Crop(image, r), angle).At(p) == image.At(Point(r.left + o.x, r.top + o.y))
  {
    RotatedAt(Crop(image, r), angle, p);
    CropAt(image, r, o);
  }

  lemma OfTurnFirst<T>(image: Image<T>, angle: Angle, region: Rect, p: Point, q: Point)
    requires image.Valid() && Within(region, TurnedSize(image.size, angle)) && Inside(Size(region.w, region.h), p)
    requires q == Point(region.left + p.x, region.top + p.y)
    ensures Inside(TurnedSize(image.size, angle), q)
    ensures Crop(Rotated(image, angle), region).At(p) == image.At(Origin(angle, image.size, q))
  {
    CropAt(Rotated(image, angle), region, p);
    RotatedAt(image, angle, q);
  }

  /** Turning the part that RotateRect picks gives the region of the turned image: for all angles it supports. */
  lemma CropOfRotated<T>(image: Image<T>, region: Rect, angle: Angle)
    requires image.Valid() && Within(region, TurnedSize(image.size, angle))
    ensures var r := RotateRect(region, TurnedSize(image.size, angle), angle);
            && (r.None? <==> angle in {Rotate90FlipY, Rotate270FlipY})
            && (r.Some? ==>
                  && Within(r.value, image.size)
                  && Rotated(Crop(image, r.value), angle) == Crop(Rotated(image, angle), region))
  {
    RectOrigins(image.size, region, angle, Point(0, 0));
    var r := RotateRect(region, TurnedSize(image.size, angle), angle);
    if r.Some? {
      forall p | Inside(Size(region.w, region.h), p)
        ensures Rotated(Crop(image, r.value), angle).At(p) == Crop(Rotated(image, angle), region).At(p)
      {
        RectOrigins(image.size, region, angle, p);
        PixelOfCrop(image, region, angle, r.value, p, Origin(angle, Size(r.value.w, r.value.h), p),
                    Point(region.left + p.x, region.top + p.y));
      }
      SameImage(Rotated(Crop(image, r.value), angle), Crop(Rotated(image, angle), region));
    }
  }
}
