/** Blending whole regions with the packed mix: against one colour, or against another image. */
module Blending {
  import opened Geometry
  import opened Buffers
  import opened Rotation
  import opened FilterBuffers
  import opened PixelMix

  /** An image over a uniform background, each pixel by its own alpha. */
  function Over(background: Word, image: Image<Word>): (r: Image<Word>)
    requires image.Valid()
    ensures r.Valid() && r.size == image.size
    ensures forall p | Inside(image.size, p) :: r.At(p) == Mix(background, image.At(p), Alpha(image.At(p)))
  {
    Image(image.size, seq(image.size.h, y requires 0 <= y < image.size.h =>
      seq(image.size.w, x requires 0 <= x < image.size.w =>
        Mix(background, image.rows[y][x], Alpha(image.rows[y][x])))))
  }

  /** One image over another. */
  function Blend(a: Image<Word>, b: Image<Word>): (r: Image<Word>)
    requires a.Valid() && b.Valid() && a.size == b.size
    ensures r.Valid() && r.size == a.size
    ensures forall p | Inside(a.size, p) :: r.At(p) == Mix(b.At(p), a.At(p), Alpha(a.At(p)))
  {
    Image(a.size, seq(a.size.h, y requires 0 <= y < a.size.h =>
      seq(a.size.w, x requires 0 <= x < a.size.w => Mix(b.rows[y][x], a.rows[y][x], Alpha(a.rows[y][x])))))
  }

  /** Every channel of the result is exact: the background plus the weighted difference, rounded down. */
  lemma OverIsExact(background: Word, image: Image<Word>, p: Point)
    requires image.Valid() && Inside(image.size, p)
    ensures var m, s := Over(background, image).At(p), image.At(p);
            && Alpha(m) == MixedChannel(Alpha(background), Alpha(s), Alpha(s))
            && Red(m) == MixedChannel(Red(background), Red(s), Alpha(s))
            && Green(m) == MixedChannel(Green(background), Green(s), Alpha(s))
            && Blue(m) == MixedChannel(Blue(background), Blue(s), Alpha(s))
            && (Alpha(s) == 0 ==> m == background) && (Alpha(s) == 255 ==> m == s)
  {
    MixIsExact(background, image.At(p), Alpha(image.At(p)));
    MixNothing(background, image.At(p));
    MixEverything(background, image.At(p));
  }

  lemma BlendIsExact(a: Image<Word>, b: Image<Word>, p: Point)
    requires a.Valid() && b.Valid() && a.size == b.size && Inside(a.size, p)
    ensures var m, s, d := Blend(a, b).At(p), a.At(p), b.At(p);
            && Alpha(m) == MixedChannel(Alpha(d), Alpha(s), Alpha(s))
            && Red(m) == MixedChannel(Red(d), Red(s), Alpha(s))
            && Green(m) == MixedChannel(Green(d), Green(s), Alpha(s))
            && Blue(m) == MixedChannel(Blue(d), Blue(s), Alpha(s))
            && (Alpha(s) == 0 ==> m == d) && (Alpha(s) == 255 ==> m == s)
  {
    MixIsExact(b.At(p), a.At(p), Alpha(a.At(p)));
    MixNothing(b.At(p), a.At(p));
    MixEverything(b.At(p), a.At(p));
  }

  /** Blends a region against one colour, possibly in place. */
  method BlendColor(src: array<Word>, sg: Region, dst: array<Word>, dg: Region, background: Word)
    requires sg.FitsIn(src.Length) && dg.FitsIn(dst.Length) && sg.width == dg.width && sg.height == dg.height
    requires src == dst ==> sg == dg
    modifies dst
    ensures ImageIn(dst[..], dg) == Over(background, old(ImageIn(src[..], sg)))
    ensures OutsideKept(old(dst[..]), dst[..], dg)
  {
    ghost var image, before := ImageIn(src[..], sg), ImageIn(dst[..], dg);
    ghost var goal := Over(background, image);
    for y := 0 to dg.height
      invariant Painted(goal, before, ImageIn(dst[..], dg), 0, y) && OutsideKept(old(dst[..]), dst[..], dg)
    {
      for x := 0 to dg.width
        invariant Painted(goal, before, ImageIn(dst[..], dg), x, y) && OutsideKept(old(dst[..]), dst[..], dg)
      {
        PixelOf(src[..], sg, x, y);
        PaintedMore(goal, before, ImageIn(dst[..], dg), x, y);
        var sp := src[sg.At(y) + x];
        PutPixel(dst, dg, x, y, Mix(background, sp, Alpha(sp)), goal, before);
      }
      PaintedRow(goal, before, ImageIn(dst[..], dg), y);
    }
    PaintedAll(goal, before, ImageIn(dst[..], dg));
  }

  /**
   Blends the part of the region that both buffers have room for. The pixels are read from the top left of the
   source wherever the region lies; a region that starts there is meant.
   */
  method SolidColor(source: FilterBuffer<Word>, dest: FilterBuffer<Word>, sourceRegion: Rect, destPos: Point,
                    background: Word)
    returns (done: Size)
    requires Fits(source, Point(0, 0), source.size) && Fits(dest, Point(0, 0), dest.size)
    requires 0 <= destPos.x && 0 <= destPos.y
    requires source.data == dest.data ==> source == dest && destPos == Point(0, 0)
    modifies dest.data
    ensures var x1, y1 := Max(0, sourceRegion.left), Max(0, sourceRegion.top);
            var x2 := Min(Min(source.size.w, sourceRegion.Right()), dest.size.w - destPos.x);
            var y2 := Min(Min(source.size.h, sourceRegion.Bottom()), dest.size.h - destPos.y);
            done == Size(Max(0, x2 - x1), Max(0, y2 - y1))
    ensures IsPositive(done) ==>
              && Fits(source, Point(0, 0), done) && Fits(dest, destPos, done)
              && ImageIn(dest.data[..], Area(dest, destPos, done))
                 == Over(background, old(ImageIn(source.data[..], Area(source, Point(0, 0), done))))
              && OutsideKept(old(dest.data[..]), dest.data[..], Area(dest, destPos, done))
    ensures !IsPositive(done) ==> dest.data[..] == old(dest.data[..])
  {
    var y1, y2 := Max(0, sourceRegion.top), Min(source.size.h, sourceRegion.Bottom());
    var x1, x2 := Max(0, sourceRegion.left), Min(source.size.w, sourceRegion.Right());
    if x2 + destPos.x > dest.size.w {
      x2 := dest.size.w - destPos.x;
    }
    if y2 + destPos.y > dest.size.h {
      y2 := dest.size.h - destPos.y;
    }
    done := Size(Max(0, x2 - x1), Max(0, y2 - y1));
    if IsPositive(done) {
      PartFits(source, Rect(0, 0, done.w, done.h), source.data.Length);
      PartFits(dest, Rect(destPos.x, destPos.y, done.w, done.h), dest.data.Length);
      BlendColor(source.data, Area(source, Point(0, 0), done), dest.data, Area(dest, destPos, done), background);
    }
  }

  /** What SolidColor blends, and what it was asked to blend, the clipped region starting at `from`. */
  ghost predicate BlendsAsked(image: Image<Word>, from: Point, done: Size, background: Word)
    requires image.Valid() && Within(Rect(0, 0, done.w, done.h), image.size)
             && Within(Rect(from.x, from.y, done.w, done.h), image.size)
  {
    Over(background, Crop(image, Rect(0, 0, done.w, done.h)))
    == Over(background, Crop(image, Rect(from.x, from.y, done.w, done.h)))
  }

  /** Black and opaque, except for a white pixel at the top left. */
  function WhiteCorner(size: Size): (image: Image<Word>)
    requires IsPositive(size)
    ensures image.Valid() && image.size == size
    ensures forall p | Inside(size, p) :: image.At(p) == if p == Point(0, 0) then 0xFFFF_FFFF else 0xFF00_0000
  {
    Image(size, seq(size.h, y requires 0 <= y < size.h =>
      seq(size.w, x requires 0 <= x < size.w => if y == 0 && x == 0 then 0xFFFF_FFFF else 0xFF00_0000)))
  }

  lemma OpaqueOver(background: Word, image: Image<Word>, p: Point)
    requires image.Valid() && Inside(image.size, p) && image.At(p) in {0xFFFF_FFFF, 0xFF00_0000}
    ensures Over(background, image).At(p) == image.At(p)
  {
    assert Alpha(0xFFFF_FFFF) == 255 && Alpha(0xFF00_0000) == 255;
    MixEverything(background, image.At(p));
  }

  lemma WhiteCornerMisread(size: Size, from: Point, done: Size, background: Word)
    requires IsPositive(done) && Within(Rect(0, 0, done.w, done.h), size)
             && Within(Rect(from.x, from.y, done.w, done.h), size)
    requires from != Point(0, 0)
    ensures !BlendsAsked(WhiteCorner(size), from, done, background)
  {
    var image, corner := WhiteCorner(size), Point(0, 0);
    CropAt(image, Rect(0, 0, done.w, done.h), corner);
    CropAt(image, Rect(from.x, from.y, done.w, done.h), corner);
    OpaqueOver(background, Crop(image, Rect(0, 0, done.w, done.h)), corner);
    OpaqueOver(background, Crop(image, Rect(from.x, from.y, done.w, done.h)), corner);
  }

  /** Whatever the image, the region asked for is the one blended, exactly if it starts at the top left. */
  lemma BlendsAskedIff(size: Size, from: Point, done: Size, background: Word)
    requires IsPositive(done) && Within(Rect(0, 0, done.w, done.h), size)
             && Within(Rect(from.x, from.y, done.w, done.h), size)
    ensures (forall image: Image<Word> :: image.Valid() && image.size == size ==>
             BlendsAsked(image, from, done, background))
            <==> from == Point(0, 0)
  {
    if from != Point(0, 0) {
      WhiteCornerMisread(size, from, done, background);
    }
  }

  /** Blends one region over another; the destination may be either of them. */
  method Crossblend(a: FilterBuffer<Word>, topLeftA: Point, b: FilterBuffer<Word>, topLeftB: Point, size: Size,
                    dest: FilterBuffer<Word>, destTopLeft: Point)
    requires Fits(a, topLeftA, size) && Fits(b, topLeftB, size) && Fits(dest, destTopLeft, size)
    requires a.data == dest.data ==> Area(a, topLeftA, size) == Area(dest, destTopLeft, size)
    requires b.data == dest.data ==> Area(b, topLeftB, size) == Area(dest, destTopLeft, size)
    modifies dest.data
    ensures ImageIn(dest.data[..], Area(dest, destTopLeft, size))
            == Blend(old(ImageIn(a.data[..], Area(a, topLeftA, size))),
                     old(ImageIn(b.data[..], Area(b, topLeftB, size))))
    ensures OutsideKept(old(dest.data[..]), dest.data[..], Area(dest, destTopLeft, size))
  {
    BlendRegions(a.data, Area(a, topLeftA, size), b.data, Area(b, topLeftB, size), dest.data,
                 Area(dest, destTopLeft, size));
  }

  method BlendRegions(a: array<Word>, ag: Region, b: array<Word>, bg: Region, dst: array<Word>, dg: Region)
    requires ag.FitsIn(a.Length) && bg.FitsIn(b.Length) && dg.FitsIn(dst.Length)
    requires ag.width == bg.width == dg.width && ag.height == bg.height == dg.height
    requires (a == dst ==> ag == dg) && (b == dst ==> bg == dg)
    modifies dst
    ensures ImageIn(dst[..], dg) == Blend(old(ImageIn(a[..], ag)), old(ImageIn(b[..], bg)))
    ensures OutsideKept(old(dst[..]), dst[..], dg)
  {
    ghost var imageA, imageB, before := ImageIn(a[..], ag), ImageIn(b[..], bg), ImageIn(dst[..], dg);
    ghost var goal := Blend(imageA, imageB);
    for y := 0 to dg.height
      invariant Painted(goal, before, ImageIn(dst[..], dg), 0, y) && OutsideKept(old(dst[..]), dst[..], dg)
    {
      for x := 0 to dg.width
        invariant Painted(goal, before, ImageIn(dst[..], dg), x, y) && OutsideKept(old(dst[..]), dst[..], dg)
      {
        PixelOf(a[..], ag, x, y);
        PixelOf(b[..], bg, x, y);
        PaintedMore(goal, before, ImageIn(dst[..], dg), x, y);
        var pa, pb := a[ag.At(y) + x], b[bg.At(y) + x];
        PutPixel(dst, dg, x, y, Mix(pb, pa, Alpha(pa)), goal, before);
      }
      PaintedRow(goal, before, ImageIn(dst[..], dg), y);
    }
    PaintedAll(goal, before, ImageIn(dst[..], dg));
  }
}
