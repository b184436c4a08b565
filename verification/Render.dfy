/** Rendering a region of the zoomed and turned image, without ever turning the whole of it. */
module Render {
  import opened Geometry
  import opened Buffers
  import opened Rotation
  import opened FilterBuffers
  import opened PixelMix
  import opened Blending
  import opened Resampling
  import opened FilterJobs
  import opened RotateFixed

  /** What happens to pixels after zooming. */
  datatype Finish = Keep | Background(color: Word)

  function Finished(image: Image<Word>, finish: Finish): (r: Image<Word>)
    requires image.Valid()
    ensures r.Valid() && r.size == image.size
  {
    match finish
    case Keep => image
    case Background(color) => Over(color, image)
  }

  /** A background is mixed under each pixel by its own alpha, channel by channel; without one nothing happens. */
  lemma FinishedAt(image: Image<Word>, finish: Finish, p: Point)
    requires image.Valid() && Inside(image.size, p)
    ensures var m, s := Finished(image, finish).At(p), image.At(p);
            match finish
            case Keep => m == s
            case Background(color) =>
              && Alpha(m) == MixedChannel(Alpha(color), Alpha(s), Alpha(s))
              && Red(m) == MixedChannel(Red(color), Red(s), Alpha(s))
              && Green(m) == MixedChannel(Green(color), Green(s), Alpha(s))
              && Blue(m) == MixedChannel(Blue(color), Blue(s), Alpha(s))
              && (Alpha(s) == 0 ==> m == color) && (Alpha(s) == 255 ==> m == s)
  {
    if finish.Background? {
      OverIsExact(finish.color, image, p);
    }
  }

  /** The reference: the whole image zoomed, finished and turned. */
  function Whole(sample: Point -> Word, zoomed: Size, finish: Finish, angle: Angle): (r: Image<Word>)
    requires 0 <= zoomed.w && 0 <= zoomed.h
    ensures r.Valid() && r.size == TurnedSize(zoomed, angle)
  {
    Rotated(Finished(Resampled(sample, Rect(0, 0, zoomed.w, zoomed.h)), finish), angle)
  }

  lemma FinishedCrop(image: Image<Word>, finish: Finish, r: Rect)
    requires image.Valid() && Within(r, image.size)
    ensures Finished(Crop(image, r), finish) == Crop(Finished(image, finish), r)
  {
    if finish.Background? {
      forall p | Inside(Size(r.w, r.h), p)
        ensures Over(finish.color, Crop(image, r)).At(p) == Crop(Over(finish.color, image), r).At(p)
      {
        CropAt(image, r, p);
        CropAt(Over(finish.color, image), r, p);
      }
      SameImage(Over(finish.color, Crop(image, r)), Crop(Over(finish.color, image), r));
    }
  }

  /** Zooming and finishing only the part that is needed and turning that gives the region of the whole. */
  lemma PartOfWhole(sample: Point -> Word, zoomed: Size, finish: Finish, angle: Angle, region: Rect)
    requires 0 <= zoomed.w && 0 <= zoomed.h && Within(region, TurnedSize(zoomed, angle)) && Supported(angle)
    ensures var part := RotateRect(region, TurnedSize(zoomed, angle), angle);
            && part.Some? && Within(part.value, zoomed)
            && TurnedSize(Size(part.value.w, part.value.h), angle) == Size(region.w, region.h)
            && Rotated(Finished(Resampled(sample, part.value), finish), angle)
               == Crop(Whole(sample, zoomed, finish, angle), region)
  {
    var image := Resampled(sample, Rect(0, 0, zoomed.w, zoomed.h));
    RectOrigins(zoomed, region, angle, Point(0, 0));
    CropOfRotated(Finished(image, finish), region, angle);
    var part := RotateRect(region, TurnedSize(zoomed, angle), angle).value;
    ResampledPart(sample, Rect(0, 0, zoomed.w, zoomed.h), part);
    FinishedCrop(image, finish, part);
  }

  lemma ZoomedReaches(length: nat, zoom: real, zoomed: int, start: nat, extent: nat)
    requires zoomed == RoundCast(length as real * zoom) && 0 < extent && start + extent <= zoomed
    ensures Reaches(start + extent - 1, zoom, length)
  {
    RoundsToNearest(length as real * zoom, start + extent - 1);
  }

  lemma PartRenderable(mode: Mode, sg: Region, zoomed: Size, part: Rect, zoom: real)
    requires zoom > 0.0 && (mode == Bilinear && zoom != 1.0 ==> sg.width >= 2 && sg.height >= 2)
    requires zoomed == ZoomedSize(Size(sg.width, sg.height), zoom) && Within(part, zoomed)
    ensures Renderable(mode, sg, part, zoom)
  {
    if part.w > 0 {
      ZoomedReaches(sg.width, zoom, zoomed.w, part.left, part.w);
    }
    if part.h > 0 {
      ZoomedReaches(sg.height, zoom, zoomed.h, part.top, part.h);
    }
  }

  lemma ZoomedNotNegative(length: nat, zoom: real)
    requires zoom > 0.0
    ensures RoundCast(length as real * zoom) >= 0
  {
    ScaledStep(0.0, zoom, length as real);
  }

  lemma PartToRender(mode: Mode, sg: Region, region: Rect, zoom: real, sample: Point -> Word, finish: Finish,
                     angle: Angle)
    requires zoom > 0.0 && (mode == Bilinear && zoom != 1.0 ==> sg.width >= 2 && sg.height >= 2) && Supported(angle)
    requires Within(region, TurnedSize(ZoomedSize(Size(sg.width, sg.height), zoom), angle))
    ensures var zoomed := ZoomedSize(Size(sg.width, sg.height), zoom);
            var part := RotateRect(region, TurnedSize(zoomed, angle), angle);
            && 0 <= zoomed.w && 0 <= zoomed.h && part.Some? && Within(part.value, zoomed)
            && TurnedSize(Size(part.value.w, part.value.h), angle) == Size(region.w, region.h)
            && Renderable(mode, sg, part.value, zoom)
            && Rotated(Finished(Resampled(sample, part.value), finish), angle)
              == Crop(Whole(sample, zoomed, finish, angle), region)
  {
    var zoomed := ZoomedSize(Size(sg.width, sg.height), zoom);
    ZoomedNotNegative(sg.width, zoom);
    ZoomedNotNegative(sg.height, zoom);
    PartOfWhole(sample, zoomed, finish, angle, region);
    PartRenderable(mode, sg, zoomed, RotateRect(region, TurnedSize(zoomed, angle), angle).value, zoom);
  }

  datatype Rendering = Rendered | Unsupported | OffImage

  /** Of the unturned image, the region would take something left of or above it. */
  predicate StartsOff(region: Rect, turned: Size, angle: Angle) {
    var part := RotateRect(region, turned, angle);
    part.Some? && (part.value.left < 0 || part.value.top < 0)
  }

  /** How much of the destination is written: all of it, if it is blended in place. */
  function Written(dest: Size, region: Size, finish: Finish, angle: Angle): Size {
    if finish.Background? && !Turns(angle) then dest else region
  }

  /**
   Renders a region of the turned image to the top left of a destination that is large enough: it then shows exactly
   this region of the whole image zoomed, finished and turned. Mirroring and half turns are done in place; quarter
   turns go through a second buffer. What would start left of or above the unturned image is an error.
   */
  method RenderToBuffer<T>(dest: FilterBuffer<Word>, src: array<T>, sg: Region, region: Rect, mode: Mode,
                           convert: T -> Word,
                           zoom: real, finish: Finish, angle: Angle, order: seq<nat>) returns (r: Rendering)
    requires src as object != dest.data as object && sg.FitsIn(src.Length) && zoom > 0.0
    requires mode == Bilinear && zoom != 1.0 ==> sg.width >= 2 && sg.height >= 2
    requires var turned := TurnedSize(ZoomedSize(Size(sg.width, sg.height), zoom), angle);
             StartsOff(region, turned, angle) || Within(region, turned)
    requires IsPositive(Size(region.w, region.h))
    requires Within(Rect(0, 0, region.w, region.h), dest.size) && Fits(dest, Point(0, 0), dest.size)
    requires forall chunk :: chunk in order <==> 0 <= chunk < Segments(if Turns(angle) then region.w else region.h)
    modifies dest.data
    ensures r == Unsupported <==> !Supported(angle)
    ensures r == OffImage <==>
              Supported(angle)
                && StartsOff(region, TurnedSize(ZoomedSize(Size(sg.width, sg.height), zoom), angle), angle)
    ensures r != Rendered ==> dest.data[..] == old(dest.data[..])
    ensures r == Rendered ==>
              var zoomed := ZoomedSize(Size(sg.width, sg.height), zoom);
              var sample := Sampler(mode, ImageIn(src[..], sg), convert, zoom);
              0 <= zoomed.w && 0 <= zoomed.h && Fits(dest, Point(0, 0), Size(region.w, region.h))
              && ImageIn(dest.data[..], Area(dest, Point(0, 0), Size(region.w, region.h)))
                 == Crop(Whole(sample, zoomed, finish, angle), region)
    ensures OutsideKept(old(dest.data[..]), dest.data[..],
                        Area(dest, Point(0, 0), Written(dest.size, Size(region.w, region.h), finish, angle)))
  {
    var part := RotateRect(region, TurnedSize(ZoomedSize(Size(sg.width, sg.height), zoom), angle), angle);
    if part.None? {
      return Unsupported;
    }
    if part.value.top < 0 || part.value.left < 0 {
      return OffImage;
    }
    PartToRender(mode, sg, region, zoom, Sampler(mode, ImageIn(src[..], sg), convert, zoom), finish, angle);
    RenderAndTurn(dest, src, sg, part.value, mode, convert, zoom, finish, angle, order);
    return Rendered;
  }

  /** In place, or through a second buffer. */
  method RenderAndTurn<T>(dest: FilterBuffer<Word>, src: array<T>, sg: Region, part: Rect, mode: Mode,
                          convert: T -> Word, zoom: real, finish: Finish, angle: Angle, order: seq<nat>)
    requires src as object != dest.data as object && sg.FitsIn(src.Length)
    requires Renderable(mode, sg, part, zoom) && IsPositive(Size(part.w, part.h))
    requires Within(part, ZoomedSize(Size(sg.width, sg.height), zoom))
    requires var size := TurnedSize(Size(part.w, part.h), angle); Within(Rect(0, 0, size.w, size.h), dest.size)
    requires Fits(dest, Point(0, 0), dest.size) && Supported(angle)
    requires forall chunk :: chunk in order <==> 0 <= chunk < Segments(part.h)
    modifies dest.data
    ensures var size := TurnedSize(Size(part.w, part.h), angle);
            && Fits(dest, Point(0, 0), size)
            && ImageIn(dest.data[..], Area(dest, Point(0, 0), size))
               == Rotated(Finished(Resampled(Sampler(mode, ImageIn(src[..], sg), convert, zoom), part), finish), angle)
            && OutsideKept(old(dest.data[..]), dest.data[..],
                           Area(dest, Point(0, 0), Written(dest.size, size, finish, angle)))
  {
    if Turns(angle) {
      PartFits(dest, Rect(0, 0, part.h, part.w), dest.data.Length);
      RenderTurned(dest, src, sg, part, mode, convert, zoom, finish, angle, order);
    } else {
      RenderInPlace(dest, src, sg, part, mode, convert, zoom, finish, angle, order);
    }
  }

  /** Zooms into the top left of a buffer, and blends all of it there. */
  method RenderPart<T>(dest: FilterBuffer<Word>, src: array<T>, sg: Region, part: Rect, mode: Mode, convert: T -> Word,
                       zoom: real, finish: Finish, order: seq<nat>)
    requires src as object != dest.data as object && sg.FitsIn(src.Length)
    requires Renderable(mode, sg, part, zoom) && IsPositive(Size(part.w, part.h))
    requires Within(part, ZoomedSize(Size(sg.width, sg.height), zoom))
    requires Within(Rect(0, 0, part.w, part.h), dest.size) && Fits(dest, Point(0, 0), dest.size)
    requires forall chunk :: chunk in order <==> 0 <= chunk < Segments(part.h)
    modifies dest.data
    ensures Fits(dest, Point(0, 0), Size(part.w, part.h))
    ensures ImageIn(dest.data[..], Area(dest, Point(0, 0), Size(part.w, part.h)))
            == Finished(Resampled(Sampler(mode, ImageIn(src[..], sg), convert, zoom), part), finish)
    ensures OutsideKept(old(dest.data[..]), dest.data[..],
                        Area(dest, Point(0, 0), if finish.Background? then dest.size else Size(part.w, part.h)))
  {
    var corner := Rect(0, 0, part.w, part.h);
    ghost var was := dest.data[..];
    PartIsCrop(dest.data[..], dest, corner);
    CropKeeps(part, Size(sg.width, sg.height), dest.size, zoom);
    var _ := AutoFilter(mode, src, sg, dest, part, convert, zoom, order);
    ghost var zoomedIn := ImageIn(dest.data[..], Area(dest, Point(0, 0), dest.size));
    PartIsCrop(dest.data[..], dest, corner);
    if finish.Background? {
      PartCovers(was, dest.data[..], dest, corner);
    }
    FinishAll(dest, finish);
    PartIsCrop(dest.data[..], dest, corner);
    FinishedCrop(zoomedIn, finish, corner);
  }

  /** Blends the whole of a buffer with the background, if there is one. */
  method FinishAll(dest: FilterBuffer<Word>, finish: Finish)
    requires IsPositive(dest.size) && Fits(dest, Point(0, 0), dest.size)
    modifies dest.data
    ensures ImageIn(dest.data[..], Area(dest, Point(0, 0), dest.size))
            == Finished(old(ImageIn(dest.data[..], Area(dest, Point(0, 0), dest.size))), finish)
    ensures finish.Keep? ==> dest.data[..] == old(dest.data[..])
    ensures OutsideKept(old(dest.data[..]), dest.data[..], Area(dest, Point(0, 0), dest.size))
  {
    if finish.Background? {
      var done := SolidColor(dest, dest, Rect(0, 0, dest.size.w, dest.size.h), Point(0, 0), finish.color);
      assert done == dest.size;
    }
  }

  method RenderInPlace<T>(dest: FilterBuffer<Word>, src: array<T>, sg: Region, part: Rect, mode: Mode,
                          convert: T -> Word, zoom: real, finish: Finish, angle: Angle, order: seq<nat>)
    requires src as object != dest.data as object && sg.FitsIn(src.Length)
    requires Renderable(mode, sg, part, zoom) && IsPositive(Size(part.w, part.h))
    requires Within(part, ZoomedSize(Size(sg.width, sg.height), zoom))
    requires Within(Rect(0, 0, part.w, part.h), dest.size) && Fits(dest, Point(0, 0), dest.size)
    requires Supported(angle) && !Turns(angle) && forall chunk :: chunk in order <==> 0 <= chunk < Segments(part.h)
    modifies dest.data
    ensures Fits(dest, Point(0, 0), Size(part.w, part.h))
    ensures ImageIn(dest.data[..], Area(dest, Point(0, 0), Size(part.w, part.h)))
            == Rotated(Finished(Resampled(Sampler(mode, ImageIn(src[..], sg), convert, zoom), part), finish), angle)
    ensures OutsideKept(old(dest.data[..]), dest.data[..],
                        Area(dest, Point(0, 0), if finish.Background? then dest.size else Size(part.w, part.h)))
  {
    RenderPart(dest, src, sg, part, mode, convert, zoom, finish, order);
    ghost var rendered := dest.data[..];
    var _ := RotateRegion(dest, dest, Rect(0, 0, part.w, part.h), Point(0, 0), angle);
    if finish.Background? {
      PartCovers(rendered, dest.data[..], dest, Rect(0, 0, part.w, part.h));
    }
  }

  method RenderTurned<T>(dest: FilterBuffer<Word>, src: array<T>, sg: Region, part: Rect, mode: Mode,
                         convert: T -> Word, zoom: real, finish: Finish, angle: Angle, order: seq<nat>)
    requires src as object != dest.data as object && sg.FitsIn(src.Length)
    requires Renderable(mode, sg, part, zoom) && IsPositive(Size(part.w, part.h))
    requires Within(part, ZoomedSize(Size(sg.width, sg.height), zoom))
    requires Fits(dest, Point(0, 0), Size(part.h, part.w))
    requires Supported(angle) && Turns(angle) && forall chunk :: chunk in order <==> 0 <= chunk < Segments(part.h)
    modifies dest.data
    ensures ImageIn(dest.data[..], Area(dest, Point(0, 0), Size(part.h, part.w)))
            == Rotated(Finished(Resampled(Sampler(mode, ImageIn(src[..], sg), convert, zoom), part), finish), angle)
    ensures OutsideKept(old(dest.data[..]), dest.data[..], Area(dest, Point(0, 0), Size(part.h, part.w)))
  {
    var buffer := new Word[RowStart(part.h, part.w)](_ => 0);
    var intermediate := FilterBuffer(buffer, Size(part.w, part.h), part.w);
    RenderPart(intermediate, src, sg, part, mode, convert, zoom, finish, order);
    var _ := RotateRegion(intermediate, dest, Rect(0, 0, part.w, part.h), Point(0, 0), angle);
  }
}
