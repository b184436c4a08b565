/** Large regions are zoomed in chunks of rows, handed to a pool of threads that takes them in any order. */
module FilterJobs {
  import opened Geometry
  import opened Buffers
  import opened Rotation
  import opened FilterBuffers
  import opened PixelMix
  import opened Resampling

  const CHUNK_SIZE: nat := 256
  const MINIMUM_CHUNK_WIDTH: nat := 256

  datatype Mode = NearestNeighbor | Bilinear

  /** The part of the region that a chunk renders. */
  function ChunkRows(chunk: nat, height: nat): (rows: (nat, nat))
    requires CHUNK_SIZE * chunk <= height
    ensures rows.0 + rows.1 <= height
  {
    var first := CHUNK_SIZE * chunk;
    (first, if height - first < CHUNK_SIZE then height - first else CHUNK_SIZE)
  }

  function Segments(height: nat): nat { height / CHUNK_SIZE + 1 }

  /** Each row is in the chunk of its number divided by the size of a chunk, and in no other. */
  lemma ChunksPartition(height: nat, r: nat, chunk: nat)
    requires r < height && chunk < Segments(height)
    ensures CHUNK_SIZE * chunk <= height && r / CHUNK_SIZE < Segments(height)
    ensures var rows := ChunkRows(chunk, height); rows.0 <= r < rows.0 + rows.1 <==> chunk == r / CHUNK_SIZE
  {
  }

  function CopySampler<T>(image: Image<T>, convert: T -> Word): Point -> Word
    requires image.Valid()
  {
    p => CopiedPixel(image, convert, p)
  }

  function CopiedPixel<T>(image: Image<T>, convert: T -> Word, p: Point): Word
    requires image.Valid()
  {
    if Inside(image.size, p) then convert(image.At(p)) else 0
  }

  /** Without zoom each pixel is the one at its place, converted. */
  lemma CopiedAt<T>(image: Image<T>, convert: T -> Word, region: Rect, p: Point)
    requires image.Valid() && Within(region, image.size) && Inside(Size(region.w, region.h), p)
    ensures Resampled(CopySampler(image, convert), region).At(p)
            == convert(image.At(Point(region.left + p.x, region.top + p.y)))
  {
  }

  /** What a zoomed image looks like; without zoom, the mode makes no difference. */
  function Sampler<T>(mode: Mode, image: Image<T>, convert: T -> Word, zoom: real): Point -> Word
    requires image.Valid() && zoom > 0.0 && (mode == Bilinear && zoom != 1.0 ==> image.size.w >= 2 && image.size.h >= 2)
  {
    if zoom == 1.0 then CopySampler(image, convert)
    else if mode == NearestNeighbor then NearestSampler(image, convert, zoom)
    else BilinearSampler(image, convert, zoom)
  }

  /** The region lies in the zoomed image. */
  ghost predicate Renderable(mode: Mode, sg: Region, region: Rect, zoom: real) {
    && zoom > 0.0 && 0 <= region.left && 0 <= region.top && 0 <= region.w && 0 <= region.h
    && (mode == Bilinear && zoom != 1.0 ==> sg.width >= 2 && sg.height >= 2)
    && (region.w > 0 ==> Reaches(region.left + region.w - 1, zoom, sg.width))
    && (region.h > 0 ==> Reaches(region.top + region.h - 1, zoom, sg.height))
  }

  // Cropping.

  /** Add one half and drop the fraction. */
  function CropValue(value: int, zoom: real, cap: nat): int
    requires zoom > 0.0
  {
    if RoundCast(value as real / zoom) > cap then RoundCast(cap as real * zoom) else value
  }

  /** The rectangle between two corners, whichever of them is the upper or the left one. */
  function Spanning(p: Point, q: Point): (r: Rect)
    ensures r.w >= 0 && r.h >= 0
  {
    Rect(Min(p.x, q.x), Min(p.y, q.y), Abs(p.x - q.x), Abs(p.y - q.y))
  }

  /** Along one axis, the far end of a region as far as the destination goes. */
  function FarEnd(left: int, extent: int, dest: int): int { Min(dest + Max(0, left), left + extent) }

  function CropResampleRegions(region: Rect, source: Size, dest: Size, zoom: real): (r: Rect)
    requires zoom > 0.0 && 0 <= source.w && 0 <= source.h
    ensures r.w >= 0 && r.h >= 0
  {
    var x1, y1 := Max(0, region.left), Max(0, region.top);
    var x2, y2 := FarEnd(region.left, region.w, dest.w), FarEnd(region.top, region.h, dest.h);
    Spanning(Point(CropValue(x1, zoom, source.w), CropValue(y1, zoom, source.h)),
             Point(CropValue(x2, zoom, source.w), CropValue(y2, zoom, source.h)))
  }

  lemma Quotient(value: int, zoom: real, x: real)
    requires zoom > 0.0
    ensures value as real / zoom >= x <==> value as real >= x * zoom
  {
    var q := value as real / zoom;
    assert q * zoom == value as real;
    if q >= x {
      assert (q - x) * zoom >= 0.0;
    } else {
      assert (x - q) * zoom > 0.0;
    }
  }

  /** Half a pixel of the source beyond the zoomed image. */
  lemma HalfPixelOn(cap: real, zoom: real)
    requires cap >= 0.0 && zoom > 0.0
    ensures (cap + 0.5) * zoom == cap * zoom + 0.5 * zoom && cap * zoom >= 0.0
  {
  }

  /** What lies in the zoomed image is not cropped. */
  lemma CropKeepsValue(value: nat, zoom: real, cap: nat)
    requires zoom > 0.0 && value <= RoundCast(cap as real * zoom)
    ensures CropValue(value, zoom, cap) == value
  {
    Quotient(value, zoom, cap as real + 0.5);
    HalfPixelOn(cap as real, zoom);
  }

  lemma RoundedFits(value: nat, zoom: real, cap: nat)
    requires zoom > 0.0 && value <= RoundCast(cap as real * zoom)
    ensures !Overhangs(value, zoom, cap)
  {
    HalfPixelOn(cap as real, zoom);
  }

  lemma AxisKept(left: nat, extent: nat, dest: int, zoom: real, cap: nat)
    requires zoom > 0.0 && left + extent <= RoundCast(cap as real * zoom) && extent <= dest
    ensures CropValue(left, zoom, cap) == left && FarEnd(left, extent, dest) == left + extent
    ensures CropValue(left + extent, zoom, cap) == left + extent && EndsFit(left, extent, dest, zoom, cap)
  {
    CropKeepsValue(left, zoom, cap);
    CropKeepsValue(left + extent, zoom, cap);
    RoundedFits(left, zoom, cap);
    RoundedFits(left + extent, zoom, cap);
  }

  /** A region of the zoomed image that the destination has room for is not cropped, and its ends fit. */
  lemma CropKeeps(region: Rect, source: Size, dest: Size, zoom: real)
    requires zoom > 0.0 && 0 <= source.w && 0 <= source.h && Within(region, ZoomedSize(source, zoom))
    requires region.w <= dest.w && region.h <= dest.h
    ensures CropResampleRegions(region, source, dest, zoom) == region
    ensures region.w > 0 ==> EndsFit(region.left, region.w, dest.w, zoom, source.w)
    ensures region.h > 0 ==> EndsFit(region.top, region.h, dest.h, zoom, source.h)
  {
    var w: nat, h: nat := source.w, source.h;
    assert ZoomedSize(source, zoom) == Size(RoundCast(w as real * zoom), RoundCast(h as real * zoom));
    AxisKept(region.left, region.w, dest.w, zoom, w);
    AxisKept(region.top, region.h, dest.h, zoom, h);
  }

  lemma RoundsToNearest(r: real, i: nat)
    requires i < RoundCast(r)
    ensures i as real < r
  {
  }

  /** Beyond the zoomed image, but by less than half a pixel of the source, so that it is not cropped. */
  predicate Overhangs(value: int, zoom: real, cap: nat)
    requires zoom > 0.0
  {
    value as real >= cap as real * zoom + 1.0 && RoundCast(value as real / zoom) <= cap
  }

  /** Nothing left of the image is cropped; what is, is cropped to the rounded end of the zoomed image. */
  lemma CropShrinks(value: int, zoom: real, cap: nat)
    requires zoom > 0.0
    ensures CropValue(value, zoom, cap) <= value
    ensures value < 0 ==> CropValue(value, zoom, cap) == value && !Overhangs(value, zoom, cap)
    ensures value >= 0 ==> CropValue(value, zoom, cap) >= 0
  {
    Quotient(value, zoom, cap as real + 0.5);
    Quotient(value, zoom, 0.0);
    HalfPixelOn(cap as real, zoom);
  }

  /** What is farther off than a value that is cropped is cropped to the same. */
  lemma CropsOn(value: int, farther: int, zoom: real, cap: nat)
    requires zoom > 0.0 && value <= farther
    ensures RoundCast(value as real / zoom) > cap ==> RoundCast(farther as real / zoom) > cap
  {
    Quotient(value, zoom, cap as real + 0.5);
    Quotient(farther, zoom, cap as real + 0.5);
  }

  /** A corner is left inside the zoomed image unless it overhangs, as it can by a zoom of more than 2. */
  lemma CropReachesIff(value: int, zoom: real, cap: nat)
    requires zoom > 0.0
    ensures CropValue(value, zoom, cap) > 0 ==>
              (Reaches(CropValue(value, zoom, cap) - 1, zoom, cap) <==> !Overhangs(value, zoom, cap))
    ensures Overhangs(value, zoom, cap) ==>
              zoom > 2.0 && CropValue(value, zoom, cap) == value > RoundCast(cap as real * zoom)
    ensures !Overhangs(value, zoom, cap) ==> CropValue(value, zoom, cap) <= RoundCast(cap as real * zoom) + 1
  {
    CropShrinks(value, zoom, cap);
    Quotient(value, zoom, cap as real + 0.5);
    HalfPixelOn(cap as real, zoom);
    if RoundCast(value as real / zoom) > cap && CropValue(value, zoom, cap) > 0 {
      RoundsToNearest(cap as real * zoom, RoundCast(cap as real * zoom) - 1);
    }
  }

  /** Along one axis, what the cropped region takes: it is in the zoomed image and no longer than the destination. */
  predicate AxisLands(from: int, to: int, dest: int, zoom: real, cap: nat)
    requires from < to
  {
    0 <= from && Reaches(to - 1, zoom, cap) && to - from <= dest
  }

  /**
   Neither end overhangs. A region that runs backwards, which the program takes as well, must not start left of the
   image either, nor be longer than the destination, to which only the other end is cropped.
   */
  predicate EndsFit(left: int, extent: int, dest: int, zoom: real, cap: nat)
    requires zoom > 0.0
  {
    && !Overhangs(left, zoom, cap) && !Overhangs(FarEnd(left, extent, dest), zoom, cap)
    && (extent < 0 ==>
          && left + extent >= 0
          && Abs(CropValue(left, zoom, cap) - CropValue(left + extent, zoom, cap)) <= dest)
  }

  lemma AxisLandsIff(left: nat, extent: int, dest: nat, zoom: real, cap: nat)
    requires zoom > 0.0
    ensures var near, far := CropValue(left, zoom, cap), CropValue(FarEnd(left, extent, dest), zoom, cap);
            near != far ==>
              (AxisLands(Min(near, far), Max(near, far), dest, zoom, cap) <==> EndsFit(left, extent, dest, zoom, cap))
  {
    var end := FarEnd(left, extent, dest);
    CropShrinks(left, zoom, cap);
    CropShrinks(end, zoom, cap);
    CropReachesIff(left, zoom, cap);
    CropReachesIff(end, zoom, cap);
    if left <= end {
      CropsOn(left, end, zoom, cap);
    } else {
      CropsOn(end, left, zoom, cap);
    }
  }

  /** The cropped region lies in the zoomed image, and the destination has room for it. */
  predicate Lands(cropped: Rect, source: Size, dest: Size, zoom: real)
    requires cropped.w > 0 && cropped.h > 0 && 0 <= source.w && 0 <= source.h
  {
    && AxisLands(cropped.left, cropped.Right(), dest.w, zoom, source.w)
    && AxisLands(cropped.top, cropped.Bottom(), dest.h, zoom, source.h)
  }

  /** For a region that is not empty after cropping, that is so exactly if its ends fit along both axes. */
  lemma CroppedLandsIff(region: Rect, source: Size, dest: Size, zoom: real)
    requires zoom > 0.0 && 0 <= source.w && 0 <= source.h && 0 <= dest.w && 0 <= dest.h
    requires 0 <= region.left && 0 <= region.top
    ensures var cropped := CropResampleRegions(region, source, dest, zoom);
            cropped.w > 0 && cropped.h > 0 ==>
              (Lands(cropped, source, dest, zoom) <==>
                 && EndsFit(region.left, region.w, dest.w, zoom, source.w)
                 && EndsFit(region.top, region.h, dest.h, zoom, source.h))
  {
    AxisLandsIff(region.left, region.w, dest.w, zoom, source.w);
    AxisLandsIff(region.top, region.h, dest.h, zoom, source.h);
  }

  /** The near end overhangs and the far one is cropped behind it: four columns, past the image, for two to fill. */
  lemma CrossedEnds()
    ensures var region, source, dest := Rect(104, 0, 2, 1), Size(10, 10), Size(2, 1);
            var cropped := CropResampleRegions(region, source, dest, 10.0);
            && cropped == Rect(100, 0, 4, 1) && !Lands(cropped, source, dest, 10.0)
            && Overhangs(104, 10.0, 10) && !Overhangs(FarEnd(104, 2, 2), 10.0, 10)
  {
    assert 104.0 / 10.0 == 10.4 && 106.0 / 10.0 == 10.6 && 0.0 / 10.0 == 0.0 && 1.0 / 10.0 == 0.1;
  }

  /** A region that runs backwards is rendered like the one that runs forwards. */
  lemma RunsBackwards()
    ensures CropResampleRegions(Rect(5, 0, -3, 1), Size(10, 10), Size(3, 1), 1.0) == Rect(2, 0, 3, 1)
  {
  }

  /** Copies a region without zooming. */
  method DirectCopy<T>(src: array<T>, sg: Region, dst: array<Word>, dg: Region, region: Rect, convert: T -> Word)
    requires src as object != dst as object && sg.FitsIn(src.Length) && dg.FitsIn(dst.Length)
    requires dg.width == region.w && dg.height == region.h && Within(region, Size(sg.width, sg.height))
    modifies dst
    ensures ImageIn(dst[..], dg) == Resampled(CopySampler(ImageIn(src[..], sg), convert), region)
    ensures OutsideKept(old(dst[..]), dst[..], dg)
  {
    ghost var image, before := ImageIn(src[..], sg), ImageIn(dst[..], dg);
    ghost var sample := CopySampler(image, convert);
    for y := 0 to region.h
      invariant Painted(Resampled(sample, region), before, ImageIn(dst[..], dg), 0, y)
      invariant OutsideKept(old(dst[..]), dst[..], dg)
    {
      for x := 0 to region.w
        invariant Painted(Resampled(sample, region), before, ImageIn(dst[..], dg), x, y)
        invariant OutsideKept(old(dst[..]), dst[..], dg)
      {
        var px, py := region.left + x, region.top + y;
        PixelOf(src[..], sg, px, py);
        PutSample(dst, dg, region, x, y, convert(src[sg.At(py) + px]), px, py, sample, before);
      }
      PaintedRow(Resampled(sample, region), before, ImageIn(dst[..], dg), y);
    }
    PaintedAll(Resampled(sample, region), before, ImageIn(dst[..], dg));
  }

  method Run<T>(mode: Mode, src: array<T>, sg: Region, dst: array<Word>, dg: Region, region: Rect, convert: T -> Word,
                zoom: real)
    requires src as object != dst as object && sg.FitsIn(src.Length) && dg.FitsIn(dst.Length)
    requires dg.width == region.w && dg.height == region.h && Renderable(mode, sg, region, zoom) && zoom != 1.0
    modifies dst
    ensures ImageIn(dst[..], dg) == Resampled(Sampler(mode, ImageIn(src[..], sg), convert, zoom), region)
    ensures OutsideKept(old(dst[..]), dst[..], dg)
  {
    match mode
    case NearestNeighbor =>
      PerformNearest(src, sg, dst, dg, region, convert, zoom);
    case Bilinear =>
      PerformBilinear(src, sg, dst, dg, region, convert, zoom);
  }

  /** The chunks done show the goal, the others what was there before. */
  ghost predicate ChunksDone(goal: seq<seq<Word>>, before: seq<seq<Word>>, now: seq<seq<Word>>, done: set<nat>) {
    && |goal| == |before| == |now|
    && forall r :: 0 <= r < |now| ==> now[r] == if r / CHUNK_SIZE in done then goal[r] else before[r]
  }

  /** One chunk: its rows of the region, into its rows of the destination. */
  method RunChunk<T>(mode: Mode, src: array<T>, sg: Region, dst: array<Word>, dg: Region, region: Rect,
                     convert: T -> Word, zoom: real,
                     chunk: nat, ghost goal: Image<Word>, ghost before: seq<seq<Word>>, ghost done: set<nat>)
    requires src as object != dst as object && sg.FitsIn(src.Length) && dg.FitsIn(dst.Length)
    requires dg.width == region.w && dg.height == region.h && Renderable(mode, sg, region, zoom)
    requires zoom != 1.0 && chunk < Segments(region.h) && ChunksDone(goal.rows, before, RowsIn(dst[..], dg), done)
    requires goal == Resampled(Sampler(mode, ImageIn(src[..], sg), convert, zoom), region)
    modifies dst
    ensures ChunksDone(goal.rows, before, RowsIn(dst[..], dg), done + {chunk})
    ensures OutsideKept(old(dst[..]), dst[..], dg)
  {
    var (first, count) := ChunkRows(chunk, region.h);
    BandFits(dg, first, count, dst.Length);
    ghost var was := dst[..];
    RunPart(mode, src, sg, dst, dg, region, convert, zoom, first, count, goal);
    BandRewritten(was, dst[..], dg, first, count);
    ChunkAdded(goal, before, RowsIn(was, dg), RowsIn(dst[..], dg), RowsIn(dst[..], Band(dg, first, count)), done,
               chunk);
  }

  /** Some rows of the region, into the same rows of the destination. */
  method RunPart<T>(mode: Mode, src: array<T>, sg: Region, dst: array<Word>, dg: Region, region: Rect,
                    convert: T -> Word, zoom: real, first: nat, count: nat, ghost goal: Image<Word>)
    requires src as object != dst as object && sg.FitsIn(src.Length) && dg.FitsIn(dst.Length)
    requires dg.width == region.w && dg.height == region.h && Renderable(mode, sg, region, zoom) && zoom != 1.0
    requires first + count <= region.h && Band(dg, first, count).FitsIn(dst.Length)
    requires goal == Resampled(Sampler(mode, ImageIn(src[..], sg), convert, zoom), region)
    modifies dst
    ensures RowsIn(dst[..], Band(dg, first, count)) == Crop(goal, Rect(0, first, region.w, count)).rows
    ensures OutsideKept(old(dst[..]), dst[..], Band(dg, first, count))
  {
    ReachesPart(mode, sg, region, zoom, first, count);
    ResampledPart(Sampler(mode, ImageIn(src[..], sg), convert, zoom), region, Rect(0, first, region.w, count));
    Run(mode, src, sg, dst, Band(dg, first, count), Rect(region.left, region.top + first, region.w, count), convert,
        zoom);
  }

  lemma ReachesPart(mode: Mode, sg: Region, region: Rect, zoom: real, first: nat, count: nat)
    requires Renderable(mode, sg, region, zoom) && first + count <= region.h
    ensures Renderable(mode, sg, Rect(region.left, region.top + first, region.w, count), zoom)
  {
    if count > 0 {
      ReachesBefore(region.top + first + count - 1, region.top + region.h - 1, zoom, sg.height);
    }
  }

  lemma ChunkAdded(goal: Image<Word>, before: seq<seq<Word>>, was: seq<seq<Word>>, now: seq<seq<Word>>,
                   part: seq<seq<Word>>, done: set<nat>, chunk: nat)
    requires goal.Valid() && chunk < Segments(goal.size.h) && CHUNK_SIZE * chunk <= goal.size.h
    requires ChunksDone(goal.rows, before, was, done) && |now| == |was|
    requires var (first, count) := ChunkRows(chunk, goal.size.h);
             part == Crop(goal, Rect(0, first, goal.size.w, count)).rows
             && forall r :: 0 <= r < |now| ==> now[r] == if first <= r < first + count then part[r - first] else was[r]
    ensures ChunksDone(goal.rows, before, now, done + {chunk})
  {
    var (first, count) := ChunkRows(chunk, goal.size.h);
    forall r | 0 <= r < |now|
      ensures now[r] == if r / CHUNK_SIZE in done + {chunk} then goal.rows[r] else before[r]
    {
      ChunksPartition(goal.size.h, r, chunk);
      if first <= r < first + count {
        CroppedRow(goal, first, count, r, part);
      }
    }
  }

  lemma CroppedRow(goal: Image<Word>, first: nat, count: nat, r: nat, part: seq<seq<Word>>)
    requires goal.Valid() && first + count <= goal.size.h && first <= r < first + count
    requires part == Crop(goal, Rect(0, first, goal.size.w, count)).rows
    ensures part[r - first] == goal.rows[r]
  {
    assert part[r - first] == goal.rows[r][0..goal.size.w];
    assert goal.rows[r][0..goal.size.w] == goal.rows[r];
  }

  /**
   Whatever order the chunks are taken in, as long as each is taken, the result is the region rendered in one
   go. Small regions are rendered in one go.
   */
  method FilterRegion<T>(mode: Mode, src: array<T>, sg: Region, dst: array<Word>, dg: Region, region: Rect,
                         convert: T -> Word,
                       zoom: real, order: seq<nat>)
    requires src as object != dst as object && sg.FitsIn(src.Length) && dg.FitsIn(dst.Length)
    requires dg.width == region.w && dg.height == region.h && Renderable(mode, sg, region, zoom)
    requires forall chunk :: chunk in order <==> 0 <= chunk < Segments(region.h)
    modifies dst
    ensures ImageIn(dst[..], dg) == Resampled(Sampler(mode, ImageIn(src[..], sg), convert, zoom), region)
    ensures OutsideKept(old(dst[..]), dst[..], dg)
  {
    if region.w == 0 || region.h == 0 {
      SameImage(ImageIn(dst[..], dg), Resampled(Sampler(mode, ImageIn(src[..], sg), convert, zoom), region));
      return;
    }
    if zoom == 1.0 {
      DirectCopy(src, sg, dst, dg, region, convert);
      return;
    }
    if region.w <= MINIMUM_CHUNK_WIDTH || region.h <= CHUNK_SIZE {
      Run(mode, src, sg, dst, dg, region, convert, zoom);
      return;
    }
    ghost var goal := Resampled(Sampler(mode, ImageIn(src[..], sg), convert, zoom), region);
    ghost var before, done: set<nat> := RowsIn(dst[..], dg), {};
    for i := 0 to |order|
      invariant ChunksDone(goal.rows, before, RowsIn(dst[..], dg), done) && OutsideKept(old(dst[..]), dst[..], dg)
      invariant done == set k | 0 <= k < i :: order[k]
    {
      assert order[i] in order;
      RunChunk(mode, src, sg, dst, dg, region, convert, zoom, order[i], goal, before, done);
      done := done + {order[i]};
    }
    forall r | 0 <= r < region.h
      ensures RowsIn(dst[..], dg)[r] == goal.rows[r]
    {
      ChunksPartition(region.h, r, 0);
      assert r / CHUNK_SIZE in order;
    }
  }

  datatype Filtering = Filtered | Refused

  /**
   Crops the region to both buffers first; nothing is done for an empty one. No cropped region has a negative extent, so
   that only a negative corner is refused.
   */
  method AutoFilter<T>(mode: Mode, src: array<T>, sg: Region, dest: FilterBuffer<Word>, uncropped: Rect,
                       convert: T -> Word, zoom: real, order: seq<nat>) returns (outcome: Filtering)
    requires src as object != dest.data as object && sg.FitsIn(src.Length) && Fits(dest, Point(0, 0), dest.size)
             && zoom > 0.0
    requires var region := CropResampleRegions(uncropped, Size(sg.width, sg.height), dest.size, zoom);
             uncropped.left >= 0 && uncropped.top >= 0 && region.w > 0 && region.h > 0 ==>
               && EndsFit(uncropped.left, uncropped.w, dest.size.w, zoom, sg.width)
               && EndsFit(uncropped.top, uncropped.h, dest.size.h, zoom, sg.height)
               && (mode == Bilinear && zoom != 1.0 ==> sg.width >= 2 && sg.height >= 2)
               && forall chunk :: chunk in order <==> 0 <= chunk < Segments(region.h)
    modifies dest.data
    ensures outcome == Refused <==> uncropped.left < 0 || uncropped.top < 0
    ensures var region := CropResampleRegions(uncropped, Size(sg.width, sg.height), dest.size, zoom);
            if outcome == Refused || region.w == 0 || region.h == 0 then dest.data[..] == old(dest.data[..])
            else
              && Within(Rect(0, 0, region.w, region.h), dest.size) && Fits(dest, Point(0, 0), Size(region.w, region.h))
              && Renderable(mode, sg, region, zoom)
              && ImageIn(dest.data[..], Area(dest, Point(0, 0), Size(region.w, region.h)))
                 == Resampled(Sampler(mode, ImageIn(src[..], sg), convert, zoom), region)
              && OutsideKept(old(dest.data[..]), dest.data[..], Area(dest, Point(0, 0), Size(region.w, region.h)))
  {
    if uncropped.top < 0 || uncropped.left < 0 {
      return Refused;
    }
    var region := CropResampleRegions(uncropped, Size(sg.width, sg.height), dest.size, zoom);
    if region.w == 0 || region.h == 0 {
      return Filtered;
    }
    CroppedLandsIff(uncropped, Size(sg.width, sg.height), dest.size, zoom);
    PartFits(dest, Rect(0, 0, region.w, region.h), dest.data.Length);
    FilterRegion(mode, src, sg, dest.data, Area(dest, Point(0, 0), Size(region.w, region.h)), region, convert, zoom,
                 order);
    return Filtered;
  }
}
