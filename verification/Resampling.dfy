/** Zooming by nearest neighbour and by fixed-point bilinear interpolation. */
module Resampling {
  import opened Geometry
  import opened Buffers
  import opened Rotation
  import opened FilterBuffers
  import opened PixelMix

  const BMUL: nat := 2048
  const FULL: nat := 0x40_0000   // the square of it

  /** A zoomed image as a function of the absolute zoomed coordinate, and a region of it. */
  function Resampled(sample: Point -> Word, region: Rect): (r: Image<Word>)
    requires 0 <= region.w && 0 <= region.h
    ensures r.Valid() && r.size == Size(region.w, region.h)
  {
    Image(Size(region.w, region.h), seq(region.h, y requires 0 <= y < region.h =>
      seq(region.w, x requires 0 <= x < region.w => sample(Point(region.left + x, region.top + y)))))
  }

  lemma ResampledAt(sample: Point -> Word, region: Rect, x: nat, y: nat)
    requires x < region.w && y < region.h
    ensures Resampled(sample, region).At(Point(x, y)) == sample(Point(region.left + x, region.top + y))
  {
  }

  /** Rendering part of a region gives that part of the rendered region. */
  lemma ResampledPart(sample: Point -> Word, region: Rect, part: Rect)
    requires 0 <= region.w && 0 <= region.h && Within(part, Size(region.w, region.h))
    ensures Resampled(sample, Rect(region.left + part.left, region.top + part.top, part.w, part.h))
            == Crop(Resampled(sample, region), part)
  {
    var a := Resampled(sample, Rect(region.left + part.left, region.top + part.top, part.w, part.h));
    var b := Crop(Resampled(sample, region), part);
    forall p | Inside(a.size, p)
      ensures a.At(p) == b.At(p)
    {
      CropAt(Resampled(sample, region), part, p);
      ResampledAt(sample, region, part.left + p.x, part.top + p.y);
      ResampledAt(sample, Rect(region.left + part.left, region.top + part.top, part.w, part.h), p.x, p.y);
    }
    SameImage(a, b);
  }

  /** Writes one pixel of a region. */
  method PutSample(dst: array<Word>, dg: Region, ghost region: Rect, x: nat, y: nat, pixel: Word, ghost px: nat,
                   ghost py: nat, ghost sample: Point -> Word, ghost before: Image<Word>)
    requires dg.FitsIn(dst.Length) && x < region.w == dg.width && y < region.h == dg.height
    requires px == region.left + x && py == region.top + y && pixel == sample(Point(px, py))
    requires Painted(Resampled(sample, region), before, ImageIn(dst[..], dg), x, y)
    modifies dst
    ensures Painted(Resampled(sample, region), before, ImageIn(dst[..], dg), x + 1, y)
    ensures OutsideKept(old(dst[..]), dst[..], dg)
  {
    ResampledAt(sample, region, x, y);
    PutPixel(dst, dg, x, y, pixel, Resampled(sample, region), before);
  }

  // Bilinear interpolation.

  /** The first of two neighbouring pixels, and the weights of the second and of the first, in 2048ths. */
  datatype Contrib = Contrib(floor: nat, frac: nat, fracInv: int)

  /** At the far edge the last two pixels are taken, nearly all of it from the last. */
  function SetContrib(maxCoord: nat, ofs: nat): Contrib {
    var floor := ofs / BMUL;
    if floor + 1 >= maxCoord then
      var last := (if maxCoord > 2 then maxCoord else 2) - 2;
      Contrib(last, BMUL - 2, 2)
    else Contrib(floor, ofs % BMUL, BMUL - ofs % BMUL)
  }

  /** Both pixels exist exactly if there are two at all. */
  lemma NeighboursExist(maxCoord: nat, ofs: nat)
    ensures var c := SetContrib(maxCoord, ofs);
            && (c.floor + 1 < maxCoord <==> maxCoord >= 2)
            && c.frac + c.fracInv == BMUL && c.frac < BMUL && c.fracInv > 0
    ensures ofs / BMUL + 1 < maxCoord ==>
              var c := SetContrib(maxCoord, ofs); c.floor * BMUL + c.frac == ofs
  {
  }

  /** The four weights of a pixel: upper left, upper right, lower left, lower right. */
  datatype Weights = Weights(ul: nat, ur: nat, bl: nat, br: nat)
  {
    ghost predicate Valid() { ul + ur + bl + br == FULL }
  }

  function WeightsOf(x: Contrib, y: Contrib): Weights
    requires x.fracInv >= 0 && y.fracInv >= 0
  {
    Weights(x.fracInv * y.fracInv, x.frac * y.fracInv, x.fracInv * y.frac, x.frac * y.frac)
  }

  lemma WeightsSum(x: Contrib, y: Contrib)
    requires x.fracInv >= 0 && y.fracInv >= 0 && x.frac + x.fracInv == BMUL && y.frac + y.fracInv == BMUL
    ensures WeightsOf(x, y).Valid()
  {
    var w := WeightsOf(x, y);
    assert w.ul + w.ur == (x.fracInv + x.frac) * y.fracInv;
    assert w.bl + w.br == (x.fracInv + x.frac) * y.frac;
    assert BMUL * y.fracInv + BMUL * y.frac == BMUL * (y.fracInv + y.frac);
  }

  /** One channel of the four pixels, in unsigned 32-bit arithmetic. */
  function AssembledChannel(ul: Channel, ur: Channel, bl: Channel, br: Channel, w: Weights): nat {
    (ul * w.ul + ur * w.ur + bl * w.bl + br * w.br) % WORD / FULL
  }

  predicate Between(low: int, c: int, high: int) { low <= c <= high }

  function Least(a: int, b: int, c: int, d: int): int { Min(Min(a, b), Min(c, d)) }

  function Greatest(a: int, b: int, c: int, d: int): int { Max(Max(a, b), Max(c, d)) }

  lemma WeightedBetween(c: Channel, weight: nat, low: int, high: int)
    requires 0 <= low <= c <= high
    ensures low * weight <= c * weight <= high * weight
  {
    ProductGrows(weight, low, c);
    ProductGrows(weight, c, high);
  }

  /** The sum does not wrap, and the result lies between the least and the greatest of the four. */
  lemma ChannelBetween(ul: Channel, ur: Channel, bl: Channel, br: Channel, w: Weights)
    requires w.Valid()
    ensures ul * w.ul + ur * w.ur + bl * w.bl + br * w.br < WORD
    ensures Least(ul, ur, bl, br) <= AssembledChannel(ul, ur, bl, br, w) <= Greatest(ul, ur, bl, br) < 256
  {
    var low, high := Least(ul, ur, bl, br), Greatest(ul, ur, bl, br);
    WeightedBetween(ul, w.ul, low, high);
    WeightedBetween(ur, w.ur, low, high);
    WeightedBetween(bl, w.bl, low, high);
    WeightedBetween(br, w.br, low, high);
    SumOfWeights(low, w);
    SumOfWeights(high, w);
    ProductGrows(FULL, high, 255);
    QuotientBetween(ul * w.ul + ur * w.ur + bl * w.bl + br * w.br, low, high);
  }

  lemma SumOfWeights(c: int, w: Weights)
    requires w.Valid()
    ensures c * w.ul + c * w.ur + c * w.bl + c * w.br == c * FULL
  {
    assert c * w.ul + c * w.ur + c * w.bl + c * w.br == c * (w.ul + w.ur + w.bl + w.br);
  }

  lemma QuotientBetween(sum: nat, low: nat, high: nat)
    requires low * FULL <= sum <= high * FULL && high <= 255
    ensures sum < WORD && low <= sum % WORD / FULL <= high
  {
  }

  /** The four pixels weighted, channel by channel. */
  function Assemble(ul: Word, ur: Word, bl: Word, br: Word, w: Weights): Word
    requires w.Valid()
  {
    ChannelBetween(Alpha(ul), Alpha(ur), Alpha(bl), Alpha(br), w);
    ChannelBetween(Red(ul), Red(ur), Red(bl), Red(br), w);
    ChannelBetween(Green(ul), Green(ur), Green(bl), Green(br), w);
    ChannelBetween(Blue(ul), Blue(ur), Blue(bl), Blue(br), w);
    ToARGB(AssembledChannel(Alpha(ul), Alpha(ur), Alpha(bl), Alpha(br), w),
           AssembledChannel(Red(ul), Red(ur), Red(bl), Red(br), w),
           AssembledChannel(Green(ul), Green(ur), Green(bl), Green(br), w),
           AssembledChannel(Blue(ul), Blue(ur), Blue(bl), Blue(br), w))
  }

  /** No channel leaves the range of the four pixels it is assembled from. */
  lemma AssembledBetween(ul: Word, ur: Word, bl: Word, br: Word, w: Weights)
    requires w.Valid()
    ensures var m := Assemble(ul, ur, bl, br, w);
            && Between(Least(Alpha(ul), Alpha(ur), Alpha(bl), Alpha(br)), Alpha(m),
                       Greatest(Alpha(ul), Alpha(ur), Alpha(bl), Alpha(br)))
            && Between(Least(Red(ul), Red(ur), Red(bl), Red(br)), Red(m), Greatest(Red(ul), Red(ur), Red(bl), Red(br)))
            && Between(Least(Green(ul), Green(ur), Green(bl), Green(br)), Green(m),
                       Greatest(Green(ul), Green(ur), Green(bl), Green(br)))
            && Between(Least(Blue(ul), Blue(ur), Blue(bl), Blue(br)), Blue(m),
                       Greatest(Blue(ul), Blue(ur), Blue(bl), Blue(br)))
  {
    ChannelBetween(Alpha(ul), Alpha(ur), Alpha(bl), Alpha(br), w);
    ChannelBetween(Red(ul), Red(ur), Red(bl), Red(br), w);
    ChannelBetween(Green(ul), Green(ur), Green(bl), Green(br), w);
    ChannelBetween(Blue(ul), Blue(ur), Blue(bl), Blue(br), w);
    ChannelsOf(AssembledChannel(Alpha(ul), Alpha(ur), Alpha(bl), Alpha(br), w),
               AssembledChannel(Red(ul), Red(ur), Red(bl), Red(br), w),
               AssembledChannel(Green(ul), Green(ur), Green(bl), Green(br), w),
               AssembledChannel(Blue(ul), Blue(ur), Blue(bl), Blue(br), w));
  }

  /** A zoomed coordinate in the source, in 2048ths. */
  function SourceOfs(i: nat, zoom: real): (ofs: nat)
    requires zoom > 0.0
  {
    PositiveQuotient(i as real + 0.25, zoom);
    ((i as real + 0.25) / zoom * 2048.0).Floor
  }

  lemma PositiveQuotient(a: real, b: real)
    requires a >= 0.0 && b > 0.0
    ensures a / b >= 0.0
  {
  }

  /** What bilinear interpolation makes of one zoomed coordinate: it depends on nothing else. */
  function BilinearPixel<T>(image: Image<T>, convert: T -> Word, zoom: real, p: Point): Word
    requires image.Valid() && image.size.w >= 2 && image.size.h >= 2 && zoom > 0.0
  {
    if p.x < 0 || p.y < 0 then 0
    else
      var x, y := SetContrib(image.size.w, SourceOfs(p.x, zoom)), SetContrib(image.size.h, SourceOfs(p.y, zoom));
      NeighboursExist(image.size.w, SourceOfs(p.x, zoom));
      NeighboursExist(image.size.h, SourceOfs(p.y, zoom));
      WeightsSum(x, y);
      Assemble(convert(image.At(Point(x.floor, y.floor))), convert(image.At(Point(x.floor + 1, y.floor))),
               convert(image.At(Point(x.floor, y.floor + 1))), convert(image.At(Point(x.floor + 1, y.floor + 1))),
               WeightsOf(x, y))
  }

  /** The weights for a stretch of zoomed coordinates, computed beforehand. */
  method Contributions(start: nat, count: nat, maxCoord: nat, zoom: real) returns (c: array<Contrib>)
    requires zoom > 0.0
    ensures fresh(c) && c.Length == count
    ensures forall i :: 0 <= i < count ==> c[i] == SetContrib(maxCoord, SourceOfs(start + i, zoom))
  {
    c := new Contrib[count](_ => Contrib(0, 0, 0));
    for i := 0 to count
      invariant forall k :: 0 <= k < i ==> c[k] == SetContrib(maxCoord, SourceOfs(start + k, zoom))
    {
      c[i] := SetContrib(maxCoord, SourceOfs(start + i, zoom));
    }
  }

  function BilinearSampler<T>(image: Image<T>, convert: T -> Word, zoom: real): Point -> Word
    requires image.Valid() && image.size.w >= 2 && image.size.h >= 2 && zoom > 0.0
  {
    p => BilinearPixel(image, convert, zoom, p)
  }

  /** Renders a region of the zoomed image. */
  method PerformBilinear<T>(src: array<T>, sg: Region, dst: array<Word>, dg: Region, region: Rect, convert: T -> Word,
                            zoom: real)
    requires src as object != dst as object && sg.FitsIn(src.Length) && dg.FitsIn(dst.Length)
    requires sg.width >= 2 && sg.height >= 2 && zoom > 0.0 && 0 <= region.left && 0 <= region.top
    requires dg.width == region.w && dg.height == region.h
    modifies dst
    ensures ImageIn(dst[..], dg) == Resampled(BilinearSampler(ImageIn(src[..], sg), convert, zoom), region)
    ensures OutsideKept(old(dst[..]), dst[..], dg)
  {
    var xContrib := Contributions(region.left, region.w, sg.width, zoom);
    var yContrib := Contributions(region.top, region.h, sg.height, zoom);
    ghost var image, before := ImageIn(src[..], sg), ImageIn(dst[..], dg);
    ghost var sample := BilinearSampler(image, convert, zoom);
    ghost var goal := Resampled(sample, region);
    for y := 0 to region.h
      modifies dst
      invariant Painted(goal, before, ImageIn(dst[..], dg), 0, y) && OutsideKept(old(dst[..]), dst[..], dg)
    {
      for x := 0 to region.w
        modifies dst
        invariant Painted(goal, before, ImageIn(dst[..], dg), x, y) && OutsideKept(old(dst[..]), dst[..], dg)
      {
        ghost var px, py := region.left + x, region.top + y;
        var pixel := BilinearSample(src, sg, xContrib[x], yContrib[y], convert, px, py, zoom);
        PutSample(dst, dg, region, x, y, pixel, px, py, sample, before);
      }
      PaintedRow(goal, before, ImageIn(dst[..], dg), y);
    }
    PaintedAll(goal, before, ImageIn(dst[..], dg));
  }

  method BilinearSample<T>(src: array<T>, sg: Region, cx: Contrib, cy: Contrib, convert: T -> Word, ghost px: nat,
                           ghost py: nat, ghost zoom: real)
    returns (pixel: Word)
    requires sg.FitsIn(src.Length) && sg.width >= 2 && sg.height >= 2 && zoom > 0.0
    requires cx == SetContrib(sg.width, SourceOfs(px, zoom)) && cy == SetContrib(sg.height, SourceOfs(py, zoom))
    ensures pixel == BilinearSampler(ImageIn(src[..], sg), convert, zoom)(Point(px, py))
  {
    NeighboursExist(sg.width, SourceOfs(px, zoom));
    NeighboursExist(sg.height, SourceOfs(py, zoom));
    WeightsSum(cx, cy);
    var ul, ur := TwoPixels(src, sg, cx.floor, cy.floor);
    var bl, br := TwoPixels(src, sg, cx.floor, cy.floor + 1);
    pixel := Assemble(convert(ul), convert(ur), convert(bl), convert(br), WeightsOf(cx, cy));
  }

  /** A pixel and its right neighbour. */
  method TwoPixels<T>(src: array<T>, sg: Region, x: nat, y: nat) returns (left: T, right: T)
    requires sg.FitsIn(src.Length) && x + 1 < sg.width && y < sg.height
    ensures left == ImageIn(src[..], sg).At(Point(x, y)) && right == ImageIn(src[..], sg).At(Point(x + 1, y))
  {
    PixelOf(src[..], sg, x, y);
    PixelOf(src[..], sg, x + 1, y);
    left, right := src[sg.At(y) + x], src[sg.At(y) + x + 1];
  }

  // Nearest neighbour.

  /** The step between zoomed pixels in the source, in fractions of the given number. */
  function Step(zoom: real, mul: nat): nat
    requires zoom > 0.0
  {
    PositiveQuotient(mul as real, zoom);
    (mul as real / zoom).Floor
  }

  function SourceRow(y: nat, zoom: real): nat
    requires zoom > 0.0
  {
    PositiveQuotient(y as real, zoom);
    (y as real / zoom).Floor
  }

  /** More precision for strong zooms. */
  function Precision(zoom: real): nat { if zoom > 10.0 then 262144 else 2048 }

  predicate Reaches(i: nat, zoom: real, length: nat) { i as real < length as real * zoom }

  lemma ColumnExists(i: nat, zoom: real, mul: nat, width: nat)
    requires zoom > 0.0 && Reaches(i, zoom, width) && mul > 0
    ensures Step(zoom, mul) * i / mul < width
  {
    var step, m := Step(zoom, mul), mul as real;
    QuotientBelow(i as real, zoom, width as real);
    ScaledStep(step as real, m / zoom, i as real);
    assert m / zoom * i as real == m * (i as real / zoom);
    ScaledBelow(m, i as real / zoom, width as real);
    assert (step * i) as real < m * width as real;
    assert step * i < mul * width;
    DividedBelow(step * i, mul, width);
  }

  lemma QuotientBelow(a: real, b: real, c: real)
    requires b > 0.0 && a < c * b
    ensures a / b < c
  {
  }

  lemma ScaledStep(a: real, b: real, c: real)
    requires a <= b && c >= 0.0
    ensures a * c <= b * c
  {
  }

  lemma ScaledBelow(m: real, a: real, b: real)
    requires m > 0.0 && a < b
    ensures m * a < m * b
  {
  }

  lemma DividedBelow(a: nat, m: nat, b: nat)
    requires m > 0 && a < m * b
    ensures a / m < b
  {
    if a / m >= b {
      ProductGrows(m, b, a / m);
      assert false;
    }
  }

  lemma RowExists(i: nat, zoom: real, height: nat)
    requires zoom > 0.0 && Reaches(i, zoom, height)
    ensures SourceRow(i, zoom) < height
  {
    QuotientBelow(i as real, zoom, height as real);
  }

  function NearestPixel<T>(image: Image<T>, convert: T -> Word, zoom: real, p: Point): Word
    requires image.Valid() && zoom > 0.0
  {
    if p.x < 0 || p.y < 0 then 0
    else
      var o := Point(Step(zoom, Precision(zoom)) * p.x / Precision(zoom), SourceRow(p.y, zoom));
      if Inside(image.size, o) then convert(image.At(o)) else 0
  }

  function NearestSampler<T>(image: Image<T>, convert: T -> Word, zoom: real): Point -> Word
    requires image.Valid() && zoom > 0.0
  {
    p => NearestPixel(image, convert, zoom, p)
  }

  lemma OneStepMore(step: nat, i: nat)
    ensures step * i + step == step * (i + 1)
  {
  }

  lemma ReachesBefore(i: nat, j: nat, zoom: real, length: nat)
    requires i <= j && Reaches(j, zoom, length)
    ensures Reaches(i, zoom, length)
  {
  }

  method NearestSample<T>(src: array<T>, sg: Region, row: nat, xSofs: nat, mul: nat, convert: T -> Word,
                          ghost px: nat, ghost py: nat, ghost zoom: real) returns (pixel: Word)
    requires sg.FitsIn(src.Length) && zoom > 0.0 && Reaches(px, zoom, sg.width) && Reaches(py, zoom, sg.height)
    requires mul == Precision(zoom) && xSofs == Step(zoom, mul) * px && row == SourceRow(py, zoom)
    ensures pixel == NearestSampler(ImageIn(src[..], sg), convert, zoom)(Point(px, py))
  {
    RowExists(py, zoom, sg.height);
    ColumnExists(px, zoom, mul, sg.width);
    PixelOf(src[..], sg, xSofs / mul, row);
    pixel := convert(src[sg.At(row) + xSofs / mul]);
  }

  /** Renders a region of the zoomed image, stepping through each row of the source. */
  method PerformNearest<T>(src: array<T>, sg: Region, dst: array<Word>, dg: Region, region: Rect, convert: T -> Word,
                           zoom: real)
    requires src as object != dst as object && sg.FitsIn(src.Length) && dg.FitsIn(dst.Length)
    requires zoom > 0.0 && 0 <= region.left && 0 <= region.top && dg.width == region.w && dg.height == region.h
    requires region.w > 0 ==> Reaches(region.left + region.w - 1, zoom, sg.width)
    requires region.h > 0 ==> Reaches(region.top + region.h - 1, zoom, sg.height)
    modifies dst
    ensures ImageIn(dst[..], dg) == Resampled(NearestSampler(ImageIn(src[..], sg), convert, zoom), region)
    ensures OutsideKept(old(dst[..]), dst[..], dg)
  {
    ghost var image, before := ImageIn(src[..], sg), ImageIn(dst[..], dg);
    ghost var sample := NearestSampler(image, convert, zoom);
    for y := 0 to region.h
      invariant Painted(Resampled(sample, region), before, ImageIn(dst[..], dg), 0, y)
      invariant OutsideKept(old(dst[..]), dst[..], dg)
    {
      NearestRow(src, sg, dst, dg, region, convert, zoom, y, sample, before);
    }
    PaintedAll(Resampled(sample, region), before, ImageIn(dst[..], dg));
  }

  method NearestRow<T>(src: array<T>, sg: Region, dst: array<Word>, dg: Region, region: Rect, convert: T -> Word,
                       zoom: real, y: nat, ghost sample: Point -> Word, ghost before: Image<Word>)
    requires src as object != dst as object && sg.FitsIn(src.Length) && dg.FitsIn(dst.Length)
    requires zoom > 0.0 && 0 <= region.left && 0 <= region.top && dg.width == region.w && dg.height == region.h
             && y < region.h
    requires region.w > 0 ==> Reaches(region.left + region.w - 1, zoom, sg.width)
    requires Reaches(region.top + region.h - 1, zoom, sg.height)
    requires sample == NearestSampler(ImageIn(src[..], sg), convert, zoom)
    requires Painted(Resampled(sample, region), before, ImageIn(dst[..], dg), 0, y)
    modifies dst
    ensures Painted(Resampled(sample, region), before, ImageIn(dst[..], dg), 0, y + 1)
    ensures OutsideKept(old(dst[..]), dst[..], dg)
  {
    var mul := Precision(zoom);
    var xSD := Step(zoom, mul);
    var row := SourceRow(region.top + y, zoom);
    var xSofs := xSD * region.left;
    ghost var px, py := region.left, region.top + y;
    for x := 0 to region.w
      invariant px == region.left + x && xSofs == xSD * px
      invariant Painted(Resampled(sample, region), before, ImageIn(dst[..], dg), x, y)
      invariant OutsideKept(old(dst[..]), dst[..], dg)
    {
      var pixel := NearestSample(src, sg, row, xSofs, mul, convert, px, py, zoom);
      PutSample(dst, dg, region, x, y, pixel, px, py, sample, before);
      OneStepMore(xSD, px);
      xSofs, px := xSofs + xSD, px + 1;
    }
    PaintedRow(Resampled(sample, region), before, ImageIn(dst[..], dg), y);
  }
}
