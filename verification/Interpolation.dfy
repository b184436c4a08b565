/** What the two ways of zooming make of an image: where each pixel is taken from, and how neighbours are weighted. */
module Interpolation {
  import opened Geometry
  import opened Rotation
  import opened PixelMix
  import opened Resampling

  datatype ChannelName = A | R | G | B

  function ChannelOf(w: Word, name: ChannelName): Channel {
    match name case A => Alpha(w) case R => Red(w) case G => Green(w) case B => Blue(w)
  }

  /** One channel of the image as a function of the place: a plane, but for a term in x * y. */
  datatype Surface = Surface(base: int, dx: int, dy: int, dxy: int)
  {
    function At(x: int, y: int): int { base + dx * x + dy * y + dxy * x * y }
  }

  ghost predicate IsSurface<T>(image: Image<T>, convert: T -> Word, name: ChannelName, s: Surface)
    requires image.Valid()
  {
    forall p | Inside(image.size, p) :: ChannelOf(convert(image.At(p)), name) == s.At(p.x, p.y)
  }

  /** Between two neighbours, a linear function is met exactly. */
  lemma LinearBetween(p: int, q: int, floor: int, frac: int, ofs: int)
    requires ofs == BMUL * floor + frac
    ensures (BMUL - frac) * (p + q * floor) + frac * (p + q * (floor + 1)) == BMUL * p + q * ofs
  {
    assert q * (floor + 1) == q * floor + q;
    var v := p + q * floor;
    assert frac * (v + q) == frac * v + frac * q;
    assert (BMUL - frac) * v == BMUL * v - frac * v;
    assert q * ofs == BMUL * (q * floor) + q * frac;
    assert BMUL * v == BMUL * p + BMUL * (q * floor);
  }

  /** The surface at an offset given in 2048ths, times the square of 2048. */
  function Scaled(s: Surface, ox: int, oy: int): int {
    FULL * s.base + BMUL * (s.dx * ox) + BMUL * (s.dy * oy) + s.dxy * ox * oy
  }

  lemma RowBetween(s: Surface, x: Contrib, ox: int, j: int)
    requires x.frac + x.fracInv == BMUL && ox == BMUL * x.floor + x.frac
    ensures x.fracInv * s.At(x.floor, j) + x.frac * s.At(x.floor + 1, j)
            == BMUL * (s.base + s.dy * j) + (s.dx + s.dxy * j) * ox
  {
    var p, q := s.base + s.dy * j, s.dx + s.dxy * j;
    PlaneInX(s, x.floor, j);
    PlaneInX(s, x.floor + 1, j);
    LinearBetween(p, q, x.floor, x.frac, ox);
  }

  lemma PlaneInX(s: Surface, i: int, j: int)
    ensures s.At(i, j) == (s.base + s.dy * j) + (s.dx + s.dxy * j) * i
  {
    assert (s.dx + s.dxy * j) * i == s.dx * i + s.dxy * j * i;
    Swapped(s.dxy, i, j);
  }

  lemma Swapped(a: int, b: int, c: int)
    ensures a * b * c == a * c * b
  {
    assert a * b * c == a * (b * c) == a * (c * b) == a * c * b;
  }

  /** The four weights meet the surface exactly. */
  lemma WeightedSurface(s: Surface, ul: int, ur: int, bl: int, br: int, x: Contrib, y: Contrib, ox: int, oy: int)
    requires x.frac + x.fracInv == BMUL && y.frac + y.fracInv == BMUL && x.fracInv >= 0 && y.fracInv >= 0
    requires ox == BMUL * x.floor + x.frac && oy == BMUL * y.floor + y.frac
    requires ul == s.At(x.floor, y.floor) && ur == s.At(x.floor + 1, y.floor)
    requires bl == s.At(x.floor, y.floor + 1) && br == s.At(x.floor + 1, y.floor + 1)
    ensures var w := WeightsOf(x, y); ul * w.ul + ur * w.ur + bl * w.bl + br * w.br == Scaled(s, ox, oy)
  {
    var upper, lower := x.fracInv * ul + x.frac * ur, x.fracInv * bl + x.frac * br;
    RowWeighted(ul, ur, x.fracInv, x.frac, y.fracInv, upper);
    RowWeighted(bl, br, x.fracInv, x.frac, y.frac, lower);
    RowBetween(s, x, ox, y.floor);
    RowBetween(s, x, ox, y.floor + 1);
    RowsBetween(s, y, ox, oy, upper, lower);
  }

  lemma RowsBetween(s: Surface, y: Contrib, ox: int, oy: int, upper: int, lower: int)
    requires y.frac + y.fracInv == BMUL && oy == BMUL * y.floor + y.frac
    requires upper == BMUL * (s.base + s.dy * y.floor) + (s.dx + s.dxy * y.floor) * ox
    requires lower == BMUL * (s.base + s.dy * (y.floor + 1)) + (s.dx + s.dxy * (y.floor + 1)) * ox
    ensures y.fracInv * upper + y.frac * lower == Scaled(s, ox, oy)
  {
    var p, q := BMUL * s.base + s.dx * ox, BMUL * s.dy + s.dxy * ox;
    PlaneInY(s, ox, y.floor);
    PlaneInY(s, ox, y.floor + 1);
    LinearBetween(p, q, y.floor, y.frac, oy);
    ScaledIs(s, ox, oy);
  }

  lemma RowWeighted(a: int, b: int, fa: int, fb: int, f: int, row: int)
    requires fa * a + fb * b == row
    ensures a * (fa * f) + b * (fb * f) == f * row
  {
    Swapped(a, fa, f);
    Swapped(b, fb, f);
    assert a * (fa * f) == f * (fa * a) && b * (fb * f) == f * (fb * b);
  }

  lemma PlaneInY(s: Surface, ox: int, j: int)
    ensures BMUL * (s.base + s.dy * j) + (s.dx + s.dxy * j) * ox
            == (BMUL * s.base + s.dx * ox) + (BMUL * s.dy + s.dxy * ox) * j
  {
    assert (s.dx + s.dxy * j) * ox == s.dx * ox + s.dxy * j * ox;
    assert (BMUL * s.dy + s.dxy * ox) * j == BMUL * (s.dy * j) + s.dxy * ox * j;
    Swapped(s.dxy, j, ox);
  }

  lemma ScaledIs(s: Surface, ox: int, oy: int)
    ensures BMUL * (BMUL * s.base + s.dx * ox) + (BMUL * s.dy + s.dxy * ox) * oy == Scaled(s, ox, oy)
  {
    assert (BMUL * s.dy + s.dxy * ox) * oy == BMUL * (s.dy * oy) + s.dxy * ox * oy;
  }

  /** The offset that is sampled: at the far edge, one nearly at the last pixel. */
  function Sampled(maxCoord: nat, ofs: nat): nat
    requires maxCoord >= 2
  {
    if ofs / BMUL + 1 < maxCoord then ofs else BMUL * (maxCoord - 1) - 2
  }

  lemma SampledBy(maxCoord: nat, ofs: nat)
    requires maxCoord >= 2
    ensures var c := SetContrib(maxCoord, ofs);
            && c.floor + 1 < maxCoord && c.frac + c.fracInv == BMUL && c.fracInv > 0
            && Sampled(maxCoord, ofs) == BMUL * c.floor + c.frac
  {
  }

  lemma AssembledSurface(s: Surface, ul: Channel, ur: Channel, bl: Channel, br: Channel, x: Contrib, y: Contrib,
                         ox: int, oy: int)
    requires x.frac + x.fracInv == BMUL && y.frac + y.fracInv == BMUL && x.fracInv >= 0 && y.fracInv >= 0
    requires ox == BMUL * x.floor + x.frac && oy == BMUL * y.floor + y.frac
    requires ul == s.At(x.floor, y.floor) && ur == s.At(x.floor + 1, y.floor)
    requires bl == s.At(x.floor, y.floor + 1) && br == s.At(x.floor + 1, y.floor + 1)
    ensures AssembledChannel(ul, ur, bl, br, WeightsOf(x, y)) == Scaled(s, ox, oy) / FULL
  {
    WeightsSum(x, y);
    WeightedSurface(s, ul, ur, bl, br, x, y, ox, oy);
    WithoutWrapping(ul, ur, bl, br, WeightsOf(x, y), Scaled(s, ox, oy));
  }

  lemma WithoutWrapping(ul: Channel, ur: Channel, bl: Channel, br: Channel, w: Weights, sum: int)
    requires w.Valid() && ul * w.ul + ur * w.ur + bl * w.bl + br * w.br == sum
    ensures AssembledChannel(ul, ur, bl, br, w) == sum / FULL
  {
    ChannelBetween(ul, ur, bl, br, w);
    NotNegative(ul, w.ul);
    NotNegative(ur, w.ur);
    NotNegative(bl, w.bl);
    NotNegative(br, w.br);
    FitsWord(sum);
  }

  lemma NotNegative(a: nat, b: nat)
    ensures a * b >= 0
  {
  }

  lemma FitsWord(sum: int)
    requires 0 <= sum < WORD
    ensures sum % WORD / FULL == sum / FULL
  {
  }

  lemma ChannelAssembled(ul: Word, ur: Word, bl: Word, br: Word, w: Weights, name: ChannelName)
    requires w.Valid()
    ensures ChannelOf(Assemble(ul, ur, bl, br, w), name)
            == AssembledChannel(ChannelOf(ul, name), ChannelOf(ur, name), ChannelOf(bl, name), ChannelOf(br, name), w)
  {
    ChannelBetween(Alpha(ul), Alpha(ur), Alpha(bl), Alpha(br), w);
    ChannelBetween(Red(ul), Red(ur), Red(bl), Red(br), w);
    ChannelBetween(Green(ul), Green(ur), Green(bl), Green(br), w);
    ChannelBetween(Blue(ul), Blue(ur), Blue(bl), Blue(br), w);
    ChannelsOf(AssembledChannel(Alpha(ul), Alpha(ur), Alpha(bl), Alpha(br), w),
               AssembledChannel(Red(ul), Red(ur), Red(bl), Red(br), w),
               AssembledChannel(Green(ul), Green(ur), Green(bl), Green(br), w),
               AssembledChannel(Blue(ul), Blue(ur), Blue(bl), Blue(br), w));
  }

  /**
   Bilinear interpolation is exact, but for rounding down, wherever a channel of the image is linear in each coordinate:
   it is the value of that function at the offset sampled, in 2048ths of a pixel.
   */
  lemma BilinearIsExact<T>(image: Image<T>, convert: T -> Word, zoom: real, p: Point, name: ChannelName, s: Surface)
    requires image.Valid() && image.size.w >= 2 && image.size.h >= 2 && zoom > 0.0 && 0 <= p.x && 0 <= p.y
    requires IsSurface(image, convert, name, s)
    ensures ChannelOf(BilinearPixel(image, convert, zoom, p), name)
            == Scaled(s, Sampled(image.size.w, SourceOfs(p.x, zoom)),
                      Sampled(image.size.h, SourceOfs(p.y, zoom))) / FULL
  {
    var ox, oy := SourceOfs(p.x, zoom), SourceOfs(p.y, zoom);
    var x, y := SetContrib(image.size.w, ox), SetContrib(image.size.h, oy);
    SampledBy(image.size.w, ox);
    SampledBy(image.size.h, oy);
    WeightsSum(x, y);
    var ul, ur := convert(image.At(Point(x.floor, y.floor))), convert(image.At(Point(x.floor + 1, y.floor)));
    var bl, br := convert(image.At(Point(x.floor, y.floor + 1))), convert(image.At(Point(x.floor + 1, y.floor + 1)));
    PixelAssembled(image, convert, zoom, p, x, y, ul, ur, bl, br);
    ChannelAssembled(ul, ur, bl, br, WeightsOf(x, y), name);
    CornersOf(image, convert, name, s, x.floor, y.floor);
    AssembledSurface(s, ChannelOf(ul, name), ChannelOf(ur, name), ChannelOf(bl, name), ChannelOf(br, name), x, y,
                     Sampled(image.size.w, ox), Sampled(image.size.h, oy));
  }

  lemma PixelAssembled<T>(image: Image<T>, convert: T -> Word, zoom: real, p: Point, x: Contrib, y: Contrib,
                          ul: Word, ur: Word, bl: Word, br: Word)
    requires image.Valid() && image.size.w >= 2 && image.size.h >= 2 && zoom > 0.0 && 0 <= p.x && 0 <= p.y
    requires x == SetContrib(image.size.w, SourceOfs(p.x, zoom)) && y == SetContrib(image.size.h, SourceOfs(p.y, zoom))
    requires x.floor + 1 < image.size.w && y.floor + 1 < image.size.h && x.fracInv >= 0 && y.fracInv >= 0
    requires WeightsOf(x, y).Valid()
    requires ul == convert(image.At(Point(x.floor, y.floor))) && ur == convert(image.At(Point(x.floor + 1, y.floor)))
    requires bl == convert(image.At(Point(x.floor, y.floor + 1)))
    requires br == convert(image.At(Point(x.floor + 1, y.floor + 1)))
    ensures BilinearPixel(image, convert, zoom, p) == Assemble(ul, ur, bl, br, WeightsOf(x, y))
  {
  }

  lemma CornersOf<T>(image: Image<T>, convert: T -> Word, name: ChannelName, s: Surface, x: nat, y: nat)
    requires image.Valid() && x + 1 < image.size.w && y + 1 < image.size.h && IsSurface(image, convert, name, s)
    ensures ChannelOf(convert(image.At(Point(x, y))), name) == s.At(x, y)
    ensures ChannelOf(convert(image.At(Point(x + 1, y))), name) == s.At(x + 1, y)
    ensures ChannelOf(convert(image.At(Point(x, y + 1))), name) == s.At(x, y + 1)
    ensures ChannelOf(convert(image.At(Point(x + 1, y + 1))), name) == s.At(x + 1, y + 1)
  {
  }

  /** At whole pixels that have neighbours, any image is met exactly. */
  lemma BilinearAtPixel<T>(image: Image<T>, convert: T -> Word, zoom: real, p: Point, o: Point)
    requires image.Valid() && image.size.w >= 2 && image.size.h >= 2 && zoom > 0.0 && 0 <= p.x && 0 <= p.y
    requires 0 <= o.x < image.size.w - 1 && 0 <= o.y < image.size.h - 1
    requires SourceOfs(p.x, zoom) == BMUL * o.x && SourceOfs(p.y, zoom) == BMUL * o.y
    ensures BilinearPixel(image, convert, zoom, p) == convert(image.At(o))
  {
    var x, y := Contrib(o.x, 0, BMUL), Contrib(o.y, 0, BMUL);
    assert SetContrib(image.size.w, BMUL * o.x) == x && SetContrib(image.size.h, BMUL * o.y) == y;
    assert WeightsOf(x, y) == Weights(FULL, 0, 0, 0);
    var ul, ur := convert(image.At(o)), convert(image.At(Point(o.x + 1, o.y)));
    var bl, br := convert(image.At(Point(o.x, o.y + 1))), convert(image.At(Point(o.x + 1, o.y + 1)));
    OnlyUpperLeft(ul, ur, bl, br);
  }

  lemma OnlyUpperLeft(ul: Word, ur: Word, bl: Word, br: Word)
    ensures Assemble(ul, ur, bl, br, Weights(FULL, 0, 0, 0)) == ul
  {
    var w := Weights(FULL, 0, 0, 0);
    var m := Assemble(ul, ur, bl, br, w);
    OnlyFirst(m, ul, ur, bl, br, A);
    OnlyFirst(m, ul, ur, bl, br, R);
    OnlyFirst(m, ul, ur, bl, br, G);
    OnlyFirst(m, ul, ur, bl, br, B);
    SameChannels(m, ul);
  }

  lemma OnlyFirst(m: Word, ul: Word, ur: Word, bl: Word, br: Word, name: ChannelName)
    requires m == Assemble(ul, ur, bl, br, Weights(FULL, 0, 0, 0))
    ensures ChannelOf(m, name) == ChannelOf(ul, name)
  {
    var a, b, c, d := ChannelOf(ul, name), ChannelOf(ur, name), ChannelOf(bl, name), ChannelOf(br, name);
    ChannelAssembled(ul, ur, bl, br, Weights(FULL, 0, 0, 0), name);
    assert b * 0 == c * 0 == d * 0 == 0;
    WithoutWrapping(a, b, c, d, Weights(FULL, 0, 0, 0), a * FULL);
  }

  /** The offset is the position of the zoomed pixel, a quarter further on, in 2048ths of a source pixel. */
  lemma OffsetRounds(i: nat, zoom: real)
    requires zoom > 0.0
    ensures var ofs := SourceOfs(i, zoom) as real;
            ofs * zoom <= 2048.0 * (i as real + 0.25) < ofs * zoom + zoom
  {
    var q := (i as real + 0.25) / zoom;
    PositiveQuotient(i as real + 0.25, zoom);
    assert q * zoom == i as real + 0.25;
    var ofs := SourceOfs(i, zoom) as real;
    assert ofs <= q * 2048.0 < ofs + 1.0;
    assert q * 2048.0 * zoom == 2048.0 * (q * zoom);
    ProductBetween(ofs, q * 2048.0, zoom, 2048.0 * (i as real + 0.25));
  }

  lemma ProductBetween(low: real, q: real, z: real, product: real)
    requires z > 0.0 && low <= q < low + 1.0 && q * z == product
    ensures low * z <= product < low * z + z
  {
    var a, b := q - low, low + 1.0 - q;
    assert a * z >= 0.0 && b * z > 0.0;
    assert a * z == q * z - low * z;
    assert b * z == low * z + z - q * z;
  }

  // Nearest neighbour.

  /** The row is that of the position rounded down; the column is at most one more to the left per step's error. */
  lemma NearestPlace<T>(image: Image<T>, convert: T -> Word, zoom: real, p: Point) returns (o: Point)
    requires image.Valid() && zoom > 0.0 && 0 <= p.x && 0 <= p.y
    requires Reaches(p.x, zoom, image.size.w) && Reaches(p.y, zoom, image.size.h)
    ensures Inside(image.size, o) && NearestPixel(image, convert, zoom, p) == convert(image.At(o))
    ensures o.y as real * zoom <= p.y as real < o.y as real * zoom + zoom
    ensures var precision := if zoom > 10.0 then 262144.0 else 2048.0;
            o.x as real <= p.x as real / zoom < o.x as real + 1.0 + p.x as real / precision
  {
    var mul := Precision(zoom);
    var step := Step(zoom, mul);
    var column, row: nat := step * p.x / mul, SourceRow(p.y, zoom);
    o := Point(column, row);
    NearestIsAt(image, convert, zoom, p, o);
    RowRounds(p.y, zoom);
    ColumnRounds(p.x, zoom, mul, step, column);
  }

  lemma NearestIsAt<T>(image: Image<T>, convert: T -> Word, zoom: real, p: Point, o: Point)
    requires image.Valid() && zoom > 0.0 && 0 <= p.x && 0 <= p.y
    requires Reaches(p.x, zoom, image.size.w) && Reaches(p.y, zoom, image.size.h)
    requires o == Point(Step(zoom, Precision(zoom)) * p.x / Precision(zoom), SourceRow(p.y, zoom))
    ensures 0 <= o.x && 0 <= o.y && Inside(image.size, o)
            && NearestPixel(image, convert, zoom, p) == convert(image.At(o))
  {
    RowExists(p.y, zoom, image.size.h);
    ColumnExists(p.x, zoom, Precision(zoom), image.size.w);
  }

  lemma RowRounds(i: nat, zoom: real)
    requires zoom > 0.0
    ensures var row := SourceRow(i, zoom) as real; row * zoom <= i as real < row * zoom + zoom
  {
    var q, row := i as real / zoom, SourceRow(i, zoom) as real;
    PositiveQuotient(i as real, zoom);
    assert q * zoom == i as real;
    assert row <= q < row + 1.0;
    ProductBetween(row, q, zoom, i as real);
  }

  lemma ColumnRounds(i: nat, zoom: real, mul: nat, step: nat, column: nat)
    requires zoom > 0.0 && mul > 0 && step == Step(zoom, mul) && column == step * i / mul
    ensures column as real <= i as real / zoom < column as real + 1.0 + i as real / mul as real
  {
    StepRounds(i, zoom, mul, step);
    ColumnOfSteps(step * i, mul, column);
    Divided(mul as real, column as real, i as real / zoom, i as real, (step * i) as real);
  }

  lemma StepRounds(i: nat, zoom: real, mul: nat, step: nat)
    requires zoom > 0.0 && mul > 0 && step == Step(zoom, mul)
    ensures (step * i) as real <= mul as real * (i as real / zoom) <= (step * i) as real + i as real
  {
    var m, x, exact := mul as real, i as real, mul as real / zoom;
    PositiveQuotient(m, zoom);
    assert exact * x == m * (x / zoom);
    StepsBetween(step as real, exact, x, m * (x / zoom));
    assert (step * i) as real == step as real * x;
  }

  lemma StepsBetween(step: real, exact: real, x: real, product: real)
    requires step <= exact < step + 1.0 && x >= 0.0 && exact * x == product
    ensures step * x <= product <= step * x + x
  {
    var a, b := exact - step, step + 1.0 - exact;
    assert a * x >= 0.0 && b * x >= 0.0;
    assert a * x == exact * x - step * x;
    assert b * x == step * x + x - exact * x;
  }

  lemma ColumnOfSteps(n: nat, mul: nat, column: nat)
    requires mul > 0 && column == n / mul
    ensures mul as real * column as real <= n as real < mul as real * column as real + mul as real
  {
    assert mul * column <= n < mul * column + mul;
    assert (mul * column) as real == mul as real * column as real;
  }

  lemma Divided(m: real, column: real, q: real, x: real, n: real)
    requires m > 0.0 && m * column <= n < m * column + m && n <= m * q <= n + x
    ensures column <= q < column + 1.0 + x / m
  {
    var e := x / m;
    assert e * m == x;
    var under, over := q - column, column + 1.0 + e - q;
    assert under * m == m * q - m * column;
    assert over * m == m * column + m + e * m - m * q;
    SignOfFactor(under, m);
    SignOfFactor(over, m);
  }

  lemma SignOfFactor(a: real, m: real)
    requires m > 0.0
    ensures (a * m >= 0.0 ==> a >= 0.0) && (a * m > 0.0 ==> a > 0.0)
  {
    if a < 0.0 {
      assert (-a) * m > 0.0;
      assert (-a) * m == -(a * m);
    }
  }
}
