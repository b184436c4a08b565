/** Integer geometry shared by the viewer: sizes, points and half-open rectangles. */
module Geometry {
  datatype Size = Size(w: int, h: int)

  datatype Point = Point(x: int, y: int)

  /** Half-open: the rectangle covers left <= x < left + w and top <= y < top + h. */
  datatype Rect = Rect(left: int, top: int, w: int, h: int)
  {
    function Right(): int { left + w }

    function Bottom(): int { top + h }

    predicate Contains(x: int, y: int) {
      left <= x < Right() && top <= y < Bottom()
    }

    /** Intersection; the result has a negative extent when the rectangles are apart. */
    function Crop(r: Rect): Rect {
      var l, t := Max(r.left, left), Max(r.top, top);
      Rect(l, t, Min(r.Right(), Right()) - l, Min(r.Bottom(), Bottom()) - t)
    }
  }

  function Max(a: int, b: int): int { if a < b then b else a }

  function Min(a: int, b: int): int { if b < a then b else a }

  function Abs(a: int): int { if a < 0 then -a else a }

  /** Integer division that drops the fraction, whatever the sign. */
  function TruncDiv(a: int, b: int): int
    requires b > 0
  {
    if a >= 0 then a / b else -((-a) / b)
  }

  predicate IsPositive(s: Size) { s.w > 0 && s.h > 0 }

  /** Add one half and drop the fraction. */
  function RoundCast(r: real): int {
    var shifted := r + 0.5;
    if shifted >= 0.0 then shifted.Floor else -((-shifted).Floor)
  }

  function ZoomedSize(size: Size, zoom: real): Size {
    Size(RoundCast(size.w as real * zoom), RoundCast(size.h as real * zoom))
  }

  /** To the nearest pixel, halves up. */
  lemma RoundsHalfUp(r: real)
    requires r >= 0.0
    ensures RoundCast(r) as real - 0.5 <= r < RoundCast(r) as real + 0.5
  {
  }

  lemma ZoomedSizeRounds(size: Size, zoom: real)
    requires 0 <= size.w && 0 <= size.h && zoom > 0.0
    ensures var z := ZoomedSize(size, zoom);
            && z.w as real - 0.5 <= size.w as real * zoom < z.w as real + 0.5
            && z.h as real - 0.5 <= size.h as real * zoom < z.h as real + 0.5
  {
    RoundsHalfUp(size.w as real * zoom);
    RoundsHalfUp(size.h as real * zoom);
  }

  /** How many of the rectangles contain the point. */
  function Hits(rects: seq<Rect>, x: int, y: int): nat {
    if rects == [] then 0
    else Hits(rects[..|rects| - 1], x, y) + (if rects[|rects| - 1].Contains(x, y) then 1 else 0)
  }

  lemma HitsOfAppended(rects: seq<Rect>, r: Rect, x: int, y: int)
    ensures Hits(rects + [r], x, y) == Hits(rects, x, y) + (if r.Contains(x, y) then 1 else 0)
  {
    assert (rects + [r])[..|rects|] == rects;
  }

  lemma {:induction false} HitBy(rects: seq<Rect>, x: int, y: int) returns (i: nat)
    requires Hits(rects, x, y) > 0
    ensures i < |rects| && rects[i].Contains(x, y)
  {
    i := |rects| - 1;
    if !rects[i].Contains(x, y) {
      i := HitBy(rects[..i], x, y);
    }
  }

  lemma {:induction false} HitsOfConcat(a: seq<Rect>, b: seq<Rect>, x: int, y: int)
    ensures Hits(a + b, x, y) == Hits(a, x, y) + Hits(b, x, y)
    decreases |b|
  {
    if b == [] {
      assert a + b == a;
    } else {
      var front := b[..|b| - 1];
      HitsOfConcat(a, front, x, y);
      assert a + b == a + front + [b[|b| - 1]];
      HitsOfAppended(a + front, b[|b| - 1], x, y);
    }
  }
}
