/** The tiled redraw strategy: repaint only what a pan or a resize uncovers. */
module TiledRedraw {
  import opened Common
  import opened Geometry
  import Rotation
  import opened TileGrid
  import opened TileManagement

  /** The properties that the pixels of a zoomed image depend on. */
  datatype PixelProperties = PixelProperties(
    background: int, brightness: int, contrast: int, gamma: int, filter: int, retainAlpha: bool, zoom: real)

  /** The angle is applied when tiles are presented, so it is not one of the pixel properties. */
  datatype Properties = Properties(pixel: PixelProperties, angle: Rotation.Angle)

  /**
   An image surface as the strategy sees it: its identity, whether it was written to since it was last
   asked, and what it looks like, unrotated, for given properties.
   */
  datatype Surface = Surface(id: nat, size: Size, dirty: bool, zoomed: PixelProperties -> PixelMap)

  /** Screen pan to image pan; flips and rotations only happen during presentation. */
  function TransformPan(pan: Point, image: Size, area: Size, angle: Rotation.Angle): Point {
    match angle
    case RotateDefault => pan
    case FlipX => Point(Max(0, image.w - area.w - pan.x), pan.y)
    case FlipY => Point(pan.x, Max(0, image.h - area.h - pan.y))
    case Rotate90 => Point(pan.y, Max(0, image.h - area.w - pan.x))
    case Rotate90FlipY => Point(Max(0, image.w - area.h - pan.y), Max(0, image.h - area.w - pan.x))
    case Rotate180 => Point(Max(0, image.w - area.w - pan.x), Max(0, image.h - area.h - pan.y))
    case Rotate270 => Point(Max(0, image.w - area.h - pan.y), pan.x)
    case Rotate270FlipY => Point(pan.y, pan.x)
  }

  /** The angles that run the window against the image, from right to left and from bottom to top. */
  predicate ReversesX(angle: Rotation.Angle) {
    angle in {Rotation.FlipX, Rotation.Rotate90, Rotation.Rotate90FlipY, Rotation.Rotate180}
  }

  predicate ReversesY(angle: Rotation.Angle) {
    angle in {Rotation.FlipY, Rotation.Rotate90FlipY, Rotation.Rotate180, Rotation.Rotate270}
  }

  /** Along one axis the window lies before the end of the turned image, or is larger and not panned at all. */
  predicate AxisPanned(pan: int, window: int, image: int) {
    if window <= image then pan <= image - window else pan == 0
  }

  /** Only where it runs against the image does it matter how far the window is panned. */
  predicate PanFits(pan: Point, image: Size, area: Size, angle: Rotation.Angle) {
    var turned := Rotation.TurnedSize(image, angle);
    && (ReversesX(angle) ==> AxisPanned(pan.x, area.w, turned.w))
    && (ReversesY(angle) ==> AxisPanned(pan.y, area.h, turned.h))
  }

  /**
   What is drawn of the image from `drawn` on, a client of the given size, is once it is turned the region of the
   turned image from `pan` on: each pixel of it comes from the same pixel of the image.
   */
  ghost predicate IsTurnedRegion(drawn: Point, client: Size, pan: Point, image: Size, angle: Rotation.Angle) {
    forall x, y :: IsTurnedAt(drawn, client, pan, image, angle, x, y)
  }

  predicate IsTurnedAt(drawn: Point, client: Size, pan: Point, image: Size, angle: Rotation.Angle, x: int, y: int) {
    var o := Rotation.Origin(angle, client, Point(x, y));
    Rotation.Origin(angle, image, Point(pan.x + x, pan.y + y)) == Point(drawn.x + o.x, drawn.y + o.y)
  }

  /** So it is, for all eight angles, exactly if the pan fits. */
  lemma PanIsTurned(pan: Point, image: Size, area: Size, angle: Rotation.Angle)
    ensures IsTurnedRegion(TransformPan(pan, image, area, angle), ClientSize(area, angle, image), pan, image, angle)
            <==> PanFits(pan, image, area, angle)
  {
    var drawn, client := TransformPan(pan, image, area, angle), ClientSize(area, angle, image);
    if PanFits(pan, image, area, angle) {
      forall x, y
        ensures IsTurnedAt(drawn, client, pan, image, angle, x, y)
      {
        PanAtPixel(pan, image, area, angle, x, y);
      }
    } else {
      PanAtPixel(pan, image, area, angle, 0, 0);
    }
  }

  lemma PanAtPixel(pan: Point, image: Size, area: Size, angle: Rotation.Angle, x: int, y: int)
    ensures IsTurnedAt(TransformPan(pan, image, area, angle), ClientSize(area, angle, image), pan, image, angle, x, y)
            <==> PanFits(pan, image, area, angle)
  {
  }

  /** Panned too far where the window runs against the image, the image is drawn from its edge on. */
  lemma PanIsCut(pan: Point, image: Size, area: Size, angle: Rotation.Angle)
    ensures var drawn, turned := TransformPan(pan, image, area, angle), Rotation.TurnedSize(image, angle);
            && (ReversesX(angle) && pan.x >= turned.w - area.w ==>
                (if Rotation.Turns(angle) then drawn.y else drawn.x) == 0)
            && (ReversesY(angle) && pan.y >= turned.h - area.h ==>
                (if Rotation.Turns(angle) then drawn.x else drawn.y) == 0)
  {
  }

  /** The same rectangle that rendering to a buffer takes for this region, for the angles it supports. */
  lemma PanIsRotateRect(pan: Point, image: Size, area: Size, angle: Rotation.Angle)
    requires Rotation.Within(Rect(pan.x, pan.y, area.w, area.h), Rotation.TurnedSize(image, angle))
    ensures var drawn, client := TransformPan(pan, image, area, angle), ClientSize(area, angle, image);
            match Rotation.RotateRect(Rect(pan.x, pan.y, area.w, area.h), Rotation.TurnedSize(image, angle), angle)
            case Some(r) => r == Rect(drawn.x, drawn.y, client.w, client.h)
            case None => angle in {Rotation.Rotate90FlipY, Rotation.Rotate270FlipY}
  {
  }

  function ClientSize(area: Size, angle: Rotation.Angle, zoomed: Size): Size {
    var t := Rotation.TurnedSize(area, angle);
    Size(Min(t.w, zoomed.w), Min(t.h, zoomed.h))
  }

  /** Centres the client in the window; a client as large as the window gets no margin. */
  function Margin(area: Size, client: Size): Size {
    Size(Max(0, RoundCast((area.w - client.w) as real * 0.5)), Max(0, RoundCast((area.h - client.h) as real * 0.5)))
  }

  /** On both sides of the client the window has the same margin, but for a pixel; none if the client fills it. */
  lemma MarginCentres(area: Size, client: Size)
    requires client.w <= area.w && client.h <= area.h
    ensures var m := Margin(area, client);
            && 0 <= m.w - (area.w - client.w - m.w) <= 1 && 0 <= m.h - (area.h - client.h - m.h) <= 1
  {
    RoundsHalfUp((area.w - client.w) as real * 0.5);
    RoundsHalfUp((area.h - client.h) as real * 0.5);
  }

  predicate IsFullScreenPan(panDelta: int, sizeDelta: int, client: int) {
    Abs(panDelta) > client || (panDelta < 0 && panDelta + sizeDelta < 0)
  }

  datatype Outcome =
    | NoSurface                      // nothing to draw
    | BadSize                        // the viewport size was negative
    | Empty                          // nothing of the image is visible
    | Shown(frame: seq<Blit>, margin: Size, client: Size, pan: Point)

  /** Each pixel of the client is covered once and shows the image at pan + pixel; nothing else is drawn. */
  ghost predicate ShowsImage(o: Outcome, image: PixelMap)
    requires o.Shown?
  {
    && (forall sx, sy :: Hits(Dests(o.frame), sx, sy)
                         == if InRect(o.client, sx - o.margin.w, sy - o.margin.h) then 1 else 0)
    && forall i, sx, sy :: 0 <= i < |o.frame| && o.frame[i].dest.Contains(sx, sy) ==>
         o.frame[i].ColourAt(sx, sy) == image(o.pan.x + sx - o.margin.w, o.pan.y + sy - o.margin.h)
  }

  /** The frame draws this colour at a pixel of the client. */
  ghost predicate ShowsAt(o: Outcome, x: int, y: int, colour: Color)
    requires o.Shown?
  {
    exists i :: 0 <= i < |o.frame| && o.frame[i].dest.Contains(x + o.margin.w, y + o.margin.h)
                && o.frame[i].ColourAt(x + o.margin.w, y + o.margin.h) == colour
  }

  /** Each pixel of the client is covered once and has the colour of the picture. */
  ghost predicate Presents(o: Outcome, picture: PixelMap)
    requires o.Shown?
  {
    && (forall sx, sy :: Hits(Dests(o.frame), sx, sy)
                         == if InRect(o.client, sx - o.margin.w, sy - o.margin.h) then 1 else 0)
    && forall i, sx, sy :: 0 <= i < |o.frame| && o.frame[i].dest.Contains(sx, sy) ==>
         && InRect(o.client, sx - o.margin.w, sy - o.margin.h)
         && o.frame[i].ColourAt(sx, sy) == picture(sx - o.margin.w, sy - o.margin.h)
  }

  lemma PresentedAt(o: Outcome, picture: PixelMap, x: int, y: int)
    requires o.Shown? && Presents(o, picture) && InRect(o.client, x, y)
    ensures ShowsAt(o, x, y, picture(x, y))
  {
    var sx, sy := x + o.margin.w, y + o.margin.h;
    assert Hits(Dests(o.frame), sx, sy) == 1;
    var i := HitBy(Dests(o.frame), sx, sy);
    assert o.frame[i].dest.Contains(sx, sy) && o.frame[i].ColourAt(sx, sy) == picture(sx - o.margin.w, sy - o.margin.h);
  }

  lemma PresentedImage(o: Outcome, picture: PixelMap, image: PixelMap)
    requires o.Shown? && Presents(o, picture)
    requires Matches(picture, Whole(o.client), image, o.pan)
    ensures ShowsImage(o, image)
  {
    forall i, sx, sy | 0 <= i < |o.frame| && o.frame[i].dest.Contains(sx, sy)
      ensures o.frame[i].ColourAt(sx, sy) == image(o.pan.x + sx - o.margin.w, o.pan.y + sy - o.margin.h)
    {
      var x, y := sx - o.margin.w, sy - o.margin.h;
      assert Whole(o.client).Contains(x, y);
      assert o.pan.x + x == o.pan.x + sx - o.margin.w && o.pan.y + y == o.pan.y + sy - o.margin.h;
    }
  }

  function Whole(s: Size): Rect { Rect(0, 0, s.w, s.h) }

  /** All that the strategy keeps in mind from one call to the next, except what its tiles show. */
  datatype Record = Record(
    tiled: bool,              // there is a tile manager, with the following view and offset
    view: Size,
    offset: Size,
    redrawNext: bool,
    pan: Point,
    size: Size,
    surface: Option<nat>,
    pixel: PixelProperties,
    intact: bool)             // no tile was thrown away that `size` still counts on
  {
    /** The tiles for the present view are enough for all that was painted. */
    predicate Fits() {
      size.w + offset.w <= TilesFor(view.w) * EDGE && size.h + offset.h <= TilesFor(view.h) * EDGE
    }

    predicate RepaintsAll(s: Surface, client: Size, to: Point, props: PixelProperties) {
      || redrawNext || s.dirty || props != pixel || surface != Some(s.id)
      || IsFullScreenPan(pan.x - to.x, size.w - client.w, client.w)
      || IsFullScreenPan(pan.y - to.y, size.h - client.h, client.h)
    }

    /** After a call that found so much of the surface visible. */
    function Visible(s: Surface, client: Size, to: Point, props: PixelProperties): Record {
      if client.w < 0 || client.h < 0 then this
      else if !IsPositive(client) then
        // The size painted is not brought up to date.
        var r := this.(view := client);
        r.(intact := r.intact && (r.redrawNext || r.Fits()))
      else Painted(s, client, to, props, RepaintsAll(s, client, to, props))
    }

    function Painted(s: Surface, client: Size, to: Point, props: PixelProperties, all: bool): Record {
      Record(tiled, client, if all then offset else ShiftedOffset(offset, Size(pan.x - to.x, pan.y - to.y)),
             false, to, client, Some(s.id), props, intact || all)
    }

    function WithTiles(): Record { if tiled then this else this.(tiled := true, redrawNext := true) }

    function After(e: Event): Record {
      if e.Reset? then this.(tiled := false, view := Size(0, 0), offset := Size(0, 0))
      else if e.surface.None? then this
      else WithTiles().Visible(e.surface.value, e.Client(), e.ImagePan(), e.props.pixel)
    }
  }

  class RedrawStrategyTiled {
    var tiles: TileManager?
    var redrawNext: bool
    var currPosition: Point
    var currentSize: Size
    var prevProperties: PixelProperties
    var prevSurface: Option<nat>
    // Textures start out with this content.
    const blank: PixelMap
    // The image the cache was last painted from.
    ghost var cached: PixelMap
    // Whether no resize threw away tiles that currentSize still counts on.
    ghost var intact: bool

    ghost predicate Valid()
      reads this, tiles
    {
      tiles != null ==>
        && tiles.Valid() && tiles.blank == blank
        && (!redrawNext ==> tiles.tiles != [] && currentSize.w > 0 && currentSize.h > 0)
        && (!redrawNext && intact ==>
              tiles.Fits(currentSize) && tiles.GoodOn(Whole(currentSize), cached, currPosition))
    }

    /** The tiles cover the view and can be drawn on. */
    ghost predicate Ready()
      reads this, tiles
    {
      tiles != null && tiles.Valid() && tiles.tiles != [] && tiles.Fits(tiles.viewSize)
    }

    ghost function Now(): Record
      reads this, tiles
    {
      Record(tiles != null, if tiles == null then Size(0, 0) else tiles.viewSize,
             if tiles == null then Size(0, 0) else tiles.topLeftOffset,
             redrawNext, currPosition, currentSize, prevSurface, prevProperties, intact)
    }

    constructor (blank: PixelMap, anyProperties: PixelProperties)
      ensures Valid() && tiles == null && this.blank == blank && Now() == Initially(anyProperties)
    {
      this.blank := blank;
      tiles, redrawNext, prevSurface, intact := null, true, None, true;
      currPosition, currentSize := Point(0, 0), Size(0, 0);
      prevProperties, cached := anyProperties, blank;
    }

    method OnReset()
      requires Valid()
      modifies this`tiles
      ensures Valid() && tiles == null && Now() == old(Now()).After(Reset)
    {
      tiles := null;
    }

    /**
     The environment may repaint a surface only by marking it dirty: an unmarked surface that is still the
     previous one must look as it did when it was cached.
     */
    ghost predicate HonestSurface(s: Surface, p: PixelProperties)
      reads this
    {
      tiles != null && !redrawNext && prevSurface == Some(s.id) && !s.dirty && p == prevProperties ==>
        s.zoomed(p) == cached
    }

    /**
     Draws a rectangle of the view, one loan from the tile manager after the other, and lists the
     rectangles drawn: they partition the destination and none straddles two tiles.
     */
    method RenderArea(image: PixelMap, imageX: int, imageY: int, dest: Rect) returns (drawn: seq<Rect>)
      requires Ready()
      requires dest.w > 0 && dest.h > 0 && dest.left >= 0 && dest.top >= 0
      requires dest.Right() <= tiles.viewSize.w && dest.Bottom() <= tiles.viewSize.h
      modifies tiles`tiles, tiles`picture
      ensures Ready()
      ensures forall x, y :: Hits(drawn, x, y) == if dest.Contains(x, y) then 1 else 0
      ensures forall i :: 0 <= i < |drawn| ==> InOneTile(drawn[i], tiles.topLeftOffset)
      ensures forall x, y :: InRect(tiles.viewSize, x, y) ==>
                tiles.picture(x, y) == if dest.Contains(x, y) then image(imageX + x - dest.left, imageY + y - dest.top)
                                         else old(tiles.picture)(x, y)
    {
      drawn := [];
      var y, moreRows := dest.top, true;
      while moreRows
        invariant dest.top <= y <= dest.Bottom() && (moreRows <==> y < dest.Bottom())
        invariant Ready()
        invariant forall px, py ::
                    Hits(drawn, px, py)
                    == if Rect(dest.left, dest.top, dest.w, y - dest.top).Contains(px, py) then 1 else 0
        invariant forall i :: 0 <= i < |drawn| ==> InOneTile(drawn[i], tiles.topLeftOffset)
        invariant forall px, py :: InRect(tiles.viewSize, px, py) ==>
                    tiles.picture(px, py) == if Rect(dest.left, dest.top, dest.w, y - dest.top).Contains(px, py)
                                               then image(imageX + px - dest.left, imageY + py - dest.top)
                                               else old(tiles.picture)(px, py)
        modifies tiles`tiles, tiles`picture
        decreases dest.Bottom() - y
      {
        var row, height := RenderRow(image, imageX, imageY, dest, y);
        ghost var before := drawn;
        drawn := drawn + row;
        forall px, py
          ensures Hits(drawn, px, py) == Hits(before, px, py) + Hits(row, px, py)
        {
          HitsOfConcat(before, row, px, py);
        }
        y := y + height;
        moreRows := height > 0 && y < dest.Bottom();
      }
    }

    /** The loans that fill the destination from row y on, as far down as the tiles along it reach. */
    method RenderRow(image: PixelMap, imageX: int, imageY: int, dest: Rect, y: int)
      returns (drawn: seq<Rect>, height: int)
      requires Ready()
      requires dest.w > 0 && dest.left >= 0 && dest.top >= 0 && dest.top <= y < dest.Bottom()
      requires dest.Right() <= tiles.viewSize.w && dest.Bottom() <= tiles.viewSize.h
      modifies tiles`tiles, tiles`picture
      ensures Ready()
      ensures 0 < height <= dest.Bottom() - y
      ensures forall px, py ::
                Hits(drawn, px, py) == if Rect(dest.left, y, dest.w, height).Contains(px, py) then 1 else 0
      ensures forall i :: 0 <= i < |drawn| ==> InOneTile(drawn[i], tiles.topLeftOffset)
      ensures forall px, py :: InRect(tiles.viewSize, px, py) ==>
                tiles.picture(px, py) == if Rect(dest.left, y, dest.w, height).Contains(px, py)
                                         then image(imageX + px - dest.left, imageY + py - dest.top)
                                         else old(tiles.picture)(px, py)
    {
      drawn := [];
      var x, wa, moreColumns := dest.left, Size(0, 0), true;
      ghost var room := Room(y + tiles.topLeftOffset.h, dest.Bottom() - y);
      while moreColumns
        invariant dest.left <= x <= dest.Right() && (moreColumns <==> x < dest.Right())
        invariant moreColumns || 0 < wa.h == room <= dest.Bottom() - y
        invariant Ready()
        invariant forall px, py ::
                    Hits(drawn, px, py) == if Rect(dest.left, y, x - dest.left, room).Contains(px, py) then 1 else 0
        invariant forall i :: 0 <= i < |drawn| ==> InOneTile(drawn[i], tiles.topLeftOffset)
        invariant forall px, py :: InRect(tiles.viewSize, px, py) ==>
                    tiles.picture(px, py) == if Rect(dest.left, y, x - dest.left, room).Contains(px, py)
                                             then image(imageX + px - dest.left, imageY + py - dest.top)
                                             else old(tiles.picture)(px, py)
        modifies tiles`tiles, tiles`picture
        decreases dest.Right() - x
      {
        wa := RenderPart(image, imageX, imageY, dest, x, y);
        ghost var before := drawn;
        var part := Rect(x, y, wa.w, wa.h);
        drawn := drawn + [part];
        forall px, py
          ensures Hits(drawn, px, py) == Hits(before, px, py) + (if part.Contains(px, py) then 1 else 0)
        {
          HitsOfAppended(before, part, px, py);
        }
        x := x + wa.w;
        moreColumns := wa.w > 0 && x < dest.Right();
      }
      height := wa.h;
    }

    /** One loan: draws as much of the destination from (x, y) on as its tile has room for. */
    method RenderPart(image: PixelMap, imageX: int, imageY: int, dest: Rect, x: int, y: int) returns (wa: Size)
      requires Ready()
      requires dest.left >= 0 && dest.top >= 0 && dest.Contains(x, y)
      requires dest.Right() <= tiles.viewSize.w && dest.Bottom() <= tiles.viewSize.h
      modifies tiles`tiles, tiles`picture
      ensures Ready()
      ensures 0 < wa.w <= dest.Right() - x && 0 < wa.h <= dest.Bottom() - y
      ensures wa.h == Room(y + tiles.topLeftOffset.h, dest.Bottom() - y)
      ensures InOneTile(Rect(x, y, wa.w, wa.h), tiles.topLeftOffset)
      ensures forall px, py :: InRect(tiles.viewSize, px, py) ==>
                tiles.picture(px, py) == if Rect(x, y, wa.w, wa.h).Contains(px, py)
                                           then image(imageX + px - dest.left, imageY + py - dest.top)
                                           else old(tiles.picture)(px, py)
    {
      var remaining := Rect(x, y, dest.Right() - x, dest.Bottom() - y);
      var res := tiles.RequestDDSurface(remaining);
      var ra := res.value;
      wa := Size(ra.writeable.w, ra.writeable.h);
      LoanInOneTile(ra, remaining, tiles.topLeftOffset);
      tiles.DrawOn(ra, image, imageX + x - dest.left, imageY + y - dest.top);
    }

    ghost predicate CachedAs(surface: Option<nat>, p: PixelProperties, image: PixelMap)
      reads this
    {
      prevSurface == surface && prevProperties == p && cached == image
    }

    /**
     Paints a surface. The frame shows it whenever the record says that the cache is intact; after a resize
     that lost what was painted, a call that repeats the last one shows a fresh texture at the far corner.
     */
    method OnRender(surface: Option<Surface>, area: Size, rawPan: Point, props: Properties) returns (o: Outcome)
      requires Valid()
      requires Render(surface, area, rawPan, props).Paints() ==> HonestSurface(surface.value, props.pixel)
      modifies this, tiles
      ensures Valid()
      ensures tiles != old(tiles) ==> old(tiles) == null && fresh(tiles)
      ensures surface.None? <==> o.NoSurface?
      ensures o.NoSurface? ==> unchanged(this) && (tiles != null ==> unchanged(tiles))
      ensures surface.Some? ==> tiles != null
      ensures Now() == old(Now()).After(Render(surface, area, rawPan, props))
      ensures surface.Some? ==>
                var e := Render(surface, area, rawPan, props);
                && (o.BadSize? <==> e.Client().w < 0 || e.Client().h < 0)
                && (o.Empty? <==> e.IsEmptyCall())
                && (o.Shown? <==> e.Paints())
                && (o.Shown? ==> o.client == e.Client() && o.pan == e.ImagePan()
                                 && o.margin == Margin(Rotation.TurnedSize(area, props.angle), o.client))
      ensures o.Shown? && intact ==> ShowsImage(o, surface.value.zoomed(props.pixel))
      ensures o.Shown? ==>
                var zoomed := ZoomedSize(surface.value.size, props.pixel.zoom);
                IsTurnedRegion(o.pan, o.client, rawPan, zoomed, props.angle)
                <==> PanFits(rawPan, zoomed, area, props.angle)
      ensures o.Shown? && old(Misses(surface.value, o.client, o.pan, props.pixel)) ==>
                ShowsFresh(o, blank, old(Now().offset))
      ensures cached == if o.Shown? then surface.value.zoomed(props.pixel) else old(cached)
    {
      if surface.None? {
        return NoSurface;
      }
      var s := surface.value;
      var zoomed := ZoomedSize(s.size, props.pixel.zoom);
      var client := ClientSize(area, props.angle, zoomed);
      var pan := TransformPan(rawPan, zoomed, area, props.angle);
      PanIsTurned(rawPan, zoomed, area, props.angle);
      EnsureTiles();
      o := RenderVisible(s, client, pan, Margin(Rotation.TurnedSize(area, props.angle), client), props.pixel);
    }

    /** Nothing has changed since the last paint. */
    ghost predicate Repeats(s: Surface, client: Size, pan: Point, props: PixelProperties)
      reads this, tiles
    {
      !Now().RepaintsAll(s, client, pan, props) && client == currentSize && pan == currPosition
    }

    /** So it is, but the tiles no longer reach the end of what was painted. */
    ghost predicate Misses(s: Surface, client: Size, pan: Point, props: PixelProperties)
      reads this, tiles
    {
      tiles != null && !Now().Fits() && Repeats(s, client, pan, props)
    }

    /** Draws a surface of which an area of the given size is visible from `pan` on. */
    method RenderVisible(s: Surface, client: Size, pan: Point, margin: Size, props: PixelProperties)
      returns (o: Outcome)
      requires Valid() && tiles != null
      requires IsPositive(client) ==> HonestSurface(s, props)
      modifies this`redrawNext, this`currPosition, this`currentSize, this`cached, this`intact
      modifies this`prevSurface, this`prevProperties
      modifies tiles
      ensures Valid()
      ensures o == if client.w < 0 || client.h < 0 then BadSize else if !IsPositive(client) then Empty
                   else Shown(if o.Shown? then o.frame else [], margin, client, pan)
      ensures Now() == old(Now()).Visible(s, client, pan, props)
      ensures o.Shown? && intact ==> ShowsImage(o, s.zoomed(props))
      ensures o.Shown? && old(Misses(s, client, pan, props)) ==> ShowsFresh(o, blank, old(Now().offset))
      ensures cached == if o.Shown? then s.zoomed(props) else old(cached)
    {
      var ok := Resize(client);
      if !ok {
        return BadSize;
      }
      if !IsPositive(client) {
        NoteLoss();
        return Empty;
      }
      o := PaintFrame(s, client, pan, margin, props);
    }

    /** Tiles that what was painted still counts on may be gone. */
    ghost method NoteLoss()
      requires Ready() && tiles.blank == blank
      requires !redrawNext ==> currentSize.w > 0 && currentSize.h > 0
      requires !redrawNext && intact && tiles.Fits(currentSize) ==>
                 tiles.GoodOn(Whole(currentSize), cached, currPosition)
      modifies this`intact
      ensures Valid()
      ensures intact == (old(intact) && (redrawNext || Now().Fits()))
    {
      intact := intact && (redrawNext || tiles.Fits(currentSize));
    }

    method PaintFrame(s: Surface, client: Size, pan: Point, margin: Size, props: PixelProperties) returns (o: Outcome)
      requires Ready() && IsPositive(client) && tiles.viewSize == client && tiles.blank == blank
      requires !redrawNext ==> currentSize.w > 0 && currentSize.h > 0
      requires HonestSurface(s, props)
      requires !redrawNext && intact ==> tiles.GoodOn(Whole(MinSize(currentSize, client)), cached, currPosition)
      modifies this`redrawNext, this`currPosition, this`currentSize, this`cached, this`intact
      modifies this`prevSurface, this`prevProperties
      modifies tiles`tiles, tiles`picture, tiles`topLeftOffset
      ensures Valid()
      ensures o == Shown(if o.Shown? then o.frame else [], margin, client, pan)
      ensures Now() == old(Now()).Visible(s, client, pan, props) && cached == s.zoomed(props)
      ensures intact ==> ShowsImage(o, cached)
      ensures old(Repeats(s, client, pan, props)) ==>
                && tiles.topLeftOffset == old(tiles.topLeftOffset)
                && ShowsAt(o, client.w - 1, client.h - 1, old(tiles.picture)(client.w - 1, client.h - 1))
    {
      var _ := Paint(s, client, pan, props);
      o := Present(margin);
      if intact {
        PresentedImage(o, tiles.picture, cached);
      }
      PresentedAt(o, tiles.picture, client.w - 1, client.h - 1);
    }

    /** Makes the resized tiles show the surface, and remembers what they show. */
    method Paint(s: Surface, client: Size, pan: Point, props: PixelProperties) returns (all: bool)
      requires Ready() && IsPositive(client) && tiles.viewSize == client
      requires !redrawNext ==> currentSize.w > 0 && currentSize.h > 0
      requires HonestSurface(s, props)
      requires !redrawNext && intact ==> tiles.GoodOn(Whole(MinSize(currentSize, client)), cached, currPosition)
      modifies this`redrawNext, this`currPosition, this`currentSize, this`cached, this`intact
      modifies this`prevSurface, this`prevProperties
      modifies tiles`tiles, tiles`picture, tiles`topLeftOffset
      ensures Ready()
      ensures all == old(Now()).RepaintsAll(s, client, pan, props)
      ensures Now() == old(Now()).Painted(s, client, pan, props, all) && cached == s.zoomed(props)
      ensures intact ==> tiles.GoodOn(Whole(client), cached, pan)
      ensures old(Repeats(s, client, pan, props)) ==>
                tiles.topLeftOffset == old(tiles.topLeftOffset) && tiles.SamePicture(old(tiles.picture))
    {
      all := Refresh(s, pan, client, props);
      Remember(s, props, all);
    }

    method Remember(s: Surface, props: PixelProperties, ghost all: bool)
      requires tiles != null
      modifies this`redrawNext, this`cached, this`intact, this`prevSurface, this`prevProperties
      ensures Now() == old(Now()).(redrawNext := false, surface := Some(s.id), pixel := props,
                                   intact := old(intact) || all)
      ensures cached == s.zoomed(props)
    {
      prevSurface, prevProperties, redrawNext, cached, intact :=
        Some(s.id), props, false, s.zoomed(props), intact || all;
    }

    /** Sends the tiles to the screen. */
    method Present(margin: Size) returns (o: Outcome)
      requires Ready() && tiles.viewSize == currentSize
      modifies tiles`tiles
      ensures Ready()
      ensures o.Shown? && o.margin == margin && o.client == currentSize && o.pan == currPosition
      ensures Presents(o, tiles.picture)
    {
      var frame := tiles.Render(margin);
      o := Shown(frame, margin, currentSize, currPosition);
    }

    method EnsureTiles()
      requires Valid()
      modifies this`tiles, this`redrawNext
      ensures Valid() && tiles != null
      ensures old(tiles) != null ==> tiles == old(tiles) && redrawNext == old(redrawNext)
      ensures old(tiles) == null ==> fresh(tiles)
      ensures Now() == old(Now()).WithTiles()
    {
      if tiles == null {
        tiles := new TileManager(blank);
        redrawNext := true;
      }
    }

    /** Resizing keeps what is cached wherever the old extent still lies on the grid. */
    method Resize(client: Size) returns (ok: bool)
      requires Valid() && tiles != null
      modifies tiles`tiles, tiles`viewSize, tiles`picture
      ensures ok <==> client.w >= 0 && client.h >= 0
      ensures Now() == if ok then old(Now()).(view := client) else old(Now())
      ensures !ok ==> Valid()
      ensures ok ==> Ready() && tiles.viewSize == client
      ensures ok && !redrawNext && intact && IsPositive(client) ==>
                tiles.GoodOn(Whole(MinSize(currentSize, client)), cached, currPosition)
      ensures ok && !redrawNext && intact && tiles.Fits(currentSize) ==>
                tiles.GoodOn(Whole(currentSize), cached, currPosition)
      ensures ok && IsPositive(client) && !redrawNext && client == currentSize && old(!Now().Fits()) ==>
                tiles.picture(client.w - 1, client.h - 1) == LostColour(blank, client, tiles.topLeftOffset)
    {
      ok := tiles.SetViewportSize(client);
      if ok && !redrawNext && intact {
        assert forall x, y :: InRect(currentSize, x, y) && tiles.OnGrid(x, y) ==>
            tiles.picture(x, y) == cached(currPosition.x + x, currPosition.y + y);
      }
    }

    /** Brings the tiles up to date for a view of the given size at the given pan. */
    method Refresh(s: Surface, pan: Point, client: Size, props: PixelProperties) returns (all: bool)
      requires Ready() && IsPositive(client) && tiles.viewSize == client
      requires !redrawNext ==> currentSize.w > 0 && currentSize.h > 0
      modifies this`redrawNext, this`currPosition, this`currentSize
      modifies tiles`tiles, tiles`picture, tiles`topLeftOffset
      ensures Ready()
      ensures currPosition == pan && currentSize == client
      ensures all == old(Now()).RepaintsAll(s, client, pan, props)
      ensures all || old(tiles.GoodOn(Whole(MinSize(currentSize, client)), s.zoomed(props), currPosition)) ==>
                tiles.GoodOn(Whole(client), s.zoomed(props), pan)
      ensures tiles.topLeftOffset == if all then old(tiles.topLeftOffset)
                                     else ShiftedOffset(old(tiles.topLeftOffset),
                                                        old(Size(currPosition.x - pan.x, currPosition.y - pan.y)))
      ensures old(Repeats(s, client, pan, props)) ==>
                tiles.topLeftOffset == old(tiles.topLeftOffset) && tiles.SamePicture(old(tiles.picture))
    {
      var delta := Size(currPosition.x - pan.x, currPosition.y - pan.y);
      var sizeDelta := Size(currentSize.w - client.w, currentSize.h - client.h);
      if props != prevProperties || prevSurface != Some(s.id) {
        redrawNext := true;
      }
      redrawNext := redrawNext || IsFullScreenPan(delta.w, sizeDelta.w, client.w);
      redrawNext := redrawNext || IsFullScreenPan(delta.h, sizeDelta.h, client.h);
      all := redrawNext || s.dirty;
      if all {
        RenderBar(s.zoomed(props), pan.x, pan.y, Whole(client), true, pan, Corners(0, 0, 0, 0), Whole(client));
      } else {
        Update(s.zoomed(props), pan, client, delta, sizeDelta);
      }
      currPosition, currentSize := pan, client;
    }

    /** Shifts what is cached and repaints the bars that the shift and a growing client uncover. */
    method Update(image: PixelMap, pan: Point, client: Size, panDelta: Size, sizeDelta: Size)
      requires Ready() && IsPositive(client) && tiles.viewSize == client
      requires currentSize.w > 0 && currentSize.h > 0
      requires panDelta == Size(currPosition.x - pan.x, currPosition.y - pan.y)
      requires sizeDelta == Size(currentSize.w - client.w, currentSize.h - client.h)
      requires !IsFullScreenPan(panDelta.w, sizeDelta.w, client.w)
               && !IsFullScreenPan(panDelta.h, sizeDelta.h, client.h)
      modifies tiles`tiles, tiles`picture, tiles`topLeftOffset
      ensures Ready()
      ensures old(tiles.GoodOn(Whole(MinSize(currentSize, client)), image, currPosition)) ==>
                tiles.GoodOn(Whole(client), image, pan)
      ensures tiles.topLeftOffset == ShiftedOffset(old(tiles.topLeftOffset), panDelta)
      ensures client == currentSize && pan == currPosition ==> tiles.SamePicture(old(tiles.picture))
    {
      ghost var held := tiles.GoodOn(Whole(MinSize(currentSize, client)), image, currPosition);
      // What is still right after the shift is a rectangle; every bar makes it grow.
      ghost var x0, x1 := Max(0, panDelta.w), Min(client.w, panDelta.w + Min(client.w + sizeDelta.w, client.w));
      Shift(image, currPosition, pan, MinSize(currentSize, client), client, panDelta);
      UpdateRows(image, pan, client, panDelta.h, sizeDelta.h, held, x0, x1);
      UpdateColumns(image, pan, client, panDelta.w, sizeDelta.w, held);
    }

    /** Shifts what was right from one pan to another; of the client, this much of it is still right. */
    method Shift(ghost image: PixelMap, ghost from: Point, ghost pan: Point, ghost extent: Size, ghost client: Size,
                 delta: Size)
      requires Ready() && delta == Size(from.x - pan.x, from.y - pan.y)
      requires tiles.viewSize == client && extent.w <= client.w && extent.h <= client.h
      modifies tiles`tiles, tiles`picture, tiles`topLeftOffset
      ensures Ready()
      ensures tiles.topLeftOffset == ShiftedOffset(old(tiles.topLeftOffset), delta)
      ensures delta.w == 0 && delta.h == 0 ==> tiles.SamePicture(old(tiles.picture))
      ensures old(tiles.GoodOn(Whole(extent), image, from)) ==>
                tiles.GoodOn(Corners(Max(0, delta.w), Max(0, delta.h), Min(client.w, delta.w + extent.w),
                                     Min(client.h, delta.h + extent.h)),
                             image, pan)
    {
      ghost var before, held := tiles.picture, tiles.GoodOn(Whole(extent), image, from);
      tiles.AddOffset(delta);
      StillPicture(before, tiles.picture, delta);
      if held {
        ShiftedPicture(before, tiles.picture, image, from, pan, delta, extent,
                       Corners(Max(0, delta.w), Max(0, delta.h), Min(client.w, delta.w + extent.w),
                               Min(client.h, delta.h + extent.h)));
      }
    }

    /** Top and bottom bar. */
    method UpdateRows(image: PixelMap, pan: Point, client: Size, panDelta: int, sizeDelta: int,
                      ghost held: bool, ghost x0: int, ghost x1: int)
      requires Ready() && IsPositive(client) && tiles.viewSize == client && client.h + sizeDelta > 0
      requires !IsFullScreenPan(panDelta, sizeDelta, client.h)
      requires 0 <= x0 && x1 <= client.w
      requires held ==>
                 tiles.GoodOn(Corners(x0, Max(0, panDelta), x1,
                                      Min(client.h, panDelta + Min(client.h + sizeDelta, client.h))),
                                     image, pan)
      modifies tiles`tiles, tiles`picture
      ensures Ready()
      ensures held ==> tiles.GoodOn(Corners(x0, 0, x1, client.h), image, pan)
      ensures panDelta == 0 && sizeDelta >= 0 ==> tiles.picture == old(tiles.picture)
    {
      var delta := panDelta;
      ghost var y1 := Min(client.h, panDelta + Min(client.h + sizeDelta, client.h));
      if delta > 0 {
        RenderBar(image, pan.x, pan.y, Rect(0, 0, client.w, delta),
                  held, pan, Corners(x0, delta, x1, y1), Corners(x0, 0, x1, y1));
      }
      if sizeDelta < 0 {
        delta := delta + sizeDelta;
      }
      if delta < 0 {
        RenderBar(image, pan.x, pan.y + client.h + delta, Rect(0, client.h + delta, client.w, -delta),
                  held, pan, Corners(x0, 0, x1, y1), Corners(x0, 0, x1, client.h));
      }
    }

    /** Left and right bar. */
    method UpdateColumns(image: PixelMap, pan: Point, client: Size, panDelta: int, sizeDelta: int, ghost held: bool)
      requires Ready() && IsPositive(client) && tiles.viewSize == client && client.w + sizeDelta > 0
      requires !IsFullScreenPan(panDelta, sizeDelta, client.w)
      requires held ==>
                 tiles.GoodOn(Corners(Max(0, panDelta), 0,
                                      Min(client.w, panDelta + Min(client.w + sizeDelta, client.w)), client.h),
                                     image, pan)
      modifies tiles`tiles, tiles`picture
      ensures Ready()
      ensures held ==> tiles.GoodOn(Whole(client), image, pan)
      ensures panDelta == 0 && sizeDelta >= 0 ==> tiles.picture == old(tiles.picture)
    {
      var delta := panDelta;
      ghost var x1 := Min(client.w, panDelta + Min(client.w + sizeDelta, client.w));
      if delta > 0 {
        RenderBar(image, pan.x, pan.y, Rect(0, 0, delta, client.h),
                  held, pan, Corners(delta, 0, x1, client.h), Corners(0, 0, x1, client.h));
      }
      if sizeDelta < 0 {
        delta := delta + sizeDelta;
      }
      if delta < 0 {
        RenderBar(image, pan.x + client.w + delta, pan.y, Rect(client.w + delta, 0, -delta, client.h),
                  held, pan, Corners(0, 0, x1, client.h), Whole(client));
      }
    }

    /** Repaints a bar; if what was right and the bar cover a rectangle, that rectangle is right afterwards. */
    method RenderBar(image: PixelMap, imageX: int, imageY: int, bar: Rect,
                     ghost held: bool, ghost pan: Point, ghost right: Rect, ghost grown: Rect)
      requires Ready()
      requires bar.w > 0 && bar.h > 0 && bar.left >= 0 && bar.top >= 0
      requires bar.Right() <= tiles.viewSize.w && bar.Bottom() <= tiles.viewSize.h
      requires imageX == pan.x + bar.left && imageY == pan.y + bar.top
      requires held ==> tiles.GoodOn(right, image, pan)
      requires forall x, y :: grown.Contains(x, y) ==>
                 InRect(tiles.viewSize, x, y) && (right.Contains(x, y) || bar.Contains(x, y))
      modifies tiles`tiles, tiles`picture
      ensures Ready()
      ensures held ==> tiles.GoodOn(grown, image, pan)
    {
      var _ := RenderArea(image, imageX, imageY, bar);
    }
  }

  function Initially(anyProperties: PixelProperties): Record {
    Record(false, Size(0, 0), Size(0, 0), true, Point(0, 0), Size(0, 0), None, anyProperties, true)
  }

  /** What a fresh texture shows at the far corner of a client. */
  function LostColour(blank: PixelMap, client: Size, offset: Size): Color {
    blank((client.w - 1 + offset.w) % EDGE, (client.h - 1 + offset.h) % EDGE)
  }

  lemma StillPicture(before: PixelMap, after: PixelMap, delta: Size)
    requires forall x, y :: after(x, y) == before(x - delta.w, y - delta.h)
    ensures delta.w == 0 && delta.h == 0 ==> forall x, y :: after(x, y) == before(x, y)
  {
  }

  /** What was right at one pan is right at another once it is shifted by the difference. */
  lemma ShiftedPicture(before: PixelMap, after: PixelMap, image: PixelMap, from: Point, pan: Point, delta: Size,
                       extent: Size, right: Rect)
    requires delta == Size(from.x - pan.x, from.y - pan.y)
    requires forall x, y :: after(x, y) == before(x - delta.w, y - delta.h)
    requires Matches(before, Whole(extent), image, from)
    requires delta.w <= right.left && right.Right() <= delta.w + extent.w
    requires delta.h <= right.top && right.Bottom() <= delta.h + extent.h
    ensures Matches(after, right, image, pan)
  {
    forall x, y | right.Contains(x, y)
      ensures after(x, y) == image(pan.x + x, pan.y + y)
    {
      assert Whole(extent).Contains(x - delta.w, y - delta.h);
      assert from.x + (x - delta.w) == pan.x + x && from.y + (y - delta.h) == pan.y + y;
    }
  }

  function MinSize(a: Size, b: Size): Size { Size(Min(a.w, b.w), Min(a.h, b.h)) }

  function Corners(left: int, top: int, right: int, bottom: int): Rect { Rect(left, top, right - left, bottom - top) }

  predicate InOneTile(r: Rect, off: Size) {
    && r.w > 0 && r.h > 0
    && (r.left + off.w) / EDGE == (r.Right() - 1 + off.w) / EDGE
    && (r.top + off.h) / EDGE == (r.Bottom() - 1 + off.h) / EDGE
  }

  lemma LoanInOneTile(ra: RequestedArea, area: Rect, off: Size)
    requires IsLoan(ra, area, off)
    ensures InOneTile(Rect(area.left, area.top, ra.writeable.w, ra.writeable.h), off)
  {
    var w := ra.writeable;
    assert (ra.tileX * EDGE + w.left) / EDGE == ra.tileX && (ra.tileX * EDGE + w.left + w.w - 1) / EDGE == ra.tileX;
    assert (ra.tileY * EDGE + w.top) / EDGE == ra.tileY && (ra.tileY * EDGE + w.top + w.h - 1) / EDGE == ra.tileY;
  }

  /** One thing that happens to the strategy: the device is lost, or the window is painted. */
  datatype Event = Reset | Render(surface: Option<Surface>, area: Size, pan: Point, props: Properties)
  {
    function Zoomed(): Size
      requires Render? && surface.Some?
    {
      ZoomedSize(surface.value.size, props.pixel.zoom)
    }

    /** As much as is visible of the surface. */
    function Client(): Size
      requires Render? && surface.Some?
    {
      ClientSize(area, props.angle, Zoomed())
    }

    function ImagePan(): Point
      requires Render? && surface.Some?
    {
      TransformPan(pan, Zoomed(), area, props.angle)
    }

    predicate Paints() { Render? && surface.Some? && IsPositive(Client()) }

    /** A call that finds nothing of the surface visible. */
    predicate IsEmptyCall() {
      && Render? && surface.Some?
      && Client().w >= 0 && Client().h >= 0 && !IsPositive(Client())
    }

    ghost function Image(): PixelMap
      requires Render? && surface.Some?
    {
      surface.value.zoomed(props.pixel)
    }
  }

  /**
   Whoever writes to a surface marks it dirty: of two consecutive paints of one surface, the second either
   finds the mark or shows the same image for the same properties.
   */
  ghost predicate Honest(history: seq<Event>) {
    forall i, j :: 0 <= i < j < |history| && FollowsPaint(history, i, j) && history[j].Paints()
                   && history[i].surface.value.id == history[j].surface.value.id
                   && history[i].props.pixel == history[j].props.pixel && !history[j].surface.value.dirty ==>
      history[i].Image() == history[j].Image()
  }

  /** Event i was the latest paint before event j. */
  ghost predicate FollowsPaint(history: seq<Event>, i: int, j: int)
    requires 0 <= i < |history| && j <= |history|
  {
    history[i].Paints() && forall k :: i < k < j ==> !history[k].Paints()
  }

  /** The record before the n-th event of a history. */
  function Log(start: PixelProperties, history: seq<Event>, n: nat): Record
    requires n <= |history|
  {
    if n == 0 then Initially(start) else Log(start, history, n - 1).After(history[n - 1])
  }

  /**
   For every history, every frame shows the image a full redraw would show, as long as the cache was intact
   or is painted anew.
   */
  method Replay(blank: PixelMap, start: PixelProperties, history: seq<Event>) returns (outcomes: seq<Outcome>)
    requires Honest(history)
    ensures |outcomes| == |history|
    ensures forall i :: 0 <= i < |history| ==> (outcomes[i].Shown? <==> history[i].Paints())
    ensures forall i :: 0 <= i < |history| && history[i].Paints() && Log(start, history, i + 1).intact ==>
              ShowsImage(outcomes[i], history[i].Image())
  {
    outcomes := [];
    var strategy := new RedrawStrategyTiled(blank, start);
    ghost var last, r := -1, Initially(start);
    for n := 0 to |history|
      invariant fresh(strategy) && (strategy.tiles != null ==> fresh(strategy.tiles)) && strategy.Valid()
      invariant strategy.Now() == r == Log(start, history, n)
      invariant |outcomes| == n && forall i :: 0 <= i < n ==> IsRight(outcomes[i], start, history, i)
      invariant LastPaint(history, last, n)
      invariant strategy.tiles != null && !strategy.redrawNext ==> CachedFrom(strategy, history, last)
    {
      var o := Happen(strategy, history, n, last);
      r := r.After(history[n]);
      outcomes := outcomes + [o];
      last := if history[n].Paints() then n else last;
    }
    assert forall i :: 0 <= i < |history| ==> IsRight(outcomes[i], start, history, i);
  }

  ghost predicate IsRight(o: Outcome, start: PixelProperties, history: seq<Event>, i: nat)
    requires i < |history|
  {
    && (o.Shown? <==> history[i].Paints())
    && (history[i].Paints() && Log(start, history, i + 1).intact ==> ShowsImage(o, history[i].Image()))
  }

  /** Event i was the latest paint before event n; -1 stands for none. */
  ghost predicate LastPaint(history: seq<Event>, i: int, n: nat)
    requires n <= |history|
  {
    if i == -1 then forall k :: 0 <= k < n ==> !history[k].Paints() else 0 <= i < n && FollowsPaint(history, i, n)
  }

  /** The n-th event of a history of which event `last`, if any, was the latest paint. */
  method Happen(strategy: RedrawStrategyTiled, history: seq<Event>, n: nat, ghost last: int) returns (o: Outcome)
    requires n < |history| && Honest(history) && strategy.Valid()
    requires LastPaint(history, last, n)
    requires strategy.tiles != null && !strategy.redrawNext ==> CachedFrom(strategy, history, last)
    modifies strategy, strategy.tiles
    ensures strategy.Valid()
    ensures strategy.tiles == null || strategy.tiles == old(strategy.tiles) || fresh(strategy.tiles)
    ensures strategy.Now() == old(strategy.Now()).After(history[n])
    ensures o.Shown? <==> history[n].Paints()
    ensures history[n].Paints() && strategy.intact ==> ShowsImage(o, history[n].Image())
    ensures strategy.tiles != null && !strategy.redrawNext ==>
              CachedFrom(strategy, history, if history[n].Paints() then n else last)
  {
    match history[n]
    case Reset =>
      strategy.OnReset();
      o := NoSurface;
    case Render(surface, area, pan, props) =>
      if history[n].Paints() && last >= 0 {
        assert FollowsPaint(history, last, n);
      }
      o := strategy.OnRender(surface, area, pan, props);
  }

  /** The strategy last painted the surface of event i. */
  ghost predicate CachedFrom(s: RedrawStrategyTiled, history: seq<Event>, i: int)
    reads s
  {
    && 0 <= i < |history| && history[i].Paints()
    && s.CachedAs(Some(history[i].surface.value.id), history[i].props.pixel, history[i].Image())
  }

  /** The call finds nothing visible, and leaves fewer tiles than what was painted needs. */
  predicate LosesTiles(r: Record, e: Event) {
    e.IsEmptyCall() && r.tiled && !r.redrawNext && !r.(view := e.Client()).Fits()
  }

  /**
   Only a call with an empty client area can make the cache lose what is painted, and exactly if the tiles
   no longer fit what was recorded; a frame painted anew makes good for it.
   */
  lemma IntactUnlessLost(r: Record, e: Event)
    ensures r.intact ==> (r.After(e).intact <==> !LosesTiles(r, e))
    ensures !r.intact ==> (r.After(e).intact <==>
                           e.Paints() && r.WithTiles().RepaintsAll(e.surface.value, e.Client(), e.ImagePan(),
                                                                   e.props.pixel))
  {
  }

  /** In a history without such a call, every frame is right, whatever else happens. */
  lemma {:induction false} IntactThroughout(start: PixelProperties, history: seq<Event>, n: nat)
    requires n <= |history|
    requires forall k :: 0 <= k < n ==> !LosesTiles(Log(start, history, k), history[k])
    ensures Log(start, history, n).intact
  {
    if n > 0 {
      IntactThroughout(start, history, n - 1);
      IntactUnlessLost(Log(start, history, n - 1), history[n - 1]);
    }
  }

  /** The far corner of the client shows a fresh texture. */
  ghost predicate ShowsFresh(o: Outcome, blank: PixelMap, offset: Size)
    requires o.Shown?
  {
    ShowsAt(o, o.client.w - 1, o.client.h - 1, LostColour(blank, o.client, offset))
  }

  lemma AfterNothing(r: Record, e: Event)
    requires e.IsEmptyCall() && r.tiled && !r.redrawNext && r.intact
    ensures r.After(e) == r.(view := e.Client(), intact := r.(view := e.Client()).Fits())
  {
  }

  /** A paint that finds nothing changed since the last one. */
  ghost predicate Repeated(strategy: RedrawStrategyTiled, e: Event)
    requires e.Paints()
    reads strategy, strategy.tiles
  {
    strategy.tiles != null && strategy.Repeats(e.surface.value, e.Client(), e.ImagePan(), e.props.pixel)
  }

  /**
   Between two equal paints, nothing is visible for once. The second paint still shows the image exactly if the
   tiles for nothing held all of it, and otherwise a fresh texture at the far corner.
   */
  method PaintAgain(strategy: RedrawStrategyTiled, s: Surface, area: Size, none: Size, pan: Point, props: Properties)
    returns (o: Outcome)
    requires Render(Some(s), area, pan, props).Paints() && Render(Some(s), none, pan, props).IsEmptyCall()
    requires strategy.Valid() && strategy.intact && Repeated(strategy, Render(Some(s), area, pan, props))
    requires strategy.cached == s.zoomed(props.pixel)
    modifies strategy, strategy.tiles
    ensures o.Shown? && o.client == Render(Some(s), area, pan, props).Client()
    ensures var left := old(strategy.Now()).(view := Render(Some(s), none, pan, props).Client());
            if left.Fits() then ShowsImage(o, s.zoomed(props.pixel))
            else ShowsFresh(o, strategy.blank, left.offset)
  {
    AfterNothing(strategy.Now(), Render(Some(s), none, pan, props));
    var _ := strategy.OnRender(Some(s), none, pan, props);
    o := strategy.OnRender(Some(s), area, pan, props);
  }

  lemma AfterFirst(start: PixelProperties, e: Event)
    requires e.Paints() && !e.surface.value.dirty
    ensures var r := Initially(start).After(e);
            && r.tiled && !r.redrawNext && r.intact && r.offset == Size(0, 0) && r.size == e.Client()
              && r.pan == e.ImagePan()
            && !r.RepaintsAll(e.surface.value, e.Client(), e.ImagePan(), e.props.pixel)
  {
  }

  lemma WideEvent(e: Event)
    requires e.Render? && e.surface.Some? && e.surface.value.size == Size(1100, 600) && e.area == Size(1100, 600)
    requires e.props.pixel.zoom == 1.0 && e.props.angle == Rotation.RotateDefault
    ensures e.Client() == Size(1100, 600) && e.(area := Size(0, 600)).Client() == Size(0, 600)
    ensures 1100 > TilesFor(0) * EDGE
  {
  }

  /** 1100 pixels take three tiles, and a view without width keeps two: the third call shows a fresh texture. */
  method WidthLost(blank: PixelMap, start: PixelProperties, s: Surface) returns (last: Outcome)
    requires s.size == Size(1100, 600) && !s.dirty
    ensures last.Shown? && ShowsAt(last, 1099, 599, blank(75, 87))
  {
    var props := Properties(start.(zoom := 1.0), Rotation.RotateDefault);
    var e := Render(Some(s), Size(1100, 600), Point(0, 0), props);
    WideEvent(e);
    AfterFirst(start, e);
    var strategy := new RedrawStrategyTiled(blank, start);
    var _ := strategy.OnRender(e.surface, e.area, e.pan, props);
    last := PaintAgain(strategy, s, e.area, Size(0, 600), e.pan, props);
  }
}
