/** The grid of tiles behind the viewport: panning, resizing, lending out areas to draw on, presenting. */
module TileManagement {
  import opened Common
  import opened Geometry
  import opened TileGrid

  datatype Error = InvalidParam | CriticalError

  datatype Result<+T> = Ok(value: T) | Err(error: Error)

  /** A tile, by its position in the grid, and the part of it that may be drawn on. */
  datatype RequestedArea = RequestedArea(tileX: int, tileY: int, writeable: Rect)

  /** One textured rectangle sent to the screen. */
  datatype Blit = Blit(dest: Rect, texture: PixelMap, sourceX: int, sourceY: int)
  {
    function ColourAt(x: int, y: int): Color {
      texture(sourceX + x - dest.left, sourceY + y - dest.top)
    }
  }

  predicate Covers(b: Option<Blit>, x: int, y: int) {
    b.Some? && b.value.dest.Contains(x, y)
  }

  function Dests(frame: seq<Blit>): (r: seq<Rect>)
    ensures |r| == |frame|
  {
    seq(|frame|, i requires 0 <= i < |frame| => frame[i].dest)
  }

  lemma DestsOfAppended(frame: seq<Blit>, b: Blit)
    ensures Dests(frame + [b]) == Dests(frame) + [b.dest]
  {
  }

  ghost predicate Matches(picture: PixelMap, r: Rect, image: PixelMap, pan: Point) {
    forall x, y :: r.Contains(x, y) ==> picture(x, y) == image(pan.x + x, pan.y + y)
  }

  predicate IsNormal(off: Size) { 0 <= off.w < EDGE && 0 <= off.h < EDGE }

  function Resized<T>(s: seq<T>, n: nat, filler: T): (r: seq<T>)
    ensures |r| == n
    ensures forall i :: 0 <= i < n ==> r[i] == if i < |s| then s[i] else filler
  {
    if n <= |s| then s[..n] else s + seq(n - |s|, _ => filler)
  }

  /** Number of tiles kept along an axis of the given length: enough for any offset within a tile. */
  function TilesFor(length: int): int { 2 + TruncDiv(length, EDGE) }

  class TileManager {
    var tiles: Grid
    var topLeftOffset: Size
    var viewSize: Size
    // What a texture shows when it has just been created; nothing is promised about it.
    const blank: PixelMap
    // What the tiles hold at each view coordinate; beyond the grid it repeats.
    ghost var picture: PixelMap

    constructor (blank: PixelMap)
      ensures this.blank == blank
      ensures tiles == [] && topLeftOffset == Size(0, 0) && viewSize == Size(0, 0)
      ensures Valid()
    {
      this.blank := blank;
      tiles, topLeftOffset, viewSize := [], Size(0, 0), Size(0, 0);
      picture := blank;
    }

    ghost function Rows(): nat
      reads this
      requires viewSize.h >= 0
    {
      TilesFor(viewSize.h)
    }

    ghost function Cols(): nat
      reads this
      requires viewSize.w >= 0
    {
      TilesFor(viewSize.w)
    }

    ghost predicate Valid()
      reads this
    {
      && IsNormal(topLeftOffset)
      && viewSize.w >= 0 && viewSize.h >= 0
      && (tiles == [] || (IsGrid(tiles, Rows(), Cols()) && Depicts(tiles, Rows(), Cols(), topLeftOffset, picture)))
    }

    /** Whether a view coordinate falls on the grid without wrapping round. */
    ghost predicate OnGrid(x: int, y: int)
      reads this
      requires viewSize.w >= 0 && viewSize.h >= 0
    {
      && 0 <= x + topLeftOffset.w < Cols() * EDGE
      && 0 <= y + topLeftOffset.h < Rows() * EDGE
    }

    /** All of an extent lies on the grid, whatever wraps round beyond it. */
    ghost predicate Fits(extent: Size)
      reads this
      requires viewSize.w >= 0 && viewSize.h >= 0
    {
      extent.w + topLeftOffset.w <= Cols() * EDGE && extent.h + topLeftOffset.h <= Rows() * EDGE
    }

    /** Throughout the rectangle the tiles hold the image as panned to `pan`. */
    ghost predicate GoodOn(r: Rect, image: PixelMap, pan: Point)
      reads this
    {
      Matches(picture, r, image, pan)
    }

    ghost predicate SamePicture(before: PixelMap)
      reads this
    {
      forall x, y :: picture(x, y) == before(x, y)
    }

    /** Changing a dirty rectangle does not change the picture. */
    lemma SameSurfacesAfter(x: int, y: int, t: Tile)
      requires Valid() && 0 <= y < |tiles| && 0 <= x < |tiles[y]|
      requires t.surface == tiles[y][x].surface
      ensures var g := tiles[y := tiles[y][x := t]];
              IsGrid(g, Rows(), Cols()) && Depicts(g, Rows(), Cols(), topLeftOffset, picture)
    {
      var g := tiles[y := tiles[y][x := t]];
      forall px, py
        ensures Seen(g, Rows(), Cols(), topLeftOffset, px, py) == picture(px, py)
      {
        assert Seen(tiles, Rows(), Cols(), topLeftOffset, px, py) == picture(px, py);
      }
    }

    method AddOffset(pt: Size)
      requires Valid() && tiles != []
      modifies this`tiles, this`topLeftOffset, this`picture
      ensures Valid() && tiles != []
      ensures tiles == ShiftedGrid(old(tiles), old(topLeftOffset), pt)
      ensures topLeftOffset == ShiftedOffset(old(topLeftOffset), pt)
      ensures forall x, y :: picture(x, y) == old(picture)(x - pt.w, y - pt.h)
    {
      ghost var start, off := tiles, topLeftOffset;
      topLeftOffset := Size(topLeftOffset.w - pt.w, topLeftOffset.h - pt.h);
      var ourOffset := topLeftOffset;
      if ourOffset.w < 0 {
        ourOffset := Size(ourOffset.w - (EDGE - 1), ourOffset.h);
      }
      if ourOffset.h < 0 {
        ourOffset := Size(ourOffset.w, ourOffset.h - (EDGE - 1));
      }
      var newTl := Point(TruncDiv(ourOffset.w, EDGE), TruncDiv(ourOffset.h, EDGE));
      TruncationFloors(off.w - pt.w);
      TruncationFloors(off.h - pt.h);

      RotateRows(newTl.y);
      RotationKeepsGrid(start, Rows(), Cols(), newTl.y, newTl.x);
      NormaliseHeight();
      RotateColumns(newTl.x);
      NormaliseWidth();

      ghost var before := picture;
      picture := (x, y) => before(x - pt.w, y - pt.h);
      assert tiles == ShiftedGrid(start, off, pt) && topLeftOffset == ShiftedOffset(off, pt);
      ShiftedDepicts(start, off, pt, Rows(), Cols(), before, picture);
    }

    method NormaliseHeight()
      modifies this`topLeftOffset
      ensures topLeftOffset == Size(old(topLeftOffset.w), old(topLeftOffset.h) % EDGE)
    {
      while topLeftOffset.h >= EDGE
        invariant topLeftOffset.w == old(topLeftOffset.w) && topLeftOffset.h % EDGE == old(topLeftOffset.h) % EDGE
      {
        topLeftOffset := Size(topLeftOffset.w, topLeftOffset.h - EDGE);
      }
      while topLeftOffset.h < 0
        invariant topLeftOffset.w == old(topLeftOffset.w) && topLeftOffset.h % EDGE == old(topLeftOffset.h) % EDGE
        invariant topLeftOffset.h < EDGE
      {
        topLeftOffset := Size(topLeftOffset.w, topLeftOffset.h + EDGE);
      }
    }

    method NormaliseWidth()
      modifies this`topLeftOffset
      ensures topLeftOffset == Size(old(topLeftOffset.w) % EDGE, old(topLeftOffset.h))
    {
      while topLeftOffset.w >= EDGE
        invariant topLeftOffset.h == old(topLeftOffset.h) && topLeftOffset.w % EDGE == old(topLeftOffset.w) % EDGE
      {
        topLeftOffset := Size(topLeftOffset.w - EDGE, topLeftOffset.h);
      }
      while topLeftOffset.w < 0
        invariant topLeftOffset.h == old(topLeftOffset.h) && topLeftOffset.w % EDGE == old(topLeftOffset.w) % EDGE
        invariant topLeftOffset.w < EDGE
      {
        topLeftOffset := Size(topLeftOffset.w + EDGE, topLeftOffset.h);
      }
    }

    /** Rows travel from the front of the deque to its back, or the other way for a negative count. */
    method RotateRows(count: int)
      requires tiles != []
      modifies this`tiles
      ensures tiles == Rotated(old(tiles), count)
    {
      RotationsAdd(tiles, 0, 0);
      var y := 0;
      while y < count
        invariant 0 <= y && (y <= count || count < 0)
        invariant count < 0 ==> y == 0
        invariant tiles == Rotated(old(tiles), y)
      {
        RotateOneLeft(old(tiles), y);
        tiles := tiles[1..] + [tiles[0]];
        y := y + 1;
      }
      y := 0;
      while y < -count
        invariant 0 <= y && (y <= -count || count > 0)
        invariant count > 0 ==> y == 0
        invariant tiles == Rotated(old(tiles), if count < 0 then -y else count)
      {
        RotateOneRight(old(tiles), -y);
        tiles := [tiles[|tiles| - 1]] + tiles[..|tiles| - 1];
        y := y + 1;
      }
    }

    method RotateColumns(count: int)
      requires forall y :: 0 <= y < |tiles| ==> tiles[y] != []
      modifies this`tiles
      ensures tiles == RotatedRows(old(tiles), count)
    {
      RotatedRowsAdd(tiles, 0, 0);
      var x := 0;
      while x < count
        invariant 0 <= x && (x <= count || count < 0)
        invariant count < 0 ==> x == 0
        invariant tiles == RotatedRows(old(tiles), x)
      {
        RotatedRowsAdd(old(tiles), x, 1);
        RotateEachRow(1);
        x := x + 1;
      }
      x := 0;
      while x < -count
        invariant 0 <= x && (x <= -count || count > 0)
        invariant count > 0 ==> x == 0
        invariant tiles == RotatedRows(old(tiles), if count < 0 then -x else count)
      {
        RotatedRowsAdd(old(tiles), -x, -1);
        RotateEachRow(-1);
        x := x + 1;
      }
    }

    /** One column: in every row the front tile goes to the back (1) or the back tile to the front (-1). */
    method RotateEachRow(way: int)
      requires way == 1 || way == -1
      requires forall y :: 0 <= y < |tiles| ==> tiles[y] != []
      modifies this`tiles
      ensures tiles == RotatedRows(old(tiles), way)
    {
      ghost var before := tiles;
      var y := 0;
      while y < |tiles|
        invariant 0 <= y <= |tiles| == |before|
        invariant forall j :: 0 <= j < |tiles| ==> tiles[j] == if j < y then Rotated(before[j], way) else before[j]
      {
        tiles := tiles[y := RotatedByOne(tiles[y], way)];
        y := y + 1;
      }
    }

    /** A deque with its front moved to the back, or its back to the front. */
    function RotatedByOne(row: seq<Tile>, way: int): (r: seq<Tile>)
      requires row != [] && (way == 1 || way == -1)
      ensures r == Rotated(row, way)
    {
      RotationsAdd(row, 0, 0);
      RotateOneLeft(row, 0);
      RotateOneRight(row, 0);
      if way == 1 then row[1..] + [row[0]] else [row[|row| - 1]] + row[..|row| - 1]
    }

    /** Negative dimensions are an error; otherwise the grid becomes large enough for any offset. */
    method SetViewportSize(dims: Size) returns (ok: bool)
      requires Valid()
      modifies this`tiles, this`viewSize, this`picture
      ensures Valid()
      ensures ok <==> dims.w >= 0 && dims.h >= 0
      ensures !ok ==> tiles == old(tiles) && viewSize == old(viewSize) && picture == old(picture)
      ensures ok ==> viewSize == dims && tiles == ResizedGrid(old(tiles), Rows(), Cols(), blank)
      ensures ok ==> tiles != [] && Fits(dims)
      ensures ok ==> forall x, y :: OnGrid(x, y) ==>
                picture(x, y) == if old(tiles != [] && OnGrid(x, y)) then old(picture)(x, y)
                                 else blank((x + topLeftOffset.w) % EDGE, (y + topLeftOffset.h) % EDGE)
    {
      if dims.w < 0 || dims.h < 0 {
        return false;
      }
      ok := true;
      ghost var was, oldRows, oldCols, before := tiles, Rows(), Cols(), picture;
      viewSize := dims;
      ResizeTiles();
      ResizedPicture(was, oldRows, oldCols, Rows(), Cols(), topLeftOffset, before, picture, blank);
    }

    method ResizeTiles()
      requires viewSize.w >= 0 && viewSize.h >= 0 && IsNormal(topLeftOffset)
      modifies this`tiles, this`picture
      ensures Valid() && tiles == ResizedGrid(old(tiles), Rows(), Cols(), blank)
    {
      var rows, cols := TilesFor(viewSize.h), TilesFor(viewSize.w);
      tiles := Resized(tiles, rows, []);
      ghost var resized := tiles;
      var y := 0;
      while y < |tiles|
        modifies this`tiles
        invariant 0 <= y <= |tiles| == rows
        invariant forall j :: 0 <= j < rows ==>
                    tiles[j] == if j < y then Resized(resized[j], cols, FreshTile(blank)) else resized[j]
      {
        tiles := tiles[y := Resized(tiles[y], cols, FreshTile(blank))];
        y := y + 1;
      }
      ghost var g, off := tiles, topLeftOffset;
      picture := (x, y) => Seen(g, rows, cols, off, x, y);
    }

    /** What lies left of or above all tiles stays there. */
    method OffsetInTile(p: int) returns (q: int)
      ensures q == if p < 0 then p else p % EDGE
    {
      q := p;
      while q >= EDGE
        invariant if p < 0 then q == p else 0 <= q && q % EDGE == p % EDGE
      {
        q := q - EDGE;
      }
    }

    /** The offset into the tile, and the extent that stays inside both the tile and the request. */
    method DetermineLockableRect(r: Rect) returns (res: Result<Rect>)
      requires Valid()
      ensures r.w <= 0 || r.h <= 0 <==> res == Err(InvalidParam)
      ensures r.left >= 0 && r.top >= 0 && r.w > 0 && r.h > 0 && r.Right() <= viewSize.w && r.Bottom() <= viewSize.h ==>
                res == Ok(Rect((r.left + topLeftOffset.w) % EDGE, (r.top + topLeftOffset.h) % EDGE,
                               Room(r.left + topLeftOffset.w, r.w), Room(r.top + topLeftOffset.h, r.h)))
      ensures res.Ok? ==>
                && res.value.w > 0 && res.value.h > 0
                && (0 <= res.value.left <==> 0 <= r.left + topLeftOffset.w) && res.value.Right() <= EDGE
                && (0 <= res.value.top <==> 0 <= r.top + topLeftOffset.h) && res.value.Bottom() <= EDGE
    {
      if !IsPositive(Size(r.w, r.h)) {
        return Err(InvalidParam);
      }
      var px := OffsetInTile(r.left + topLeftOffset.w);
      var py := OffsetInTile(r.top + topLeftOffset.h);
      var cropped := Point(Min(r.Right(), topLeftOffset.w + viewSize.w), Min(r.Bottom(), topLeftOffset.h + viewSize.h));
      var out := Size(Max(0, Min(EDGE - px, Min(cropped.x, r.w))), Max(0, Min(EDGE - py, Min(cropped.y, r.h))));
      if !IsPositive(out) {
        return Err(CriticalError);
      }
      return Ok(Rect(px, py, out.w, out.h));
    }

    /** Lends out the part of one tile on which the beginning of an area of the view can be drawn. */
    method RequestDDSurface(area: Rect) returns (res: Result<RequestedArea>)
      requires Valid() && tiles != []
      requires area.left >= 0 && area.top >= 0
      modifies this`tiles
      ensures Valid() && tiles != []
      ensures area.w <= 0 || area.h <= 0 ==> res == Err(InvalidParam)
      ensures area.w > 0 && area.h > 0 && area.Right() <= viewSize.w && area.Bottom() <= viewSize.h ==>
                res.Ok? && IsLoan(res.value, area, topLeftOffset)
      ensures res.Ok? ==> 0 <= res.value.tileY < |tiles| && 0 <= res.value.tileX < |tiles[res.value.tileY]|
    {
      if !IsPositive(Size(area.w, area.h)) {
        return Err(InvalidParam);
      }
      var tx := TruncDiv(area.left + topLeftOffset.w, EDGE);
      var ty := TruncDiv(area.top + topLeftOffset.h, EDGE);
      if ty >= |tiles| || tx >= |tiles[ty]| {
        return Err(InvalidParam);
      }
      var locked := DetermineLockableRect(area);
      if locked.Err? {
        return Err(locked.error);
      }
      var w := locked.value;
      var t := tiles[ty][tx];
      t := t.(dirty := Dirtied(t.dirty, w));
      SameSurfacesAfter(tx, ty, t);
      tiles := tiles[ty := tiles[ty][tx := t]];
      if area.Right() <= viewSize.w && area.Bottom() <= viewSize.h {
        LockedIsLoan(RequestedArea(tx, ty, w), area, topLeftOffset);
      }
      return Ok(RequestedArea(tx, ty, w));
    }

    /** The guards of the program against a dirty rectangle gone wrong never fire. */
    function Dirtied(dirty: DirtyRect, w: Rect): (r: DirtyRect)
      requires w.w > 0 && w.h > 0 && 0 <= w.left && w.Right() <= EDGE && 0 <= w.top && w.Bottom() <= EDGE
      ensures IsPositive(Size(r.w, r.h))
    {
      if !IsPositive(Size(dirty.w, dirty.h)) then w
      else
        // Moving the near corner keeps the extent; the far corner is then moved outwards.
        var moved := Rect(Min(dirty.left, w.left), Min(dirty.top, w.top), dirty.w, dirty.h);
        Rect(moved.left, moved.top, Max(moved.Right(), w.Right()) - moved.left,
             Max(moved.Bottom(), w.Bottom()) - moved.top)
    }

    lemma LockedIsLoan(ra: RequestedArea, area: Rect, off: Size)
      requires area.left >= 0 && area.top >= 0 && area.w > 0 && area.h > 0 && 0 <= off.w && 0 <= off.h
      requires ra.tileX == (area.left + off.w) / EDGE && ra.tileY == (area.top + off.h) / EDGE
      requires ra.writeable == Rect((area.left + off.w) % EDGE, (area.top + off.h) % EDGE,
                                    Room(area.left + off.w, area.w), Room(area.top + off.h, area.h))
      ensures IsLoan(ra, area, off)
    {
    }

    /**
     Draws on a lent area what the picture shows from (imageX, imageY) on. Seen through the offset,
     exactly the rectangle the area was lent for changes.
     */
    method DrawOn(ra: RequestedArea, image: PixelMap, imageX: int, imageY: int)
      requires Valid() && tiles != []
      requires 0 <= ra.tileY < |tiles| && 0 <= ra.tileX < |tiles[ra.tileY]|
      requires 0 <= ra.writeable.left && ra.writeable.Right() <= EDGE
      requires 0 <= ra.writeable.top && ra.writeable.Bottom() <= EDGE
      modifies this`tiles, this`picture
      ensures Valid() && tiles != []
      ensures var drawn := Rect(ra.tileX * EDGE + ra.writeable.left - topLeftOffset.w,
                                ra.tileY * EDGE + ra.writeable.top - topLeftOffset.h,
                                ra.writeable.w, ra.writeable.h);
              forall x, y :: OnGrid(x, y) ==>
                picture(x, y) == if drawn.Contains(x, y) then image(imageX + x - drawn.left, imageY + y - drawn.top)
                                 else old(picture)(x, y)
    {
      var t := tiles[ra.tileY][ra.tileX];
      var before, w := t.surface, ra.writeable;
      var after := (u, v) => if w.Contains(u, v) then image(imageX + u - w.left, imageY + v - w.top) else before(u, v);
      tiles := tiles[ra.tileY := tiles[ra.tileY][ra.tileX := t.(surface := after)]];
      ghost var g, rows, cols, off, was := tiles, Rows(), Cols(), topLeftOffset, picture;
      picture := (x, y) => Seen(g, rows, cols, off, x, y);
      forall x, y | OnGrid(x, y)
        ensures var drawn := Rect(ra.tileX * EDGE + w.left - off.w, ra.tileY * EDGE + w.top - off.h, w.w, w.h);
                picture(x, y) == if drawn.Contains(x, y) then image(imageX + x - drawn.left, imageY + y - drawn.top)
                                 else was(x, y)
      {
        assert was(x, y) == Seen(old(tiles), rows, cols, off, x, y);
        TileRedrawn(old(tiles), g, rows, cols, ra.tileX, ra.tileY, after, x + off.w, y + off.h);
      }
    }

    /**
     Presents every tile that shows in the view. Each screen pixel of the view is covered once, with the
     colour the tiles hold for it, and nothing outside the view is touched.
     */
    method Render(offset: Size) returns (frame: seq<Blit>)
      requires Valid()
      modifies this`tiles
      ensures Valid() && (tiles == [] <==> old(tiles) == [])
      ensures tiles == [] ==> frame == []
      ensures tiles != [] ==>
                forall sx, sy :: Hits(Dests(frame), sx, sy)
                                 == if InRect(viewSize, sx - offset.w, sy - offset.h) then 1 else 0
      ensures tiles != [] ==>
                forall i, sx, sy :: 0 <= i < |frame| && frame[i].dest.Contains(sx, sy) ==>
                  && InRect(viewSize, sx - offset.w, sy - offset.h)
                  && frame[i].ColourAt(sx, sy) == picture(sx - offset.w, sy - offset.h)
    {
      frame := [];
      if tiles == [] {
        return;
      }
      var xtiles, ytiles := |tiles[0]|, |tiles|;
      var y := 0;
      while y < ytiles
        invariant 0 <= y <= ytiles == |tiles| && xtiles == Cols()
        invariant Valid()
        invariant forall sx, sy :: Hits(Dests(frame), sx, sy)
                    == if Presented(viewSize, topLeftOffset, sx - offset.w, sy - offset.h, 0, y) then 1 else 0
        invariant forall i, sx, sy :: 0 <= i < |frame| && frame[i].dest.Contains(sx, sy) ==>
                    && InRect(viewSize, sx - offset.w, sy - offset.h)
                    && frame[i].ColourAt(sx, sy) == picture(sx - offset.w, sy - offset.h)
        modifies this`tiles
      {
        var x := 0;
        while x < xtiles
          invariant 0 <= x <= xtiles
          invariant ytiles == |tiles| && xtiles == Cols()
          invariant Valid()
          invariant forall sx, sy :: Hits(Dests(frame), sx, sy)
                      == if Presented(viewSize, topLeftOffset, sx - offset.w, sy - offset.h, x, y) then 1 else 0
          invariant forall i, sx, sy :: 0 <= i < |frame| && frame[i].dest.Contains(sx, sy) ==>
                      && InRect(viewSize, sx - offset.w, sy - offset.h)
                      && frame[i].ColourAt(sx, sy) == picture(sx - offset.w, sy - offset.h)
          modifies this`tiles
        {
          ghost var before := frame;
          var b := PresentTile(x, y, offset);
          if b.Some? {
            BlitAddsTile(frame, b.value, offset);
            frame := frame + [b.value];
          }
          assert forall sx, sy ::
            Hits(Dests(frame), sx, sy) == Hits(Dests(before), sx, sy) + (if Covers(b, sx, sy) then 1 else 0);
          StepOverTile(viewSize, topLeftOffset, x, y);
          x := x + 1;
        }
        LastTileOfRow(viewSize, topLeftOffset, xtiles, y);
        y := y + 1;
      }
    }

    /** Presents the part of one tile that shows in the view, if any, and forgets its dirty rectangle. */
    method PresentTile(x: nat, y: nat, offset: Size) returns (b: Option<Blit>)
      requires Valid() && y < |tiles| && x < |tiles[y]|
      modifies this`tiles
      ensures Valid() && |tiles| == |old(tiles)|
      ensures forall sx, sy :: Covers(b, sx, sy) <==>
                               OnTile(viewSize, topLeftOffset, sx - offset.w, sy - offset.h, x, y)
      ensures b.Some? ==> forall sx, sy :: b.value.dest.Contains(sx, sy) ==>
                b.value.ColourAt(sx, sy) == picture(sx - offset.w, sy - offset.h)
    {
      ClearDirty(x, y);
      var tile := tiles[y][x];
      var view := Rect(0, 0, viewSize.w, viewSize.h);
      var uncropped := Rect(x * EDGE - topLeftOffset.w, y * EDGE - topLeftOffset.h, EDGE, EDGE);
      var cropped := view.Crop(uncropped);
      var source := Size(cropped.left - uncropped.left, cropped.top - uncropped.top);
      CropIsTileInView(viewSize, topLeftOffset, x, y);
      if !IsPositive(Size(cropped.w, cropped.h)) || !view.Contains(cropped.left, cropped.top) {
        return None;
      }
      b := Some(Blit(Rect(cropped.left + offset.w, cropped.top + offset.h, cropped.w, cropped.h),
                     tile.surface, Max(source.w, 0), Max(source.h, 0)));
      forall sx, sy
        ensures Covers(b, sx, sy) <==> cropped.Contains(sx - offset.w, sy - offset.h)
        ensures b.value.dest.Contains(sx, sy) ==>
                  b.value.ColourAt(sx, sy) == picture(sx - offset.w, sy - offset.h)
      {
        if b.value.dest.Contains(sx, sy) {
          var vx, vy := sx - offset.w, sy - offset.h;
          assert cropped.Contains(vx, vy);
          TileColour(x, y, vx, vy);
        }
      }
    }

    method ClearDirty(x: nat, y: nat)
      requires Valid() && y < |tiles| && x < |tiles[y]|
      modifies this`tiles
      ensures Valid() && |tiles| == |old(tiles)| && x < |tiles[y]|
    {
      var tile := tiles[y][x];
      SameSurfacesAfter(x, y, tile.(dirty := Rect(tile.dirty.left, tile.dirty.top, 0, 0)));
      tiles := tiles[y := tiles[y][x := tile.(dirty := Rect(tile.dirty.left, tile.dirty.top, 0, 0))]];
    }

    lemma TileColour(x: nat, y: nat, vx: int, vy: int)
      requires Valid() && y < |tiles| && x < |tiles[y]|
      requires x * EDGE <= vx + topLeftOffset.w < x * EDGE + EDGE && y * EDGE <= vy + topLeftOffset.h < y * EDGE + EDGE
      ensures tiles[y][x].surface(vx + topLeftOffset.w - x * EDGE, vy + topLeftOffset.h - y * EDGE) == picture(vx, vy)
    {
      assert Seen(tiles, Rows(), Cols(), topLeftOffset, vx, vy) == picture(vx, vy);
      TexelOnTile(tiles, Rows(), Cols(), x, y, vx + topLeftOffset.w, vy + topLeftOffset.h);
    }
  }

  /** Replacing the surface of one tile changes the pixels on it, and no others. */
  lemma TileRedrawn(before: Grid, after: Grid, rows: nat, cols: nat, tileX: nat, tileY: nat, surface: PixelMap, x: int,
                    y: int)
    requires IsGrid(before, rows, cols) && tileY < rows && tileX < cols
    requires after == before[tileY := before[tileY][tileX := before[tileY][tileX].(surface := surface)]]
    requires 0 <= x < cols * EDGE && 0 <= y < rows * EDGE
    ensures IsGrid(after, rows, cols)
    ensures Texel(after, rows, cols, x, y)
            == if x / EDGE == tileX && y / EDGE == tileY then surface(x % EDGE, y % EDGE)
              else Texel(before, rows, cols, x, y)
  {
    TexelOnTile(before, rows, cols, x / EDGE, y / EDGE, x, y);
    TexelOnTile(after, rows, cols, x / EDGE, y / EDGE, x, y);
  }

  /** Cropping a tile to the view keeps exactly the view pixels on that tile. */
  lemma CropIsTileInView(view: Size, off: Size, tileX: nat, tileY: nat)
    requires view.w >= 0 && view.h >= 0
    ensures var c := Rect(0, 0, view.w, view.h).Crop(Rect(tileX * EDGE - off.w, tileY * EDGE - off.h, EDGE, EDGE));
            && (forall x, y :: c.Contains(x, y) <==> OnTile(view, off, x, y, tileX, tileY))
            && (IsPositive(Size(c.w, c.h)) ==> InRect(view, c.left, c.top))
            && (!IsPositive(Size(c.w, c.h)) ==> forall x, y :: !OnTile(view, off, x, y, tileX, tileY))
  {
    var c := Rect(0, 0, view.w, view.h).Crop(Rect(tileX * EDGE - off.w, tileY * EDGE - off.h, EDGE, EDGE));
    forall x, y
      ensures c.Contains(x, y) <==> OnTile(view, off, x, y, tileX, tileY)
    {
      assert (x + off.w) / EDGE == tileX <==> tileX * EDGE <= x + off.w < tileX * EDGE + EDGE;
      assert (y + off.h) / EDGE == tileY <==> tileY * EDGE <= y + off.h < tileY * EDGE + EDGE;
    }
  }

  lemma TexelOnTile(g: Grid, rows: nat, cols: nat, tileX: nat, tileY: nat, x: int, y: int)
    requires IsGrid(g, rows, cols) && tileX < cols && tileY < rows
    requires x / EDGE == tileX && y / EDGE == tileY
    ensures Texel(g, rows, cols, x, y) == g[tileY][tileX].surface(x - tileX * EDGE, y - tileY * EDGE)
  {
    assert Wrap(tileX, cols) == tileX && Wrap(tileY, rows) == tileY;
  }

  lemma BlitAddsTile(frame: seq<Blit>, b: Blit, offset: Size)
    ensures forall sx, sy :: Hits(Dests(frame + [b]), sx, sy)
                             == Hits(Dests(frame), sx, sy) + (if b.dest.Contains(sx, sy) then 1 else 0)
  {
    DestsOfAppended(frame, b);
    forall sx, sy
      ensures Hits(Dests(frame + [b]), sx, sy)
              == Hits(Dests(frame), sx, sy) + (if b.dest.Contains(sx, sy) then 1 else 0)
    {
      HitsOfAppended(Dests(frame), b.dest, sx, sy);
    }
  }

  /** The view pixel lies on the tile at position (tileX, tileY). */
  predicate OnTile(view: Size, off: Size, x: int, y: int, tileX: int, tileY: int) {
    InRect(view, x, y) && (x + off.w) / EDGE == tileX && (y + off.h) / EDGE == tileY
  }

  predicate InRect(dims: Size, x: int, y: int) { 0 <= x < dims.w && 0 <= y < dims.h }

  /** The view pixel lies on a tile that comes before position (tileX, tileY) in reading order. */
  predicate Presented(view: Size, off: Size, x: int, y: int, tileX: int, tileY: int) {
    && InRect(view, x, y)
    && ((y + off.h) / EDGE < tileY || ((y + off.h) / EDGE == tileY && (x + off.w) / EDGE < tileX))
  }

  lemma StepOverTile(view: Size, off: Size, tileX: int, tileY: int)
    ensures forall x, y :: Presented(view, off, x, y, tileX + 1, tileY)
                           <==> Presented(view, off, x, y, tileX, tileY) || OnTile(view, off, x, y, tileX, tileY)
  {
  }

  lemma LastTileOfRow(view: Size, off: Size, cols: int, tileY: int)
    requires IsNormal(off) && view.w >= 0 && cols == TilesFor(view.w)
    ensures forall x, y :: Presented(view, off, x, y, cols, tileY) <==> Presented(view, off, x, y, 0, tileY + 1)
  {
  }

  /** How much of a stretch of the given length fits into the tile that grid coordinate p falls on. */
  function Room(p: int, length: int): int { Min(EDGE - p % EDGE, length) }

  /** As much as possible: the stretch ends with what was asked for, or at the edge of the tile, but never beyond it. */
  lemma RoomIsMost(p: int, length: int)
    requires length > 0
    ensures var r := Room(p, length);
            0 < r <= length && (r == length || (p + r) % EDGE == 0) && (p + r - 1) / EDGE == p / EDGE
  {
  }

  /** The lent part starts where the area starts and goes on as far as tile and area allow. */
  predicate IsLoan(ra: RequestedArea, area: Rect, off: Size) {
    && ra.tileX * EDGE + ra.writeable.left == area.left + off.w
    && ra.tileY * EDGE + ra.writeable.top == area.top + off.h
    && ra.writeable.left >= 0 && ra.writeable.Right() <= EDGE
    && ra.writeable.top >= 0 && ra.writeable.Bottom() <= EDGE
    && ra.writeable.w == Room(area.left + off.w, area.w) > 0
    && ra.writeable.h == Room(area.top + off.h, area.h) > 0
  }

  function FreshTile(blank: PixelMap): Tile { Tile(blank, Rect(0, 0, 0, 0)) }

  function ResizedGrid(g: Grid, rows: nat, cols: nat, blank: PixelMap): (r: Grid)
    ensures |r| == rows && forall y :: 0 <= y < rows ==> |r[y]| == cols
  {
    seq(rows, y requires 0 <= y < rows => Resized(Resized(g, rows, [])[y], cols, FreshTile(blank)))
  }

  /** What is still on the grid keeps its pixels; the rest are fresh textures. */
  lemma TexelOfResized(g: Grid, oldRows: nat, oldCols: nat, rows: nat, cols: nat, x: int, y: int, blank: PixelMap)
    requires g == [] || IsGrid(g, oldRows, oldCols)
    requires 0 <= x < cols * EDGE && 0 <= y < rows * EDGE
    ensures Texel(ResizedGrid(g, rows, cols, blank), rows, cols, x, y)
            == if g != [] && x < oldCols * EDGE && y < oldRows * EDGE then Texel(g, oldRows, oldCols, x, y)
               else blank(x % EDGE, y % EDGE)
  {
    var r := ResizedGrid(g, rows, cols, blank);
    var tx, ty := x / EDGE, y / EDGE;
    TexelOnTile(r, rows, cols, tx, ty, x, y);
    if g != [] && tx < oldCols && ty < oldRows {
      TexelOnTile(g, oldRows, oldCols, tx, ty, x, y);
    } else {
      assert r[ty][tx] == FreshTile(blank);
    }
  }

  lemma ResizedPicture(g: Grid, oldRows: nat, oldCols: nat, rows: nat, cols: nat, off: Size, before: PixelMap,
                       after: PixelMap, blank: PixelMap)
    requires g == [] || (IsGrid(g, oldRows, oldCols) && Depicts(g, oldRows, oldCols, off, before))
    requires rows > 0 && cols > 0 && Depicts(ResizedGrid(g, rows, cols, blank), rows, cols, off, after)
    ensures forall x, y :: 0 <= x + off.w < cols * EDGE && 0 <= y + off.h < rows * EDGE ==>
              after(x, y) == if g != [] && x + off.w < oldCols * EDGE && y + off.h < oldRows * EDGE then before(x, y)
                             else blank((x + off.w) % EDGE, (y + off.h) % EDGE)
  {
    forall x, y | 0 <= x + off.w < cols * EDGE && 0 <= y + off.h < rows * EDGE
      ensures after(x, y) == if g != [] && x + off.w < oldCols * EDGE && y + off.h < oldRows * EDGE then before(x, y)
                             else blank((x + off.w) % EDGE, (y + off.h) % EDGE)
    {
      TexelOfResized(g, oldRows, oldCols, rows, cols, x + off.w, y + off.h, blank);
      assert Seen(ResizedGrid(g, rows, cols, blank), rows, cols, off, x, y) == after(x, y);
      assert g != [] ==> Seen(g, oldRows, oldCols, off, x, y) == before(x, y);
    }
  }

  lemma ShiftedDepicts(g: Grid, off: Size, pt: Size, rows: nat, cols: nat, before: PixelMap, after: PixelMap)
    requires IsGrid(g, rows, cols) && Depicts(g, rows, cols, off, before)
    requires forall x, y :: after(x, y) == before(x - pt.w, y - pt.h)
    ensures var s := ShiftedGrid(g, off, pt);
            IsGrid(s, rows, cols) && Depicts(s, rows, cols, ShiftedOffset(off, pt), after)
  {
    ShiftMovesView(g, off, pt, rows, cols);
    forall x, y
      ensures Seen(ShiftedGrid(g, off, pt), rows, cols, ShiftedOffset(off, pt), x, y) == after(x, y)
    {
      assert Seen(g, rows, cols, off, x - pt.w, y - pt.h) == before(x - pt.w, y - pt.h);
    }
  }

  /** Biasing negative values by one tile less a pixel turns truncation into rounding down. */
  lemma TruncationFloors(a: int)
    ensures TruncDiv(if a < 0 then a - (EDGE - 1) else a, EDGE) == a / EDGE
  {
  }
}
