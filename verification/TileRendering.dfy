/** What is drawn on a tile: the zoomed and blended pixels of the source image, by way of a staging buffer. */
module TileRendering {
  import opened Geometry
  import opened Buffers
  import opened Rotation
  import opened FilterBuffers
  import opened PixelMix
  import opened FilterJobs
  import opened Render
  import TileGrid
  import TileManagement

  /** The zoomed and blended image as a picture; it is turned only when the tiles are presented. */
  function ZoomedPicture(sample: Point -> Word, zoomed: Size, finish: Finish): TileGrid.PixelMap
    requires 0 <= zoomed.w && 0 <= zoomed.h
  {
    (x, y) => if Inside(zoomed, Point(x, y)) then Whole(sample, zoomed, finish, RotateDefault).At(Point(x, y)) else 0
  }

  /** The texture shows the part of the picture. */
  ghost predicate ShowsPart(texture: TileGrid.PixelMap, picture: TileGrid.PixelMap, part: Rect) {
    forall x, y :: Inside(Size(part.w, part.h), Point(x, y)) ==> texture(x, y) == picture(part.left + x, part.top + y)
  }

  function TextureOf(image: Image<Word>): TileGrid.PixelMap
    requires image.Valid()
  {
    (x, y) => if Inside(image.size, Point(x, y)) then image.At(Point(x, y)) else 0
  }

  lemma TextureOfCrop(sample: Point -> Word, zoomed: Size, finish: Finish, part: Rect)
    requires 0 <= zoomed.w && 0 <= zoomed.h && Within(part, zoomed)
    ensures ShowsPart(TextureOf(Crop(Whole(sample, zoomed, finish, RotateDefault), part)),
                      ZoomedPicture(sample, zoomed, finish), part)
  {
    TextureOfPart(Whole(sample, zoomed, finish, RotateDefault), ZoomedPicture(sample, zoomed, finish), part);
  }

  lemma TextureOfPart(whole: Image<Word>, picture: TileGrid.PixelMap, part: Rect)
    requires whole.Valid() && Within(part, whole.size)
    requires forall x, y :: Inside(whole.size, Point(x, y)) ==> picture(x, y) == whole.At(Point(x, y))
    ensures ShowsPart(TextureOf(Crop(whole, part)), picture, part)
  {
    forall x, y | Inside(Size(part.w, part.h), Point(x, y))
      ensures TextureOf(Crop(whole, part))(x, y) == picture(part.left + x, part.top + y)
    {
      TexelOfPart(whole, picture, part, x, y);
    }
  }

  lemma TexelOfPart(whole: Image<Word>, picture: TileGrid.PixelMap, part: Rect, x: int, y: int)
    requires whole.Valid() && Within(part, whole.size) && Inside(Size(part.w, part.h), Point(x, y))
    requires forall u, v :: Inside(whole.size, Point(u, v)) ==> picture(u, v) == whole.At(Point(u, v))
    ensures TextureOf(Crop(whole, part))(x, y) == picture(part.left + x, part.top + y)
  {
    CropAt(whole, part, Point(x, y));
    assert Inside(whole.size, Point(part.left + x, part.top + y));
  }

  /** The part of the zoomed image can be rendered. */
  ghost predicate Renders(staging: FilterBuffer<Word>, sg: Region, part: Rect, mode: Mode, zoom: real,
                          order: seq<nat>) {
    && zoom > 0.0 && (mode == Bilinear && zoom != 1.0 ==> sg.width >= 2 && sg.height >= 2)
    && IsPositive(Size(part.w, part.h)) && Within(part, ZoomedSize(Size(sg.width, sg.height), zoom))
    && Within(Rect(0, 0, part.w, part.h), staging.size) && Fits(staging, Point(0, 0), staging.size)
    && forall chunk :: chunk in order <==> 0 <= chunk < Segments(part.h)
  }

  /** What a source image looks like, zoomed and blended. */
  ghost function Seen<T>(src: seq<T>, sg: Region, mode: Mode, convert: T -> Word, zoom: real,
                         finish: Finish): TileGrid.PixelMap
    requires sg.FitsIn(|src|) && zoom > 0.0 && (mode == Bilinear && zoom != 1.0 ==> sg.width >= 2 && sg.height >= 2)
  {
    ZoomedNotNegative(sg.width, zoom);
    ZoomedNotNegative(sg.height, zoom);
    ZoomedPicture(Sampler(mode, ImageIn(src, sg), convert, zoom), ZoomedSize(Size(sg.width, sg.height), zoom), finish)
  }

  /** Renders the part to the top left of the staging buffer. */
  method Stage<T>(staging: FilterBuffer<Word>, src: array<T>, sg: Region, part: Rect, mode: Mode, convert: T -> Word,
                  zoom: real, finish: Finish, order: seq<nat>) returns (texture: TileGrid.PixelMap)
    requires src as object != staging.data as object && sg.FitsIn(src.Length)
             && Renders(staging, sg, part, mode, zoom, order)
    modifies staging.data
    ensures ShowsPart(texture, Seen(src[..], sg, mode, convert, zoom, finish), part)
  {
    var _ := RenderToBuffer(staging, src, sg, part, mode, convert, zoom, finish, RotateDefault, order);
    texture := TextureOf(ImageIn(staging.data[..], Area(staging, Point(0, 0), Size(part.w, part.h))));
    TextureOfCrop(Sampler(mode, ImageIn(src[..], sg), convert, zoom), ZoomedSize(Size(sg.width, sg.height), zoom),
                  finish, part);
  }

  /** The loan is of a tile there is, and inside it. */
  ghost predicate OnTile(tiles: TileManagement.TileManager, ra: TileManagement.RequestedArea)
    reads tiles
  {
    && tiles.Valid() && tiles.tiles != []
    && 0 <= ra.tileY < |tiles.tiles| && 0 <= ra.tileX < |tiles.tiles[ra.tileY]|
    && 0 <= ra.writeable.left && ra.writeable.Right() <= TileGrid.EDGE
    && 0 <= ra.writeable.top && ra.writeable.Bottom() <= TileGrid.EDGE
  }

  /** Of the view, the rectangle shows the picture from the given place on, and the rest is as before. */
  ghost predicate OnlyDrawn(tiles: TileManagement.TileManager, drawn: Rect, before: TileGrid.PixelMap,
                            picture: TileGrid.PixelMap, from: Point)
    reads tiles
    requires tiles.viewSize.w >= 0 && tiles.viewSize.h >= 0
  {
    forall x, y :: tiles.OnGrid(x, y) ==> DrawnAt(tiles.picture, drawn, before, picture, from, x, y)
  }

  predicate DrawnAt(now: TileGrid.PixelMap, drawn: Rect, before: TileGrid.PixelMap, picture: TileGrid.PixelMap,
                    from: Point, x: int, y: int) {
    now(x, y) == if drawn.Contains(x, y) then picture(from.x + x - drawn.left, from.y + y - drawn.top)
                 else before(x, y)
  }

  /** Where on the view a loan is drawn. */
  function Lent(ra: TileManagement.RequestedArea, off: Size): Rect {
    Rect(ra.tileX * TileGrid.EDGE + ra.writeable.left - off.w, ra.tileY * TileGrid.EDGE + ra.writeable.top - off.h,
         ra.writeable.w, ra.writeable.h)
  }

  /**
   Renders a part of the source image and copies it to a loan: through the offset, exactly the rectangle lent then shows
   the source image, zoomed and blended, from (imageX, imageY) on. It is what drawing `Seen` on the loan leaves, so that
   frames which show a surface with this as its zoomed image show its source pixels.
   */
  method RenderToDDSurface<T>(tiles: TileManagement.TileManager, ra: TileManagement.RequestedArea, imageX: int,
                              imageY: int,
                              staging: FilterBuffer<Word>, src: array<T>, sg: Region, mode: Mode, convert: T -> Word,
                              zoom: real, finish: Finish, order: seq<nat>)
    requires OnTile(tiles, ra)
    requires src as object != staging.data as object && sg.FitsIn(src.Length)
    requires Renders(staging, sg, Rect(imageX, imageY, ra.writeable.w, ra.writeable.h), mode, zoom, order)
    modifies staging.data, tiles`tiles, tiles`picture
    ensures tiles.Valid() && tiles.tiles != []
    ensures OnlyDrawn(tiles, Lent(ra, tiles.topLeftOffset), old(tiles.picture),
                      Seen(src[..], sg, mode, convert, zoom, finish), Point(imageX, imageY))
  {
    var part := Rect(imageX, imageY, ra.writeable.w, ra.writeable.h);
    ghost var goal := Seen(src[..], sg, mode, convert, zoom, finish);
    var texture := Stage(staging, src, sg, part, mode, convert, zoom, finish, order);
    SendTextureRect(tiles, ra, texture, goal, part);
  }

  /** Copies the texture to a loan. */
  method SendTextureRect(tiles: TileManagement.TileManager, ra: TileManagement.RequestedArea,
                         texture: TileGrid.PixelMap, ghost picture: TileGrid.PixelMap, ghost part: Rect)
    requires OnTile(tiles, ra)
    requires ShowsPart(texture, picture, part) && part.w == ra.writeable.w && part.h == ra.writeable.h
    modifies tiles`tiles, tiles`picture
    ensures tiles.Valid() && tiles.tiles != []
    ensures OnlyDrawn(tiles, Lent(ra, tiles.topLeftOffset), old(tiles.picture), picture, Point(part.left, part.top))
  {
    ghost var before, drawn, from := tiles.picture, Lent(ra, tiles.topLeftOffset), Point(part.left, part.top);
    tiles.DrawOn(ra, texture, 0, 0);
    forall x, y | tiles.OnGrid(x, y)
      ensures DrawnAt(tiles.picture, drawn, before, picture, from, x, y)
    {
      if drawn.Contains(x, y) {
        PartAt(texture, picture, part, drawn, x, y);
      }
    }
  }

  lemma PartAt(texture: TileGrid.PixelMap, picture: TileGrid.PixelMap, part: Rect, drawn: Rect, x: int, y: int)
    requires ShowsPart(texture, picture, part) && drawn.w == part.w && drawn.h == part.h && drawn.Contains(x, y)
    ensures texture(0 + x - drawn.left, 0 + y - drawn.top)
            == picture(part.left + x - drawn.left, part.top + y - drawn.top)
  {
    assert Inside(Size(part.w, part.h), Point(x - drawn.left, y - drawn.top));
    assert part.left + (x - drawn.left) == part.left + x - drawn.left
           && part.top + (y - drawn.top) == part.top + y - drawn.top;
  }
}
