/** From encoded frames to the composed canvas: the surfaces that decoding fills are what the composer paints. */
module GifAnimation {
  import opened Bits
  import opened Geometry
  import opened Buffers
  import opened LzwDecoding
  import opened Interlacing
  import opened GifReplay
  import opened GifComposer
  import GifCodec

  /** What a frame is painted with, apart from its pixels. */
  datatype Look = Look(topLeft: Point, palette: seq<Color>, colorKey: Byte, isTransparent: bool, dispose: Disposal)

  /** A frame as it was meant: its rows in the order of GIF89a, Appendix E, if it is interlaced. */
  function WritingOrder(f: Frame): seq<nat> { if f.interlace then AppendixE(f.height) else Every(0, 1, f.height) }

  function LineOf(rows: seq<nat>, y: nat): (line: nat)
    requires y in rows
    ensures line < |rows| && rows[line] == y
  {
    if rows[0] == y then 0 else 1 + LineOf(rows[1..], y)
  }

  function PixelOf(f: Frame, pixels: Text, x: nat, y: nat): Byte {
    var rows := WritingOrder(f);
    if y in rows && RowStart(LineOf(rows, y), f.width) + x < |pixels|
    then pixels[RowStart(LineOf(rows, y), f.width) + x] else 0
  }

  function PixelsOf(f: Frame, pixels: Text): (nat, nat) -> Byte { (x, y) => PixelOf(f, pixels, x, y) }

  function Covered(f: Frame, at: Point): (r: set<Point>)
    ensures forall p :: p in r <==> at.x <= p.x < at.x + f.width && at.y <= p.y < at.y + f.height
  {
    set x, y | at.x <= x < at.x + f.width && at.y <= y < at.y + f.height :: Point(x, y)
  }

  function SurfaceAt(f: Frame, surface: seq<Byte>, x: nat, y: nat): Byte {
    if f.PixelIndex(x, y) < |surface| then surface[f.PixelIndex(x, y)] else 0
  }

  /** A frame's pixels by their position on the canvas. */
  function Placed(f: Frame, at: Point, pixel: (nat, nat) -> Byte): map<Point, Byte> {
    map p | p in Covered(f, at) :: pixel(p.x - at.x, p.y - at.y)
  }

  lemma SamePlaced(f: Frame, at: Point, a: (nat, nat) -> Byte, b: (nat, nat) -> Byte)
    requires forall x: nat, y: nat :: x < f.width && y < f.height ==> a(x, y) == b(x, y)
    ensures Placed(f, at, a) == Placed(f, at, b)
  {
  }

  /** The frame as the pixels stand for it, and as a surface holds it. */
  function Meant(f: Frame, look: Look, pixels: Text): Descriptor {
    Descriptor(Placed(f, look.topLeft, PixelsOf(f, pixels)),
               look.palette, look.colorKey, look.isTransparent, look.dispose)
  }

  function Held(f: Frame, look: Look, surface: seq<Byte>): Descriptor {
    Descriptor(Placed(f, look.topLeft, (x, y) => SurfaceAt(f, surface, x, y)),
               look.palette, look.colorKey, look.isTransparent, look.dispose)
  }

  lemma {:induction false} CountedIsIn(rows: seq<nat>, y: nat)
    requires Interlacing.Count(rows, y) > 0
    ensures y in rows
  {
    if rows[0] != y {
      CountedIsIn(rows[1..], y);
    }
  }

  lemma RowsAsWritten(f: Frame, buffer: seq<Byte>, pixels: Text)
    requires f.FitsIn(|buffer|) && f.width > 0 && |pixels| == RowStart(f.height, f.width)
    requires !(f.interlace && f.height in {2, 3, 4})
    ensures f.Rows() == WritingOrder(f) && forall y :: 0 <= y < f.height ==> y in f.Rows()
  {
    FrameInPlace(f, buffer, pixels);
    forall y | 0 <= y < f.height
      ensures y in f.Rows()
    {
      CountedIsIn(f.Rows(), y);
    }
  }

  lemma PixelAsMeant(f: Frame, surface: seq<Byte>, pixels: Text, x: nat, y: nat)
    requires y in WritingOrder(f) && HasPixel(f, WritingOrder(f), surface, pixels, LineOf(WritingOrder(f), y), x)
    ensures SurfaceAt(f, surface, x, y) == PixelOf(f, pixels, x, y)
  {
  }

  /** A complete surface holds the frame that the pixels stand for. */
  lemma HeldIsMeant(f: Frame, look: Look, buffer: seq<Byte>, pixels: Text)
    requires f.FitsIn(|buffer|) && f.width > 0 && |pixels| == RowStart(f.height, f.width)
    requires !(f.interlace && f.height in {2, 3, 4})
    ensures Held(f, look, Painted(f, buffer, pixels).0) == Meant(f, look, pixels)
  {
    FrameInPlace(f, buffer, pixels);
    RowsAsWritten(f, buffer, pixels);
    AllAsMeant(f, look, Painted(f, buffer, pixels).0, pixels);
  }

  lemma AllAsMeant(f: Frame, look: Look, surface: seq<Byte>, pixels: Text)
    requires forall y :: 0 <= y < f.height ==> y in WritingOrder(f)
    requires forall r, c :: 0 <= r < |WritingOrder(f)| && 0 <= c < f.width ==>
               HasPixel(f, WritingOrder(f), surface, pixels, r, c)
    ensures Held(f, look, surface) == Meant(f, look, pixels)
  {
    var held, meant := (x: nat, y: nat) => SurfaceAt(f, surface, x, y), PixelsOf(f, pixels);
    forall x: nat, y: nat | x < f.width && y < f.height
      ensures held(x, y) == meant(x, y)
    {
      PixelAsMeant(f, surface, pixels, x, y);
    }
    SamePlaced(f, look.topLeft, held, meant);
  }

  /** A frame of an animation: what it is encoded from, how, and what it is painted with. */
  datatype Source = Source(pixels: Text, clears: nat -> nat, padding: seq<Bit>, look: Look)

  /** The file holds the frame, readably encoded; it is of a height that can be interlaced, if it is. */
  ghost predicate EncodedAs(file: GifCodec.File, id: GifCodec.Descriptor, s: Source) {
    && GifCodec.IsEncoded(file, id.fileOffset, s.pixels, s.clears, s.padding)
    && id.frame.width > 0 && |s.pixels| == RowStart(id.frame.height, id.frame.width)
    && !(id.frame.interlace && id.frame.height in {2, 3, 4}) && |s.look.palette| == 256
  }

  lemma DecodedIsMeant(codec: GifCodec.CodecGIF, i: nat, s: Source)
    requires i < |codec.ids| && codec.SurfacesOk() && codec.Shown(i) && EncodedAs(codec.file, codec.ids[i], s)
    ensures Held(codec.ids[i].frame, s.look, codec.ids[i].surface[..]) == Meant(codec.ids[i].frame, s.look, s.pixels)
  {
    var id := codec.ids[i];
    GifCodec.EncodedFrameIsShown(codec.file, id, codec.background, s.pixels, s.clears, s.padding);
    HeldIsMeant(id.frame, s.look, GifCodec.Blank(id.surface.Length, codec.background), s.pixels);
  }

  function AllMeant(ids: seq<GifCodec.Descriptor>, sources: seq<Source>): (r: seq<Descriptor>)
    requires |ids| == |sources|
    ensures |r| == |ids|
  {
    seq(|ids|, i requires 0 <= i < |ids| => Meant(ids[i].frame, sources[i].look, sources[i].pixels))
  }

  /** A pixel on the canvas has the colour of its palette entry, or is transparent and shows what was there before. */
  ghost predicate ShowsValue(canvas: Picture, before: Picture, look: Look, p: Point, v: Byte)
    requires |look.palette| == 256
  {
    if look.isTransparent && v == look.colorKey then SameAt(canvas, before, p)
    else p in canvas && canvas[p] == look.palette[v]
  }

  /** Each pixel of the frame is shown so; everywhere off the frame is what the frames before have left. */
  ghost predicate ShowsPixel(canvas: Picture, before: Picture, f: Frame, look: Look, pixel: (nat, nat) -> Byte,
                             p: Point)
    requires |look.palette| == 256
  {
    var at := look.topLeft;
    if at.x <= p.x < at.x + f.width && at.y <= p.y < at.y + f.height
    then ShowsValue(canvas, before, look, p, pixel(p.x - at.x, p.y - at.y)) else SameAt(canvas, before, p)
  }

  lemma PlacedAt(f: Frame, at: Point, pixel: (nat, nat) -> Byte, p: Point)
    ensures p in Placed(f, at, pixel) <==> at.x <= p.x < at.x + f.width && at.y <= p.y < at.y + f.height
    ensures p in Placed(f, at, pixel) ==> Placed(f, at, pixel)[p] == pixel(p.x - at.x, p.y - at.y)
  {
  }

  lemma PaintedValue(canvas: Picture, before: Picture, id: Descriptor, look: Look, p: Point)
    requires |look.palette| == 256 && id.palette == look.palette && id.colorKey == look.colorKey
    requires id.isTransparent == look.isTransparent && PaintsOver(before, id, canvas)
    ensures if p in id.indices then ShowsValue(canvas, before, look, p, id.indices[p]) else SameAt(canvas, before, p)
  {
    assert if Opaque(id, p) then p in canvas && canvas[p] == id.palette[id.indices[p]] else SameAt(canvas, before, p);
  }

  lemma MeantPixel(canvas: Picture, before: Picture, f: Frame, look: Look, pixels: Text, p: Point)
    requires |look.palette| == 256 && PaintsOver(before, Meant(f, look, pixels), canvas)
    ensures ShowsPixel(canvas, before, f, look, PixelsOf(f, pixels), p)
  {
    PlacedAt(f, look.topLeft, PixelsOf(f, pixels), p);
    PaintedValue(canvas, before, Meant(f, look, pixels), look, p);
  }

  /** What the composer is given: the surfaces as they are. */
  method HeldFrames(codec: GifCodec.CodecGIF, sources: seq<Source>) returns (held: seq<Descriptor>)
    requires |codec.ids| == |sources|
    ensures |held| == |sources|
    ensures forall i :: 0 <= i < |held| ==>
              held[i] == Held(codec.ids[i].frame, sources[i].look, codec.ids[i].surface[..])
  {
    held := [];
    for i := 0 to |sources|
      invariant |held| == i
      invariant forall k :: 0 <= k < i ==>
                  held[k] == Held(codec.ids[k].frame, sources[k].look, codec.ids[k].surface[..])
    {
      held := held + [Held(codec.ids[i].frame, sources[i].look, codec.ids[i].surface[..])];
    }
  }

  lemma HeldAreMeant(codec: GifCodec.CodecGIF, sources: seq<Source>, held: seq<Descriptor>)
    requires |codec.ids| == |sources| == |held| && codec.currentImage == |codec.ids| && codec.FramesOk()
    requires forall i :: 0 <= i < |codec.ids| ==> EncodedAs(codec.file, codec.ids[i], sources[i])
    requires forall i :: 0 <= i < |held| ==>
               held[i] == Held(codec.ids[i].frame, sources[i].look, codec.ids[i].surface[..])
    ensures held == AllMeant(codec.ids, sources) && AllValid(held)
  {
    forall i | 0 <= i < |held|
      ensures held[i] == AllMeant(codec.ids, sources)[i] && held[i].Valid()
    {
      assert codec.Shown(i);
      DecodedIsMeant(codec, i, sources[i]);
    }
  }

  /**
   The whole way: frames encoded by Appendix F, decoded to their surfaces and composed by any sequence of calls, in
   which they may arrive one by one. The canvas is the replay of the frames as they were before they were encoded.
   */
  method PlayDecoded(codec: GifCodec.CodecGIF, sources: seq<Source>, blank: Picture, events: seq<Event>)
    returns (composer: ImageComposerGif)
    requires codec.ids != [] && |codec.ids| == |sources| && codec.currentImage == |codec.ids| && codec.FramesOk()
    requires forall i :: 0 <= i < |codec.ids| ==> EncodedAs(codec.file, codec.ids[i], sources[i])
    ensures fresh(composer) && composer.Steady() && composer.ids == AllMeant(codec.ids, sources)
    ensures !composer.stale && composer.isRendered && Restorable(composer.ids) ==>
              var k := composer.currentFrame;
              && composer.canvas == Replay(AllMeant(codec.ids, sources), blank, k)
              && forall p ::
                ShowsPixel(composer.canvas, Base(composer.ids, blank, k), codec.ids[k].frame, sources[k].look,
                                      PixelsOf(codec.ids[k].frame, sources[k].pixels), p)
  {
    var held := HeldFrames(codec, sources);
    HeldAreMeant(codec, sources, held);
    composer := new ImageComposerGif(held, blank);
    composer.Play(events);
    ghost var k := composer.currentFrame;
    if !composer.stale && composer.isRendered && Restorable(composer.ids) {
      ReplayAt(composer.ids, blank, k);
      forall p
        ensures ShowsPixel(composer.canvas, Base(composer.ids, blank, k), codec.ids[k].frame, sources[k].look,
                           PixelsOf(codec.ids[k].frame, sources[k].pixels), p)
      {
        MeantPixel(composer.canvas, Base(composer.ids, blank, k), codec.ids[k].frame, sources[k].look,
                   sources[k].pixels, p);
      }
    }
  }
}
