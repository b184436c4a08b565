/** What the canvas of an animated GIF should show at each frame, and what composing frames in place leaves. */
module GifReplay {
  import opened Bits
  import opened Geometry

  datatype Color = Color(alpha: Byte, red: Byte, green: Byte, blue: Byte)

  type Picture = map<Point, Color>

  datatype Disposal = Unknown | NoDispose | ToBackground | ToPrevious

  datatype Descriptor = Descriptor(
    indices: map<Point, Byte>,   // by position on the canvas
    palette: seq<Color>,
    colorKey: Byte,
    isTransparent: bool,
    dispose: Disposal)
  {
    ghost predicate Valid() { |palette| == 256 }

    /** The colour key of a transparent frame turns transparent. */
    function DeterminePalette(): (p: seq<Color>)
      requires Valid()
      ensures |p| == 256
    {
      if isTransparent then palette[colorKey := palette[colorKey].(alpha := 0)] else palette
    }

    /** What the area of a frame before this one is filled with, if it is disposed to background. */
    function Background(): Color
      requires Valid()
    {
      DeterminePalette()[colorKey]
    }

    function WholePicture(): Picture
      requires Valid()
    {
      map p | p in indices :: DeterminePalette()[indices[p]]
    }

    /** What the frame paints: a transparent frame leaves out the pixels of its colour key. */
    function Paint(): Picture
      requires Valid()
    {
      map p | p in indices && !(isTransparent && indices[p] == colorKey) :: DeterminePalette()[indices[p]]
    }
  }

  ghost predicate AllValid(ids: seq<Descriptor>) { forall i :: 0 <= i < |ids| ==> ids[i].Valid() }

  predicate Kept(id: Descriptor) { id.dispose == Unknown || id.dispose == NoDispose }

  /** Where the frame is, filled with one colour. */
  function Filled(id: Descriptor, color: Color): Picture { map p | p in id.indices :: color }

  /**
   From-scratch replay: all frames before the k-th, one over the other, except those disposed to previous. A frame
   disposed to background is filled with the colour key of the frame that comes after it.
   */
  function Base(ids: seq<Descriptor>, blank: Picture, k: nat): Picture
    requires k < |ids| && AllValid(ids)
  {
    if k == 0 then blank
    else if ids[k - 1].dispose == ToPrevious then Base(ids, blank, k - 1)
    else if ids[k - 1].dispose == ToBackground then
      Base(ids, blank, k - 1) + ids[k - 1].Paint() + Filled(ids[k - 1], ids[k].Background())
    else Base(ids, blank, k - 1) + ids[k - 1].Paint()
  }

  /** ... and the k-th over them. */
  function Replay(ids: seq<Descriptor>, blank: Picture, k: nat): Picture
    requires k < |ids| && AllValid(ids)
  {
    Base(ids, blank, k) + ids[k].Paint()
  }

  // What painting and disposing do to each point of the canvas.

  /** The frame has a pixel there that is to be seen: not its colour key, if that is transparent. */
  predicate Opaque(id: Descriptor, p: Point) { p in id.indices && !(id.isTransparent && id.indices[p] == id.colorKey) }

  predicate SameAt(a: Picture, b: Picture, p: Point) { (p in a <==> p in b) && (p in a ==> a[p] == b[p]) }

  /** Such a pixel has the colour of its palette entry; everywhere else the canvas is what it was. */
  ghost predicate PaintsOver(before: Picture, id: Descriptor, after: Picture)
    requires id.Valid()
  {
    forall p :: if Opaque(id, p) then p in after && after[p] == id.palette[id.indices[p]] else SameAt(after, before, p)
  }

  /** What a frame leaves behind for the next; the area of one disposed to background shows the next's colour key. */
  ghost predicate Leaves(id: Descriptor, next: Descriptor, canvas: Picture, lastUndisposed: Picture, after: Picture)
    requires next.Valid()
  {
    match id.dispose
    case ToPrevious => after == lastUndisposed
    case ToBackground =>
      var key := next.palette[next.colorKey];
      forall p ::
        if p in id.indices then p in after && after[p] == (if next.isTransparent then key.(alpha := 0) else key)
        else SameAt(after, canvas, p)
    case _ => after == canvas
  }

  lemma PaintedOver(canvas: Picture, id: Descriptor)
    requires id.Valid()
    ensures PaintsOver(canvas, id, canvas + id.Paint())
  {
  }

  lemma DisposedLeaves(ids: seq<Descriptor>, k: nat, canvas: Picture, lastUndisposed: Picture)
    requires 0 < k < |ids| && AllValid(ids)
    ensures Leaves(ids[k - 1], ids[k], canvas, lastUndisposed, Disposed(ids, k, canvas, lastUndisposed))
  {
  }

  /** The frame alone: the colour key of a transparent one is not left out, but has no alpha. */
  lemma WholePictureAt(id: Descriptor, p: Point)
    requires id.Valid()
    ensures p in id.WholePicture() <==> p in id.indices
    ensures p in id.indices ==>
              id.WholePicture()[p] == if Opaque(id, p) then id.palette[id.indices[p]]
                                      else id.palette[id.colorKey].(alpha := 0)
  {
  }

  /** The replay in these terms: frame k over what the frames before it leave. */
  lemma ReplayAt(ids: seq<Descriptor>, blank: Picture, k: nat)
    requires k < |ids| && AllValid(ids)
    ensures PaintsOver(Base(ids, blank, k), ids[k], Replay(ids, blank, k))
    ensures k > 0 ==>
              Leaves(ids[k - 1], ids[k], Replay(ids, blank, k - 1), Base(ids, blank, k - 1), Base(ids, blank, k))
  {
    PaintedOver(Base(ids, blank, k), ids[k]);
  }

  // Composing in place, with one canvas and one picture remembered.

  /** The canvas before frame k is painted: what the disposal of the frame before it leaves. */
  function Disposed(ids: seq<Descriptor>, k: nat, canvas: Picture, lastUndisposed: Picture): Picture
    requires 0 < k < |ids| && AllValid(ids)
  {
    match ids[k - 1].dispose
    case ToPrevious => lastUndisposed
    case ToBackground => canvas + Filled(ids[k - 1], ids[k].Background())
    case _ => canvas
  }

  /** What is remembered once frame k is composed. */
  function Remembered(ids: seq<Descriptor>, k: nat, canvas: Picture, lastUndisposed: Picture): Picture
    requires 0 < k < |ids|
  {
    if Kept(ids[k - 1]) then canvas else lastUndisposed
  }

  /** Of the frames up to the k-th, the last that follows one that stays; frame 0 if there is none. */
  function LastKept(ids: seq<Descriptor>, k: nat): (j: nat)
    requires k < |ids|
    ensures j <= k && (j > 0 ==> Kept(ids[j - 1])) && forall i :: j <= i < k ==> !Kept(ids[i])
  {
    if k == 0 || Kept(ids[k - 1]) then k else LastKept(ids, k - 1)
  }

  /** The canvas at frame k when all frames up to it have been composed in turn. */
  function Canvas(ids: seq<Descriptor>, blank: Picture, k: nat): Picture
    requires k < |ids| && AllValid(ids)
    decreases k, 0
  {
    if k == 0 then blank + ids[0].Paint()
    else Disposed(ids, k, Canvas(ids, blank, k - 1), Memory(ids, blank, k - 1)) + ids[k].Paint()
  }

  /** What is remembered then: the canvas before the last frame that follows one that stays. */
  function Memory(ids: seq<Descriptor>, blank: Picture, k: nat): Picture
    requires k < |ids| && AllValid(ids)
    decreases k, 1
  {
    if LastKept(ids, k) == 0 then blank else Canvas(ids, blank, LastKept(ids, k) - 1)
  }

  /** Whether what is remembered at frame k is returned to later on. */
  predicate Needed(ids: seq<Descriptor>, k: nat)
    requires k < |ids|
    decreases |ids| - k
  {
    k + 1 < |ids| && !Kept(ids[k]) && (ids[k].dispose == ToPrevious || Needed(ids, k + 1))
  }

  /** The frame whose removal returns to it. */
  function Reader(ids: seq<Descriptor>, k: nat): (m: nat)
    requires k < |ids| && Needed(ids, k)
    ensures k <= m < |ids| - 1 && ids[m].dispose == ToPrevious
    ensures forall i :: k <= i < m ==> ids[i].dispose == ToBackground
    decreases |ids| - k
  {
    if ids[k].dispose == ToPrevious then k else Reader(ids, k + 1)
  }

  lemma {:induction false} NeededFor(ids: seq<Descriptor>, k: nat, m: nat)
    requires k <= m < |ids| - 1 && ids[m].dispose == ToPrevious && forall i :: k <= i < m ==> !Kept(ids[i])
    ensures Needed(ids, k)
    decreases m - k
  {
    if k < m {
      NeededFor(ids, k + 1, m);
    }
  }

  /** Behind the last frame, nothing is returned to. */
  ghost predicate MustRemember(ids: seq<Descriptor>, k: nat)
    requires k < |ids|
  {
    k + 1 < |ids| && ((k > 0 && ids[k - 1].dispose == ToPrevious) || Needed(ids, k))
  }

  /** The canvas is that of frame k, and the frames to come can be composed. */
  ghost predicate Shows(ids: seq<Descriptor>, blank: Picture, k: nat, canvas: Picture, lastUndisposed: Picture)
    requires k < |ids| && AllValid(ids)
  {
    canvas == Canvas(ids, blank, k) && (MustRemember(ids, k) ==> lastUndisposed == Memory(ids, blank, k))
  }

  lemma ShowsNext(ids: seq<Descriptor>, blank: Picture, k: nat, canvas: Picture, lastUndisposed: Picture)
    requires 0 < k < |ids| && AllValid(ids) && Shows(ids, blank, k - 1, canvas, lastUndisposed)
    ensures Shows(ids, blank, k, Disposed(ids, k, canvas, lastUndisposed) + ids[k].Paint(),
                  Remembered(ids, k, canvas, lastUndisposed))
  {
  }

  lemma MemoryUnlessKept(ids: seq<Descriptor>, blank: Picture, k: nat)
    requires 0 < k < |ids| && AllValid(ids)
    ensures Memory(ids, blank, k) == if Kept(ids[k - 1]) then Canvas(ids, blank, k - 1) else Memory(ids, blank, k - 1)
  {
  }

  /** Composing a frame twice does not show. */
  lemma CanvasAgain(ids: seq<Descriptor>, blank: Picture, k: nat, canvas: Picture, lastUndisposed: Picture)
    requires 0 < k < |ids| - 1 && AllValid(ids) && Shows(ids, blank, k, canvas, lastUndisposed)
    ensures Disposed(ids, k, canvas, lastUndisposed) + ids[k].Paint() == canvas
  {
    var before, paint := Canvas(ids, blank, k - 1), ids[k].Paint();
    MemoryUnlessKept(ids, blank, k);
    match ids[k - 1].dispose
    case ToPrevious =>
      PaintedAgain(Memory(ids, blank, k - 1), paint);
    case ToBackground =>
      FilledAgain(before, Filled(ids[k - 1], ids[k].Background()), paint);
    case _ =>
      PaintedAgain(before, paint);
  }

  /** Frame k adds nothing to what is remembered at it. */
  ghost predicate SameAsBefore(ids: seq<Descriptor>, blank: Picture, k: nat)
    requires k < |ids| && AllValid(ids)
  {
    Canvas(ids, blank, k) == Memory(ids, blank, k)
  }

  /** It is harmless, unless the frame before has to stay and will be returned to. */
  lemma ShowsAgain(ids: seq<Descriptor>, blank: Picture, k: nat, canvas: Picture, lastUndisposed: Picture)
    requires 0 < k < |ids| - 1 && AllValid(ids) && Shows(ids, blank, k, canvas, lastUndisposed)
    ensures Disposed(ids, k, canvas, lastUndisposed) + ids[k].Paint() == canvas
    ensures Shows(ids, blank, k, Disposed(ids, k, canvas, lastUndisposed) + ids[k].Paint(),
                  Remembered(ids, k, canvas, lastUndisposed))
            <==> (Kept(ids[k - 1]) && Needed(ids, k) ==> SameAsBefore(ids, blank, k))
  {
    CanvasAgain(ids, blank, k, canvas, lastUndisposed);
  }

  lemma PaintedAgain(p: Picture, paint: Picture)
    ensures p + paint + paint == p + paint
  {
  }

  lemma FilledAgain(p: Picture, filled: Picture, paint: Picture)
    ensures p + filled + paint + filled + paint == p + filled + paint
  {
  }

  /** From one frame that follows a kept one to where that is returned to, what is remembered stays the same. */
  lemma {:induction false} MemoryStays(ids: seq<Descriptor>, blank: Picture, k: nat, m: nat)
    requires k <= m < |ids| && AllValid(ids) && forall i :: k <= i < m ==> !Kept(ids[i])
    ensures Memory(ids, blank, m) == Memory(ids, blank, k)
    decreases m
  {
    if k < m {
      MemoryStays(ids, blank, k, m - 1);
    }
  }

  // When composing in place is right.

  ghost predicate Right(ids: seq<Descriptor>, blank: Picture, k: nat)
    requires k < |ids| && AllValid(ids)
  {
    Canvas(ids, blank, k) == Replay(ids, blank, k)
  }

  ghost predicate RightBefore(ids: seq<Descriptor>, blank: Picture, n: nat)
    requires n <= |ids| && AllValid(ids)
  {
    forall k :: 0 <= k < n ==> Right(ids, blank, k)
  }

  /**
   Frame k + 1 looks the same whether it is painted over the picture before the last frame that follows one that
   stays, which is what is remembered, or over the picture before frame k, which is what should be returned to.
   */
  ghost predicate CanReturn(ids: seq<Descriptor>, blank: Picture, k: nat)
    requires k + 1 < |ids| && AllValid(ids)
  {
    ids[k].dispose == ToPrevious ==>
      Base(ids, blank, LastKept(ids, k)) + ids[k + 1].Paint() == Base(ids, blank, k) + ids[k + 1].Paint()
  }

  lemma MemoryOfRight(ids: seq<Descriptor>, blank: Picture, k: nat)
    requires k < |ids| && AllValid(ids) && RightBefore(ids, blank, k)
    ensures Memory(ids, blank, k) == Base(ids, blank, LastKept(ids, k))
  {
    var j := LastKept(ids, k);
    if j > 0 {
      assert Right(ids, blank, j - 1);
    }
  }

  /** If the frames so far are right, the next is exactly if the one before it can be returned from. */
  lemma NextRightIff(ids: seq<Descriptor>, blank: Picture, k: nat)
    requires k + 1 < |ids| && AllValid(ids) && RightBefore(ids, blank, k + 1)
    ensures Right(ids, blank, k + 1) <==> CanReturn(ids, blank, k)
  {
    MemoryOfRight(ids, blank, k);
    assert Right(ids, blank, k);
  }

  /**
   The frame behind one that has to go again is painted over the canvas before the last frame that followed one that
   stays. If all was right before, that is right exactly if the one to be removed can be returned from.
   */
  lemma PastRemoved(ids: seq<Descriptor>, blank: Picture, k: nat)
    requires k + 1 < |ids| && AllValid(ids) && ids[k].dispose == ToPrevious
    ensures var j := LastKept(ids, k);
            Canvas(ids, blank, k + 1) == (if j == 0 then blank else Canvas(ids, blank, j - 1)) + ids[k + 1].Paint()
    ensures RightBefore(ids, blank, k + 1) ==> (Right(ids, blank, k + 1) <==> CanReturn(ids, blank, k))
  {
    if RightBefore(ids, blank, k + 1) {
      NextRightIff(ids, blank, k);
    }
  }

  /** Frame k - 1 stays, and what was remembered of it at frame k is returned to behind frame m. */
  lemma ReturnedTo(ids: seq<Descriptor>, blank: Picture, k: nat, m: nat)
    requires 0 < k < |ids| && AllValid(ids) && Kept(ids[k - 1]) && Needed(ids, k) && m == Reader(ids, k)
    ensures Canvas(ids, blank, m + 1) == Canvas(ids, blank, k - 1) + ids[m + 1].Paint()
  {
    MemoryStays(ids, blank, k, m);
    MemoryUnlessKept(ids, blank, k);
    assert Disposed(ids, m + 1, Canvas(ids, blank, m), Memory(ids, blank, m)) == Memory(ids, blank, k);
  }

  ghost predicate ReturnsBefore(ids: seq<Descriptor>, blank: Picture, n: nat)
    requires n <= |ids| && AllValid(ids)
  {
    forall k :: 0 <= k < n - 1 ==> CanReturn(ids, blank, k)
  }

  lemma OneMoreFrame(ids: seq<Descriptor>, blank: Picture, n: nat)
    requires 1 < n <= |ids| && AllValid(ids)
    ensures RightBefore(ids, blank, n) <==> RightBefore(ids, blank, n - 1) && Right(ids, blank, n - 1)
    ensures ReturnsBefore(ids, blank, n) <==> ReturnsBefore(ids, blank, n - 1) && CanReturn(ids, blank, n - 2)
  {
  }

  /** The first n frames are all right exactly if each that another follows can be returned from. */
  lemma {:induction false} AllRightIff(ids: seq<Descriptor>, blank: Picture, n: nat)
    requires n <= |ids| && AllValid(ids)
    ensures RightBefore(ids, blank, n) <==> ReturnsBefore(ids, blank, n)
  {
    if n > 1 {
      OneMoreFrame(ids, blank, n);
      AllRightIff(ids, blank, n - 1);
      if RightBefore(ids, blank, n - 1) {
        NextRightIff(ids, blank, n - 2);
      }
    } else if n == 1 {
      assert Right(ids, blank, 0);
    }
  }

  /** What each animation meets in which no frame to be removed, but the last, follows one disposed to background. */
  ghost predicate Restorable(ids: seq<Descriptor>) {
    forall k :: 0 < k < |ids| - 1 && ids[k].dispose == ToPrevious ==> ids[k - 1].dispose != ToBackground
  }

  lemma RestorableIsRight(ids: seq<Descriptor>, blank: Picture)
    requires AllValid(ids) && Restorable(ids)
    ensures RightBefore(ids, blank, |ids|)
  {
    forall k | 0 <= k < |ids| - 1
      ensures CanReturn(ids, blank, k)
    {
      if ids[k].dispose == ToPrevious {
        BaseOfRemoved(ids, blank, k);
      }
    }
    AllRightIff(ids, blank, |ids|);
  }

  lemma {:induction false} BaseOfRemoved(ids: seq<Descriptor>, blank: Picture, k: nat)
    requires k < |ids| - 1 && AllValid(ids) && Restorable(ids) && ids[k].dispose == ToPrevious
    ensures Base(ids, blank, LastKept(ids, k)) == Base(ids, blank, k)
  {
    if k > 0 && !Kept(ids[k - 1]) {
      BaseOfRemoved(ids, blank, k - 1);
    }
  }
}
