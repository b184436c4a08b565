/** Composing the frames of an animated GIF into one canvas, frame by frame, as they arrive. */
module GifComposer {
  import opened Geometry
  import opened GifReplay

  datatype Event = Requested | Advanced | Restarted | FrameArrived

  /** Where a composer stands, its pictures aside. */
  datatype Position = Position(
    frame: nat,
    loaded: nat,
    rendered: bool,
    requested: bool,
    stale: bool)        // since frame 0, an advance came too early
  {
    /**
     To advance now would compose the current frame a second time, the next not having arrived, and what is
     remembered would contain it, though a frame to come returns to what was before it.
     */
    predicate Premature(ids: seq<Descriptor>) {
      && rendered && loaded <= frame + 1 < |ids|
      && frame > 0 && Kept(ids[frame - 1]) && Needed(ids, frame)
    }

    predicate Moves(ids: seq<Descriptor>) { rendered && (frame + 1 >= |ids| || loaded > frame + 1) }

    function Next(ids: seq<Descriptor>): nat {
      if !Moves(ids) then frame else if frame + 1 >= |ids| then 0 else frame + 1
    }

    function After(ids: seq<Descriptor>, e: Event): Position {
      match e
      case Requested => this.(rendered := rendered || (!requested && |ids| > 1 && frame < loaded), requested := true)
      case Advanced =>
        Position(Next(ids), loaded, |ids| > 1 && Next(ids) < loaded, true, Next(ids) > 0 && (stale || Premature(ids)))
      case Restarted => Position(0, loaded, |ids| > 1 && loaded > 0, requested, false)
      case FrameArrived => if loaded < |ids| then this.(loaded := loaded + 1) else this
    }

    predicate Valid(ids: seq<Descriptor>) {
      && frame < |ids| && loaded <= |ids|
      && (rendered ==> frame < loaded && |ids| > 1)
      && (frame > 0 ==> rendered && requested)
      && (stale ==> frame > 0)
    }
  }

  function Run(ids: seq<Descriptor>, p: Position, events: seq<Event>): Position {
    if events == [] then p else Run(ids, p, events[..|events| - 1]).After(ids, events[|events| - 1])
  }

  class ImageComposerGif {
    const ids: seq<Descriptor>
    // The canvas with every pixel cleared.
    const blank: Picture
    var currentFrame: nat
    var frameLoading: nat        // frames below this are decoded
    var isRendered: bool
    var isCreated: bool          // the canvas and the picture to return to exist
    var canvas: Picture
    var lastUndisposed: Picture
    var isRequested: bool        // a surface has been composed for the viewer
    ghost var stale: bool        // since frame 0, an advance came too early

    ghost predicate Valid()
      reads this
    {
      && ids != [] && AllValid(ids)
      && currentFrame < |ids| && frameLoading <= |ids|
      && (isRendered ==> isCreated && currentFrame < frameLoading)
      && (isCreated ==> |ids| > 1)
      && (currentFrame > 0 ==> isCreated)
      && (isRequested && |ids| > 1 ==> isCreated)
    }

    /** The canvas is that of the current frame, and the frames to come can be composed. */
    ghost predicate InStep()
      reads this
      requires Valid()
    {
      if isRendered then
        (currentFrame > 0 ==> isRequested) && Shows(ids, blank, currentFrame, canvas, lastUndisposed)
      else currentFrame == 0 && (isCreated ==> canvas == blank)
    }

    ghost function Now(): Position
      reads this
    {
      Position(currentFrame, frameLoading, isRendered, isRequested, stale)
    }

    /** Between two calls. */
    ghost predicate Steady()
      reads this
    {
      Valid() && Now().Valid(ids) && (!stale ==> InStep())
    }

    constructor (ids: seq<Descriptor>, blank: Picture)
      requires ids != [] && AllValid(ids)
      ensures Steady() && InStep() && this.ids == ids && this.blank == blank
      ensures Now() == Position(0, 0, false, false, false)
    {
      this.ids, this.blank := ids, blank;
      currentFrame, frameLoading, isRendered, isCreated, isRequested := 0, 0, false, false, false;
      canvas, lastUndisposed, stale := map[], map[], false;
    }

    /** Composes the current frame; on frame 0 the canvas is cleared first. */
    method ComposeCurrentSurface() returns (surface: Picture)
      requires Valid()
      modifies this`isCreated, this`canvas, this`lastUndisposed, this`isRendered
      ensures Valid()
      ensures surface == if |ids| == 1 then ids[0].WholePicture() else canvas
      ensures |ids| == 1 ==> canvas == old(canvas) && isCreated == old(isCreated)
      ensures |ids| > 1 ==> isCreated
      ensures isRendered == (old(isRendered) || (|ids| > 1 && currentFrame < frameLoading))
      ensures |ids| > 1 && currentFrame < frameLoading ==>
                && canvas == (if currentFrame == 0 then blank
                              else Disposed(ids, currentFrame, old(canvas), old(lastUndisposed)))
                             + ids[currentFrame].Paint()
                && lastUndisposed == if currentFrame == 0 then blank
                                     else Remembered(ids, currentFrame, old(canvas), old(lastUndisposed))
      ensures |ids| > 1 && frameLoading <= currentFrame == 0 ==> canvas == blank
      ensures |ids| > 1 && currentFrame < frameLoading ==>
                exists before ::
                  && PaintsOver(before, ids[currentFrame], canvas)
                  && if currentFrame == 0 then before == blank
                     else Leaves(ids[currentFrame - 1], ids[currentFrame], old(canvas), old(lastUndisposed), before)
    {
      if |ids| == 1 {
        return ids[0].WholePicture();
      }
      if !isCreated {
        isCreated := true;
      }
      if currentFrame == 0 {
        canvas, lastUndisposed := blank, blank;
      }
      if frameLoading <= currentFrame {
        return canvas;
      }
      ghost var before :=
        if currentFrame == 0 then canvas else Disposed(ids, currentFrame, canvas, lastUndisposed);
      if currentFrame > 0 {
        DisposedLeaves(ids, currentFrame, canvas, lastUndisposed);
      }
      PaintedOver(before, ids[currentFrame]);
      DisposeAndPaint();
      return canvas;
    }

    /** Carries out the disposal of the frame before, and paints the current one. */
    method DisposeAndPaint()
      requires Valid() && isCreated && currentFrame < frameLoading
      modifies this`canvas, this`lastUndisposed, this`isRendered
      ensures Valid() && isRendered
      ensures canvas == (if currentFrame == 0 then old(canvas)
                         else Disposed(ids, currentFrame, old(canvas), old(lastUndisposed))) + ids[currentFrame].Paint()
      ensures lastUndisposed == if currentFrame == 0 then old(canvas)
                                else Remembered(ids, currentFrame, old(canvas), old(lastUndisposed))
    {
      var dispose := if currentFrame > 0 then ids[currentFrame - 1].dispose else Unknown;
      if dispose == NoDispose || dispose == Unknown {
        lastUndisposed := canvas;
      }
      if dispose == ToPrevious {
        canvas := lastUndisposed;
      }
      if dispose == ToBackground {
        canvas := canvas + Filled(ids[currentFrame - 1], ids[currentFrame].Background());
      }
      canvas := canvas + ids[currentFrame].Paint();
      isRendered := true;
    }

    method OnAdvance()
      requires Valid()
      modifies this`currentFrame, this`isRendered
      ensures Valid()
      ensures isRendered == (old(isRendered) && !old(Now()).Moves(ids))
      ensures currentFrame == old(Now()).Next(ids)
    {
      if !isRendered {
        return;
      }
      if currentFrame + 1 >= |ids| {
        isRendered, currentFrame := false, 0;
      } else if frameLoading > currentFrame + 1 {
        isRendered, currentFrame := false, currentFrame + 1;
      }
    }

    /**
     Advancing keeps in step unless it is premature; then, only if the frame adds nothing to what is remembered.
     Coming round to frame 0 is always in step.
     */
    method Advance()
      requires Valid()
      modifies this
      ensures Valid() && Now() == old(Now()).After(ids, Advanced)
      ensures old(InStep()) ==>
                (InStep() <==>
                   (old(Now()).Premature(ids) ==> SameAsBefore(ids, blank, currentFrame)))
      ensures currentFrame == 0 ==> InStep()
      ensures isRendered && currentFrame > 0 ==>
                && canvas == Disposed(ids, currentFrame, old(canvas), old(lastUndisposed)) + ids[currentFrame].Paint()
                && lastUndisposed == Remembered(ids, currentFrame, old(canvas), old(lastUndisposed))
    {
      ghost var p := Now();
      MoveAndCompose();
      if old(InStep()) && isRendered && currentFrame > 0 {
        if p.Moves(ids) {
          ShowsNext(ids, blank, currentFrame, old(canvas), old(lastUndisposed));
        } else {
          ShowsAgain(ids, blank, currentFrame, old(canvas), old(lastUndisposed));
        }
      }
    }

    method MoveAndCompose()
      requires Valid()
      modifies this
      ensures Valid() && Now() == old(Now()).After(ids, Advanced)
      ensures currentFrame == 0 ==> InStep()
      ensures isRendered && currentFrame > 0 ==>
                && canvas == Disposed(ids, currentFrame, old(canvas), old(lastUndisposed)) + ids[currentFrame].Paint()
                && lastUndisposed == Remembered(ids, currentFrame, old(canvas), old(lastUndisposed))
    {
      ghost var p := Now();
      OnAdvance();
      var _ := ComposeCurrentSurface();
      isRequested, stale := true, currentFrame > 0 && (stale || p.Premature(ids));
    }

    method Restart()
      requires Valid()
      modifies this
      ensures Valid() && InStep() && Now() == old(Now()).After(ids, Restarted)
    {
      currentFrame, isRendered := 0, false;
      var _ := ComposeCurrentSurface();
      stale := false;
    }

    /** Composes the first time; after that the viewer's surface is the canvas, whatever has become of it. */
    method RequestCurrentSurface() returns (surface: Picture)
      requires Valid()
      modifies this
      ensures Valid() && Now() == old(Now()).After(ids, Requested)
      ensures surface == if |ids| == 1 then ids[0].WholePicture() else canvas
      ensures old(isRequested) ==> canvas == old(canvas) && lastUndisposed == old(lastUndisposed)
      ensures old(InStep()) ==> InStep()
      ensures old(InStep()) && isRendered ==> surface == Canvas(ids, blank, currentFrame)
      ensures old(InStep()) && |ids| > 1 && !isRendered ==> surface == blank
    {
      if !isRequested {
        surface := ComposeCurrentSurface();
        isRequested := true;
      } else {
        surface := if |ids| == 1 then ids[0].WholePicture() else canvas;
      }
    }

    /** The decoder has completed frames up to this one; called from the worker. */
    method FrameFinished(frameIndex: nat)
      requires Valid() && frameLoading <= frameIndex <= |ids|
      modifies this`frameLoading
      ensures Valid() && Now() == old(Now()).(loaded := frameIndex)
      ensures old(InStep()) ==> InStep()
    {
      frameLoading := frameIndex;
    }

    method Happen(e: Event)
      requires Steady()
      modifies this
      ensures Steady() && Now() == old(Now()).After(ids, e)
    {
      match e
      case Requested =>
        var _ := RequestCurrentSurface();
      case Advanced =>
        Advance();
      case Restarted =>
        Restart();
      case FrameArrived =>
        if frameLoading < |ids| {
          FrameFinished(frameLoading + 1);
        }
    }

    /**
     Any sequence of calls, those that come too early included: unless one came too early since the run was last at
     frame 0, the canvas is that of the current frame, and so the replay exactly where composing in place is right.
     Once all frames are decoded, a restart or as many advances as there are frames make it so for good.
     */
    method Play(events: seq<Event>)
      requires Steady()
      modifies this
      ensures Steady() && Now() == Run(ids, old(Now()), events)
      ensures !stale && isRendered ==>
                && canvas == Canvas(ids, blank, currentFrame)
                && (canvas == Replay(ids, blank, currentFrame) <==> Right(ids, blank, currentFrame))
                && (Restorable(ids) ==> canvas == Replay(ids, blank, currentFrame))
      ensures old(frameLoading) == |ids| && (Restarted in events || Count(events, Advanced) >= |ids|) ==> !stale
    {
      for i := 0 to |events|
        invariant Steady() && Now() == Run(ids, old(Now()), events[..i])
      {
        assert events[..i + 1][..i] == events[..i];
        Happen(events[i]);
      }
      assert events[..|events|] == events;
      if old(frameLoading) == |ids| {
        OneRoundAtMost(ids, old(Now()), events);
      }
      if Restorable(ids) {
        RestorableIsRight(ids, blank);
      }
    }

    /**
     A premature advance shows when what was remembered is returned to: that frame is then painted over the canvas
     of the frame that came up twice, where in turn it is painted over the canvas before (`ReturnedTo`).
     */
    method AdvanceTooEarly()
      requires Valid() && InStep() && Now().Premature(ids)
      modifies this
      ensures Valid() && isRendered && currentFrame == Reader(ids, old(currentFrame)) + 1
      ensures canvas == Canvas(ids, blank, old(currentFrame)) + ids[currentFrame].Paint()
    {
      var m := Reader(ids, currentFrame);
      AdvanceInVain();
      AdvancePast(m);
    }

    /** The next frame has not arrived: the current one is composed again. */
    method AdvanceInVain()
      requires Valid() && isRendered && currentFrame > 0 && frameLoading == currentFrame + 1 < |ids| && InStep()
      modifies this
      ensures Valid() && isRendered && currentFrame == old(currentFrame) && frameLoading == old(frameLoading)
      ensures canvas == old(canvas)
      ensures lastUndisposed == if Kept(ids[currentFrame - 1]) then canvas else old(lastUndisposed)
    {
      ShowsAgain(ids, blank, currentFrame, canvas, lastUndisposed);
      assert !Now().Moves(ids);
      Advance();
    }

    /** The next frame has arrived and is composed. */
    method AdvanceToNext()
      requires Valid() && isRendered && currentFrame + 1 < frameLoading
      modifies this
      ensures Valid() && isRendered && currentFrame == old(currentFrame) + 1 && frameLoading == old(frameLoading)
      ensures canvas == Disposed(ids, currentFrame, old(canvas), old(lastUndisposed)) + ids[currentFrame].Paint()
      ensures lastUndisposed == Remembered(ids, currentFrame, old(canvas), old(lastUndisposed))
      ensures old(InStep()) ==> InStep() && canvas == Canvas(ids, blank, currentFrame)
    {
      assert Now().Moves(ids) && Now().Next(ids) == currentFrame + 1;
      Advance();
    }

    /** All frames arrive. Those disposed to background do not change what is remembered for the one behind them. */
    method AdvancePast(m: nat)
      requires Valid() && isRendered && currentFrame <= m < |ids| - 1
      requires ids[m].dispose == ToPrevious && forall i :: currentFrame <= i < m ==> ids[i].dispose == ToBackground
      modifies this
      ensures Valid() && isRendered && currentFrame == m + 1
      ensures canvas == old(lastUndisposed) + ids[m + 1].Paint()
    {
      FrameFinished(|ids|);
      while currentFrame <= m
        invariant Valid() && isRendered && old(currentFrame) <= currentFrame <= m + 1 && frameLoading == |ids|
        invariant lastUndisposed == old(lastUndisposed)
        invariant currentFrame == m + 1 ==> canvas == lastUndisposed + ids[m + 1].Paint()
        decreases m + 1 - currentFrame
      {
        assert !Kept(ids[currentFrame]);
        AdvanceToNext();
      }
    }
  }

  /** Once all frames are decoded, no advance comes too early. */
  lemma NoneTooEarly(ids: seq<Descriptor>, p: Position, e: Event)
    requires p.Valid(ids) && p.loaded == |ids|
    ensures var q := p.After(ids, e); q.Valid(ids) && q.loaded == |ids| && (q.stale ==> p.stale)
  {
  }

  function Count(events: seq<Event>, e: Event): nat {
    if events == [] then 0 else Count(events[..|events| - 1], e) + if events[|events| - 1] == e then 1 else 0
  }

  /**
   After that, a canvas that is wrong is right again by the next round at the latest: with a restart, or with
   as many advances as there are frames left.
   */
  lemma {:induction false} OneRoundAtMost(ids: seq<Descriptor>, p: Position, events: seq<Event>)
    requires p.Valid(ids) && p.loaded == |ids|
    ensures var q := Run(ids, p, events);
            && q.Valid(ids) && q.loaded == |ids|
            && (q.stale ==> p.stale && Restarted !in events && q.frame == p.frame + Count(events, Advanced) < |ids|)
  {
    if events != [] {
      var n := |events| - 1;
      OneRoundAtMost(ids, p, events[..n]);
      NoneTooEarly(ids, Run(ids, p, events[..n]), events[n]);
      assert events == events[..n] + [events[n]];
    }
  }

  /** A frame that stays comes before one, not the last, that is to be removed. */
  ghost predicate ReturnsBehind(ids: seq<Descriptor>) {
    exists j, m :: 0 <= j < m < |ids| - 1 && Kept(ids[j]) && ids[m].dispose == ToPrevious
  }

  /** In an animation without that, no call comes too early, decoded or not. */
  lemma {:induction false} NeverTooEarly(ids: seq<Descriptor>, p: Position, events: seq<Event>)
    requires p.Valid(ids) && !p.stale && !ReturnsBehind(ids)
    ensures var q := Run(ids, p, events); q.Valid(ids) && !q.stale && !q.Premature(ids)
  {
    if events != [] {
      NeverTooEarly(ids, p, events[..|events| - 1]);
    }
    if Run(ids, p, events).Premature(ids) {
      PrematureReturns(ids, Run(ids, p, events));
    }
  }

  lemma PrematureReturns(ids: seq<Descriptor>, p: Position)
    requires p.Premature(ids)
    ensures ReturnsBehind(ids)
  {
    var m := Reader(ids, p.frame);
    assert Kept(ids[p.frame - 1]) && ids[m].dispose == ToPrevious;
  }

  function Start(): Position { Position(0, 0, false, false, false) }

  /** With it, some run comes to a point at which to advance is premature. */
  lemma SometimesTooEarly(ids: seq<Descriptor>) returns (events: seq<Event>)
    requires ReturnsBehind(ids)
    ensures Run(ids, Start(), events).Premature(ids)
  {
    var j, m :| 0 <= j < m < |ids| - 1 && Kept(ids[j]) && ids[m].dispose == ToPrevious;
    var k := LastKept(ids, m);
    NeededFor(ids, k, m);
    events := Arrive(ids, k + 1);
    events := AdvanceTo(ids, events, k, k + 1);
  }

  lemma {:induction false} Arrive(ids: seq<Descriptor>, n: nat) returns (events: seq<Event>)
    requires n <= |ids|
    ensures Run(ids, Start(), events) == Position(0, n, false, false, false)
  {
    if n == 0 {
      events := [];
    } else {
      var before := Arrive(ids, n - 1);
      events := before + [FrameArrived];
      assert events[..|events| - 1] == before;
    }
  }

  lemma {:induction false} AdvanceTo(ids: seq<Descriptor>, arrived: seq<Event>, k: nat, n: nat)
    returns (events: seq<Event>)
    requires k < n <= |ids| && |ids| > 1 && Run(ids, Start(), arrived) == Position(0, n, false, false, false)
    ensures Run(ids, Start(), events) == Position(k, n, true, true, false)
    decreases k
  {
    var before := arrived;
    if k > 0 {
      before := AdvanceTo(ids, arrived, k - 1, n);
    }
    events := before + [Advanced];
    assert events[..|events| - 1] == before;
  }

  /** Three frames, the second a dot that has to go again. */
  function DotFrames(): seq<Descriptor> {
    var red := seq(256, _ => Color(255, 255, 0, 0));
    [Descriptor(map[], red, 0, false, NoDispose),
     Descriptor(map[Point(0, 0) := 1], red, 0, false, ToPrevious),
     Descriptor(map[], red, 0, false, NoDispose)]
  }

  /** Advanced once before the third frame has arrived, the dot stays. */
  method DotStays() returns (composer: ImageComposerGif)
    ensures fresh(composer) && composer.Valid() && composer.currentFrame == 2 && composer.isRendered
    ensures Point(0, 0) in composer.canvas && Point(0, 0) !in Replay(composer.ids, composer.blank, 2)
  {
    composer := new ImageComposerGif(DotFrames(), map[]);
    composer.FrameFinished(2);
    composer.Advance();
    composer.Advance();
    composer.AdvanceTooEarly();
  }

  /** Three frames, the first a dot whose area is to be filled, the second one to be removed. */
  function FilledFrames(): seq<Descriptor> {
    var red := seq(256, _ => Color(255, 255, 0, 0));
    [Descriptor(map[Point(0, 0) := 1], red, 0, false, ToBackground),
     Descriptor(map[], red, 0, false, ToPrevious),
     Descriptor(map[], red, 0, false, NoDispose)]
  }

  /** All frames decoded: the third no longer shows the area filled. */
  method FillIsForgotten() returns (composer: ImageComposerGif)
    ensures fresh(composer) && composer.Valid() && composer.currentFrame == 2 && composer.isRendered
    ensures Point(0, 0) !in composer.canvas && Point(0, 0) in Replay(composer.ids, composer.blank, 2)
  {
    composer := new ImageComposerGif(FilledFrames(), map[]);
    composer.FrameFinished(3);
    composer.Advance();
    composer.Advance();
    composer.AdvanceToNext();
  }
}
