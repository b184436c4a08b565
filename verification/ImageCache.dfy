/** The list of files the user moves through, which owns the images and keeps the decoder's queue up to date. */
module ImageCache {
  import opened Common
  import opened ImageLoading
  import opened WorkLists
  import opened ImageQueues
  import opened DecoderProtocol

  // What an unsigned index becomes below zero.
  const SIZE_MAX: nat := 0xFFFF_FFFF_FFFF_FFFF
  const MAX_FILES: nat := 0x7FFF_FFF0

  function Decremented(index: nat): nat { if index == 0 then SIZE_MAX else index - 1 }

  /** An index as a signed number. */
  function ToInt(index: nat): int { if index == SIZE_MAX then -1 else index }

  datatype Result = Success(image: Option<Image>) | InvalidCall | InvalidParam

  class Cacher {
    var files: seq<Image>
    var index: nat
    var wentForward: bool
    var wrapAround: bool
    const queue: ImageQueue

    ghost function Existing(): set<Image>
      reads this
    {
      set x | x in files
    }

    /** No image twice; the index is that of a file if there is one. */
    ghost predicate Valid()
      reads this
    {
      Distinct(files) && |files| <= MAX_FILES
        && (if files == [] then index == 0 || index == SIZE_MAX else index < |files|)
    }

    /** The system's files and queue are those of the cache. */
    ghost predicate SeenBy(s: System)
      reads this, queue
    {
      s.files == Existing() && s.queue == queue.workPackages
    }

    /** The queue asks only for images that exist, and for each at most once. */
    ghost predicate QueueOk()
      reads this, queue
    {
      OncePerImage(queue.workPackages) && AllIn(queue.workPackages, Existing())
    }

    constructor ()
      ensures Valid() && QueueOk() && files == [] && fresh(queue)
    {
      files, index, wentForward, wrapAround := [], 0, true, false;
      queue := new ImageQueue();
    }

    function CurrentImage(): Option<Image>
      reads this
      requires Valid()
    {
      if files == [] then None else Some(files[index])
    }

    /** The file a few places further on or back; wrapping around, where that is wanted, happens once. */
    method PeekRelativeIndex(delta: int) returns (found: Option<nat>)
      requires Valid()
      ensures files != [] && found.Some? ==> found.value < |files|
      ensures delta == 0 ==> found == Some(index)
      ensures var p := index + delta;
              files != [] && delta != 0 ==>
                if 0 <= p < |files| then found == Some(p)
                else if wrapAround && -|files| <= p < 0 then found == Some(p + |files|)
                else if wrapAround && |files| <= p < 2 * |files| then found == Some(p - |files|)
                else found == None
      ensures files == [] && delta != 0 ==> found == None
    {
      if delta == 0 {
        return Some(index);
      }
      var position := ToInt(index) + delta;
      if position < 0 && wrapAround {
        position := |files| + position;
      }
      if (position < 0 || position >= |files|) && wrapAround {
        position := position - |files|;
      }
      if position < 0 || position >= |files| {
        return None;
      }
      return Some(position);
    }

    /** What to ask for so many places further on; an entry without an image if there is none. */
    method PeekRelativeRequest(delta: int) returns (request: Option<Image>)
      requires Valid() && delta != 0
      ensures IsIn(request, Existing()) && Matches(request, delta)
      ensures wrapAround && -|files| <= index + delta < 0 ==> request == Some(files[index + delta + |files|])
      ensures wrapAround && |files| <= index + delta < 2 * |files| ==> request == Some(files[index + delta - |files|])
    {
      var at := PeekRelativeIndex(delta);
      request := if files == [] || at.None? then None else Some(files[at.value]);
    }

    ghost predicate Matches(request: Option<Image>, delta: int)
      reads this
    {
      0 <= index + delta < |files| ==> request == Some(files[index + delta])
    }

    /** The current image, the next and the one before, and those beyond, the direction of travel first. */
    ghost function AroundCurrent(way: int): ImageList
      reads this
      requires 2 <= index < |files| - 2 && (way == 1 || way == -1)
    {
      [Some(files[index]), Some(files[index + way]), Some(files[index - way]), Some(files[index + 2 * way]),
       Some(files[index - 2 * way])]
    }

    /** The current image is asked for first; then its neighbours, those in the direction of travel first. */
    method ApplyPriorities(flip: bool) returns (image: Option<Image>)
      requires Valid()
      modifies queue
      ensures image == CurrentImage() && QueueOk()
      ensures 1 <= |queue.workPackages| <= 5 && queue.workPackages[0] == image
      ensures forall j :: 0 <= j < |files| && -2 <= j - index <= 2 ==> Some(files[j]) in queue.workPackages
      ensures SecondIsNext(queue.workPackages, if flip then -1 else 1)
      ensures 2 <= index < |files| - 2 ==> queue.workPackages == AroundCurrent(if flip then -1 else 1)
      ensures forall s: System :: old(SeenBy(s)) && s.ui == Free ==>
                CacheStep(s, s.(queue := queue.workPackages, ui := Edited(Cache)))
    {
      image := CurrentImage();
      var list := Requests(image, if flip then -1 else 1);
      AskedAround(list, if flip then -1 else 1);
      queue.CacheImage(list);
    }

    /** The current image and up to four neighbours. */
    method Requests(image: Option<Image>, way: int) returns (list: ImageList)
      requires Valid() && image == CurrentImage() && (way == 1 || way == -1)
      ensures OncePerImage(list) && AllIn(list, Existing()) && 1 <= |list| <= 5 && list[0] == image
      ensures Asked(list, 0) && Asked(list, way) && Asked(list, -way) && Asked(list, 2 * way) && Asked(list, -2 * way)
      ensures SecondIsNext(list, way)
      ensures 2 <= index < |files| - 2 ==> list == AroundCurrent(way)
    {
      var next := PeekRelativeRequest(way);
      var previous := PeekRelativeRequest(-way);
      var second := PeekRelativeRequest(2 * way);
      var secondPrevious := PeekRelativeRequest(-2 * way);
      list := PushInTurn(image, next, previous, second, secondPrevious, Existing());
      Requested(list, image, next, previous, second, secondPrevious, way);
    }

    lemma Requested(list: ImageList, image: Option<Image>, next: Option<Image>, previous: Option<Image>,
                    second: Option<Image>, secondPrevious: Option<Image>, way: int)
      requires Valid() && image == CurrentImage() && (way == 1 || way == -1)
      requires Matches(next, way) && Matches(previous, -way) && Matches(second, 2 * way)
      requires Matches(secondPrevious, -2 * way)
      requires image in list && next in list && previous in list && second in list && secondPrevious in list
      requires image != next ==> |list| > 1 && list[1] == next
      requires Distinct([image, next, previous, second, secondPrevious]) ==>
                 list == [image, next, previous, second, secondPrevious]
      ensures Asked(list, 0) && Asked(list, way) && Asked(list, -way) && Asked(list, 2 * way) && Asked(list, -2 * way)
      ensures SecondIsNext(list, way)
      ensures 2 <= index < |files| - 2 ==> list == AroundCurrent(way)
    {
      if 0 <= index + way < |files| {
        assert files[index] != files[index + way] && image != next;
      }
      if 2 <= index < |files| - 2 {
        AroundIsDistinct(way);
        assert [image, next, previous, second, secondPrevious] == AroundCurrent(way);
      }
    }

    /** Behind the current image, the next in the direction of travel is asked for, if there is one. */
    ghost predicate SecondIsNext(list: ImageList, way: int)
      reads this
    {
      0 <= index + way < |files| ==> |list| > 1 && list[1] == Some(files[index + way])
    }

    /** The image so many places further on, if there is one without wrapping around, is on the list. */
    ghost predicate Asked(list: ImageList, delta: int)
      reads this
    {
      0 <= index + delta < |files| ==> Some(files[index + delta]) in list
    }

    lemma AroundIsDistinct(way: int)
      requires Valid() && 2 <= index < |files| - 2 && (way == 1 || way == -1)
      ensures Distinct(AroundCurrent(way))
    {
    }

    lemma AskedAround(list: ImageList, way: int)
      requires Valid() && (way == 1 || way == -1) && Asked(list, 0)
      requires Asked(list, way) && Asked(list, -way) && Asked(list, 2 * way) && Asked(list, -2 * way)
      ensures forall j :: 0 <= j < |files| && -2 <= j - index <= 2 ==> Some(files[j]) in list
    {
      forall j | 0 <= j < |files| && -2 <= j - index <= 2
        ensures Some(files[j]) in list
      {
        assert Asked(list, j - index);
      }
    }

    method Clear()
      requires Valid()
      modifies this, queue
      ensures Valid() && QueueOk() && files == [] && queue.workPackages == []
    {
      ClearQueue();
      DropFiles();
      index, wentForward := 0, true;
    }

    method ClearQueue()
      modifies queue
      ensures queue.workPackages == []
      ensures forall s: System :: old(SeenBy(s)) && s.ui == Free ==>
                ClearStep(s, s.(queue := queue.workPackages, ui := Edited(Call.Clear)))
    {
      queue.Reset();
    }

    /** What the decoder has let go of is dropped. */
    method DropFiles()
      modifies this`files
      ensures files == []
      ensures forall s: System :: old(SeenBy(s)) && s.ui == Woken(Call.Clear) ==>
                EraseStep(s, s.(files := Existing(), ui := Free))
    {
      files := [];
    }

    /** A file whose type no codec claims is not added. */
    method AddImageLast(image: Image, codecExists: bool) returns (current: Option<Image>)
      requires Valid() && QueueOk() && image !in files && |files| < MAX_FILES
      modifies this, queue
      ensures Valid() && QueueOk() && current == CurrentImage()
      ensures files == if codecExists then old(files) + [image] else old(files)
      ensures old(files) != [] ==> index == old(index)
    {
      if !codecExists {
        return CurrentImage();
      }
      AppendFile(image);
      if |files| == 1 {
        index, wentForward := 0, true;
      }
      current := ApplyPriorities(false);
    }

    method AppendFile(image: Image)
      modifies this`files
      ensures files == old(files) + [image]
      ensures forall s: System :: old(SeenBy(s)) && s.ui == Free ==> AddFileStep(s, s.(files := Existing()))
    {
      files := files + [image];
    }

    /**
     The image is out of the queue before the file goes. Then the next image is current, or the previous one
     if there is none or if that was the direction of travel.
     */
    method RemoveCurrentImage() returns (r: Result)
      requires Valid() && QueueOk()
      modifies this, queue
      ensures Valid() && QueueOk() && wrapAround == old(wrapAround)
      ensures old(files) == [] <==> r == InvalidCall
      ensures old(files) != [] ==>
                && files == Without(old(files), old(index)) && r == Success(CurrentImage())
                && old(files)[old(index)] !in files && Some(old(files)[old(index)]) !in queue.workPackages
                && (files != [] ==>
                      index == if old(index) == |files| || (!old(wentForward) && old(index) > 0) then old(index) - 1
                               else old(index))
    {
      if files == [] {
        return InvalidCall;
      }
      EraseFile(index);
      if index >= |files| || (!wentForward && index > 0) {
        index := Decremented(index);
      }
      var image := ApplyPriorities(false);
      r := Success(image);
    }

    /** Takes an image out of the queue, then, the decoder having let go of it, out of the files. */
    method EraseFile(at: nat)
      requires Valid() && QueueOk() && at < |files|
      modifies this`files, queue
      ensures files == Without(old(files), at) && Distinct(files) && old(files)[at] !in files
      ensures Some(old(files)[at]) !in queue.workPackages && QueueOk()
    {
      ghost var x, existing := files[at], Existing();
      ErasedOnce(queue.workPackages, x, existing);
      Unqueue(files[at]);
      DropFile(at);
      assert AllIn(queue.workPackages, existing - {x});
    }

    method Unqueue(x: Image)
      modifies queue
      ensures queue.workPackages == Erased(old(queue.workPackages), x)
      ensures forall s: System :: old(SeenBy(s)) && s.ui == Free ==>
                RemoveStep(s, s.(queue := queue.workPackages, ui := Edited(Remove(x))))
    {
      queue.RemoveImage(x);
    }

    method DropFile(at: nat)
      requires Distinct(files) && at < |files|
      modifies this`files
      ensures files == Without(old(files), at) && Distinct(files) && Existing() == old(Existing()) - {old(files)[at]}
      ensures forall s: System :: old(SeenBy(s)) && s.ui == Woken(Remove(old(files)[at])) ==>
                EraseStep(s, s.(files := Existing(), ui := Free))
    {
      ghost var was, x := files, files[at];
      files := Without(files, at);
      assert forall j :: 0 <= j < |files| ==> files[j] == was[if j < at then j else j + 1];
      forall y | y in was && y != x
        ensures y in files
      {
        var j :| 0 <= j < |was| && was[j] == y;
        assert files[if j < at then j else j - 1] == y;
      }
    }

    /** Removing another image leaves the current one current. */
    method RemoveImageIndex(at: nat) returns (r: Result)
      requires Valid() && QueueOk()
      modifies this, queue
      ensures Valid() && QueueOk()
      ensures at >= |old(files)| <==> r == InvalidParam
      ensures at >= |old(files)| ==> files == old(files)
      ensures at < |old(files)| ==>
                && files == Without(old(files), at) && r == Success(CurrentImage())
                && old(files)[at] !in files && Some(old(files)[at]) !in queue.workPackages
                && (at != old(index) ==> CurrentImage() == old(CurrentImage()))
    {
      if at >= |files| {
        return InvalidParam;
      }
      if at == index {
        r := RemoveCurrentImage();
        return;
      }
      EraseFile(at);
      if index >= |files| || index > at {
        index := Decremented(index);
      }
      var image := ApplyPriorities(false);
      r := Success(image);
    }
  }

  /** Nothing is asked for twice. */
  function Pushed(list: ImageList, request: Option<Image>): ImageList {
    if request in list then list else list + [request]
  }

  lemma PushedOnce(list: ImageList, request: Option<Image>, existing: set<Image>)
    requires OncePerImage(list) && AllIn(list, existing) && (request.Some? ==> request.value in existing)
    ensures var longer := Pushed(list, request);
            && OncePerImage(longer) && AllIn(longer, existing) && request in longer && list <= longer
            && |longer| <= |list| + 1
  {
  }

  predicate IsIn(request: Option<Image>, existing: set<Image>) { request.Some? ==> request.value in existing }

  method PushInTurn(a: Option<Image>, b: Option<Image>, c: Option<Image>, d: Option<Image>, e: Option<Image>,
                    ghost existing: set<Image>) returns (list: ImageList)
    requires IsIn(a, existing) && IsIn(b, existing) && IsIn(c, existing) && IsIn(d, existing) && IsIn(e, existing)
    ensures OncePerImage(list) && AllIn(list, existing) && 1 <= |list| <= 5 && list[0] == a
    ensures a in list && b in list && c in list && d in list && e in list
    ensures a != b ==> |list| > 1 && list[1] == b
    ensures Distinct([a, b, c, d, e]) ==> list == [a, b, c, d, e]
  {
    var l1 := Pushed([a], b);
    var l2 := Pushed(l1, c);
    var l3 := Pushed(l2, d);
    list := Pushed(l3, e);
    PushedOnce([a], b, existing);
    PushedOnce(l1, c, existing);
    PushedOnce(l2, d, existing);
    PushedOnce(l3, e, existing);
    if Distinct([a, b, c, d, e]) {
      DistinctPushed(a, b, c, d, e);
    }
  }

  lemma DistinctPushed(a: Option<Image>, b: Option<Image>, c: Option<Image>, d: Option<Image>, e: Option<Image>)
    requires Distinct([a, b, c, d, e])
    ensures Pushed(Pushed(Pushed(Pushed([a], b), c), d), e) == [a, b, c, d, e]
  {
    var all := [a, b, c, d, e];
    assert all[0] != all[1] && all[0] != all[2] && all[0] != all[3] && all[0] != all[4];
    assert all[1] != all[2] && all[1] != all[3] && all[1] != all[4] && all[2] != all[3] && all[2] != all[4];
    assert all[3] != all[4];
    assert Pushed([a], b) == [a, b];
    assert Pushed([a, b], c) == [a, b, c];
    assert Pushed([a, b, c], d) == [a, b, c, d];
  }
}
