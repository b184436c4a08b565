/** The queue between the user interface and the decoder thread: images to load, most urgent first. */
module ImageQueues {
  import opened Common
  import opened ImageLoading
  import opened WorkLists

  // An entry without an image is passed over.
  type ImageList = seq<Option<Image>>

  /** No image is asked for twice. */
  ghost predicate OncePerImage(queue: ImageList) {
    forall i, j :: 0 <= i < j < |queue| && queue[i].Some? ==> queue[i] != queue[j]
  }

  ghost predicate AllIn(queue: ImageList, files: set<Image>) {
    forall i :: 0 <= i < |queue| && queue[i].Some? ==> queue[i].value in files
  }

  function Position(queue: ImageList, image: Image, k: nat): (i: nat)
    requires k <= |queue|
    ensures k <= i <= |queue| && (i < |queue| ==> queue[i] == Some(image))
    ensures forall j :: k <= j < i ==> queue[j] != Some(image)
    decreases |queue| - k
  {
    if k == |queue| || queue[k] == Some(image) then k else Position(queue, image, k + 1)
  }

  /** The queue without the first entry of an image. */
  function Erased(queue: ImageList, image: Image): ImageList {
    var i := Position(queue, image, 0);
    if i < |queue| then Without(queue, i) else queue
  }

  function Occurrences(queue: ImageList, image: Image): nat {
    if queue == [] then 0
    else (if queue[|queue| - 1] == Some(image) then 1 else 0) + Occurrences(queue[..|queue| - 1], image)
  }

  lemma {:induction false} OccursIff(queue: ImageList, image: Image)
    ensures Occurrences(queue, image) > 0 <==> Some(image) in queue
  {
    if queue != [] {
      OccursIff(queue[..|queue| - 1], image);
      assert queue == queue[..|queue| - 1] + [queue[|queue| - 1]];
    }
  }

  lemma {:induction false} OccurrencesConcat(a: ImageList, b: ImageList, image: Image)
    ensures Occurrences(a + b, image) == Occurrences(a, image) + Occurrences(b, image)
  {
    if b == [] {
      assert a + b == a;
    } else {
      OccurrencesConcat(a, b[..|b| - 1], image);
      assert (a + b)[..|a + b| - 1] == a + b[..|b| - 1];
    }
  }

  /** Erasing takes away one occurrence, so an image is gone afterwards exactly if it was there at most once. */
  lemma ErasedOccurrences(queue: ImageList, image: Image, other: Image)
    ensures Occurrences(Erased(queue, image), other)
            == Occurrences(queue, other) - if other == image && Some(image) in queue then 1 else 0
    ensures Some(image) !in Erased(queue, image) <==> Occurrences(queue, image) <= 1
  {
    OccursIff(queue, image);
    OccursIff(Erased(queue, image), image);
    var i := Position(queue, image, 0);
    if i < |queue| {
      OccurrencesWithout(queue, i, image, image);
      OccurrencesWithout(queue, i, image, other);
    }
  }

  lemma OccurrencesWithout(queue: ImageList, i: nat, image: Image, x: Image)
    requires i < |queue| && queue[i] == Some(image)
    ensures Occurrences(queue, x) == Occurrences(Without(queue, i), x) + if x == image then 1 else 0
  {
    var a, b := queue[..i], queue[i + 1..];
    assert queue == a + ([queue[i]] + b);
    OccurrencesConcat(a, [queue[i]] + b, x);
    OccurrencesConcat([queue[i]], b, x);
    OccurrencesConcat(a, b, x);
  }

  /** What may be asked of the queue after an erasure, if no image was in it twice. */
  lemma ErasedOnce(queue: ImageList, image: Image, files: set<Image>)
    requires OncePerImage(queue) && AllIn(queue, files)
    ensures var r := Erased(queue, image); OncePerImage(r) && AllIn(r, files) && AllIn(r, files - {image})
  {
    var i := Position(queue, image, 0);
    var r := Erased(queue, image);
    if i < |queue| {
      assert forall j :: 0 <= j < |r| ==> r[j] == queue[if j < i then j else j + 1];
    }
  }

  lemma {:induction false} RequestedImages(queue: ImageList, k: nat, files: set<Image>)
    requires k <= |queue| && OncePerImage(queue) && AllIn(queue, files)
    ensures Distinct(Requested(queue, k))
    ensures forall x <- Requested(queue, k) :: x in files && exists i :: k <= i < |queue| && queue[i] == Some(x)
    decreases |queue| - k
  {
    if k < |queue| {
      RequestedImages(queue, k + 1, files);
      if queue[k].Some? {
        var rest := Requested(queue, k + 1);
        assert forall x <- rest :: x != queue[k].value;
        assert Requested(queue, k) == [queue[k].value] + rest;
      }
    }
  }

  class ImageQueue {
    var workPackages: ImageList

    constructor ()
      ensures workPackages == []
    {
      workPackages := [];
    }

    method CacheImage(imagesToProcess: ImageList)
      modifies this
      ensures workPackages == imagesToProcess
    {
      workPackages := imagesToProcess;
    }

    method RemoveImage(image: Image)
      modifies this
      ensures workPackages == Erased(old(workPackages), image)
    {
      var i := 0;
      while i < |workPackages| && workPackages[i] != Some(image)
        invariant i <= |workPackages| && Position(workPackages, image, 0) == Position(workPackages, image, i)
      {
        i := i + 1;
      }
      if i < |workPackages| {
        workPackages := Without(workPackages, i);
      }
    }

    method Reset()
      modifies this
      ensures workPackages == []
    {
      workPackages := [];
    }
  }
}
