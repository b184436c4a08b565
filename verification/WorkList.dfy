/** The decoder's work list: rebuilt from the queue within the memory limit, searched for the next package. */
module WorkLists {
  import opened Common
  import opened ImageLoading

  type Loaders = seq<Loader>

  ghost predicate AllValid(ls: Loaders) { forall i :: 0 <= i < |ls| ==> ls[i].Valid() }

  function Images(ls: Loaders): (r: seq<Image>)
    ensures |r| == |ls|
  {
    seq(|ls|, i requires 0 <= i < |ls| => ls[i].image)
  }

  function Fresh(image: Image): Loader { Loader(image, Unprocessed, None, false) }

  function Purged(l: Loader): Loader { l.(codec := None, stage := Unprocessed) }

  /** Index of the first loader of an image, or the length. */
  function Find(ls: Loaders, image: Image): (i: nat)
    ensures i <= |ls|
    ensures i < |ls| ==> ls[i].image == image
    ensures forall j :: 0 <= j < i ==> ls[j].image != image
  {
    if ls == [] then 0 else if ls[0].image == image then 0 else 1 + Find(ls[1..], image)
  }

  function Without<T>(s: seq<T>, i: nat): (r: seq<T>)
    requires i < |s|
    ensures |r| == |s| - 1
  {
    s[..i] + s[i + 1..]
  }

  /** One loader for each image asked for, from the k-th on: the one already at work on it, or a new one. */
  function Merged(was: Loaders, images: seq<Option<Image>>, k: nat): (r: Loaders)
    requires k <= |images|
    ensures AllValid(was) ==> AllValid(r)
    decreases |images| - k
  {
    if k == |images| then []
    else if images[k].None? then Merged(was, images, k + 1)
    else
      var i := Find(was, images[k].value);
      if i == |was| then [Fresh(images[k].value)] + Merged(was, images, k + 1)
      else [was[i]] + Merged(Without(was, i), images, k + 1)
  }

  /** The images asked for, in order, from the k-th on. */
  function Requested(images: seq<Option<Image>>, k: nat): seq<Image>
    requires k <= |images|
    decreases |images| - k
  {
    if k == |images| then []
    else if images[k].None? then Requested(images, k + 1)
    else [images[k].value] + Requested(images, k + 1)
  }

  /** Whether image data are, or may be, in memory for the full or the fast pass. */
  predicate Counted(l: Loader) { StateOf(l.stage) == StateLoading || StateOf(l.stage) == StateDone }

  function Occupied(ls: Loaders): nat
    requires AllValid(ls)
  {
    if ls == [] then 0 else (if Counted(ls[0]) then ls[0].Usage() else 0) + Occupied(ls[1..])
  }

  /** A loader, and the memory in use, after pruning has passed it. */
  function PrunedOne(l: Loader, limit: nat, used: nat, first: bool): (Loader, nat)
    requires l.Valid()
  {
    var m := l.(maySkipFast := first);
    if !Counted(l) then (m, used)
    else if !first && used + l.Usage() > limit then (Purged(m), used)
    else (m, used + l.Usage())
  }

  /** From the i-th on, deallocates what does not fit behind the images before it; the first always fits. */
  function Pruned(ls: Loaders, i: nat, limit: nat, used: nat): (r: Loaders)
    requires AllValid(ls) && i <= |ls|
    ensures AllValid(r) && |r| == |ls| - i && forall k :: i <= k < |ls| ==> r[k - i].image == ls[k].image
    decreases |ls| - i
  {
    if i == |ls| then []
    else var (l, after) := PrunedOne(ls[i], limit, used, i == 0); [l] + Pruned(ls, i + 1, limit, after)
  }

  function Rebuilt(was: Loaders, images: seq<Option<Image>>, limit: nat): (r: Loaders)
    requires AllValid(was)
    ensures AllValid(r)
  {
    Pruned(Merged(was, images, 0), 0, limit, 0)
  }

  /** The memory that the images up to here would take. */
  function Total(ls: Loaders): nat
    requires AllValid(ls) && forall i :: 0 <= i < |ls| ==> ls[i].stage != Unprocessed
  {
    if ls == [] then 0 else Total(ls[..|ls| - 1]) + ls[|ls| - 1].Usage()
  }

  predicate Suitable(l: Loader, used: nat, fastPass: bool, limit: nat)
    requires l.Valid()
  {
    if l.IsDone() then false
    else if l.stage == Unprocessed then true
    else if used == 0 then true
    else if fastPass && Rank(l.stage) >= Rank(DoneFast) then false
    else used + l.Usage() < limit
  }

  /** The first suitable loader from the i-th on, by index. */
  function Scan(ls: Loaders, i: nat, used: nat, fastPass: bool, limit: nat): (r: Option<nat>)
    requires AllValid(ls) && i <= |ls|
    ensures r.Some? ==> i <= r.value < |ls| && !ls[r.value].IsDone()
    decreases |ls| - i
  {
    if i == |ls| then None
    else if Suitable(ls[i], used, fastPass, limit) then Some(i)
    else Scan(ls, i + 1, used + ls[i].Usage(), fastPass, limit)
  }

  lemma ScanGoesOn(ls: Loaders, i: nat, used: nat, fastPass: bool, limit: nat)
    requires AllValid(ls) && i < |ls|
    ensures if Suitable(ls[i], used, fastPass, limit) then Scan(ls, i, used, fastPass, limit) == Some(i)
            else ls[i].stage != Unprocessed
                 && Scan(ls, i, used, fastPass, limit) == Scan(ls, i + 1, used + ls[i].Usage(), fastPass, limit)
  {
  }

  /** First the fast passes, then the full ones. */
  function Located(ls: Loaders, limit: nat): (r: Option<nat>)
    requires AllValid(ls)
    ensures r.Some? ==> r.value < |ls| && !ls[r.value].IsDone()
  {
    match Scan(ls, 0, 0, true, limit)
    case Some(i) => Some(i)
    case None => Scan(ls, 0, 0, false, limit)
  }

  // What rebuilding does.

  lemma {:induction false} MergedImages(was: Loaders, images: seq<Option<Image>>, k: nat)
    requires k <= |images|
    ensures Images(Merged(was, images, k)) == Requested(images, k)
    decreases |images| - k
  {
    if k < |images| {
      if images[k].None? {
        MergedImages(was, images, k + 1);
      } else {
        var i := Find(was, images[k].value);
        var rest := if i == |was| then was else Without(was, i);
        MergedImages(rest, images, k + 1);
        FirstImage(if i == |was| then Fresh(images[k].value) else was[i], Merged(rest, images, k + 1));
      }
    }
  }

  lemma FirstImage(l: Loader, ls: Loaders)
    ensures Images([l] + ls) == [l.image] + Images(ls)
  {
  }

  /** After rebuilding, exactly the images asked for are worked on. */
  lemma RebuiltImages(was: Loaders, images: seq<Option<Image>>, limit: nat)
    requires AllValid(was)
    ensures Images(Rebuilt(was, images, limit)) == Requested(images, 0)
  {
    MergedImages(was, images, 0);
  }

  lemma {:induction false} PrunedFits(ls: Loaders, i: nat, limit: nat, used: nat)
    requires AllValid(ls) && 0 < i <= |ls|
    ensures used + Occupied(Pruned(ls, i, limit, used)) <= if used > limit then used else limit
    decreases |ls| - i
  {
    if i < |ls| {
      var (l, after) := PrunedOne(ls[i], limit, used, false);
      PrunedFits(ls, i + 1, limit, after);
      assert Pruned(ls, i, limit, used)[1..] == Pruned(ls, i + 1, limit, after);
    }
  }

  /**
   After rebuilding, what is loading or done takes no more than the memory limit, or than the first image
   alone if that is more.
   */
  lemma RebuiltFits(was: Loaders, images: seq<Option<Image>>, limit: nat)
    requires AllValid(was)
    ensures var r := Rebuilt(was, images, limit);
            Occupied(r) <= limit || (r != [] && Counted(r[0]) && Occupied(r) == r[0].Usage())
  {
    var ls := Merged(was, images, 0);
    if ls != [] {
      var (l, after) := PrunedOne(ls[0], limit, 0, true);
      PrunedFits(ls, 1, limit, after);
      assert Rebuilt(was, images, limit)[1..] == Pruned(ls, 1, limit, after);
    }
  }

  /** Stage and codec stay, or the data go. */
  ghost predicate KeptIf(fits: bool, l: Loader, r: Loader, n: nat) {
    && r.image == l.image && r.maySkipFast == (n == 0)
    && if fits then r.stage == l.stage && r.codec == l.codec else r.stage == Unprocessed && r.codec == None
  }

  /**
   What pruning makes of the n-th loader: it stays as it is if it is the first, if it takes no memory for image data, or
   if it fits under the limit behind all that is left before it. Otherwise its data go.
   */
  ghost predicate PrunedAt(merged: Loaders, pruned: Loaders, limit: nat, n: nat)
    requires AllValid(merged) && AllValid(pruned) && n < |merged| == |pruned|
  {
    KeptIf(n == 0 || !Counted(merged[n]) || Occupied(pruned[..n]) + merged[n].Usage() <= limit, merged[n], pruned[n], n)
  }

  lemma OccupiedOfLonger(l: Loader, ls: Loaders, k: nat)
    requires l.Valid() && AllValid(ls) && 0 < k <= |ls| + 1
    ensures AllValid(([l] + ls)[..k]) && AllValid(ls[..k - 1])
    ensures Occupied(([l] + ls)[..k]) == (if Counted(l) then l.Usage() else 0) + Occupied(ls[..k - 1])
  {
    assert ([l] + ls)[..k][1..] == ls[..k - 1];
  }

  lemma {:induction false} PrunedExactly(ls: Loaders, i: nat, limit: nat, used: nat, n: nat, r: Loaders)
    requires AllValid(ls) && i <= n < |ls| && r == Pruned(ls, i, limit, used)
    ensures KeptIf(n == 0 || !Counted(ls[n]) || used + Occupied(r[..n - i]) + ls[n].Usage() <= limit,
                   ls[n], r[n - i], n)
    decreases |ls| - i
  {
    var (l, after) := PrunedOne(ls[i], limit, used, i == 0);
    var rest := Pruned(ls, i + 1, limit, after);
    assert r == [l] + rest;
    if i < n {
      PrunedExactly(ls, i + 1, limit, after, n, rest);
      OccupiedOfLonger(l, rest, n - i);
    } else {
      assert r[..0] == [];
    }
  }

  /** A rebuild deallocates exactly what does not fit, place by place. */
  lemma RebuiltExactly(was: Loaders, images: seq<Option<Image>>, limit: nat)
    requires AllValid(was)
    ensures |Rebuilt(was, images, limit)| == |Merged(was, images, 0)|
    ensures forall n :: 0 <= n < |Rebuilt(was, images, limit)| ==>
              PrunedAt(Merged(was, images, 0), Rebuilt(was, images, limit), limit, n)
  {
    var merged := Merged(was, images, 0);
    forall n | 0 <= n < |merged|
      ensures PrunedAt(merged, Rebuilt(was, images, limit), limit, n)
    {
      PrunedExactly(merged, 0, limit, 0, n, Rebuilt(was, images, limit));
    }
  }

  lemma {:induction false} AllFits(ls: Loaders, i: nat, limit: nat, used: nat, n: nat)
    requires AllValid(ls) && i <= n < |ls| && used + Occupied(ls[i..]) <= limit
    ensures Pruned(ls, i, limit, used)[n - i] == ls[n].(maySkipFast := n == 0)
    decreases |ls| - i
  {
    assert ls[i..][1..] == ls[i + 1..];
    if i < n {
      AllFits(ls, i + 1, limit, PrunedOne(ls[i], limit, used, i == 0).1, n);
    }
  }

  /** If all that is loading or done fits, nothing is deallocated. */
  lemma NothingDeallocated(was: Loaders, images: seq<Option<Image>>, limit: nat)
    requires AllValid(was) && Occupied(Merged(was, images, 0)) <= limit
    ensures var merged, r := Merged(was, images, 0), Rebuilt(was, images, limit);
            |r| == |merged| && forall n :: 0 <= n < |r| ==>
              r[n].stage == merged[n].stage && r[n].codec == merged[n].codec
  {
    var merged := Merged(was, images, 0);
    assert merged[0..] == merged;
    forall n | 0 <= n < |merged|
      ensures Rebuilt(was, images, limit)[n] == merged[n].(maySkipFast := n == 0)
    {
      AllFits(merged, 0, limit, 0, n);
    }
  }

  /** Where a loader of the merged list comes from, given that no image occurs twice. */
  lemma {:induction false} MergedKeeps(was: Loaders, images: seq<Option<Image>>, k: nat, n: nat)
    requires k <= |images| && n < |Merged(was, images, k)|
    requires Distinct(Images(was)) && Distinct(Requested(images, k))
    ensures |Merged(was, images, k)| == |Requested(images, k)|
    ensures var l, i := Merged(was, images, k)[n], Find(was, Requested(images, k)[n]);
            l == if i == |was| then Fresh(Requested(images, k)[n]) else was[i]
    decreases |images| - k
  {
    MergedImages(was, images, k);
    var wanted := Requested(images, k);
    if images[k].None? {
      MergedKeeps(was, images, k + 1, n);
    } else {
      var i := Find(was, wanted[0]);
      var rest := if i == |was| then was else Without(was, i);
      assert wanted[1..] == Requested(images, k + 1);
      WithoutDistinct(was, i);
      MergedImages(rest, images, k + 1);
      if n > 0 {
        MergedKeeps(rest, images, k + 1, n - 1);
        assert wanted[n] == wanted[1..][n - 1];
        FindWithout(was, i, wanted[n]);
      }
    }
  }

  lemma WithoutDistinct(ls: Loaders, i: nat)
    requires Distinct(Images(ls))
    ensures i < |ls| ==> Distinct(Images(Without(ls, i)))
  {
    if i < |ls| {
      var r := Without(ls, i);
      assert forall j :: 0 <= j < |r| ==> Images(r)[j] == Images(ls)[if j < i then j else j + 1];
    }
  }

  /** Taking out the loader of one image leaves the others to be found. */
  lemma FindWithout(ls: Loaders, i: nat, image: Image)
    requires Distinct(Images(ls)) && (i < |ls| ==> ls[i].image != image)
    ensures i < |ls| ==>
              var r, found := Without(ls, i), Find(ls, image);
              if found == |ls| then Find(r, image) == |r| else Find(r, image) < |r| && r[Find(r, image)] == ls[found]
  {
    if i < |ls| {
      var r, found := Without(ls, i), Find(ls, image);
      var at := Find(r, image);
      assert forall j :: 0 <= j < |r| ==> r[j] == ls[if j < i then j else j + 1];
      if found < |ls| {
        assert r[if found < i then found else found - 1] == ls[found];
        assert Images(ls)[if at < i then at else at + 1] == Images(ls)[found];
      }
    }
  }

  // What searching finds.

  ghost predicate Started(ls: Loaders) { forall i :: 0 <= i < |ls| ==> ls[i].stage != Unprocessed }

  /** Done, failed, or not fitting under the limit together with everything before it. */
  ghost predicate Idle(ls: Loaders, limit: nat, i: nat)
    requires AllValid(ls) && Started(ls) && i < |ls|
  {
    ls[i].IsDone() || (Total(ls[..i]) > 0 && Total(ls[..i]) + ls[i].Usage() >= limit)
  }

  /** What comes before the next loader. */
  lemma TotalGrows(ls: Loaders, i: nat)
    requires AllValid(ls) && i < |ls| && Started(ls[..i + 1])
    ensures Started(ls[..i]) && ls[i].stage != Unprocessed
    ensures Total(ls[..i + 1]) == Total(ls[..i]) + ls[i].Usage()
  {
    assert ls[..i + 1][..i] == ls[..i];
    assert ls[..i + 1][i] == ls[i];
  }

  lemma {:induction false} ScanFindsNone(ls: Loaders, i: nat, limit: nat)
    requires AllValid(ls) && i <= |ls| && Started(ls[..i])
    ensures Scan(ls, i, Total(ls[..i]), false, limit) == None <==>
              Started(ls) && forall k :: i <= k < |ls| ==> Idle(ls, limit, k)
    ensures Scan(ls, i, Total(ls[..i]), false, limit) == None ==> Scan(ls, i, Total(ls[..i]), true, limit) == None
    decreases |ls| - i
  {
    if i == |ls| {
      assert ls[..i] == ls;
    } else if ls[i].stage != Unprocessed {
      StartedFront(ls, i);
      TotalGrows(ls, i);
      ScanFindsNone(ls, i + 1, limit);
      assert Started(ls) ==> (Idle(ls, limit, i) <==> !Suitable(ls[i], Total(ls[..i]), false, limit));
    }
  }

  /**
   There is nothing to do exactly if every image is done, failed, or does not fit under the limit with
   everything queued before it. The first image that has not failed is then done.
   */
  lemma NothingToDo(ls: Loaders, limit: nat)
    requires AllValid(ls)
    ensures Located(ls, limit) == None <==> Started(ls) && forall i :: 0 <= i < |ls| ==> Idle(ls, limit, i)
    ensures Located(ls, limit) == None ==>
              forall i :: 0 <= i < |ls| && (forall j :: 0 <= j < i ==> ls[j].stage == Failed) ==>
                ls[i].stage == DoneFull || ls[i].stage == Failed
  {
    assert ls[..0] == [];
    ScanFindsNone(ls, 0, limit);
    if Located(ls, limit) == None {
      forall i | 0 <= i < |ls| && (forall j :: 0 <= j < i ==> ls[j].stage == Failed)
        ensures ls[i].stage == DoneFull || ls[i].stage == Failed
      {
        FailedTakeNothing(ls[..i]);
        assert Idle(ls, limit, i);
      }
    }
  }

  lemma {:induction false} FailedTakeNothing(ls: Loaders)
    requires AllValid(ls) && forall j :: 0 <= j < |ls| ==> ls[j].stage == Failed
    ensures Total(ls) == 0
  {
    if ls != [] {
      FailedTakeNothing(ls[..|ls| - 1]);
    }
  }

  lemma StartedFront(ls: Loaders, i: nat)
    requires i < |ls| && Started(ls[..i]) && ls[i].stage != Unprocessed
    ensures Started(ls[..i + 1])
  {
    assert ls[..i + 1] == ls[..i] + [ls[i]];
  }

  lemma {:induction false} ScanFits(ls: Loaders, i: nat, fastPass: bool, limit: nat)
    requires AllValid(ls) && i <= |ls| && Started(ls[..i])
    ensures Scan(ls, i, Total(ls[..i]), fastPass, limit).Some? ==>
              var k := Scan(ls, i, Total(ls[..i]), fastPass, limit).value;
              && Started(ls[..k])
              && (ls[k].stage == Unprocessed || Total(ls[..k]) == 0 || Total(ls[..k]) + ls[k].Usage() < limit)
    decreases |ls| - i
  {
    if i < |ls| && !Suitable(ls[i], Total(ls[..i]), fastPass, limit) {
      StartedFront(ls, i);
      TotalGrows(ls, i);
      ScanFits(ls, i + 1, fastPass, limit);
    }
  }

  /** A package that is handed out lacks its header, or has nothing before it, or fits with all before it. */
  lemma LocatedFits(ls: Loaders, limit: nat)
    requires AllValid(ls) && Located(ls, limit).Some?
    ensures var i := Located(ls, limit).value;
            && Started(ls[..i])
            && (ls[i].stage == Unprocessed || Total(ls[..i]) == 0 || Total(ls[..i]) + ls[i].Usage() < limit)
  {
    assert ls[..0] == [];
    ScanFits(ls, 0, true, limit);
    ScanFits(ls, 0, false, limit);
  }

  /** Done, past its fast pass, or not fitting: nothing for a fast pass to do. */
  ghost predicate FastIdle(ls: Loaders, limit: nat, i: nat)
    requires AllValid(ls) && Started(ls) && i < |ls|
  {
    ls[i].IsDone()
    || (Total(ls[..i]) > 0 && (Rank(ls[i].stage) >= Rank(DoneFast) || Total(ls[..i]) + ls[i].Usage() >= limit))
  }

  lemma {:induction false} ScanFastFindsNone(ls: Loaders, i: nat, limit: nat)
    requires AllValid(ls) && i <= |ls| && Started(ls[..i])
    ensures Scan(ls, i, Total(ls[..i]), true, limit) == None <==>
              Started(ls) && forall k :: i <= k < |ls| ==> FastIdle(ls, limit, k)
    decreases |ls| - i
  {
    if i == |ls| {
      assert ls[..i] == ls;
    } else if ls[i].stage != Unprocessed {
      StartedFront(ls, i);
      TotalGrows(ls, i);
      ScanFastFindsNone(ls, i + 1, limit);
      assert Started(ls) ==> (FastIdle(ls, limit, i) <==> !Suitable(ls[i], Total(ls[..i]), true, limit));
    }
  }

  lemma {:induction false} ScanSuits(ls: Loaders, i: nat, fastPass: bool, limit: nat)
    requires AllValid(ls) && i <= |ls| && Started(ls[..i])
    ensures Scan(ls, i, Total(ls[..i]), fastPass, limit).Some? ==>
              var k := Scan(ls, i, Total(ls[..i]), fastPass, limit).value;
              Started(ls[..k]) && Suitable(ls[k], Total(ls[..k]), fastPass, limit)
    decreases |ls| - i
  {
    if i < |ls| && !Suitable(ls[i], Total(ls[..i]), fastPass, limit) {
      StartedFront(ls, i);
      TotalGrows(ls, i);
      ScanSuits(ls, i + 1, fastPass, limit);
    }
  }

  /**
   Fast passes come first: a package past its own, behind others, is handed out only if there is nothing left for a
   fast pass to do anywhere on the list.
   */
  lemma FastPassesFirst(ls: Loaders, limit: nat)
    requires AllValid(ls) && Located(ls, limit).Some?
    requires var i := Located(ls, limit).value;
             Rank(ls[i].stage) >= Rank(DoneFast) && Started(ls[..i]) && Total(ls[..i]) > 0
    ensures Started(ls) && forall k :: 0 <= k < |ls| ==> FastIdle(ls, limit, k)
  {
    assert ls[..0] == [];
    ScanSuits(ls, 0, true, limit);
    ScanFastFindsNone(ls, 0, limit);
  }

  // The list itself.

  ghost function ViewOf(ps: seq<ImageLoader>): (r: Loaders)
    reads ps
    ensures |r| == |ps|
  {
    seq(|ps|, i requires 0 <= i < |ps| reads ps => ps[i].View())
  }

  lemma DistinctAdds<T>(a: seq<T>, b: seq<T>, x: T)
    requires Distinct(a + b) && x !in a + b
    ensures Distinct(a + [x] + b)
  {
    var c := a + [x] + b;
    assert forall i :: 0 <= i < |c| && i != |a| ==> c[i] == (a + b)[if i < |a| then i else i - 1];
  }

  lemma DistinctMoves<T>(a: seq<T>, b: seq<T>, i: nat)
    requires Distinct(a + b) && i < |b|
    ensures Distinct(a + [b[i]] + Without(b, i)) && Distinct(b)
  {
    var c := a + [b[i]] + Without(b, i);
    assert b == (a + b)[|a|..];
    forall p, q | 0 <= p < q < |c|
      ensures c[p] != c[q]
    {
      var m, n := MovedFrom(|a|, i, p), MovedFrom(|a|, i, q);
      assert c[p] == (a + b)[m] && c[q] == (a + b)[n] && m != n;
    }
  }

  /** Where an element was before the i-th of those behind came to the front of them. */
  function MovedFrom(front: nat, i: nat, k: nat): nat {
    if k < front then k else if k == front then front + i else if k - 1 < front + i then k - 1 else k
  }

  class WorkList {
    var packages: seq<ImageLoader>
    var memoryLimit: nat
    var newMemoryLimit: nat

    ghost predicate Valid()
      reads this, packages
    {
      Distinct(packages) && AllValid(ViewOf(packages))
    }

    constructor ()
      ensures Valid() && packages == [] && memoryLimit == newMemoryLimit == 0
    {
      packages, memoryLimit, newMemoryLimit := [], 0, 0;
    }

    method MemoryLimit(newLimit: nat)
      modifies this`newMemoryLimit
      ensures newMemoryLimit == newLimit
    {
      newMemoryLimit := newLimit;
    }

    method FindPackage(image: Image) returns (i: nat)
      ensures i == Find(ViewOf(packages), image)
    {
      i := 0;
      while i < |packages| && packages[i].image != image
        invariant i <= |packages|
        invariant Find(ViewOf(packages), image) == i + Find(ViewOf(packages)[i..], image)
      {
        i := i + 1;
      }
    }

    /** Takes over the loaders of images still asked for, drops the others, and prunes to the new limit. */
    method Rebuild(images: seq<Option<Image>>)
      requires Valid()
      modifies this, packages
      ensures Valid() && memoryLimit == newMemoryLimit == old(newMemoryLimit)
      ensures ViewOf(packages) == Rebuilt(old(ViewOf(packages)), images, memoryLimit)
      ensures var merged := Merged(old(ViewOf(packages)), images, 0);
              |merged| == |packages| && AllValid(merged)
              && forall n :: 0 <= n < |packages| ==> PrunedAt(merged, ViewOf(packages), memoryLimit, n)
      ensures forall i :: 0 <= i < |packages| ==> packages[i] in old(packages) || fresh(packages[i])
    {
      memoryLimit := newMemoryLimit;
      RebuiltExactly(ViewOf(packages), images, memoryLimit);
      Merge(images);
      Prune();
    }

    method Merge(images: seq<Option<Image>>)
      requires Valid()
      modifies this`packages
      ensures Valid()
      ensures ViewOf(packages) == Merged(old(ViewOf(packages)), images, 0)
      ensures forall i :: 0 <= i < |packages| ==> packages[i] in old(packages) || fresh(packages[i])
    {
      var newPackages: seq<ImageLoader> := [];
      ghost var goal := Merged(ViewOf(packages), images, 0);
      ghost var was := packages;
      var k := 0;
      while k < |images|
        modifies this`packages
        invariant k <= |images| && Distinct(newPackages + packages)
        invariant MergedTo(goal, newPackages, images, k)
        invariant forall p <- packages :: p in was
        invariant forall p <- newPackages :: allocated(p) && (p in was || fresh(p))
      {
        if images[k].Some? {
          newPackages := Take(images, k, newPackages, goal);
        }
        k := k + 1;
      }
      assert newPackages == (newPackages + packages)[..|newPackages|];
      packages := newPackages;
    }

    ghost predicate MergedTo(goal: Loaders, taken: seq<ImageLoader>, images: seq<Option<Image>>, k: nat)
      reads this, packages, taken
    {
      && k <= |images| && AllValid(ViewOf(taken)) && AllValid(ViewOf(packages))
      && goal == ViewOf(taken) + Merged(ViewOf(packages), images, k)
    }

    /** Takes over the loader of the k-th image, or makes a new one. */
    method Take(images: seq<Option<Image>>, k: nat, taken: seq<ImageLoader>, ghost goal: Loaders)
      returns (more: seq<ImageLoader>)
      requires k < |images| && images[k].Some?
      requires Distinct(taken + packages) && MergedTo(goal, taken, images, k)
      modifies this`packages
      ensures Distinct(more + packages) && MergedTo(goal, more, images, k + 1)
      ensures forall p <- more :: p in taken || p in old(packages) || fresh(p)
      ensures forall p <- packages :: p in old(packages)
    {
      ghost var before := ViewOf(taken);
      var loader := FindOrMake(images, k, taken);
      more := taken + [loader];
      assert ViewOf(more) == before + [loader.View()];
      ConcatAssociates(before, [loader.View()], Merged(ViewOf(packages), images, k + 1));
    }

    method FindOrMake(images: seq<Option<Image>>, k: nat, ghost taken: seq<ImageLoader>) returns (loader: ImageLoader)
      requires k < |images| && images[k].Some?
      requires Distinct(taken + packages) && AllValid(ViewOf(packages))
      modifies this`packages
      ensures Distinct(taken + [loader] + packages) && AllValid(ViewOf(packages)) && loader.View().Valid()
      ensures [loader.View()] + Merged(ViewOf(packages), images, k + 1) == Merged(old(ViewOf(packages)), images, k)
      ensures loader in old(packages) || fresh(loader)
      ensures forall p <- packages :: p in old(packages)
    {
      var i := FindPackage(images[k].value);
      ghost var was := ViewOf(packages);
      if i == |packages| {
        loader := new ImageLoader(images[k].value);
        DistinctAdds(taken, packages, loader);
      } else {
        loader := packages[i];
        assert was[i].Valid();
        DistinctMoves(taken, packages, i);
        packages := Without(packages, i);
        assert ViewOf(packages) == Without(was, i);
      }
    }

    method Prune()
      requires Valid()
      modifies packages
      ensures Valid()
      ensures ViewOf(packages) == Pruned(old(ViewOf(packages)), 0, memoryLimit, 0)
    {
      var currUsed: nat, i := 0, 0;
      ghost var was := ViewOf(packages);
      PrunedNothing();
      while i < |packages|
        modifies packages
        invariant i <= |packages| && Distinct(packages) && PrunedTo(was, i, currUsed)
      {
        currUsed := PruneOne(i, currUsed, was);
        i := i + 1;
      }
      assert packages[..i] == packages && Pruned(was, i, memoryLimit, currUsed) == [];
    }

    /** The loaders before the i-th are pruned, the others as they were. */
    ghost predicate PrunedTo(was: Loaders, i: nat, used: nat)
      reads this, packages
    {
      && i <= |packages| == |was| && AllValid(ViewOf(packages)) && AllValid(was)
      && (forall k :: i <= k < |was| ==> packages[k].View() == was[k])
      && Pruned(was, 0, memoryLimit, 0) == ViewOf(packages[..i]) + Pruned(was, i, memoryLimit, used)
    }

    lemma PrunedNothing()
      requires Valid()
      ensures PrunedTo(ViewOf(packages), 0, 0)
    {
      assert ViewOf(packages[..0]) == [];
    }

    method PruneOne(i: nat, currUsed: nat, ghost was: Loaders) returns (used: nat)
      requires Valid() && i < |packages| && PrunedTo(was, i, currUsed)
      modifies packages[i]
      ensures Valid() && PrunedTo(was, i + 1, used)
    {
      ghost var p, before := packages[i], ViewOf(packages[..i]);
      assert was[i].Valid();
      used := PruneLoader(packages[i], currUsed, i == 0);
      assert forall k :: 0 <= k < |packages| && k != i ==> packages[k] != p;
      assert ViewOf(packages) == old(ViewOf(packages))[i := p.View()];
      assert ViewOf(packages[..i + 1]) == before + [p.View()];
      ConcatAssociates(before, [p.View()], Pruned(was, i + 1, memoryLimit, used));
    }

    /** Deallocates an image that does not fit, and adds up what the others take. */
    method PruneLoader(p: ImageLoader, currUsed: nat, first: bool) returns (used: nat)
      requires p.View().Valid()
      modifies p
      ensures (p.View(), used) == PrunedOne(old(p.View()), memoryLimit, currUsed, first) && p.View().Valid()
    {
      used := currUsed;
      p.AllowFastSkip(first);
      if p.GetState() == StateDone || p.GetState() == StateLoading {
        var usage := p.MemoryRequirements();
        if !first && currUsed + usage > memoryLimit {
          p.Deallocate();
        } else {
          used := currUsed + usage;
        }
      }
    }

    method SuitableWorkPackage(p: ImageLoader, currUsed: nat, fastPass: bool) returns (suitable: bool)
      requires p.View().Valid()
      ensures suitable == Suitable(p.View(), currUsed, fastPass, memoryLimit)
    {
      if p.GetState() == StateDone {
        return false;
      }
      if p.GetState() == StateUnprocessed {
        return true;
      }
      if currUsed == 0 {
        return true;
      }
      if fastPass && p.FastPassFinished() {
        return false;
      }
      var usage := p.MemoryRequirements();
      return currUsed + usage < memoryLimit;
    }

    method ScanForPackage(fastPass: bool) returns (index: Option<nat>)
      requires Valid()
      ensures index == Scan(ViewOf(packages), 0, 0, fastPass, memoryLimit)
    {
      var currUsed: nat, i := 0, 0;
      ghost var ls := ViewOf(packages);
      ghost var goal := Scan(ls, 0, 0, fastPass, memoryLimit);
      while i < |packages|
        invariant i <= |packages|
        invariant goal == Scan(ls, i, currUsed, fastPass, memoryLimit)
      {
        assert packages[i].View() == ls[i] && ls[i].Valid();
        ScanGoesOn(ls, i, currUsed, fastPass, memoryLimit);
        var suitable := SuitableWorkPackage(packages[i], currUsed, fastPass);
        if suitable {
          return Some(i);
        }
        var usage := packages[i].MemoryRequirements();
        currUsed := currUsed + usage;
        i := i + 1;
      }
      return None;
    }

    /** No lookup asks a loader without a header for its memory: that would throw. */
    method FetchPackage() returns (index: Option<nat>)
      requires Valid()
      ensures index == Located(ViewOf(packages), memoryLimit)
    {
      if packages == [] {
        return None;
      }
      index := ScanForPackage(true);
      if index.None? {
        index := ScanForPackage(false);
      }
    }
  }
}
