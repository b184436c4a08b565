/** The memory limit between two rebuilds: which step keeps it, and a run that does not. */
module MemoryLimits {
  import opened Common
  import opened ImageLoading
  import opened WorkLists
  import opened ImageQueues
  import opened DecoderProtocol

  function Cost(l: Loader): nat
    requires l.Valid()
  {
    if Counted(l) then l.Usage() else 0
  }

  lemma {:induction false} OccupiedAfter(ls: Loaders, i: nat, l: Loader)
    requires AllValid(ls) && i < |ls| && l.Valid()
    ensures AllValid(ls[i := l]) && Occupied(ls[i := l]) == Occupied(ls) - Cost(ls[i]) + Cost(l)
  {
    if i == 0 {
      assert ls[i := l][1..] == ls[1..];
    } else {
      OccupiedAfter(ls[1..], i - 1, l);
      assert ls[i := l][1..] == ls[1..][i - 1 := l];
    }
  }

  lemma {:induction false} FlagsAreFree(ls: Loaders, more: Loaders)
    requires AllValid(ls) && AllValid(more) && |ls| == |more|
    requires forall i :: 0 <= i < |ls| ==> Cost(ls[i]) == Cost(more[i])
    ensures Occupied(ls) == Occupied(more)
  {
    if ls != [] {
      FlagsAreFree(ls[1..], more[1..]);
    }
  }

  /** The worker goes over from the header, or the fast pass, to loading. */
  ghost predicate Begins(s: System, t: System) {
    && ProcessStep(s, t, false)
    && StateOf(s.list[s.package.value].stage) == StateHeader && StateOf(t.list[s.package.value].stage) == StateLoading
  }

  /** The memory that is taken changes only when a package begins to load, ends its fast pass or fails. */
  lemma ProcessTakes(s: System, t: System, aborted: bool)
    requires Inv(s) && ProcessStep(s, t, aborted)
    ensures AllValid(t.list)
    ensures var l, r := s.list[s.package.value], t.list[s.package.value];
            Occupied(t.list) == Occupied(s.list) + (if Begins(s, t) then l.Usage() else 0)
                                - (if Counted(l) && r.stage in {DoneFast, Failed} then l.Usage() else 0)
  {
    var i := s.package.value;
    StepRaisesRank(s.list[i], t.list[i], aborted);
    OccupiedAfter(s.list, i, t.list[i]);
  }

  /**
   Between rebuilds the limit is kept by every step of either thread but one: a package that begins to load keeps
   it exactly if it fits besides all that is loading or done, wherever that is queued.
   */
  lemma LimitKept(s: System, t: System)
    requires Inv(s) && Next(s, t) && !RebuildStep(s, t) && Occupied(s.list) <= s.limit
    ensures Inv(t) && t.limit == s.limit
    ensures Occupied(t.list) <= t.limit <==>
            (Begins(s, t) ==> Occupied(s.list) + s.list[s.package.value].Usage() <= s.limit)
  {
    StepKeepsInv(s, t);
    if ProcessStep(s, t, true) {
      ProcessTakes(s, t, true);
    } else if ProcessStep(s, t, false) {
      ProcessTakes(s, t, false);
    } else {
      FlagsAreFree(s.list, t.list);
    }
  }

  // A run that exceeds it.

  lemma Extended(r: seq<System>, t: System) returns (longer: seq<System>)
    requires IsRun(r) && Next(r[|r| - 1], t) && AllValid(t.list)
    ensures IsRun(longer) && longer[|longer| - 1] == t
  {
    longer := r + [t];
  }

  function At(queue: ImageList, list: Loaders, limit: nat, newLimit: nat, package: Option<nat>, state: ThreadState,
              worker: Worker, ui: Ui): System {
    System({0, 1}, queue, list, limit, newLimit, package, state, worker, ui)
  }

  /** An image of 6 units. */
  function Six(image: Image, stage: Stage, first: bool): Loader { Loader(image, stage, Some(Codec(6, false)), first) }

  function New(image: Image): Loader { Loader(image, Unprocessed, None, true) }

  /** Two files, a limit of 10, and the second file is asked for. */
  lemma AsksForOne() returns (r: seq<System>)
    ensures IsRun(r) && r[|r| - 1] == At([Some(1)], [New(1)], 10, 10, None, Running, AtLock, Free)
  {
    r := [System({}, [], [], 0, 0, None, Running, AtLock, Free)];
    r := Extended(r, At([], [], 0, 0, None, Running, AtLock, Free));
    r := Extended(r, At([], [], 0, 10, None, Running, AtLock, Edited(Cache)));
    r := Extended(r, At([], [], 0, 10, None, Updating, AtLock, Free));
    r := Extended(r, At([Some(1)], [], 0, 10, None, Updating, AtLock, Edited(Cache)));
    r := Extended(r, At([Some(1)], [], 0, 10, None, Updating, AtLock, Free));
    assert Merged([], [Some(1)], 0) == [Fresh(1)];
    assert Rebuilt([], [Some(1)], 10) == [New(1)];
    r := Extended(r, At([Some(1)], [New(1)], 10, 10, None, Running, AtLock, Free));
  }

  /** The worker takes the first package one stage further. */
  lemma Worked(r: seq<System>, queue: ImageList, l: Loader, next: Loader, others: Loaders, package: Option<nat>)
    returns (longer: seq<System>)
    requires IsRun(r) && l.Valid() && AllValid(others) && LoadStep(l, next, false) && !next.AbortSet()
    requires Located([l] + others, 10) == Some(0)
    requires r[|r| - 1] == At(queue, [l] + others, 10, 10, package, Running, AtLock, Free)
    ensures IsRun(longer) && longer[|longer| - 1] == At(queue, [next] + others, 10, 10, Some(0), Running, AtLock, Free)
  {
    longer := Extended(r, At(queue, [l] + others, 10, 10, Some(0), Running, Busy, Free));
    assert ([l] + others)[0 := next] == [next] + others == ([next] + others)[0 := WithAbort(next, false)];
    var t := At(queue, [next] + others, 10, 10, Some(0), Running, Returning, Free);
    assert ProcessStep(longer[|longer| - 1], t, false);
    longer := Extended(longer, t);
    longer := Extended(longer, At(queue, [next] + others, 10, 10, Some(0), Running, AtLock, Free));
  }

  /** The second file, loaded and then told to abort, which it no longer heeds. */
  function Old(first: bool): Loader { WithAbort(Six(1, DoneFull, first), true) }

  /** The second file is loaded; then the first is asked for, and the second again, behind it. */
  lemma AsksForBoth() returns (r: seq<System>)
    ensures IsRun(r)
    ensures r[|r| - 1] == At([Some(0), Some(1)], [New(0), Old(false)], 10, 10, None, Running, AtLock, Free)
  {
    r := AsksForOne();
    var queue := [Some(1)];
    assert [New(1)] == [New(1)] + [];
    r := Worked(r, queue, New(1), Six(1, LoadedHeader, true), [], None);
    r := Worked(r, queue, Six(1, LoadedHeader, true), Six(1, LoadingFull, true), [], Some(0));
    r := Worked(r, queue, Six(1, LoadingFull, true), Six(1, DoneFull, true), [], Some(0));
    var list: Loaders := [Six(1, DoneFull, true)] + [];
    r := Extended(r, At([Some(0), Some(1)], list, 10, 10, Some(0), Running, AtLock, Edited(Cache)));
    assert [Old(true)] == list[0 := WithAbort(list[0], true)];
    r := Extended(r, At([Some(0), Some(1)], [Old(true)], 10, 10, Some(0), Updating, AtLock, Free));
    BothFit();
    r := Extended(r, At([Some(0), Some(1)], [New(0), Old(false)], 10, 10, None, Running, AtLock, Free));
  }

  /** What is rebuilt: 6 units are taken, by the second image. */
  lemma BothFit()
    ensures Rebuilt([Old(true)], [Some(0), Some(1)], 10) == [New(0), Old(false)]
  {
    var was, images: seq<Option<Image>> := [Old(true)], [Some(0), Some(1)];
    assert Without(was, 0) == [];
    assert Merged([], images, 2) == [];
    assert Merged(was, images, 1) == [Old(true)];
    assert Merged(was, images, 0) == [Fresh(0), Old(true)];
    var ls := [Fresh(0), Old(true)];
    assert Pruned(ls, 1, 10, 0) == [Old(false)];
  }

  /** The first package is never compared with those behind it: two images take 12 units under a limit of 10. */
  lemma LimitExceeded() returns (r: seq<System>)
    ensures IsRun(r) && r[|r| - 1].limit == 10 && r[|r| - 1].state == Running
    ensures AllValid(r[|r| - 1].list) && Occupied(r[|r| - 1].list) == 12
  {
    r := AsksForBoth();
    var queue := [Some(0), Some(1)];
    assert [New(0), Old(false)] == [New(0)] + [Old(false)];
    r := Worked(r, queue, New(0), Six(0, LoadedHeader, true), [Old(false)], None);
    r := Worked(r, queue, Six(0, LoadedHeader, true), Six(0, LoadingFull, true), [Old(false)], Some(0));
    var ls := [Six(0, LoadingFull, true)] + [Old(false)];
    assert Occupied(ls[1..]) == 6 && ls[1..][1..] == [];
  }
}
