/**
 The user interface and the decoder thread as one interleaved system. Each step is what one thread does while
 it holds the work list's mutex, or one operation of the queue, which has a mutex of its own, or one step of
 loading, done without a lock.
 */
module DecoderProtocol {
  import opened Common
  import opened ImageLoading
  import opened WorkLists
  import opened ImageQueues

  datatype ThreadState = Running | Updating | Terminating | Stopped

  // About to take the mutex; waiting for work; loading a package; handing it back; ended.
  datatype Worker = AtLock | Sleeping | Busy | Returning | Gone

  /** What the user interface has asked for; removing and clearing wait for the update. */
  datatype Call = Cache | Remove(image: Image) | Clear
  {
    predicate Waits() { this != Cache }
  }

  // The queue is edited; waiting in Update; notified, and about to erase files; joining the thread; ended.
  datatype Ui = Free | Edited(call: Call) | Waiting(call: Call) | Woken(call: Call) | Joining | Ended

  datatype System = System(
    files: set<Image>,        // the images that exist
    queue: ImageList,
    list: Loaders,
    limit: nat,
    newLimit: nat,
    package: Option<nat>,     // the loader the worker was last given, by its place in the list
    state: ThreadState,
    worker: Worker,
    ui: Ui)

  function WithAbort(l: Loader, abort: bool): Loader {
    if l.codec.None? then l else l.(codec := Some(l.codec.value.(abort := abort)))
  }

  /** Sets the abort flag of the loader that the worker was last given. */
  function Aborting(s: System): (list: Loaders)
    ensures |list| == |s.list|
  {
    if s.package.Some? && s.package.value < |s.list|
    then s.list[s.package.value := WithAbort(s.list[s.package.value], true)] else s.list
  }

  function Interrupted(s: System): System { s.(list := Aborting(s)) }

  function Notified(w: Worker): Worker { if w == Sleeping then AtLock else w }

  // The steps of the user interface.

  /** CacheImage: any list of images that exist, each at most once. */
  ghost predicate CacheStep(s: System, t: System) {
    && s.ui == Free && t == s.(queue := t.queue, ui := Edited(Cache))
    && OncePerImage(t.queue) && AllIn(t.queue, s.files)
  }

  ghost predicate RemoveStep(s: System, t: System) {
    && s.ui == Free && t.ui.Edited? && t.ui.call.Remove?
    && t == s.(queue := Erased(s.queue, t.ui.call.image), ui := t.ui)
  }

  ghost predicate ClearStep(s: System, t: System) {
    s.ui == Free && t == s.(queue := [], ui := Edited(Clear))
  }

  ghost predicate AddFileStep(s: System, t: System) {
    s.ui == Free && s.files <= t.files && t == s.(files := t.files)
  }

  /** The limit is set first; the update that follows it is requested like that of CacheImage. */
  ghost predicate LimitStep(s: System, t: System) {
    s.ui == Free && t == s.(newLimit := t.newLimit, ui := Edited(Cache))
  }

  ghost predicate UpdateStep(s: System, t: System) {
    && s.ui.Edited? && s.state != Stopped
    && t == s.(list := Aborting(s), state := Updating, worker := Notified(s.worker),
               ui := if s.ui.call.Waits() then Waiting(s.ui.call) else Free)
  }

  /** Update has returned: what was to be removed ceases to exist. */
  ghost predicate EraseStep(s: System, t: System) {
    && s.ui.Woken?
    && t == s.(files := if s.ui.call.Remove? then s.files - {s.ui.call.image} else {}, ui := Free)
  }

  ghost predicate TerminateStep(s: System, t: System) {
    && s.ui == Free && s.state != Stopped
    && t == s.(list := Aborting(s), state := Terminating, worker := Notified(s.worker), ui := Joining)
  }

  ghost predicate JoinedStep(s: System, t: System) {
    s.ui == Joining && s.worker == Gone && t == s.(ui := Ended)
  }

  ghost predicate UiStep(s: System, t: System) {
    || CacheStep(s, t) || RemoveStep(s, t) || ClearStep(s, t) || AddFileStep(s, t) || LimitStep(s, t)
    || UpdateStep(s, t) || EraseStep(s, t) || TerminateStep(s, t) || JoinedStep(s, t)
  }

  // The steps of the decoder thread.

  ghost predicate LocateStep(s: System, t: System)
    requires AllValid(s.list)
  {
    && s.worker == AtLock && s.state == Running
    && match Located(s.list, s.limit)
       case Some(i) => t == s.(package := Some(i), worker := Busy)
       case None => t == s.(worker := Sleeping)
  }

  ghost predicate RebuildStep(s: System, t: System)
    requires AllValid(s.list)
  {
    && s.worker == AtLock && s.state == Updating
    && t == s.(list := Rebuilt(s.list, s.queue, s.newLimit), limit := s.newLimit, package := None, state := Running,
               ui := if s.ui.Waiting? then Woken(s.ui.call) else s.ui)
  }

  ghost predicate StopStep(s: System, t: System)
    requires AllValid(s.list)
  {
    && s.worker == AtLock && s.state == Terminating
    && t == s.(package := if Located(s.list, s.limit).Some? then Located(s.list, s.limit) else s.package,
               state := Stopped, worker := Gone)
  }

  ghost predicate ProcessStep(s: System, t: System, aborted: bool) {
    && s.worker == Busy && s.package.Some? && s.package.value < |s.list| == |t.list|
    && LoadStep(s.list[s.package.value], t.list[s.package.value], aborted)
    && t == s.(list := s.list[s.package.value := t.list[s.package.value]], worker := Returning)
  }

  ghost predicate ReturnStep(s: System, t: System) {
    && s.worker == Returning && s.package.Some? && s.package.value < |s.list|
    && t == s.(list := s.list[s.package.value := WithAbort(s.list[s.package.value], false)], worker := AtLock)
  }

  ghost predicate SpuriousStep(s: System, t: System) { s.worker == Sleeping && t == s.(worker := AtLock) }

  ghost predicate WorkerStep(s: System, t: System)
    requires AllValid(s.list)
  {
    || LocateStep(s, t) || RebuildStep(s, t) || StopStep(s, t)
    || ProcessStep(s, t, true) || ProcessStep(s, t, false) || ReturnStep(s, t)
  }

  ghost predicate Next(s: System, t: System)
    requires AllValid(s.list)
  {
    UiStep(s, t) || WorkerStep(s, t) || SpuriousStep(s, t)
  }

  ghost predicate Init(s: System) {
    s == System({}, [], [], 0, 0, None, Running, AtLock, Free)
  }

  // Safety.

  /** What is being removed is not in the queue, nor, once the wait is over, anywhere else. */
  ghost predicate CallOk(s: System) {
    && (s.ui.Edited? || s.ui.Waiting? || s.ui.Woken? ==>
          match s.ui.call
          case Cache => !s.ui.Waiting? && !s.ui.Woken?
          case Remove(x) => Some(x) !in s.queue
          case Clear => s.queue == [])
    && (s.ui.Waiting? ==> s.state == Updating)
    && (s.ui.Woken? ==>
          match s.ui.call
          case Cache => false
          case Remove(x) => x !in Images(s.list)
          case Clear => s.list == [])
  }

  ghost predicate ThreadsOk(s: System)
    requires AllValid(s.list)
  {
    && (s.worker == Sleeping ==> s.state == Running && Located(s.list, s.limit) == None)
    && (s.worker == Busy || s.worker == Returning ==> s.package.Some?)
    && (s.worker == Busy ==> s.package.value < |s.list| && !s.list[s.package.value].IsDone())
    && (s.worker == Gone <==> s.state == Stopped)
    && (s.state in {Terminating, Stopped} <==> s.ui == Joining || s.ui == Ended)
  }

  ghost predicate AllExist(images: seq<Image>, files: set<Image>) { forall x <- images :: x in files }

  ghost predicate Inv(s: System) {
    && AllValid(s.list) && Distinct(Images(s.list))
    && OncePerImage(s.queue) && AllIn(s.queue, s.files)
    && AllExist(Images(s.list), s.files)
    && (s.package.Some? ==> s.package.value < |s.list|)
    && CallOk(s) && ThreadsOk(s)
  }

  lemma InitInv(s: System)
    requires Init(s)
    ensures Inv(s)
  {
  }

  lemma RemoveKeepsInv(s: System, t: System)
    requires Inv(s) && RemoveStep(s, t)
    ensures Inv(t)
  {
    ErasedOnce(s.queue, t.ui.call.image, s.files);
  }

  lemma InterruptKeepsInv(s: System, t: System)
    requires Inv(s) && (UpdateStep(s, t) || TerminateStep(s, t))
    ensures Inv(t)
  {
    assert Images(t.list) == Images(s.list);
  }

  lemma UiKeepsInv(s: System, t: System)
    requires Inv(s) && UiStep(s, t)
    ensures Inv(t)
  {
    if RemoveStep(s, t) {
      RemoveKeepsInv(s, t);
    } else if UpdateStep(s, t) || TerminateStep(s, t) {
      InterruptKeepsInv(s, t);
    } else {
      assert t.list == s.list;
    }
  }

  lemma RebuildKeepsInv(s: System, t: System)
    requires Inv(s) && RebuildStep(s, t)
    ensures Inv(t)
  {
    RebuiltImages(s.list, s.queue, s.newLimit);
    RequestedImages(s.queue, 0, s.files);
  }

  lemma WorkerKeepsInv(s: System, t: System)
    requires Inv(s) && (WorkerStep(s, t) || SpuriousStep(s, t)) && !RebuildStep(s, t)
    ensures Inv(t)
  {
    assert Images(t.list) == Images(s.list);
  }

  lemma StepKeepsInv(s: System, t: System)
    requires Inv(s) && Next(s, t)
    ensures Inv(t)
  {
    if UiStep(s, t) {
      UiKeepsInv(s, t);
    } else if RebuildStep(s, t) {
      RebuildKeepsInv(s, t);
    } else {
      WorkerKeepsInv(s, t);
    }
  }

  ghost predicate IsRun(r: seq<System>) {
    && r != [] && Init(r[0])
    && (forall i :: 0 <= i < |r| ==> AllValid(r[i].list))
    && forall i :: 0 < i < |r| ==> Next(r[i - 1], r[i])
  }

  /**
   In every run and at every moment: each loader on the work list, the one the worker was last given and each
   image in the queue belong to an image that still exists. When the wait in RemoveImage or Reset is over,
   nothing refers to what is about to be erased.
   */
  lemma {:induction false} RunSafe(r: seq<System>)
    requires IsRun(r)
    ensures var s := r[|r| - 1];
            && Inv(s)
            && AllExist(Images(s.list), s.files) && AllIn(s.queue, s.files)
            && (s.package.Some? ==> s.package.value < |s.list| && s.list[s.package.value].image in s.files)
            && (s.ui.Woken? && s.ui.call.Remove? ==>
                  var x := s.ui.call.image;
                  x !in Images(s.list) && Some(x) !in s.queue
                  && (s.package.Some? ==> s.list[s.package.value].image != x))
            && (s.ui.Woken? && s.ui.call.Clear? ==> s.list == [] && s.queue == [] && s.package == None)
  {
    var s := r[|r| - 1];
    if |r| == 1 {
      InitInv(s);
    } else {
      RunSafe(r[..|r| - 1]);
      StepKeepsInv(r[|r| - 2], s);
    }
    if s.package.Some? {
      assert Images(s.list)[s.package.value] == s.list[s.package.value].image;
    }
  }

  /**
   An update or a termination sets the abort flag of the package the worker was last given, if that has a codec, and of
   no other; returning the package clears it.
   */
  lemma AbortIsSetAndCleared(s: System, t: System)
    requires Inv(s) && s.package.Some? && (UpdateStep(s, t) || TerminateStep(s, t) || ReturnStep(s, t))
    ensures var i := s.package.value;
            && |t.list| == |s.list| && (forall k :: 0 <= k < |s.list| && k != i ==> t.list[k] == s.list[k])
            && (t.list[i].AbortSet() <==> s.list[i].codec.Some? && !ReturnStep(s, t))
            && t.list[i].stage == s.list[i].stage && (t.list[i].codec.Some? <==> s.list[i].codec.Some?)
  {
  }

  /** From a removal until the wait for it is over, no step touches the files or the queue. */
  lemma NothingTouched(s: System, t: System)
    requires Inv(s) && Next(s, t) && (s.ui.Edited? || s.ui.Waiting?) && s.ui.call.Waits()
    ensures t.files == s.files && t.queue == s.queue
    ensures t.ui in {Edited(s.ui.call), Waiting(s.ui.call), Woken(s.ui.call)}
  {
  }

  /** A wait ends only by a rebuild, and from a queue without what is to be removed. */
  lemma WokenByRebuild(s: System, t: System)
    requires Inv(s) && Next(s, t) && !s.ui.Woken? && t.ui.Woken?
    ensures RebuildStep(s, t) && s.ui == Waiting(t.ui.call)
    ensures t.ui.call.Remove? ==> Some(t.ui.call.image) !in s.queue
    ensures t.ui.call.Clear? ==> s.queue == []
    ensures t.list == Rebuilt(s.list, s.queue, s.newLimit)
  {
  }

  /**
   Why the queue must not hold an image twice: the rebuild that follows a removal keeps the image exactly if
   it did.
   */
  lemma RemovalNeedsDistinctQueue(s: System, t: System, u: System, v: System)
    requires AllValid(s.list) && RemoveStep(s, t) && UpdateStep(t, u) && AllValid(u.list) && RebuildStep(u, v)
    ensures t.ui.call.image in Images(v.list) <==> Occurrences(s.queue, t.ui.call.image) >= 2
  {
    var x := t.ui.call.image;
    RebuiltImages(u.list, u.queue, u.newLimit);
    RequestedIff(u.queue, 0, x);
    assert Position(u.queue, x, 0) < |u.queue| <==> Some(x) in u.queue;
    ErasedOccurrences(s.queue, x, x);
  }

  lemma {:induction false} RequestedIff(queue: ImageList, k: nat, x: Image)
    requires k <= |queue|
    ensures x in Requested(queue, k) <==> Position(queue, x, k) < |queue|
    decreases |queue| - k
  {
    if k < |queue| {
      RequestedIff(queue, k + 1, x);
      assert x in Requested(queue, k) <==> queue[k] == Some(x) || x in Requested(queue, k + 1);
    }
  }

  // Nobody waits forever.

  function Distance(w: Worker): nat {
    match w
    case Busy => 3
    case Returning => 2
    case AtLock => 1
    case Sleeping => 0
    case Gone => 0
  }

  /** While the user interface waits, for an update or for the thread to end, the worker can go on. */
  lemma WorkerCanGoOn(s: System) returns (t: System)
    requires Inv(s) && s.worker != Sleeping && s.worker != Gone
    ensures WorkerStep(s, t)
  {
    match s.worker
    case AtLock =>
      match s.state {
        case Running =>
          t := if Located(s.list, s.limit).None? then s.(worker := Sleeping)
               else s.(package := Located(s.list, s.limit), worker := Busy);
          assert LocateStep(s, t);
        case Updating =>
          t := s.(list := Rebuilt(s.list, s.queue, s.newLimit), limit := s.newLimit, package := None, state := Running,
                  ui := if s.ui.Waiting? then Woken(s.ui.call) else s.ui);
          assert RebuildStep(s, t);
        case Terminating =>
          t := s.(package := if Located(s.list, s.limit).Some? then Located(s.list, s.limit) else s.package,
                  state := Stopped, worker := Gone);
          assert StopStep(s, t);
      }
    case Busy =>
      var l := s.list[s.package.value];
      var next := match l.stage
        case LoadingFast => l.(stage := DoneFast)
        case LoadingFull => l.(stage := DoneFull)
        case _ => l.(stage := Failed, codec := None);
      t := s.(list := s.list[s.package.value := next], worker := Returning);
      assert ProcessStep(s, t, false);
    case Returning =>
      t := s.(list := s.list[s.package.value := WithAbort(s.list[s.package.value], false)], worker := AtLock);
      assert ReturnStep(s, t);
  }

  /**
   A wait is never stuck: some step is possible, and every step that is possible brings the end of the wait
   nearer, so that at most three steps of the worker lie before it.
   */
  lemma WaitEnds(s: System)
    requires Inv(s) && (s.ui.Waiting? || (s.ui == Joining && s.worker != Gone))
    ensures 0 < Distance(s.worker) <= 3 && exists t :: Next(s, t)
    ensures forall t | Next(s, t) ::
              (t.ui == s.ui && Distance(t.worker) < Distance(s.worker) && t.worker != Gone)
              || (s.ui.Waiting? && t.ui == Woken(s.ui.call))
              || (s.ui == Joining && t.worker == Gone)
  {
    var t := WorkerCanGoOn(s);
    assert Next(s, t);
    forall t | Next(s, t)
      ensures (t.ui == s.ui && Distance(t.worker) < Distance(s.worker) && t.worker != Gone)
              || (s.ui.Waiting? && t.ui == Woken(s.ui.call))
              || (s.ui == Joining && t.worker == Gone)
    {
      assert !UiStep(s, t);
    }
  }

  // Between updates.

  /** Stages that are left, and an abort that is still to be honoured. */
  function Owed(l: Loader): nat {
    2 * (6 - Rank(l.stage)) + if l.AbortSet() then 1 else 0
  }

  function AllOwed(ls: Loaders): nat {
    if ls == [] then 0 else Owed(ls[0]) + AllOwed(ls[1..])
  }

  lemma {:induction false} OwedAfter(ls: Loaders, i: nat, l: Loader)
    requires i < |ls|
    ensures AllOwed(ls[i := l]) == AllOwed(ls) - Owed(ls[i]) + Owed(l)
  {
    if i == 0 {
      assert ls[i := l][1..] == ls[1..];
    } else {
      OwedAfter(ls[1..], i - 1, l);
      assert ls[i := l][1..] == ls[1..][i - 1 := l];
    }
  }

  /** An upper bound on the steps the worker takes until it sleeps, provided no update intervenes. */
  function StepsLeft(s: System): nat {
    4 * AllOwed(s.list)
    + match s.worker
      case AtLock => 3
      case Busy => 2
      case Returning =>
        if s.package.Some? && s.package.value < |s.list| && s.list[s.package.value].AbortSet() then 1 else 4
      case Sleeping => 0
      case Gone => 0
  }

  /** Every step of the worker uses one up: a stage is passed, or an abort is honoured for the last time. */
  lemma WorkerMakesProgress(s: System, t: System)
    requires Inv(s) && WorkerStep(s, t) && s.state == Running
    ensures StepsLeft(t) < StepsLeft(s) && t.state == Running
  {
    if s.worker == Busy {
      ProcessMakesProgress(s, t, ProcessStep(s, t, true));
    } else if s.worker == Returning {
      OwedAfter(s.list, s.package.value, t.list[s.package.value]);
    }
  }

  lemma ProcessMakesProgress(s: System, t: System, aborted: bool)
    requires Inv(s) && ProcessStep(s, t, aborted) && s.worker == Busy
    ensures StepsLeft(t) < StepsLeft(s)
  {
    var i := s.package.value;
    StepRaisesRank(s.list[i], t.list[i], aborted);
    OwedAfter(s.list, i, t.list[i]);
  }

  /** A run of the worker alone, from a state that need not be the first. */
  ghost predicate IsWorkerRun(r: seq<System>) {
    && r != [] && (forall i :: 0 <= i < |r| ==> AllValid(r[i].list))
    && forall i :: 0 < i < |r| ==> WorkerStep(r[i - 1], r[i])
  }

  /**
   Left alone, the worker comes to rest after finitely many steps; and when it rests, the first image that has
   not failed is fully loaded, and every other is done, failed, or does not fit under the limit with everything
   queued before it.
   */
  lemma {:induction false} WorkerComesToRest(r: seq<System>)
    requires IsWorkerRun(r) && Inv(r[0]) && r[0].state == Running
    ensures var s := r[|r| - 1];
            && Inv(s) && s.state == Running && |r| - 1 + StepsLeft(s) <= StepsLeft(r[0])
            && ((forall t :: !WorkerStep(s, t)) <==> s.worker == Sleeping)
            && (s.worker == Sleeping ==>
                  && Started(s.list)
                  && (forall i :: 0 <= i < |s.list| ==> Idle(s.list, s.limit, i))
                  && forall i :: 0 <= i < |s.list| && (forall j :: 0 <= j < i ==> s.list[j].stage == Failed) ==>
                       s.list[i].stage == DoneFull || s.list[i].stage == Failed)
  {
    var s := r[|r| - 1];
    if |r| > 1 {
      WorkerComesToRest(r[..|r| - 1]);
      StepKeepsInv(r[|r| - 2], s);
      WorkerMakesProgress(r[|r| - 2], s);
    }
    RestsOnlyAsleep(s);
    if s.worker == Sleeping {
      NothingToDo(s.list, s.limit);
    }
  }

  lemma RestsOnlyAsleep(s: System)
    requires Inv(s) && s.state == Running
    ensures (forall t :: !WorkerStep(s, t)) <==> s.worker == Sleeping
  {
    if s.worker != Sleeping {
      var t := WorkerCanGoOn(s);
    }
  }

  /** The memory limit holds whenever an update has been carried out. */
  lemma UpdateFits(s: System, t: System)
    requires Inv(s) && RebuildStep(s, t)
    ensures Inv(t) && t.limit == s.newLimit
    ensures Occupied(t.list) <= t.limit || (t.list != [] && Counted(t.list[0]) && Occupied(t.list) == t.list[0].Usage())
  {
    RebuildKeepsInv(s, t);
    RebuiltFits(s.list, s.queue, s.newLimit);
  }
}
