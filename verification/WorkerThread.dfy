/** The decoder thread's fields and what its methods do to them: one step of the protocol each. */
module WorkerThreads {
  import opened Common
  import opened ImageLoading
  import opened WorkLists
  import opened ImageQueues
  import opened DecoderProtocol

  /** Where a loader is on the list. */
  ghost function Place(ps: seq<ImageLoader>, p: ImageLoader?): (i: Option<nat>)
    ensures i.Some? ==> i.value < |ps| && ps[i.value] == p
    ensures p != null && p in ps ==> i.Some?
  {
    if p == null || p !in ps then None else var i :| 0 <= i < |ps| && ps[i] == p; Some(i)
  }

  class DecoderWorkerThread {
    const queue: ImageQueue
    const list: WorkList
    var package: ImageLoader?
    var state: ThreadState
    // Where the two threads are, and the images that exist.
    ghost var worker: Worker
    ghost var ui: Ui
    ghost var files: set<Image>

    ghost predicate Valid()
      reads this, list, list.packages
    {
      list.Valid() && (package != null ==> package in list.packages)
    }

    ghost function View(): System
      reads this, queue, list, list.packages
    {
      System(files, queue.workPackages, ViewOf(list.packages), list.memoryLimit, list.newMemoryLimit,
             Place(list.packages, package), state, worker, ui)
    }

    /** Started, with nothing to do yet. */
    constructor (queue: ImageQueue)
      requires queue.workPackages == []
      ensures Valid() && Init(View()) && this.queue == queue
    {
      this.queue, package, state := queue, null, Running;
      list := new WorkList();
      worker, ui, files := AtLock, Free, {};
    }

    /** Asks for a rebuild and interrupts the loading; whoever waits is suspended until the thread notifies. */
    method Update(wait: bool)
      requires Valid() && state != Stopped && ui.Edited? && wait == ui.call.Waits()
      modifies this`state, this`worker, this`ui, if package == null then {} else {package}
      ensures Valid() && UpdateStep(old(View()), View())
    {
      state := Updating;
      if package != null {
        AbortPackage();
      }
      worker, ui := Notified(worker), if wait then Waiting(ui.call) else Free;
    }

    /** Asks the thread to end; joining it comes next. */
    method Terminate()
      requires Valid() && state != Stopped && ui == Free
      modifies this`state, this`worker, this`ui, if package == null then {} else {package}
      ensures Valid() && TerminateStep(old(View()), View())
    {
      if package != null {
        AbortPackage();
      }
      state := Terminating;
      worker, ui := Notified(worker), Joining;
    }

    method AbortPackage()
      requires Valid() && package != null
      modifies package`codec
      ensures Valid()
      ensures View() == Interrupted(old(View()))
    {
      ghost var i := Place(list.packages, package).value;
      ghost var before := ViewOf(list.packages);
      assert before[i].Valid();
      package.Abort();
      assert forall k :: 0 <= k < |before| && k != i ==> list.packages[k] != package;
      assert ViewOf(list.packages) == before[i := package.View()];
    }

    /** What happens under the mutex: find work, carry out an update, or end. */
    method Section()
      requires Valid() && worker == AtLock && state != Stopped
      modifies this, list, list.packages
      ensures Valid()
              && (LocateStep(old(View()), View()) || RebuildStep(old(View()), View()) || StopStep(old(View()), View()))
    {
      var found := list.FetchPackage();
      if state == Updating {
        CarryOutUpdate();
        return;
      }
      if found.Some? {
        package := list.packages[found.value];
        PlaceOf(list.packages, found.value);
      }
      if state == Terminating {
        state, worker := Stopped, Gone;
      } else {
        worker := if found.None? then Sleeping else Busy;
      }
    }

    /** Rebuilds, goes on running and wakes whoever waits. */
    method CarryOutUpdate()
      requires Valid() && worker == AtLock && state == Updating
      modifies this`package, this`state, this`ui, list, list.packages
      ensures Valid() && RebuildStep(old(View()), View())
    {
      PerformUpdate();
      state := Running;
      if ui.Waiting? {
        ui := Woken(ui.call);
      }
    }

    /** The limit holds from the next update on, which is asked for right away. */
    method MemoryLimit(newLimit: nat)
      requires Valid() && ui == Free
      modifies list`newMemoryLimit, this`ui
      ensures Valid() && LimitStep(old(View()), View())
    {
      list.MemoryLimit(newLimit);
      ui := Edited(Cache);
    }

    method PerformUpdate()
      requires Valid()
      modifies this`package, list, list.packages
      ensures Valid() && package == null && queue.workPackages == old(queue.workPackages)
      ensures View() == old(View()).(list := Rebuilt(old(View()).list, queue.workPackages, list.newMemoryLimit),
                                     limit := list.newMemoryLimit, package := None)
    {
      package := null;
      list.Rebuild(queue.workPackages);
    }

    /** One step of loading, without the mutex. */
    method ProcessImage(a: Answers)
      requires Valid() && worker == Busy && package != null && package.GetState() != StateDone && package.Honest(a)
      modifies this`worker, package`codec, package`stage
      ensures Valid() && exists aborted :: ProcessStep(old(View()), View(), aborted)
    {
      ghost var before, i := ViewOf(list.packages), Place(list.packages, package).value;
      ghost var aborted := package.GetState() == StateLoading && a.data == Aborted;
      assert before[i].Valid();
      var event, threw := package.Load(a);
      assert forall k :: 0 <= k < |before| && k != i ==> list.packages[k] != package;
      assert ViewOf(list.packages) == before[i := package.View()];
      worker := Returning;
      assert ProcessStep(old(View()), View(), aborted);
    }

    method ReturnPackage()
      requires Valid() && worker == Returning && package != null
      modifies this`worker, package`codec
      ensures Valid() && ReturnStep(old(View()), View())
    {
      ghost var before, i := ViewOf(list.packages), Place(list.packages, package).value;
      assert before[i].Valid();
      package.ResetAbort();
      assert forall k :: 0 <= k < |before| && k != i ==> list.packages[k] != package;
      assert ViewOf(list.packages) == before[i := package.View()];
      worker := AtLock;
    }
  }

  lemma PlaceOf(ps: seq<ImageLoader>, i: nat)
    requires Distinct(ps) && i < |ps|
    ensures Place(ps, ps[i]) == Some(i)
  {
    var k := Place(ps, ps[i]);
  }
}
