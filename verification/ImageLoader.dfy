/** The load state of one image, advanced one stage at a time by the decoder thread. */
module ImageLoading {
  import opened Common

  // Images are told apart by identity only.
  type Image = nat

  datatype Stage = Unprocessed | LoadedHeader | LoadingFast | DoneFast | LoadingFull | DoneFull | Failed

  datatype LoadState = StateUnprocessed | StateHeader | StateLoading | StateDone

  datatype LoadEvent = NoEvent | HeaderLoaded | Allocated | Done

  /** What is visible of a codec: its constant memory estimate and its abort flag. */
  datatype Codec = Codec(estimate: nat, abort: bool)

  datatype AllocationStatus = Ok | NotSupported | AllocationFailed

  datatype DataStatus = Finished | DataFailed | Aborted | DataThrew

  /** What files, codecs and the resolution hint answer during one step of loading. */
  datatype Answers = Answers(
    header: Option<nat>,         // the memory estimate of the codec found, if one is
    hintIsPositive: bool,
    fast: AllocationStatus,
    full: AllocationStatus,
    data: DataStatus)

  function Rank(s: Stage): nat {
    match s
    case Unprocessed => 0
    case LoadedHeader => 1
    case LoadingFast => 2
    case DoneFast => 3
    case LoadingFull => 4
    case DoneFull => 5
    case Failed => 6
  }

  function StateOf(s: Stage): LoadState {
    match s
    case Unprocessed => StateUnprocessed
    case LoadedHeader => StateHeader
    case DoneFast => StateHeader
    case LoadingFast => StateLoading
    case LoadingFull => StateLoading
    case DoneFull => StateDone
    case Failed => StateDone
  }

  datatype Loader = Loader(image: Image, stage: Stage, codec: Option<Codec>, maySkipFast: bool)
  {
    /** There is a codec from the header on, until loading fails. */
    predicate Valid() { codec.Some? <==> 1 <= Rank(stage) <= 5 }

    predicate AbortSet() { codec.Some? && codec.value.abort }

    predicate IsDone() { StateOf(stage) == StateDone }

    /** What it takes in memory, once the header is known. */
    function Usage(): nat
      requires Valid() && stage != Unprocessed
    {
      if stage == Failed then 0 else codec.value.estimate
    }
  }

  predicate Follows(s: Stage, next: Stage, maySkipFast: bool) {
    match s
    case Unprocessed => next in {LoadedHeader, Failed}
    case LoadedHeader => next in {LoadingFast, DoneFast, Failed} || (next == LoadingFull && maySkipFast)
    case LoadingFast => next == DoneFast || next == Failed
    case DoneFast => next in {LoadingFull, Failed}
    case LoadingFull => next == DoneFull || next == Failed
    case DoneFull => false
    case Failed => false
  }

  /** One step of loading: an abort, which needs the flag and changes nothing, or a stage further on. */
  predicate LoadStep(l: Loader, r: Loader, aborted: bool) {
    if aborted then r == l && StateOf(l.stage) == StateLoading && l.AbortSet()
    else
      && r.Valid() && r.image == l.image && r.maySkipFast == l.maySkipFast
      && Follows(l.stage, r.stage, l.maySkipFast)
      && (r.codec.Some? ==> r.codec == l.codec || (l.stage == Unprocessed && !r.codec.value.abort))
  }

  class ImageLoader {
    const image: Image
    var stage: Stage
    var codec: Option<Codec>
    var maySkipFast: bool

    ghost function View(): Loader
      reads this
    {
      Loader(image, stage, codec, maySkipFast)
    }

    constructor (image: Image)
      ensures View() == Loader(image, Unprocessed, None, false)
    {
      this.image, stage, codec, maySkipFast := image, Unprocessed, None, false;
    }

    method AllowFastSkip(doAllow: bool)
      modifies this`maySkipFast
      ensures maySkipFast == doAllow
    {
      maySkipFast := doAllow;
    }

    function GetState(): LoadState
      reads this
    {
      StateOf(stage)
    }

    predicate FastPassFinished()
      reads this
    {
      Rank(stage) >= Rank(DoneFast)
    }

    /** Asked of a loader without a header, this throws. */
    method MemoryRequirements() returns (usage: nat)
      requires View().Valid() && stage != Unprocessed
      ensures usage == View().Usage() == if stage == Failed then 0 else codec.value.estimate
    {
      if stage == Failed {
        return 0;
      }
      return codec.value.estimate;
    }

    method Abort()
      modifies this`codec
      ensures codec == if old(codec).None? then None else Some(old(codec).value.(abort := true))
    {
      if codec.Some? {
        codec := Some(codec.value.(abort := true));
      }
    }

    method ResetAbort()
      modifies this`codec
      ensures codec == if old(codec).None? then None else Some(old(codec).value.(abort := false))
    {
      if codec.Some? {
        codec := Some(codec.value.(abort := false));
      }
    }

    method Purge()
      modifies this`codec, this`stage
      ensures View() == old(View()).(codec := None, stage := Unprocessed)
    {
      codec, stage := None, Unprocessed;
    }

    method Deallocate()
      modifies this`codec, this`stage
      ensures View() == old(View()).(codec := None, stage := Unprocessed)
    {
      Purge();
    }

    method FailState()
      modifies this`codec, this`stage
      ensures View() == old(View()).(codec := None, stage := Failed)
    {
      Purge();
      stage := Failed;
    }

    method LoadHeader(header: Option<nat>)
      requires View().Valid() && stage == Unprocessed
      modifies this`codec, this`stage
      ensures LoadStep(old(View()), View(), false)
      ensures stage == LoadedHeader <==> header.Some?
      ensures header.Some? ==> codec == Some(Codec(header.value, false))
    {
      match header
      case None =>
        FailState();
      case Some(estimate) =>
        codec := Some(Codec(estimate, false));
        stage := LoadedHeader;
    }

    /**
     Prepares the fast pass or the full one. The fast pass is passed over when there is no hint for its
     resolution or the codec has none; the image at the head of the list goes on to the full pass at once.
     */
    method Allocate(a: Answers) returns (threw: bool)
      requires View().Valid() && GetState() == StateHeader
      modifies this`codec, this`stage
      ensures LoadStep(old(View()), View(), false)
      ensures old(stage) == LoadedHeader && a.hintIsPositive && a.fast == Ok ==> stage == LoadingFast
      ensures old(stage) == LoadedHeader && a.hintIsPositive && a.fast == AllocationFailed ==> stage == Failed
      ensures old(stage) == LoadedHeader && (a.hintIsPositive ==> a.fast == NotSupported) && !maySkipFast ==>
                stage == DoneFast
      ensures old(stage) == DoneFast || ((a.hintIsPositive ==> a.fast == NotSupported) && maySkipFast) ==>
                stage == if a.full == Ok then LoadingFull else Failed
      ensures threw ==> a.full == NotSupported
    {
      if stage == LoadedHeader {
        if a.hintIsPositive && a.fast != NotSupported {
          if a.fast == Ok {
            stage := LoadingFast;
          } else {
            FailState();
          }
          return false;
        }
        if !maySkipFast {
          stage := DoneFast;
          return false;
        }
      }
      if a.full == Ok {
        stage := LoadingFull;
      } else {
        FailState();
      }
      return a.full == NotSupported;
    }

    method LoadImageData(data: DataStatus)
      requires View().Valid() && GetState() == StateLoading && data != DataThrew
      requires data == Aborted ==> View().AbortSet()
      modifies this`stage
      ensures LoadStep(old(View()), View(), data == Aborted)
      ensures data != Aborted ==> stage != Failed
    {
      if data == Finished || data == DataFailed {
        stage := if stage == LoadingFast then DoneFast else DoneFull;
      }
    }

    /** A codec reports an abort only if its flag is set. */
    ghost predicate Honest(a: Answers)
      reads this
    {
      a.data == Aborted ==> View().AbortSet()
    }

    /** Goes one step further; what throws on the way fails the image. */
    method Load(a: Answers) returns (event: LoadEvent, threw: bool)
      requires View().Valid() && GetState() != StateDone && Honest(a)
      modifies this`codec, this`stage
      ensures LoadStep(old(View()), View(), old(GetState()) == StateLoading && a.data == Aborted)
      ensures threw ==> stage == Failed
      ensures old(GetState()) == StateUnprocessed ==>
                event == HeaderLoaded && !threw && stage == if a.header.Some? then LoadedHeader else Failed
      ensures old(GetState()) == StateUnprocessed && a.header.Some? ==> codec == Some(Codec(a.header.value, false))
      ensures old(GetState()) == StateLoading ==>
                && (threw <==> a.data == DataThrew)
                && stage == (match a.data
                             case Aborted => old(stage)
                             case DataThrew => Failed
                             case _ => if old(stage) == LoadingFast then DoneFast else DoneFull)
      ensures old(GetState()) == StateHeader && !threw ==> event == Allocated
      ensures old(GetState()) == StateLoading ==>
                (event == Done <==> a.data == Finished) && (event != Done ==> event == NoEvent)
    {
      match GetState()
      case StateUnprocessed =>
        LoadHeader(a.header);
        return HeaderLoaded, false;
      case StateHeader =>
        threw := Allocate(a);
        if threw {
          FailState();
        }
        return Allocated, threw;
      case StateLoading =>
        if a.data == DataThrew {
          FailState();
          return NoEvent, true;
        }
        LoadImageData(a.data);
        return if a.data == Finished then Done else NoEvent, false;
    }
  }

  /** Each step that is not aborted raises the rank; an aborted one is owed to a flag. */
  lemma StepRaisesRank(l: Loader, r: Loader, aborted: bool)
    requires l.Valid() && LoadStep(l, r, aborted)
    ensures r.Valid() && Rank(r.stage) <= 6
    ensures Rank(l.stage) < Rank(r.stage) <==> !aborted
    ensures aborted ==> r == l && l.AbortSet()
    ensures r.stage != Unprocessed && (l.stage != Unprocessed ==> r.Usage() == l.Usage() || r.stage == Failed)
  {
  }
}
