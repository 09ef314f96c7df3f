/** UpdateD's coordinator: `start` is called from any number of RPC threads, `run` loops on
    the main thread, and a mutex, a condition variable and a flag connect them. */
module UpdateCoordinator {
  import opened Wrappers
  import opened PayloadLink

  datatype Request = Request(source: Source, header: string)

  /** What the mutex protects, and the links on disk. */
  datatype Shared = Shared(updating: bool, link: Option<Source>, header: string, links: Links)

  /** Assigning a new link: the new object is built first, then the old one destroyed. */
  function Relink(s: Shared, source: Source): Shared {
    s.(link := Some(source),
       links := s.links[source.dir := source.file] - (if s.link.Some? then {s.link.value.dir} else {}))
  }

  function Unlink(s: Shared): Shared {
    s.(link := None, links := s.links - (if s.link.Some? then {s.link.value.dir} else {}))
  }

  /** The critical sections of `start` and `run`. */
  function AfterStart(s: Shared, r: Request): Shared {
    Relink(s.(header := r.header), r.source).(updating := true)
  }

  function AfterRun(s: Shared): Shared {
    Unlink(s.(updating := false))
  }

  class UpdateCoordinator {
    const fs: FileSystem
    var updating: bool
    var payloadLink: PayloadHardLink?
    var header: string

    constructor (fs: FileSystem)
      ensures this.fs == fs && Valid()
      ensures View() == Shared(false, None, "", fs.links)
    {
      this.fs := fs;
      updating, payloadLink, header := false, null, "";
    }

    ghost predicate Valid()
      reads this
    {
      payloadLink != null ==> payloadLink.fs == fs
    }

    ghost function View(): Shared
      reads this, fs
    {
      Shared(updating, if payloadLink == null then None else Some(payloadLink.source), header, fs.links)
    }

    /** `start`, from locking the mutex to unlocking it. */
    method StartLocked(r: Request)
      requires Valid()
      modifies this, fs
      ensures Valid() && View() == AfterStart(old(View()), r)
    {
      header := r.header;
      var previous := payloadLink;
      payloadLink := new PayloadHardLink(fs, r.source);
      if previous != null {
        previous.Destroy();
      }
      updating := true;
    }

    /** `run`, from the end of the wait to unlocking the mutex. */
    method RunLocked() returns (source: Source)
      requires Valid() && updating && payloadLink != null
      modifies this, fs
      ensures Valid() && View() == AfterRun(old(View()))
      ensures Some(source) == old(View()).link
    {
      source := payloadLink.source;
      updating := false;
      payloadLink.Destroy();
      payloadLink := null;
    }
  }

  // ------------------------------------------------------------- interleavings

  datatype StartPc = WantLock | Locked | HeaderSet | LinkSet | FlagSet | Unlocked

  datatype RunPc = Outside | Entering | Checking | Blocked | Woken | Consuming | FlagCleared | Leaving

  datatype Call = Call(request: Request, pc: StartPc)

  datatype Thread = Starter(id: nat) | Runner

  /** Only observed: `starts` lists the requests in the order of their critical sections,
      `consumed` the positions in that list that `run` has picked up, `linked` the parent
      directories of the links made so far, and `clobbered` whether the current link was
      made while an unconsumed link with the same parent directory existed. */
  datatype System = System(
    shared: Shared,
    owner: Option<Thread>,
    calls: map<nat, Call>,
    runner: RunPc,
    starts: seq<Request>,
    consumed: seq<nat>,
    linked: set<string>,
    clobbered: bool)

  datatype Step =
    | Call_(id: nat, request: Request)
    | Lock(id: nat)
    | SetHeader(id: nat)
    | SetLink(id: nat)
    | SetFlag(id: nat)
    | Unlock(id: nat)
    | NotifyAll(id: nat)
    | Enter
    | RunLock
    | CheckFlag
    | SpuriousWakeup
    | ClearFlag
    | DropLink
    | RunUnlock

  predicate At(s: System, id: nat, pc: StartPc) {
    id in s.calls && s.calls[id].pc == pc
  }

  predicate Enabled(s: System, step: Step) {
    match step
    case Call_(id, _) => id !in s.calls
    case Lock(id) => At(s, id, WantLock) && s.owner == None
    case SetHeader(id) => At(s, id, Locked)
    case SetLink(id) => At(s, id, HeaderSet)
    case SetFlag(id) => At(s, id, LinkSet)
    case Unlock(id) => At(s, id, FlagSet)
    case NotifyAll(id) => At(s, id, Unlocked)
    case Enter => s.runner == Outside
    case RunLock => (s.runner == Entering || s.runner == Woken) && s.owner == None
    case CheckFlag => s.runner == Checking
    case SpuriousWakeup => s.runner == Blocked
    case ClearFlag => s.runner == Consuming
    case DropLink => s.runner == FlagCleared
    case RunUnlock => s.runner == Leaving
  }

  function Advance(s: System, id: nat, pc: StartPc): System
    requires id in s.calls
  {
    s.(calls := s.calls[id := s.calls[id].(pc := pc)])
  }

  function Apply(s: System, step: Step): System
    requires Enabled(s, step)
  {
    match step
    case Call_(id, r) => s.(calls := s.calls[id := Call(r, WantLock)])
    case Lock(id) => Advance(s, id, Locked).(owner := Some(Starter(id)))
    case SetHeader(id) =>
      var r := s.calls[id].request;
      Advance(s, id, HeaderSet).(shared := s.shared.(header := r.header), starts := s.starts + [r])
    case SetLink(id) =>
      var source := s.calls[id].request.source;
      Advance(s, id, LinkSet).(shared := Relink(s.shared, source), linked := s.linked + {source.dir},
                               clobbered := s.shared.link.Some? && s.shared.link.value.dir == source.dir)
    case SetFlag(id) => Advance(s, id, FlagSet).(shared := s.shared.(updating := true))
    case Unlock(id) => Advance(s, id, Unlocked).(owner := None)
    case NotifyAll(id) =>
      s.(calls := s.calls - {id}, runner := if s.runner == Blocked then Woken else s.runner)
    case Enter => s.(runner := Entering)
    case RunLock => s.(runner := Checking, owner := Some(Runner))
    case CheckFlag =>
      // the wait releases the mutex and blocks in one step
      if s.shared.updating then s.(runner := Consuming) else s.(runner := Blocked, owner := None)
    case SpuriousWakeup => s.(runner := Woken)
    case ClearFlag =>
      s.(runner := FlagCleared, shared := s.shared.(updating := false),
         consumed := s.consumed + (if s.starts == [] then [] else [|s.starts| - 1]))
    case DropLink => s.(runner := Leaving, shared := Unlink(s.shared))
    case RunUnlock => s.(runner := Outside, owner := None)
  }

  ghost predicate Run(s: System, steps: seq<Step>, s': System)
    decreases |steps|
  {
    if steps == [] then s == s'
    else Enabled(s, steps[0]) && Run(Apply(s, steps[0]), steps[1..], s')
  }

  /** A new coordinator; `links` are directories left over from earlier. */
  function Initial(links: Links): System {
    System(Shared(false, None, "", links), None, map[], Outside, [], [], {}, false)
  }

  /** The micro-steps of a `start` that is not interrupted make up its critical section. */
  lemma StartSteps(s: System, id: nat)
    requires At(s, id, Locked)
    ensures var s1 := Apply(s, SetHeader(id));
            var s2 := Apply(s1, SetLink(id));
            Apply(s2, SetFlag(id)).shared == AfterStart(s.shared, s.calls[id].request)
  {
  }

  lemma RunSteps(s: System)
    requires s.runner == Consuming
    ensures Apply(Apply(s, ClearFlag), DropLink).shared == AfterRun(s.shared)
  {
  }

  // ----------------------------------------------------------------- invariant

  /** The call that holds the mutex and has not yet done all its work. */
  predicate InStart(pc: StartPc) { pc.Locked? || pc.HeaderSet? || pc.LinkSet? || pc.FlagSet? }

  predicate InRun(pc: RunPc) { pc.Checking? || pc.Consuming? || pc.FlagCleared? || pc.Leaving? }

  predicate Notifies(pc: StartPc) { pc.FlagSet? || pc.Unlocked? }

  ghost predicate MutexInv(s: System) {
    && (forall id :: id in s.calls ==>
         (InStart(s.calls[id].pc) <==> s.owner == Some(Starter(id))))
    && (InRun(s.runner) <==> s.owner == Some(Runner))
    && (s.owner.Some? && s.owner.value.Starter? ==> s.owner.value.id in s.calls)
  }

  /** Flag and link agree, the pending request is the latest one, and otherwise the latest
      one has been consumed. */
  ghost predicate Coherent(s: System) {
    && s.shared.updating == s.shared.link.Some?
    && (s.shared.updating ==> s.starts != [] && s.starts[|s.starts| - 1] == Request(s.shared.link.value, s.shared.header))
    && (!s.shared.updating && s.starts != [] ==> LatestConsumed(s))
  }

  ghost predicate LatestConsumed(s: System) {
    s.consumed != [] && s.consumed[|s.consumed| - 1] == |s.starts| - 1
  }

  ghost predicate DataInv(s: System) {
    match s.owner
    case None => Coherent(s)
    case Some(Runner) =>
      (match s.runner
       case Checking => Coherent(s)
       case Consuming => s.shared.updating && Coherent(s)
       case FlagCleared => !s.shared.updating && s.shared.link.Some? && s.starts != [] && LatestConsumed(s)
       case Leaving => !s.shared.updating && s.shared.link == None && LatestConsumed(s)
       case _ => true)
    case Some(Starter(id)) =>
      id in s.calls &&
      var c := s.calls[id];
      match c.pc
      case Locked => Coherent(s)
      case HeaderSet =>
        s.starts != [] && s.starts[|s.starts| - 1] == c.request && s.shared.header == c.request.header
        && s.shared.updating == s.shared.link.Some?
      case LinkSet =>
        s.starts != [] && s.starts[|s.starts| - 1] == c.request && s.shared.header == c.request.header
        && s.shared.link == Some(c.request.source)
      case FlagSet => s.shared.updating && Coherent(s)
      case _ => true
  }

  /** No lost wakeup: while an update is pending, a blocked runner is going to be notified. */
  ghost predicate WakeupInv(s: System) {
    s.runner == Blocked && s.shared.updating ==>
      exists id :: id in s.calls && Notifies(s.calls[id].pc)
  }

  /** Requests are consumed in order, each at most once, and a pending one not yet. */
  ghost predicate ConsumedInv(s: System) {
    && (forall i, j :: 0 <= i < j < |s.consumed| ==> s.consumed[i] < s.consumed[j])
    && (forall i :: 0 <= i < |s.consumed| ==> s.consumed[i] < |s.starts|)
    && (s.shared.updating || Relinking(s) ==>
         forall i :: 0 <= i < |s.consumed| ==> s.consumed[i] < |s.starts| - 1)
  }

  ghost predicate Relinking(s: System) {
    s.owner.Some? && s.owner.value.Starter?
    && (At(s, s.owner.value.id, HeaderSet) || At(s, s.owner.value.id, LinkSet))
  }

  /** Directories beside no payload are left alone.  Beside a payload only the directory of
      the current link can exist; it holds that link, and it does exist unless the link
      replaced one in the same place, whose destruction removed both. */
  ghost predicate LinksInv(s: System, links: Links) {
    && (forall d :: d !in s.linked ==>
         (d in s.shared.links <==> d in links) && (d in links ==> s.shared.links[d] == links[d]))
    && (forall d :: d in s.linked && d in s.shared.links ==>
         s.shared.link.Some? && s.shared.link.value == Source(d, s.shared.links[d]))
    && (s.shared.link.Some? ==>
         var l := s.shared.link.value;
         l.dir in s.linked && (l.dir in s.shared.links <==> !s.clobbered))
  }

  ghost predicate Inv(s: System, links: Links) {
    MutexInv(s) && DataInv(s) && WakeupInv(s) && ConsumedInv(s) && LinksInv(s, links)
  }

  lemma MutexStep(s: System, step: Step)
    requires MutexInv(s) && Enabled(s, step)
    ensures MutexInv(Apply(s, step))
  {
  }

  lemma DataStep(s: System, step: Step)
    requires MutexInv(s) && DataInv(s) && Enabled(s, step)
    ensures DataInv(Apply(s, step))
  {
    hide MutexInv, DataInv, Apply, Enabled;
    if OfStart(step) {
      StartKeepsData(s, step);
    } else {
      RunKeepsData(s, step);
    }
  }

  predicate OfStart(step: Step) {
    match step
    case Call_(_, _) => true
    case Lock(_) => true
    case SetHeader(_) => true
    case SetLink(_) => true
    case SetFlag(_) => true
    case Unlock(_) => true
    case NotifyAll(_) => true
    case _ => false
  }

  lemma StartKeepsData(s: System, step: Step)
    requires MutexInv(s) && DataInv(s) && Enabled(s, step) && OfStart(step)
    ensures DataInv(Apply(s, step))
  {
  }

  lemma RunKeepsData(s: System, step: Step)
    requires MutexInv(s) && DataInv(s) && Enabled(s, step) && !OfStart(step)
    ensures DataInv(Apply(s, step))
  {
  }

  lemma WakeupStep(s: System, step: Step)
    requires MutexInv(s) && WakeupInv(s) && Enabled(s, step)
    ensures WakeupInv(Apply(s, step))
  {
    var s' := Apply(s, step);
    if s'.runner == Blocked && s'.shared.updating {
      var id := match step case SetFlag(id) => id
                case _ => WakerOf(s);
      assert id in s'.calls && Notifies(s'.calls[id].pc);
    }
  }

  ghost function WakerOf(s: System): (id: nat)
    requires WakeupInv(s) && s.runner == Blocked && s.shared.updating
    ensures id in s.calls && Notifies(s.calls[id].pc)
  {
    var id :| id in s.calls && Notifies(s.calls[id].pc);
    id
  }

  lemma ConsumedStep(s: System, step: Step)
    requires MutexInv(s) && DataInv(s) && ConsumedInv(s) && Enabled(s, step)
    ensures ConsumedInv(Apply(s, step))
  {
    if !step.ClearFlag? {
      hide DataInv;
    }
    if !step.SetHeader? {
      hide MutexInv;
    }
  }

  lemma LinksStep(s: System, step: Step, links: Links)
    requires LinksInv(s, links) && Enabled(s, step)
    ensures LinksInv(Apply(s, step), links)
  {
  }

  lemma {:induction false} Invariant(s: System, steps: seq<Step>, s': System, links: Links)
    requires Inv(s, links) && Run(s, steps, s')
    ensures Inv(s', links)
    decreases |steps|
  {
    if steps != [] {
      MutexStep(s, steps[0]);
      DataStep(s, steps[0]);
      WakeupStep(s, steps[0]);
      ConsumedStep(s, steps[0]);
      LinksStep(s, steps[0], links);
      Invariant(Apply(s, steps[0]), steps[1..], s', links);
    }
  }

  // ------------------------------------------------------------------ theorems

  /** In every interleaving: whenever the mutex is free, an update is pending exactly when
      there is a link, it is the latest request, and if none is pending the latest request
      has been consumed. */
  lemma FlagMeansLink(links: Links, steps: seq<Step>, s: System)
    requires Run(Initial(links), steps, s) && s.owner == None
    ensures s.shared.updating <==> s.shared.link.Some?
    ensures s.shared.updating ==> s.starts != [] && s.starts[|s.starts| - 1] == Request(s.shared.link.value, s.shared.header)
    ensures !s.shared.updating && s.starts != [] ==> LatestConsumed(s)
  {
    Invariant(Initial(links), steps, s, links);
  }

  /** What `manifest` reads, at any time: the header of the latest `start`, also after its
      update has been run. */
  lemma ManifestIsLatest(links: Links, steps: seq<Step>, s: System)
    requires Run(Initial(links), steps, s)
    ensures s.shared.header == if s.starts == [] then "" else s.starts[|s.starts| - 1].header
  {
    HeaderGrows(Initial(links), steps, s);
  }

  ghost predicate HeaderInv(s: System) {
    s.shared.header == if s.starts == [] then "" else s.starts[|s.starts| - 1].header
  }

  lemma HeaderStep(s: System, step: Step)
    requires HeaderInv(s) && Enabled(s, step)
    ensures HeaderInv(Apply(s, step))
  {
  }

  lemma {:induction false} HeaderGrows(s: System, steps: seq<Step>, s': System)
    requires HeaderInv(s) && Run(s, steps, s')
    ensures HeaderInv(s')
    decreases |steps|
  {
    hide HeaderInv, Apply, Enabled;
    if steps != [] {
      HeaderStep(s, steps[0]);
      HeaderGrows(Apply(s, steps[0]), steps[1..], s');
    }
  }

  /** Header, link and flag are touched only by the thread that has the mutex. */
  lemma AccessIsLocked(links: Links, steps: seq<Step>, s: System, step: Step)
    requires Run(Initial(links), steps, s) && Enabled(s, step)
    ensures step.CheckFlag? || step.ClearFlag? || step.DropLink? ==> s.owner == Some(Runner)
    ensures step.SetHeader? || step.SetLink? || step.SetFlag? ==> s.owner == Some(Starter(step.id))
    ensures s.owner == None ==> Apply(s, step).shared == s.shared
  {
    Invariant(Initial(links), steps, s, links);
    hide MutexInv, DataInv, WakeupInv, ConsumedInv, LinksInv, Enabled, Apply;
    LockedStep(s, step);
  }

  lemma LockedStep(s: System, step: Step)
    requires MutexInv(s) && Enabled(s, step)
    ensures step.CheckFlag? || step.ClearFlag? || step.DropLink? ==> s.owner == Some(Runner)
    ensures step.SetHeader? || step.SetLink? || step.SetFlag? ==> s.owner == Some(Starter(step.id))
    ensures s.owner == None ==> Apply(s, step).shared == s.shared
  {
  }

  /** No lost wakeup: when an update is pending and the runner sleeps with the mutex free,
      some `start` is between its unlock and its notification, and that step wakes it. */
  lemma NoLostWakeup(links: Links, steps: seq<Step>, s: System)
    requires Run(Initial(links), steps, s) && s.owner == None
    requires s.runner == Blocked && s.shared.updating
    ensures exists id :: At(s, id, Unlocked) && Apply(s, NotifyAll(id)).runner == Woken
  {
    Invariant(Initial(links), steps, s, links);
    var id :| id in s.calls && Notifies(s.calls[id].pc);
    assert At(s, id, Unlocked);
  }

  /** What `run` picks up is the request of the latest `start`, which it has not picked up
      before; the assertion that the link is not null holds. */
  lemma RunTakesLatest(links: Links, steps: seq<Step>, s: System)
    requires Run(Initial(links), steps, s) && s.runner == Consuming
    ensures s.starts != [] && s.shared.link.Some?
    ensures Request(s.shared.link.value, s.shared.header) == s.starts[|s.starts| - 1]
    ensures |s.starts| - 1 !in s.consumed
    ensures forall i, j :: 0 <= i < j < |s.consumed| ==> s.consumed[i] < s.consumed[j]
  {
    Invariant(Initial(links), steps, s, links);
    assert s.owner == Some(Runner);
  }

  /** The calls that have been made, and the request whose critical section a step enters. */
  function Made(step: Step, calls: map<nat, Request>): map<nat, Request> {
    if step.Call_? then calls[step.id := step.request] else calls
  }

  function Entered(step: Step, calls: map<nat, Request>): seq<Request> {
    if step.SetHeader? && step.id in calls then [calls[step.id]] else []
  }

  /** The requests whose critical sections a run of these steps goes through, in order. */
  function Issued(steps: seq<Step>, calls: map<nat, Request>): seq<Request> {
    if steps == [] then [] else Entered(steps[0], calls) + Issued(steps[1..], Made(steps[0], calls))
  }

  /** What is recorded as started is what the callers passed to `start`. */
  lemma StartsAreIssued(links: Links, steps: seq<Step>, s: System)
    requires Run(Initial(links), steps, s)
    ensures s.starts == Issued(steps, map[])
  {
    StartsGrow(Initial(links), steps, s, map[]);
  }

  ghost predicate Holds(s: System, calls: map<nat, Request>) {
    forall id :: id in s.calls ==> id in calls && calls[id] == s.calls[id].request
  }

  lemma StartsAfter(s: System, step: Step, calls: map<nat, Request>)
    requires Enabled(s, step) && Holds(s, calls)
    ensures Holds(Apply(s, step), Made(step, calls))
    ensures Apply(s, step).starts == s.starts + Entered(step, calls)
  {
  }

  lemma {:induction false} StartsGrow(s: System, steps: seq<Step>, s': System, calls: map<nat, Request>)
    requires Run(s, steps, s') && Holds(s, calls)
    ensures s'.starts == s.starts + Issued(steps, calls)
    decreases |steps|
  {
    hide Apply, Enabled, Holds, Entered, Made;
    if steps != [] {
      var step, rest := steps[0], Issued(steps[1..], Made(steps[0], calls));
      StartsAfter(s, step, calls);
      StartsGrow(Apply(s, step), steps[1..], s', Made(step, calls));
      assert (s.starts + Entered(step, calls)) + rest == s.starts + (Entered(step, calls) + rest);
    }
  }

  /** No `updated` directory outlives its link, in any state; and the payload handed to the
      update exists exactly if the latest `start` did not replace an unconsumed link in the
      same directory. */
  lemma LinksAreCleanedUp(links: Links, steps: seq<Step>, s: System)
    requires Run(Initial(links), steps, s)
    ensures forall d :: d in s.linked && d in s.shared.links ==> s.shared.link == Some(Source(d, s.shared.links[d]))
    ensures forall d :: d !in s.linked && d in links ==> d in s.shared.links && s.shared.links[d] == links[d]
    ensures s.runner == Consuming ==>
              s.shared.link.Some? && (s.shared.link.value.dir in s.shared.links <==> !s.clobbered)
  {
    Invariant(Initial(links), steps, s, links);
    assert s.runner == Consuming ==> s.owner == Some(Runner);
  }

  /** Right after a `start`, its link exists exactly if no unconsumed link had the same
      parent directory: the old link is destroyed after the new one was made. */
  lemma NewLinkExists(s: Shared, r: Request)
    ensures AfterStart(s, r).link == Some(r.source)
    ensures r.source.dir in AfterStart(s, r).links <==> s.link == None || s.link.value.dir != r.source.dir
    ensures r.source.dir in AfterStart(s, r).links ==> AfterStart(s, r).links[r.source.dir] == r.source.file
  {
  }

  /** Nobody is stuck: in every reachable state with an unfinished call or a pending update
      some step other than a new call or a spurious wakeup is possible. */
  lemma NoDeadlock(links: Links, steps: seq<Step>, s: System)
    requires Run(Initial(links), steps, s)
    requires s.calls != map[] || s.shared.updating || s.runner != Blocked
    ensures exists step: Step :: Enabled(s, step) && !step.Call_? && step != SpuriousWakeup
    ensures forall id, r :: id !in s.calls ==> Enabled(s, Call_(id, r))
    ensures s.runner == Blocked ==> Enabled(s, SpuriousWakeup)
  {
    Invariant(Initial(links), steps, s, links);
    SomeoneCanMove(s);
  }

  lemma SomeoneCanMove(s: System)
    requires MutexInv(s) && (s.calls != map[] || s.shared.updating || s.runner != Blocked)
    requires s.owner == None && s.runner == Blocked && s.shared.updating ==> s.calls != map[]
    ensures exists step: Step :: Enabled(s, step) && !step.Call_? && step != SpuriousWakeup
  {
    match s.owner
    case Some(Starter(id)) =>
      match s.calls[id].pc {
        case Locked => assert Enabled(s, SetHeader(id));
        case HeaderSet => assert Enabled(s, SetLink(id));
        case LinkSet => assert Enabled(s, SetFlag(id));
        case FlagSet => assert Enabled(s, Unlock(id));
      }
    case Some(Runner) =>
      match s.runner {
        case Checking => assert Enabled(s, CheckFlag);
        case Consuming => assert Enabled(s, ClearFlag);
        case FlagCleared => assert Enabled(s, DropLink);
        case Leaving => assert Enabled(s, RunUnlock);
      }
    case None =>
      if s.calls != map[] {
        var id :| id in s.calls;
        assert Enabled(s, if s.calls[id].pc == WantLock then Lock(id) else NotifyAll(id));
      } else if s.runner == Outside {
        assert Enabled(s, Enter);
      } else {
        assert Enabled(s, RunLock);
      }
  }
}
