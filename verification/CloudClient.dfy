/** The life of the `MblCloudClient` singleton: `run` creates, uses and destroys it while the
    event loop thread calls back at any moment. A mutex guards the static pointer. */
module CloudClient {
  import opened Wrappers

  datatype State = Unregistered | CalledRegister | Registered

  datatype Error = ShutdownRequested | ConnectUnknownError | DeviceUnregistered

  datatype Kind = OnRegistered | OnUnregistered | OnError | OnAuthorize

  /** What a callback makes of the registration state, if there is an instance. */
  function AfterCallback(kind: Kind, state: Option<State>): Option<State> {
    if state == None then None
    else match kind
      case OnRegistered => Some(Registered)
      case OnUnregistered => Some(Unregistered)
      case _ => state
  }

  class MblCloudClient {
    var state: State

    constructor ()
      ensures state == Unregistered
    {
      state := Unregistered;
    }
  }

  /** The static members. */
  class Statics {
    var instance: MblCloudClient?

    constructor ()
      ensures instance == null
    {
      instance := null;
    }

    ghost function View(): Option<State>
      reads this, if instance == null then {} else {instance}
    {
      if instance == null then None else Some(instance.state)
    }

    /** `handle_client_registered`, while it holds the mutex; `usesClient` says whether it
        gets to the call of the client. */
    method HandleClientRegistered() returns (usesClient: bool)
      modifies instance
      ensures View() == AfterCallback(OnRegistered, old(View()))
      ensures usesClient <==> instance != null
      ensures instance != null ==> instance.state == Registered
    {
      if instance == null {
        return false;
      }
      instance.state := Registered;
      return true;
    }

    /** `handle_client_unregistered`. */
    method HandleClientUnregistered()
      modifies instance
      ensures View() == AfterCallback(OnUnregistered, old(View()))
      ensures instance != null ==> instance.state == Unregistered
    {
      if instance == null {
        return;
      }
      instance.state := Unregistered;
    }

    /** `handle_error` and `handle_authorize`. */
    method HandleWithClient() returns (usesClient: bool)
      ensures old(View()) == AfterCallback(OnError, old(View())) == AfterCallback(OnAuthorize, old(View()))
      ensures usesClient <==> instance != null
    {
      usesClient := instance != null;
    }
  }

  // ------------------------------------------------------------- interleavings

  datatype CallbackPc = Waiting | Holding | Checked | Wrote | Done

  datatype RunnerPc =
    | Idle | Created | Published | SettingState | StateSet | SettingUp
    | Looping | Polled | Reading | Continuing | Returning | Ticking
    | Destroying | Clearing | Cleared | Closing | ClientDeleted

  datatype Callback = Callback(kind: Kind, pc: CallbackPc)

  datatype Thread = EventLoop(id: nat) | Runner

  /** A write of the registration state. */
  datatype Event = Construct | SetUp | Unregister | Register

  datatype Threads = Threads(owner: Option<Thread>, callbacks: map<nat, Callback>, runner: RunnerPc)

  /** `objects` holds the client objects that exist with their registration state, `clients`
      those whose `MbedCloudClient` exists, `self` the object that `run` made. `crashed` is
      set by an access through a null or dangling pointer and by a failed assertion; `log`
      is only observed and lists the writes of the state of the current object. */
  datatype Memory = Memory(
    instance: Option<nat>,
    objects: map<nat, State>,
    clients: set<nat>,
    self: nat,
    crashed: bool,
    log: seq<Event>)

  /** Only observed, apart from the signal: `seen` is the log when `run` decided to return,
      and `results` collects result and log of all runs. */
  datatype Verdicts = Verdicts(signal: bool, result: Error, seen: seq<Event>, results: seq<(Error, seq<Event>)>)

  datatype System = System(threads: Threads, memory: Memory, verdicts: Verdicts)

  datatype Step =
    | Call(id: nat, kind: Kind)
    | CallbackLock(id: nat)
    | CheckInstance(id: nat)
    | WriteState(id: nat)
    | UseClient(id: nat)
    | CallbackUnlock(id: nat)
    | Signal
    | Create(self: nat)
    | Publish
    | SetupLock
    | SetupWrite
    | SetupUnlock
    | SetupReturns(ok: bool)
    | PollSignal
    | LoopLock
    | ReadState
    | LoopUnlock
    | Tick(update: bool)
    | DestroyLock
    | ClearInstance
    | DestroyUnlock
    | DeleteClient
    | Free

  predicate Writes(kind: Kind) { kind.OnRegistered? || kind.OnUnregistered? }

  predicate At(t: Threads, id: nat, pc: CallbackPc) {
    id in t.callbacks && t.callbacks[id].pc == pc
  }

  /** The mutex is the only thing that holds a thread up. */
  predicate Enabled(s: System, step: Step) {
    var t := s.threads;
    match step
    case Call(id, _) => id !in t.callbacks
    case CallbackLock(id) => At(t, id, Waiting) && t.owner == None
    case CheckInstance(id) => At(t, id, Holding)
    case WriteState(id) => At(t, id, Checked) && Writes(t.callbacks[id].kind)
    case UseClient(id) =>
      || At(t, id, Wrote)
      || (At(t, id, Checked) && !Writes(t.callbacks[id].kind))
    case CallbackUnlock(id) => At(t, id, Done)
    case Signal => true
    case Create(self) => t.runner == Idle && self !in s.memory.objects && self !in s.memory.clients
    case Publish => t.runner == Created
    case SetupLock => t.runner == Published && t.owner == None
    case SetupWrite => t.runner == SettingState
    case SetupUnlock => t.runner == StateSet
    case SetupReturns(_) => t.runner == SettingUp
    case PollSignal => t.runner == Looping
    case LoopLock => t.runner == Polled && t.owner == None
    case ReadState => t.runner == Reading
    case LoopUnlock => t.runner == Continuing || t.runner == Returning
    case Tick(_) => t.runner == Ticking
    case DestroyLock => t.runner == Destroying && t.owner == None
    case ClearInstance => t.runner == Clearing
    case DestroyUnlock => t.runner == Cleared
    case DeleteClient => t.runner == Closing
    case Free => t.runner == ClientDeleted
  }

  /** An assertion, or the check that an access is valid. */
  function Check(m: Memory, ok: bool): Memory {
    m.(crashed := m.crashed || !ok)
  }

  predicate InstanceExists(m: Memory) { m.instance.Some? && m.instance.value in m.objects }

  predicate ClientExists(m: Memory) { InstanceExists(m) && m.instance.value in m.clients }

  function StateOf(m: Memory): Option<State> {
    if InstanceExists(m) then Some(m.objects[m.instance.value]) else None
  }

  /** Write the state through the static pointer. */
  function Write(m: Memory, state: State, event: Event): Memory {
    if InstanceExists(m) then
      m.(objects := m.objects[m.instance.value := state], log := m.log + [event])
    else Check(m, false)
  }

  /** A step of the event loop or of the signal handler. */
  predicate Asynchronous(step: Step) {
    match step
    case Call(_, _) => true
    case CallbackLock(_) => true
    case CheckInstance(_) => true
    case WriteState(_) => true
    case UseClient(_) => true
    case CallbackUnlock(_) => true
    case Signal => true
    case _ => false
  }

  function Apply(s: System, step: Step): System
    requires Enabled(s, step)
  {
    if Asynchronous(step) then
      System(EventThreads(s, step), EventMemory(s, step), s.verdicts.(signal := s.verdicts.signal || step == Signal))
    else System(RunThreads(s, step), RunMemory(s.memory, step), RunVerdicts(s, step))
  }

  function Goto(t: Threads, id: nat, pc: CallbackPc): Threads
    requires id in t.callbacks
  {
    t.(callbacks := t.callbacks[id := t.callbacks[id].(pc := pc)])
  }

  function EventThreads(s: System, step: Step): Threads
    requires Enabled(s, step) && Asynchronous(step)
  {
    var t := s.threads;
    match step
    case Call(id, kind) => t.(callbacks := t.callbacks[id := Callback(kind, Waiting)])
    case CallbackLock(id) => Goto(t, id, Holding).(owner := Some(EventLoop(id)))
    case CheckInstance(id) => Goto(t, id, if s.memory.instance == None then Done else Checked)
    case WriteState(id) => Goto(t, id, if t.callbacks[id].kind.OnRegistered? then Wrote else Done)
    case UseClient(id) => Goto(t, id, Done)
    case CallbackUnlock(id) => t.(callbacks := t.callbacks - {id}, owner := None)
    case Signal => t
  }

  function EventMemory(s: System, step: Step): Memory
    requires Enabled(s, step) && Asynchronous(step)
  {
    match step
    case WriteState(id) =>
      if s.threads.callbacks[id].kind.OnRegistered? then Write(s.memory, Registered, Register)
      else Write(s.memory, Unregistered, Unregister)
    case UseClient(id) => Check(s.memory, ClientExists(s.memory))
    case _ => s.memory
  }

  /** Where `run` is after a step, and whether it takes or releases the mutex. */
  function RunThreads(s: System, step: Step): Threads
    requires Enabled(s, step) && !Asynchronous(step)
  {
    var t := s.threads;
    match step
    case Create(_) => t.(runner := Created)
    case Publish => t.(runner := Published)
    case SetupLock => t.(runner := SettingState, owner := Some(Runner))
    case SetupWrite => t.(runner := StateSet)
    case SetupUnlock => t.(runner := SettingUp, owner := None)
    case SetupReturns(ok) => t.(runner := if ok then Looping else Destroying)
    case PollSignal => t.(runner := if s.verdicts.signal then Destroying else Polled)
    case LoopLock => t.(runner := Reading, owner := Some(Runner))
    case ReadState => t.(runner := if StateOf(s.memory) == Some(Unregistered) then Returning else Continuing)
    case LoopUnlock => t.(runner := if t.runner == Returning then Destroying else Ticking, owner := None)
    case Tick(_) => t.(runner := Looping)
    case DestroyLock => t.(runner := Clearing, owner := Some(Runner))
    case ClearInstance => t.(runner := Cleared)
    case DestroyUnlock => t.(runner := Closing, owner := None)
    case DeleteClient => t.(runner := ClientDeleted)
    case Free => t.(runner := Idle)
  }

  function RunMemory(m: Memory, step: Step): Memory {
    match step
    case Create(self) =>
      Check(m, m.instance == None).(objects := m.objects[self := Unregistered], clients := m.clients + {self},
                                    self := self, log := [Construct])
    case Publish => m.(instance := Some(m.self))
    case SetupWrite => Write(m, CalledRegister, SetUp)
    case SetupReturns(_) => Check(m, ClientExists(m))
    case ReadState => Check(m, InstanceExists(m))
    case Tick(update) => Check(m, update ==> ClientExists(m))
    case DestroyLock => Check(m, InstanceExists(m))
    case ClearInstance => Check(m, m.instance.Some?).(instance := None)
    case DeleteClient => Check(m, m.self in m.clients).(clients := m.clients - {m.self})
    case Free => m.(objects := m.objects - {m.self})
    case _ => m
  }

  function RunVerdicts(s: System, step: Step): Verdicts {
    var v := s.verdicts;
    match step
    case SetupReturns(ok) => v.(result := if ok then v.result else ConnectUnknownError, seen := s.memory.log)
    case PollSignal => if v.signal then v.(result := ShutdownRequested, seen := s.memory.log) else v
    case ReadState =>
      if StateOf(s.memory) == Some(Unregistered) then v.(result := DeviceUnregistered, seen := s.memory.log) else v
    case Free => v.(results := v.results + [(v.result, v.seen)])
    case _ => v
  }

  ghost predicate Run(s: System, steps: seq<Step>, s': System)
    decreases |steps|
  {
    if steps == [] then s == s'
    else Enabled(s, steps[0]) && Run(Apply(s, steps[0]), steps[1..], s')
  }

  /** The start of the process. */
  function Initial(): System {
    System(Threads(None, map[], Idle), Memory(None, map[], {}, 0, false, []), Verdicts(false, ShutdownRequested, [], []))
  }

  /** The micro-steps of a callback make up what the callback does while it has the mutex. */
  lemma CallbackSteps(s: System, id: nat)
    requires At(s.threads, id, Holding) && (s.memory.instance.Some? ==> ClientExists(s.memory))
    ensures var kind := s.threads.callbacks[id].kind;
            var checked := Apply(s, CheckInstance(id));
            var written := if Enabled(checked, WriteState(id)) then Apply(checked, WriteState(id)) else checked;
            var used := if Enabled(written, UseClient(id)) then Apply(written, UseClient(id)) else written;
            && Enabled(used, CallbackUnlock(id)) && used.memory.crashed == s.memory.crashed
            && StateOf(used.memory) == AfterCallback(kind, StateOf(s.memory))
            && (s.memory.instance == None || kind.OnError? || kind.OnAuthorize? ==> used.memory == s.memory)
            && (s.memory.instance.Some? && kind.OnRegistered? ==>
                 StateOf(used.memory) == Some(Registered) && used.memory.log == s.memory.log + [Register])
            && (s.memory.instance.Some? && kind.OnUnregistered? ==>
                 StateOf(used.memory) == Some(Unregistered) && used.memory.log == s.memory.log + [Unregister])
  {
    var checked := Apply(s, CheckInstance(id));
    if s.memory.instance.Some? {
      match s.threads.callbacks[id].kind {
        case OnRegistered => assert At(Apply(checked, WriteState(id)).threads, id, Wrote);
        case OnUnregistered => assert At(Apply(checked, WriteState(id)).threads, id, Done);
        case _ => assert !Enabled(checked, WriteState(id)) && Enabled(checked, UseClient(id));
      }
    }
  }

  // ----------------------------------------------------------------- invariant

  predicate HoldsMutex(pc: RunnerPc) {
    || pc.SettingState? || pc.StateSet? || pc.Reading? || pc.Continuing? || pc.Returning? || pc.Clearing? || pc.Cleared?
  }

  /** Before the static pointer is set, or after it is cleared. */
  predicate Private(pc: RunnerPc) {
    pc.Idle? || pc.Created? || pc.Cleared? || pc.Closing? || pc.ClientDeleted?
  }

  predicate SeesInstance(pc: CallbackPc) { pc.Checked? || pc.Wrote? }

  ghost predicate OwnerCalls(owner: Option<Thread>, callbacks: map<nat, Callback>) {
    forall id :: id in callbacks ==> (!callbacks[id].pc.Waiting? <==> owner == Some(EventLoop(id)))
  }

  ghost predicate MutexInv(t: Threads) {
    && OwnerCalls(t.owner, t.callbacks)
    && (HoldsMutex(t.runner) <==> t.owner == Some(Runner))
    && (t.owner.Some? && t.owner.value.EventLoop? ==> t.owner.value.id in t.callbacks)
  }

  /** The static pointer is set from its publication until it is cleared, and while it is
      set, the object and its client exist. */
  ghost predicate LifeInv(pc: RunnerPc, m: Memory) {
    && !m.crashed
    && (m.instance == None <==> Private(pc))
    && (m.instance.Some? ==> m.instance.value == m.self)
    && (pc != Idle ==> m.self in m.objects)
    && (!pc.Idle? && !pc.ClientDeleted? ==> m.self in m.clients)
  }

  /** A callback that has seen the static pointer set is right. */
  ghost predicate SeenInv(s: System) {
    forall id :: id in s.threads.callbacks && SeesInstance(s.threads.callbacks[id].pc) ==> s.memory.instance.Some?
  }

  ghost predicate SetupIn(log: seq<Event>) { exists i :: 0 < i < |log| && log[i] == SetUp }

  /** The last write is that of an unregister callback, and the set-up came before it. */
  ghost predicate UnregisteredAfterSetup(log: seq<Event>) {
    SetupIn(log) && log[|log| - 1] == Unregister
  }

  lemma SetupStays(log: seq<Event>, e: Event)
    ensures SetupIn(log) ==> SetupIn(log + [e])
    ensures log != [] && e == SetUp ==> SetupIn(log + [e])
  {
    if SetupIn(log) {
      var i :| 0 < i < |log| && log[i] == SetUp;
      assert (log + [e])[i] == SetUp;
    } else if log != [] && e == SetUp {
      assert (log + [e])[|log|] == SetUp;
    }
  }

  function StateAfter(e: Event): State {
    match e
    case SetUp => CalledRegister
    case Register => Registered
    case _ => Unregistered
  }

  predicate BeforeSetup(pc: RunnerPc) { pc.Idle? || pc.Created? || pc.Published? || pc.SettingState? }

  predicate Ending(pc: RunnerPc) {
    pc.Returning? || pc.Destroying? || pc.Clearing? || pc.Cleared? || pc.Closing? || pc.ClientDeleted?
  }

  /** The log tells the state, and only its first entry is a construction. */
  ghost predicate Logged(m: Memory) {
    && m.log != [] && m.self in m.objects && m.objects[m.self] == StateAfter(m.log[|m.log| - 1])
    && (forall i :: 0 < i < |m.log| ==> m.log[i] != Construct)
  }

  ghost predicate LogInv(pc: RunnerPc, m: Memory) {
    && (pc != Idle ==> Logged(m))
    && (!BeforeSetup(pc) ==> SetupIn(m.log))
  }

  ghost predicate VerdictInv(pc: RunnerPc, v: Verdicts) {
    && (Ending(pc) && v.result == DeviceUnregistered ==> UnregisteredAfterSetup(v.seen))
    && (forall i :: 0 <= i < |v.results| && v.results[i].0 == DeviceUnregistered ==> UnregisteredAfterSetup(v.results[i].1))
  }

  ghost predicate Inv(s: System) {
    && MutexInv(s.threads) && LifeInv(s.threads.runner, s.memory) && SeenInv(s)
    && LogInv(s.threads.runner, s.memory) && VerdictInv(s.threads.runner, s.verdicts)
  }

  lemma EventKeepsMutex(s: System, step: Step)
    requires MutexInv(s.threads) && Enabled(s, step) && Asynchronous(step)
    ensures MutexInv(EventThreads(s, step)) && EventThreads(s, step).runner == s.threads.runner
  {
    hide HoldsMutex;
  }

  lemma RunKeepsMutex(s: System, step: Step)
    requires MutexInv(s.threads) && Enabled(s, step) && !Asynchronous(step)
    ensures MutexInv(RunThreads(s, step)) && RunThreads(s, step).callbacks == s.threads.callbacks
  {
    assert OwnerCalls(None, s.threads.callbacks) == OwnerCalls(Some(Runner), s.threads.callbacks);
    hide OwnerCalls;
  }

  lemma EventKeepsLife(s: System, step: Step)
    requires LifeInv(s.threads.runner, s.memory) && SeenInv(s) && Enabled(s, step) && Asynchronous(step)
    ensures LifeInv(s.threads.runner, EventMemory(s, step)) && EventMemory(s, step).instance == s.memory.instance
  {
  }

  lemma RunKeepsLife(s: System, step: Step)
    requires LifeInv(s.threads.runner, s.memory) && Enabled(s, step) && !Asynchronous(step)
    ensures LifeInv(RunThreads(s, step).runner, RunMemory(s.memory, step))
  {
  }

  lemma EventKeepsSeen(s: System, step: Step)
    requires SeenInv(s) && Enabled(s, step) && Asynchronous(step)
    ensures forall id :: id in EventThreads(s, step).callbacks && SeesInstance(EventThreads(s, step).callbacks[id].pc) ==>
              s.memory.instance.Some?
  {
  }

  /** Only `run` clears the pointer, and it has the mutex then. */
  lemma RunKeepsSeen(s: System, step: Step)
    requires MutexInv(s.threads) && SeenInv(s) && Enabled(s, step) && !Asynchronous(step)
    ensures forall id :: id in s.threads.callbacks && SeesInstance(s.threads.callbacks[id].pc) ==>
              RunMemory(s.memory, step).instance.Some?
  {
    if step.ClearInstance? {
      assert s.threads.owner == Some(Runner);
    } else {
      hide MutexInv;
    }
  }

  lemma WriteKeepsLog(m: Memory, state: State, e: Event)
    requires Logged(m) && m.instance == Some(m.self) && e != Construct && state == StateAfter(e)
    ensures Logged(Write(m, state, e)) && Write(m, state, e).log == m.log + [e]
  {
    hide StateAfter;
  }

  lemma EventKeepsLog(s: System, step: Step)
    requires LifeInv(s.threads.runner, s.memory) && SeenInv(s) && LogInv(s.threads.runner, s.memory)
    requires Enabled(s, step) && Asynchronous(step)
    ensures LogInv(s.threads.runner, EventMemory(s, step))
  {
    if step.WriteState? {
      var m := s.memory;
      assert m.instance.Some? && !s.threads.runner.Idle?;
      hide BeforeSetup, Logged, SetupIn, Write;
      WriteKeepsLog(m, Registered, Register);
      WriteKeepsLog(m, Unregistered, Unregister);
      SetupStays(m.log, Register);
      SetupStays(m.log, Unregister);
    }
  }

  lemma RunKeepsLog(s: System, step: Step)
    requires LifeInv(s.threads.runner, s.memory) && LogInv(s.threads.runner, s.memory)
    requires Enabled(s, step) && !Asynchronous(step)
    ensures LogInv(RunThreads(s, step).runner, RunMemory(s.memory, step))
  {
    hide SetupIn;
    if step.SetupWrite? {
      hide Write;
      WriteKeepsLog(s.memory, CalledRegister, SetUp);
      SetupStays(s.memory.log, SetUp);
    } else {
      hide Write, StateAfter;
    }
  }

  /** The state is "unregistered" exactly if the last write was that of an unregister
      callback after the set-up. */
  lemma LogTells(pc: RunnerPc, m: Memory)
    requires LifeInv(pc, m) && LogInv(pc, m) && pc.Reading?
    ensures InstanceExists(m)
    ensures StateOf(m) == Some(Unregistered) <==> UnregisteredAfterSetup(m.log)
  {
    assert |m.log| > 1;
    hide SetupIn;
  }

  lemma RunKeepsVerdict(s: System, step: Step)
    requires LifeInv(s.threads.runner, s.memory) && LogInv(s.threads.runner, s.memory)
    requires VerdictInv(s.threads.runner, s.verdicts) && Enabled(s, step) && !Asynchronous(step)
    ensures VerdictInv(RunThreads(s, step).runner, RunVerdicts(s, step))
  {
    hide LifeInv, LogInv, UnregisteredAfterSetup, StateOf;
    if step.ReadState? {
      LogTells(s.threads.runner, s.memory);
    }
  }

  lemma InvariantStep(s: System, step: Step)
    requires Inv(s) && Enabled(s, step)
    ensures Inv(Apply(s, step))
  {
    hide MutexInv, LifeInv, LogInv, VerdictInv, EventThreads, EventMemory, RunThreads, RunMemory, RunVerdicts, Enabled;
    if Asynchronous(step) {
      EventKeepsMutex(s, step);
      EventKeepsLife(s, step);
      EventKeepsSeen(s, step);
      EventKeepsLog(s, step);
      SignalKeepsVerdict(s.threads.runner, s.verdicts, step == Signal);
    } else {
      RunKeepsMutex(s, step);
      RunKeepsLife(s, step);
      RunKeepsSeen(s, step);
      RunKeepsLog(s, step);
      RunKeepsVerdict(s, step);
    }
  }

  lemma SignalKeepsVerdict(pc: RunnerPc, v: Verdicts, signal: bool)
    requires VerdictInv(pc, v)
    ensures VerdictInv(pc, v.(signal := v.signal || signal))
  {
  }

  lemma {:induction false} Invariant(s: System, steps: seq<Step>, s': System)
    requires Inv(s) && Run(s, steps, s')
    ensures Inv(s')
    decreases |steps|
  {
    hide Inv, Apply, Enabled;
    if steps != [] {
      InvariantStep(s, steps[0]);
      Invariant(Apply(s, steps[0]), steps[1..], s');
    }
  }

  lemma Reached(steps: seq<Step>, s: System)
    requires Run(Initial(), steps, s)
    ensures Inv(s)
  {
    Invariant(Initial(), steps, s);
  }

  // ------------------------------------------------------------------ theorems

  /** In every interleaving of callbacks with any number of runs, nobody goes through a null
      or dangling pointer and no assertion fails. */
  lemma NoDanglingAccess(steps: seq<Step>, s: System)
    requires Run(Initial(), steps, s)
    ensures !s.memory.crashed
    ensures s.memory.instance.Some? ==> ClientExists(s.memory)
  {
    Invariant(Initial(), steps, s);
  }

  /** Everything that is about to be accessed exists, and the static pointer, the state and
      the client behind it are accessed by callbacks only under the mutex, as the pointer and
      the state are by `run` when it reads or changes them. */
  lemma AccessIsValid(steps: seq<Step>, s: System, step: Step)
    requires Run(Initial(), steps, s) && Enabled(s, step)
    ensures step.CheckInstance? || step.WriteState? || step.UseClient? ==>
              s.threads.owner == Some(EventLoop(step.id))
    ensures step.SetupWrite? || step.ReadState? || step.ClearInstance? ==> s.threads.owner == Some(Runner)
    ensures step.WriteState? || step.UseClient? || step.SetupWrite? || step.SetupReturns? || step.ReadState? || step.Tick? ==>
              && s.memory.instance == Some(s.memory.self)
              && s.memory.self in s.memory.objects && s.memory.self in s.memory.clients
    ensures step.DestroyLock? || step.ClearInstance? ==>
              s.memory.instance == Some(s.memory.self) && s.memory.self in s.memory.objects
    ensures step.DeleteClient? ==> s.memory.self in s.memory.clients && s.memory.instance == None
    ensures step.Free? ==> s.memory.self in s.memory.objects && s.memory.instance == None
    ensures step.Create? ==> s.memory.instance == None
  {
    hide MutexInv, LifeInv, SeenInv, LogInv, VerdictInv, Enabled;
    Reached(steps, s);
    AccessIsLocked(s, step);
    AccessFinds(s, step);
  }

  lemma AccessIsLocked(s: System, step: Step)
    requires MutexInv(s.threads) && Enabled(s, step)
    ensures step.CheckInstance? || step.WriteState? || step.UseClient? ==>
              s.threads.owner == Some(EventLoop(step.id))
    ensures step.SetupWrite? || step.ReadState? || step.ClearInstance? ==> s.threads.owner == Some(Runner)
  {
  }

  lemma AccessFinds(s: System, step: Step)
    requires LifeInv(s.threads.runner, s.memory) && SeenInv(s) && Enabled(s, step)
    ensures step.WriteState? || step.UseClient? || step.SetupWrite? || step.SetupReturns? || step.ReadState? || step.Tick? ==>
              && s.memory.instance == Some(s.memory.self)
              && s.memory.self in s.memory.objects && s.memory.self in s.memory.clients
    ensures step.DestroyLock? || step.ClearInstance? ==>
              s.memory.instance == Some(s.memory.self) && s.memory.self in s.memory.objects
    ensures step.DeleteClient? ==> s.memory.self in s.memory.clients && s.memory.instance == None
    ensures step.Free? ==> s.memory.self in s.memory.objects && s.memory.instance == None
    ensures step.Create? ==> s.memory.instance == None
  {
  }

  /** In any state at all, an access through a null or dangling pointer sets `crashed`, which
      stays set. */
  lemma CrashIsRecorded(s: System, step: Step)
    requires Enabled(s, step)
    ensures s.memory.crashed ==> Apply(s, step).memory.crashed
    ensures step.WriteState? || step.SetupWrite? || step.ReadState? || step.DestroyLock? ==>
              InstanceExists(s.memory) || Apply(s, step).memory.crashed
    ensures step.UseClient? || step.SetupReturns? || step == Tick(true) ==>
              ClientExists(s.memory) || Apply(s, step).memory.crashed
    ensures step.DeleteClient? ==> s.memory.self in s.memory.clients || Apply(s, step).memory.crashed
  {
    hide EventThreads, RunThreads, RunVerdicts;
  }

  /** Nothing outlives its run: the object and its client exist while `run` is going on, the
      client up to its deletion, and no other ever does. */
  lemma NothingIsLeaked(steps: seq<Step>, s: System)
    requires Run(Initial(), steps, s)
    ensures s.memory.objects.Keys == if s.threads.runner == Idle then {} else {s.memory.self}
    ensures s.memory.clients ==
            if s.threads.runner == Idle || s.threads.runner == ClientDeleted then {} else {s.memory.self}
  {
    ObjectsOfRun(Initial(), steps, s);
  }

  ghost predicate OnlyOwn(pc: RunnerPc, m: Memory) {
    && m.objects.Keys == (if pc.Idle? then {} else {m.self})
    && m.clients == (if pc.Idle? || pc.ClientDeleted? then {} else {m.self})
  }

  lemma OnlyOwnStep(s: System, step: Step)
    requires LifeInv(s.threads.runner, s.memory) && OnlyOwn(s.threads.runner, s.memory) && Enabled(s, step)
    ensures OnlyOwn(Apply(s, step).threads.runner, Apply(s, step).memory)
  {
    if Asynchronous(step) {
      EventOwns(s, step);
    } else {
      RunOwns(s, step);
    }
    hide EventThreads, EventMemory, RunThreads, RunMemory, RunVerdicts, LifeInv, OnlyOwn, Enabled;
  }

  lemma EventOwns(s: System, step: Step)
    requires LifeInv(s.threads.runner, s.memory) && OnlyOwn(s.threads.runner, s.memory)
    requires Enabled(s, step) && Asynchronous(step)
    ensures EventThreads(s, step).runner == s.threads.runner && OnlyOwn(s.threads.runner, EventMemory(s, step))
  {
  }

  lemma RunOwns(s: System, step: Step)
    requires LifeInv(s.threads.runner, s.memory) && OnlyOwn(s.threads.runner, s.memory)
    requires Enabled(s, step) && !Asynchronous(step)
    ensures OnlyOwn(RunThreads(s, step).runner, RunMemory(s.memory, step))
  {
    assert {s.memory.self} - {s.memory.self} == {};
  }

  lemma {:induction false} ObjectsOfRun(s: System, steps: seq<Step>, s': System)
    requires Inv(s) && OnlyOwn(s.threads.runner, s.memory) && Run(s, steps, s')
    ensures OnlyOwn(s'.threads.runner, s'.memory)
    decreases |steps|
  {
    hide OnlyOwn, Apply, Enabled, LifeInv, MutexInv, LogInv, VerdictInv, SeenInv;
    if steps != [] {
      InvariantStep(s, steps[0]);
      OnlyOwnStep(s, steps[0]);
      ObjectsOfRun(Apply(s, steps[0]), steps[1..], s');
    }
  }

  /** A callback that has found the instance keeps it until it unlocks the mutex, whatever
      the other threads do in between. */
  lemma CheckedInstanceStays(steps: seq<Step>, s: System, id: nat, step: Step)
    requires Run(Initial(), steps, s) && Enabled(s, step)
    requires id in s.threads.callbacks && SeesInstance(s.threads.callbacks[id].pc)
    ensures Apply(s, step).memory.instance == s.memory.instance && ClientExists(Apply(s, step).memory)
  {
    Invariant(Initial(), steps, s);
    InvariantStep(s, step);
    InstanceStays(s, id, step);
    hide MutexInv, LogInv, VerdictInv, Apply, Enabled;
  }

  lemma InstanceStays(s: System, id: nat, step: Step)
    requires MutexInv(s.threads) && LifeInv(s.threads.runner, s.memory) && SeenInv(s) && Enabled(s, step)
    requires id in s.threads.callbacks && SeesInstance(s.threads.callbacks[id].pc)
    ensures Apply(s, step).memory.instance == s.memory.instance && s.memory.instance.Some?
  {
    assert s.threads.owner == Some(EventLoop(id));
    hide MutexInv, EventThreads, RunThreads, RunVerdicts;
  }

  /** `run` returns DeviceUnregistered only if the last write of the state was that of an
      unregister callback, made after the set-up. */
  lemma UnregisteredNeedsCallback(steps: seq<Step>, s: System, i: nat)
    requires Run(Initial(), steps, s) && i < |s.verdicts.results| && s.verdicts.results[i].0 == DeviceUnregistered
    ensures UnregisteredAfterSetup(s.verdicts.results[i].1)
  {
    Invariant(Initial(), steps, s);
  }

  /** And in that case it does: a pass of the loop decides to return exactly if the last
      write so far was that of an unregister callback. */
  lemma PassDecides(steps: seq<Step>, s: System)
    requires Run(Initial(), steps, s) && s.threads.runner == Reading
    ensures var read := Apply(s, ReadState);
            && Enabled(read, LoopUnlock)
            && (UnregisteredAfterSetup(s.memory.log) ==>
                 Apply(read, LoopUnlock).threads.runner == Destroying && read.verdicts.result == DeviceUnregistered)
            && (!UnregisteredAfterSetup(s.memory.log) ==> Apply(read, LoopUnlock).threads.runner == Ticking)
  {
    Reached(steps, s);
    LogTells(s.threads.runner, s.memory);
    hide UnregisteredAfterSetup, LifeInv, LogInv, MutexInv, VerdictInv;
    ReadDecides(s);
  }

  lemma ReadDecides(s: System)
    requires s.threads.runner == Reading
    ensures var read := Apply(s, ReadState);
            && Enabled(read, LoopUnlock)
            && (StateOf(s.memory) == Some(Unregistered) ==>
                 Apply(read, LoopUnlock).threads.runner == Destroying && read.verdicts.result == DeviceUnregistered)
            && (StateOf(s.memory) != Some(Unregistered) ==> Apply(read, LoopUnlock).threads.runner == Ticking)
  {
    hide StateOf, EventThreads, EventMemory, RunMemory;
  }

  /** The other two ways to return: a pass that finds a signal, and a failed set-up. */
  lemma OtherReturns(steps: seq<Step>, s: System)
    requires Run(Initial(), steps, s)
    ensures s.threads.runner == Looping ==>
              && (Apply(s, PollSignal).threads.runner == Destroying <==> Signal in steps)
              && (Signal in steps ==> Apply(s, PollSignal).verdicts.result == ShutdownRequested)
              && (Signal !in steps ==> Apply(s, PollSignal).threads.runner == Polled)
    ensures s.threads.runner == SettingUp ==>
              && Apply(s, SetupReturns(true)).threads.runner == Looping
              && Apply(s, SetupReturns(false)).threads.runner == Destroying
              && Apply(s, SetupReturns(false)).verdicts.result == ConnectUnknownError
  {
    hide Apply, Enabled;
    SignalIsKept(Initial(), steps, s);
    PollDecides(s);
    SetupDecides(s);
  }

  lemma PollDecides(s: System)
    ensures s.threads.runner == Looping ==>
              && Enabled(s, PollSignal)
              && Apply(s, PollSignal).threads.runner == (if s.verdicts.signal then Destroying else Polled)
              && (s.verdicts.signal ==> Apply(s, PollSignal).verdicts.result == ShutdownRequested)
  {
    hide EventThreads, EventMemory, RunMemory;
  }

  lemma SetupDecides(s: System)
    ensures s.threads.runner == SettingUp ==>
              && Enabled(s, SetupReturns(true)) && Enabled(s, SetupReturns(false))
              && Apply(s, SetupReturns(true)).threads.runner == Looping
              && Apply(s, SetupReturns(false)).threads.runner == Destroying
              && Apply(s, SetupReturns(false)).verdicts.result == ConnectUnknownError
  {
    hide EventThreads, EventMemory, RunMemory;
  }

  lemma {:induction false} SignalIsKept(s: System, steps: seq<Step>, s': System)
    requires Run(s, steps, s')
    ensures s'.verdicts.signal <==> s.verdicts.signal || Signal in steps
    decreases |steps|
  {
    if steps != [] {
      SignalIsKept(Apply(s, steps[0]), steps[1..], s');
      assert steps == [steps[0]] + steps[1..];
    }
  }

  /** A run that returned did so for a reason that came from outside: a signal, a failed
      set-up, or a callback that said "unregistered". */
  lemma ResultsHaveReasons(steps: seq<Step>, s: System, i: nat)
    requires Run(Initial(), steps, s) && i < |s.verdicts.results|
    ensures s.verdicts.results[i].0 == ShutdownRequested ==> Signal in steps
    ensures s.verdicts.results[i].0 == ConnectUnknownError ==> SetupReturns(false) in steps
    ensures s.verdicts.results[i].0 == DeviceUnregistered ==> exists id :: Call(id, OnUnregistered) in steps
  {
    var e := s.verdicts.results[i].0;
    assert Decided(s, e);
    if !Asks(steps, e) {
      ReasonsGrow(Initial(), steps, s, e);
    }
  }

  /** Whether a shutdown, a failed set-up or an unregister callback is on record. */
  ghost predicate OnRecord(s: System, e: Error) {
    match e
    case ShutdownRequested => s.verdicts.signal
    case ConnectUnknownError => false
    case DeviceUnregistered =>
      || Unregister in s.memory.log
      || (exists id :: id in s.threads.callbacks && s.threads.callbacks[id].kind == OnUnregistered)
  }

  ghost predicate Decided(s: System, e: Error) {
    || (Ending(s.threads.runner) && s.verdicts.result == e)
    || (exists i :: 0 <= i < |s.verdicts.results| && s.verdicts.results[i].0 == e)
  }

  ghost predicate Asks(steps: seq<Step>, e: Error) {
    match e
    case ShutdownRequested => Signal in steps
    case ConnectUnknownError => SetupReturns(false) in steps
    case DeviceUnregistered => exists id :: Call(id, OnUnregistered) in steps
  }

  /** Nothing gets on record, and nothing is decided, without being asked for. */
  lemma ReasonStep(s: System, step: Step, e: Error)
    requires Inv(s) && Enabled(s, step) && !Asks([step], e) && !OnRecord(s, e) && !Decided(s, e)
    ensures !OnRecord(Apply(s, step), e) && !Decided(Apply(s, step), e)
  {
    if Asynchronous(step) {
      EventReason(s, step, e);
    } else {
      RunReason(s, step, e);
    }
    hide EventThreads, EventMemory, RunThreads, RunMemory, RunVerdicts, Enabled;
  }

  lemma EventReason(s: System, step: Step, e: Error)
    requires Enabled(s, step) && Asynchronous(step) && !Asks([step], e) && !OnRecord(s, e) && !Decided(s, e)
    ensures var t, m := EventThreads(s, step), EventMemory(s, step);
            var next := System(t, m, s.verdicts.(signal := s.verdicts.signal || step == Signal));
            !OnRecord(next, e) && !Decided(next, e)
  {
    hide Ending;
  }

  lemma RunReason(s: System, step: Step, e: Error)
    requires Inv(s) && Enabled(s, step) && !Asynchronous(step)
    requires !Asks([step], e) && !OnRecord(s, e) && !Decided(s, e)
    ensures var next := System(RunThreads(s, step), RunMemory(s.memory, step), RunVerdicts(s, step));
            !OnRecord(next, e) && !Decided(next, e)
  {
    hide OnRecord, Decided, LifeInv, MutexInv, LogInv, VerdictInv, SeenInv, RunThreads, RunMemory, RunVerdicts;
    NothingPut(s, step, e);
    NothingDecided(s, step, e);
  }

  lemma NothingPut(s: System, step: Step, e: Error)
    requires Enabled(s, step) && !Asynchronous(step) && !OnRecord(s, e)
    ensures !OnRecord(System(RunThreads(s, step), RunMemory(s.memory, step), RunVerdicts(s, step)), e)
  {
    hide StateOf;
  }

  lemma NothingDecided(s: System, step: Step, e: Error)
    requires LifeInv(s.threads.runner, s.memory) && LogInv(s.threads.runner, s.memory)
    requires Enabled(s, step) && !Asynchronous(step)
    requires !Asks([step], e) && !OnRecord(s, e) && !Decided(s, e)
    ensures !Decided(System(RunThreads(s, step), RunMemory(s.memory, step), RunVerdicts(s, step)), e)
  {
    if step.ReadState? {
      LogTells(s.threads.runner, s.memory);
    }
    hide LifeInv, LogInv, SetupIn, StateOf, RunMemory;
  }

  lemma {:induction false} ReasonsGrow(s: System, steps: seq<Step>, s': System, e: Error)
    requires Inv(s) && Run(s, steps, s') && !OnRecord(s, e) && !Decided(s, e) && !Asks(steps, e)
    ensures !OnRecord(s', e) && !Decided(s', e)
    decreases |steps|
  {
    hide Inv, Apply, Enabled, OnRecord, Decided;
    if steps != [] {
      assert steps[0] in steps && forall step :: step in steps[1..] ==> step in steps;
      InvariantStep(s, steps[0]);
      ReasonStep(s, steps[0], e);
      ReasonsGrow(Apply(s, steps[0]), steps[1..], s', e);
    }
  }

  /** What `run` has decided to return, it returns: from the decision to the end nothing
      changes it, and the end records it once. */
  lemma DecisionStands(s: System, step: Step)
    requires Ending(s.threads.runner) && Enabled(s, step)
    ensures Apply(s, step).verdicts.result == s.verdicts.result && Apply(s, step).verdicts.seen == s.verdicts.seen
    ensures step != Free ==>
              Ending(Apply(s, step).threads.runner) && Apply(s, step).verdicts.results == s.verdicts.results
    ensures step == Free ==>
              && Apply(s, step).threads.runner == Idle
              && Apply(s, step).verdicts.results == s.verdicts.results + [(s.verdicts.result, s.verdicts.seen)]
  {
    hide EventMemory, RunMemory;
  }

  /** The thread that has the mutex goes on, or else the thread of `run`. */
  function NextStep(s: System): Step {
    match s.threads.owner
    case Some(EventLoop(id)) =>
      (match if id in s.threads.callbacks then s.threads.callbacks[id] else Callback(OnError, Done)
       case Callback(_, Holding) => CheckInstance(id)
       case Callback(OnRegistered, Checked) => WriteState(id)
       case Callback(OnUnregistered, Checked) => WriteState(id)
       case Callback(_, Checked) => UseClient(id)
       case Callback(_, Wrote) => UseClient(id)
       case _ => CallbackUnlock(id))
    case _ =>
      match s.threads.runner
      case Idle => Create(s.memory.self)
      case Created => Publish
      case Published => SetupLock
      case SettingState => SetupWrite
      case StateSet => SetupUnlock
      case SettingUp => SetupReturns(true)
      case Looping => PollSignal
      case Polled => LoopLock
      case Reading => ReadState
      case Continuing => LoopUnlock
      case Returning => LoopUnlock
      case Ticking => Tick(true)
      case Destroying => DestroyLock
      case Clearing => ClearInstance
      case Cleared => DestroyUnlock
      case Closing => DeleteClient
      case ClientDeleted => Free
  }

  /** While `run` is going on, it is never stuck: it can go on, or a callback that has the
      mutex can. */
  lemma NoDeadlock(steps: seq<Step>, s: System)
    requires Run(Initial(), steps, s) && s.threads.runner != Idle
    ensures Enabled(s, NextStep(s))
    ensures NextStep(s) != Signal && !NextStep(s).Call? && !NextStep(s).CallbackLock?
  {
    Invariant(Initial(), steps, s);
    SomeoneCanMove(s);
  }

  lemma SomeoneCanMove(s: System)
    requires MutexInv(s.threads) && s.threads.runner != Idle
    ensures Enabled(s, NextStep(s))
    ensures NextStep(s) != Signal && !NextStep(s).Call? && !NextStep(s).CallbackLock?
  {
    if s.threads.owner.Some? && s.threads.owner.value.EventLoop? {
      assert !s.threads.callbacks[s.threads.owner.value.id].pc.Waiting?;
    }
  }

  /** The environment is free: callbacks and signals come at any time, new objects lie
      anywhere, and the set-up can succeed or fail. */
  lemma EnvironmentIsFree(s: System, n: nat, kind: Kind, outcome: bool)
    ensures Enabled(s, Signal)
    ensures n !in s.threads.callbacks ==> Enabled(s, Call(n, kind))
    ensures s.threads.runner == Idle && n !in s.memory.objects && n !in s.memory.clients ==> Enabled(s, Create(n))
    ensures s.threads.runner == SettingUp ==> Enabled(s, SetupReturns(outcome))
    ensures s.threads.runner == Ticking ==> Enabled(s, Tick(outcome))
  {
  }
}
