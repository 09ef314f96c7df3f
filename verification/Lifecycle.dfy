/** Running, terminating and killing one application. */
module Lifecycle {
  import opened Wrappers
  import opened Exceptions
  import opened AppTree
  import opened ContainerRuntime

  const DEFAULT_TIMEOUT_AFTER_SIGTERM := 3.0
  const DEFAULT_TIMEOUT_AFTER_SIGKILL := 1.0
  const WAIT_SLEEP_INTERVAL := 0.1

  /** One call of `get_state` by the waiting loop: when, and what it reported. */
  datatype Poll = Poll(at: real, report: Option<Report>) {
    predicate Stopped() { report == Some(InPhase(Phase.Stopped)) }
  }

  function PollAt(at: real, o: Outcome, report: Report): Poll {
    Poll(at, if o.Ok? then Some(report) else None)
  }

  ghost predicate IsPoll(e: Event, app: string, p: Poll) {
    && e.command.ReadState? && e.command.id == app && e.command.at == p.at
    && p.report == if e.outcome.Ok? then Some(e.command.report) else None
  }

  function Ceiling(x: real): (n: int)
    ensures n as real - 1.0 < x <= n as real
  {
    -((-x).Floor)
  }

  /** Most polls a wait of `timeout` seconds can make. */
  function PollBound(timeout: real): int {
    if timeout <= 0.0 then 1 else Ceiling(10.0 * timeout) + 1
  }

  /** What a failed `run_app` leaves. */
  ghost predicate RunFailed(e: Error, c: Containers, c': Containers, app: string, bundle: Bundle) {
    match e
    case ContainerStateError => Aged(c, c', app)
    case ContainerAlreadyExistError => app in c && Aged(c, c', app)
    case ContainerCreationError => app !in c && c' == c
    case ContainerStartError =>
      app !in c && app in c' && c'[app].bundle == bundle && c'[app].phase != Running && OthersKept(c, c', {app})
    case _ => false
  }

  /** The bound is 10 * timeout + 1, rounded up. */
  lemma PollBoundIs(timeout: real)
    ensures timeout > 0.0 ==> 10.0 * timeout <= (PollBound(timeout) - 1) as real < 10.0 * timeout + 1.0
    ensures timeout <= 0.0 ==> PollBound(timeout) == 1
  {
  }

  /** With the default time-outs at most 31 polls follow SIGTERM, and 11 SIGKILL. */
  lemma DefaultPolls()
    ensures PollBound(DEFAULT_TIMEOUT_AFTER_SIGTERM) == 31 && PollBound(DEFAULT_TIMEOUT_AFTER_SIGKILL) == 11
  {
    PollBoundIs(DEFAULT_TIMEOUT_AFTER_SIGTERM);
    PollBoundIs(DEFAULT_TIMEOUT_AFTER_SIGKILL);
  }

  /** `run_app`: create, then start. */
  method RunApp(d: Device, app: string, bundle: Bundle) returns (o: Outcome)
    modifies d`containers, d`trouble, d`trace
    ensures d.trouble == old(d.trouble) || (o.Raised? && d.trouble == old(d.trouble) + 1)
    ensures |old(d.trace)| + 2 <= |d.trace| <= |old(d.trace)| + 3
    ensures old(d.trace) < d.trace && d.trace[|d.trace| - 1].outcome == o
    ensures Event(CreateContainer(app, bundle), if o.Raised? && |d.trace| == |old(d.trace)| + 2 then o else Ok)
            == d.trace[|old(d.trace)| + 1]
    ensures |d.trace| == |old(d.trace)| + 2 ==> o.Raised?
    ensures |d.trace| == |old(d.trace)| + 3 ==> d.trace[|d.trace| - 1].command == StartContainer(app)
    ensures o.Raised? && d.trouble == old(d.trouble) ==>
              if app in old(d.containers) then o == Raise(ContainerAlreadyExistError) else bundle !in d.tree.bundles
    ensures OthersKept(old(d.containers), d.containers, {app})
    ensures o.Ok? ==> app !in old(d.containers) && bundle in d.tree.bundles
                      && d.containers == old(d.containers)[app := Container(Running, bundle)]
    ensures o.Raised? ==> o.cause == None && RunFailed(o.error, old(d.containers), d.containers, app, bundle)
  {
    o := Create(d, app, bundle);
    :- o;
    o := Start(d, app);
  }

  /** The steps of a wait: polls with a pause of a tenth of a second between them. */
  ghost predicate Waited(steps: seq<Event>, app: string, timeout: real, polls: seq<Poll>, o: Outcome) {
    && |polls| > 0 && |steps| == 2 * |polls|
    && Polling(steps[..|steps| - 1], app, polls)
    && steps[|steps| - 1] == Event(WaitForStop(app, timeout), o)
  }

  ghost predicate Polling(steps: seq<Event>, app: string, polls: seq<Poll>) {
    && (|steps| == 2 * |polls| || |steps| == 2 * |polls| - 1)
    && (forall i :: 0 <= i < |polls| ==> IsPoll(steps[2 * i], app, polls[i]))
    && (forall i :: 0 <= 2 * i + 1 < |steps| ==> steps[2 * i + 1] == Event(Sleep(0.1), Ok))
    && OnlyPolls(steps)
  }

  /** The i-th poll is at least i tenths of a second after the start. */
  ghost predicate Spaced(polls: seq<Poll>, start: real) {
    forall i :: 0 <= i < |polls| ==> polls[i].at >= start + 0.1 * i as real
  }

  ghost predicate NotYet(polls: seq<Poll>) {
    forall i :: 0 <= i < |polls| ==> polls[i].report.Some? && !polls[i].Stopped()
  }

  ghost predicate OnlyPolls(steps: seq<Event>) {
    forall i :: 0 <= i < |steps| ==> steps[i].command.ReadState? || steps[i].command.Sleep?
  }

  /** Step i deletes a container right after a wait that saw it stopped, or after a signal
      that found its process ended. */
  ghost predicate DeletesEnded(steps: seq<Event>, app: string, i: nat)
    requires i < |steps|
  {
    && steps[i].command == DeleteContainer(app)
    && i > 0
    && match steps[i - 1].command
       case WaitForStop(id, _) => id == app && steps[i - 1].outcome.Ok?
       case SendSignal(id, _) =>
         id == app && (steps[i - 1].outcome == Raise(ContainerKillError(ProcessFinished))
                       || steps[i - 1].outcome == Raise(ContainerKillError(NotRunning)))
       case _ => false
  }

  /** The steps of `kill_app`: one signal, SIGKILL, at the start; a wait that saw the
      application stopped is followed by the deletion, and only that or a signal that found
      the process ended is; the last step decides. */
  ghost predicate Killed(steps: seq<Event>, app: string, timeout: real, o: Outcome) {
    && steps != [] && steps[0].command == SendSignal(app, SIGKILL)
    && (forall i :: 0 < i < |steps| ==> !steps[i].command.SendSignal?)
    && (forall i :: 0 <= i < |steps| - 1 && steps[i].command.WaitForStop? ==>
          steps[i].outcome.Ok? && steps[i + 1].command.DeleteContainer?)
    && (forall i :: 0 <= i < |steps| && steps[i].command.WaitForStop? ==> steps[i].command == WaitForStop(app, timeout))
    && (forall i :: 0 <= i < |steps| && steps[i].command.DeleteContainer? ==> DeletesEnded(steps, app, i))
    && steps[|steps| - 1].outcome == o
    && (o.Ok? ==> steps[|steps| - 1].command == DeleteContainer(app))
    && (o == Raise(AppStopTimeoutError) ==> steps[|steps| - 1].command == WaitForStop(app, timeout))
  }

  /** The steps of `terminate_app`: SIGTERM at the start, and SIGKILL exactly after a time-out
      of the wait that follows; again only an ended process is deleted, and the last step
      decides, except that SIGTERM to a missing container is no failure. */
  ghost predicate Terminated(steps: seq<Event>, app: string, sigterm: real, sigkill: real, o: Outcome) {
    && steps != [] && steps[0].command == SendSignal(app, SIGTERM)
    && (forall i :: 0 < i < |steps| && steps[i].command.SendSignal? ==>
          && steps[i].command == SendSignal(app, SIGKILL)
          && steps[i - 1] == Event(WaitForStop(app, sigterm), Raise(AppStopTimeoutError)))
    && (forall i :: 0 <= i < |steps| - 1 && steps[i].command.WaitForStop? ==>
          if steps[i].outcome.Ok? then steps[i + 1].command.DeleteContainer?
          else steps[i].outcome == Raise(AppStopTimeoutError) && steps[i + 1].command.SendSignal?)
    && (forall i :: 0 <= i < |steps| && steps[i].command.DeleteContainer? ==> DeletesEnded(steps, app, i))
    && (o.Raised? ==> steps[|steps| - 1].outcome == o)
    && (o == Raise(AppStopTimeoutError) ==> steps[|steps| - 1].command == WaitForStop(app, sigkill))
    && (o.Ok? ==>
          || steps[|steps| - 1] == Event(DeleteContainer(app), Ok)
          || steps == [Event(SendSignal(app, SIGTERM), Raise(ContainerKillError(NoSuchContainer)))])
  }

  /** `terminate_app` returns normally exactly when the container is gone afterwards. */
  method TerminateApp(d: Device, app: string, sigtermTimeout: real, sigkillTimeout: real)
    returns (o: Outcome, ghost steps: seq<Event>)
    modifies d`containers, d`clock, d`trouble, d`trace
    ensures OthersKept(old(d.containers), d.containers, {app})
    ensures d.trouble == old(d.trouble) + (if o.Raised? then 1 else 0)
    ensures o.Ok? <==> app !in d.containers
    ensures o.Raised? ==> app in old(d.containers) && d.containers[app].bundle == old(d.containers[app].bundle)
    ensures o.Raised? ==> o.cause == None && (StopFailure(o.error) || o.error == ContainerStateError)
    ensures o.Raised? ==> !MentionsMissingContainer(o.error)
    ensures d.trace == old(d.trace) + steps && Terminated(steps, app, sigtermTimeout, sigkillTimeout, o)
  {
    hide Waited, Terminated, Killed;
    o := Kill(d, app, SIGTERM);
    ghost var term := Event(SendSignal(app, SIGTERM), o);
    steps := [term];
    if o.Raised? {
      if o.error.reason == ProcessFinished || o.error.reason == NotRunning {
        o := Delete(d, app);
        steps := [term, Event(DeleteContainer(app), o)];
        TerminatedEnded(term, app, sigtermTimeout, sigkillTimeout, o);
        return;
      } else if o.error.reason == NoSuchContainer {
        TerminatedMissing(app, sigtermTimeout, sigkillTimeout);
        o := Ok;
        return;
      } else {
        TerminatedFailed(term, app, sigtermTimeout, sigkillTimeout);
        return;
      }
    }
    ghost var later;
    o, later := AwaitTermination(d, app, sigtermTimeout, sigkillTimeout);
    steps := [term] + later;
  }

  /** What follows a delivered SIGTERM. */
  method AwaitTermination(d: Device, app: string, sigtermTimeout: real, sigkillTimeout: real)
    returns (o: Outcome, ghost later: seq<Event>)
    requires app in d.containers
    modifies d`containers, d`clock, d`trouble, d`trace
    ensures OthersKept(old(d.containers), d.containers, {app})
    ensures d.trouble == old(d.trouble) + (if o.Raised? then 1 else 0)
    ensures o.Ok? <==> app !in d.containers
    ensures o.Raised? ==> d.containers[app].bundle == old(d.containers[app].bundle)
    ensures o.Raised? ==> o.cause == None && (StopFailure(o.error) || o.error == ContainerStateError)
    ensures o.Raised? ==> !MentionsMissingContainer(o.error)
    ensures d.trace == old(d.trace) + later
    ensures Terminated([Event(SendSignal(app, SIGTERM), Ok)] + later, app, sigtermTimeout, sigkillTimeout, o)
  {
    hide Waited, Terminated, Killed;
    ghost var term := Event(SendSignal(app, SIGTERM), Ok);
    ghost var polls, waiting, killing;
    o, polls, waiting := WaitForAppStop(d, app, sigtermTimeout);
    if o == Raise(AppStopTimeoutError) {
      o, killing := KillApp(d, app, sigkillTimeout);
      later := waiting + killing;
      assert [term] + later == [term] + waiting + killing;
      TerminatedByKill(term, waiting, killing, app, sigtermTimeout, sigkillTimeout, polls, o);
      return;
    }
    if o.Raised? {
      later := waiting;
      TerminatedByWait(term, waiting, app, sigtermTimeout, sigkillTimeout, polls, o);
      return;
    }
    o := Delete(d, app);
    later := waiting + [Event(DeleteContainer(app), o)];
    assert [term] + later == [term] + waiting + [Event(DeleteContainer(app), o)];
    TerminatedStopped(term, waiting, app, sigtermTimeout, sigkillTimeout, polls, o);
  }

  lemma TerminatedEnded(term: Event, app: string, sigterm: real, sigkill: real, o: Outcome)
    requires term.command == SendSignal(app, SIGTERM) && o != Raise(AppStopTimeoutError)
    requires term.outcome in {Raise(ContainerKillError(ProcessFinished)), Raise(ContainerKillError(NotRunning))}
    ensures Terminated([term, Event(DeleteContainer(app), o)], app, sigterm, sigkill, o)
  {
  }

  lemma TerminatedMissing(app: string, sigterm: real, sigkill: real)
    ensures Terminated([Event(SendSignal(app, SIGTERM), Raise(ContainerKillError(NoSuchContainer)))],
                       app, sigterm, sigkill, Ok)
  {
  }

  lemma TerminatedFailed(term: Event, app: string, sigterm: real, sigkill: real)
    requires term.command == SendSignal(app, SIGTERM) && term.outcome.Raised?
    requires term.outcome != Raise(AppStopTimeoutError)
    ensures Terminated([term], app, sigterm, sigkill, term.outcome)
  {
  }

  lemma TerminatedByWait(term: Event, waiting: seq<Event>, app: string, sigterm: real, sigkill: real,
                         polls: seq<Poll>, o: Outcome)
    requires term == Event(SendSignal(app, SIGTERM), Ok)
    requires o.Raised? && o != Raise(AppStopTimeoutError) && Waited(waiting, app, sigterm, polls, o)
    ensures Terminated([term] + waiting, app, sigterm, sigkill, o)
  {
    WaitShape(waiting, app, sigterm, polls, o);
    hide Waited;
  }

  lemma TerminatedStopped(term: Event, waiting: seq<Event>, app: string, sigterm: real, sigkill: real,
                          polls: seq<Poll>, o: Outcome)
    requires term == Event(SendSignal(app, SIGTERM), Ok)
    requires o != Raise(AppStopTimeoutError) && Waited(waiting, app, sigterm, polls, Ok)
    ensures Terminated([term] + waiting + [Event(DeleteContainer(app), o)], app, sigterm, sigkill, o)
  {
    WaitShape(waiting, app, sigterm, polls, Ok);
    hide Waited;
  }

  lemma TerminatedByKill(term: Event, waiting: seq<Event>, killing: seq<Event>, app: string, sigterm: real,
                         sigkill: real, polls: seq<Poll>, o: Outcome)
    requires term == Event(SendSignal(app, SIGTERM), Ok)
    requires Waited(waiting, app, sigterm, polls, Raise(AppStopTimeoutError)) && Killed(killing, app, sigkill, o)
    ensures Terminated([term] + waiting + killing, app, sigterm, sigkill, o)
  {
    hide Waited, Terminated, Killed, DeletesEnded;
    WaitShape(waiting, app, sigterm, polls, Raise(AppStopTimeoutError));
    Escalated([term] + waiting, killing, app, sigterm, sigkill, o);
  }

  lemma Escalated(before: seq<Event>, killing: seq<Event>, app: string, sigterm: real, sigkill: real, o: Outcome)
    requires |before| > 1 && before[0].command == SendSignal(app, SIGTERM) && Killed(killing, app, sigkill, o)
    requires before[|before| - 1] == Event(WaitForStop(app, sigterm), Raise(AppStopTimeoutError))
    requires forall i :: 0 < i < |before| - 1 ==> before[i].command.ReadState? || before[i].command.Sleep?
    ensures Terminated(before + killing, app, sigterm, sigkill, o)
  {
    hide DeletesEnded;
    var steps, n := before + killing, |before|;
    assert forall i :: n <= i < |steps| ==> steps[i] == killing[i - n];
    forall i | 0 <= i < |steps| && steps[i].command.DeleteContainer?
      ensures DeletesEnded(steps, app, i)
    {
      DeletesLater(before, killing, app, i - n);
    }
    forall i | 0 < i < |steps| && steps[i].command.SendSignal?
      ensures i == n
    {
      assert i >= n && steps[i] == killing[i - n];
    }
    assert steps[n] == killing[0];
    forall i | n <= i < |steps| - 1 && steps[i].command.WaitForStop?
      ensures steps[i].outcome.Ok? && steps[i + 1].command.DeleteContainer?
    {
      assert steps[i] == killing[i - n] && steps[i + 1] == killing[i - n + 1];
    }
  }

  lemma DeletesLater(before: seq<Event>, steps: seq<Event>, app: string, i: nat)
    requires i < |steps| && DeletesEnded(steps, app, i)
    ensures DeletesEnded(before + steps, app, |before| + i)
  {
    assert (before + steps)[|before| + i] == steps[i] && (before + steps)[|before| + i - 1] == steps[i - 1];
  }

  /** Only its last step is not a poll or a pause. */
  lemma WaitShape(waiting: seq<Event>, app: string, timeout: real, polls: seq<Poll>, o: Outcome)
    requires Waited(waiting, app, timeout, polls, o)
    ensures |waiting| > 0 && waiting[|waiting| - 1] == Event(WaitForStop(app, timeout), o)
    ensures forall i :: 0 <= i < |waiting| - 1 ==> waiting[i].command.ReadState? || waiting[i].command.Sleep?
  {
    hide IsPoll;
    forall i | 0 <= i < |waiting| - 1
      ensures waiting[i].command.ReadState? || waiting[i].command.Sleep?
    {
      assert waiting[i] == waiting[..|waiting| - 1][i];
    }
  }

  /** `kill_app`: unlike `terminate_app` it reports a container that does not exist. */
  method KillApp(d: Device, app: string, timeout: real) returns (o: Outcome, ghost steps: seq<Event>)
    modifies d`containers, d`clock, d`trouble, d`trace
    ensures OthersKept(old(d.containers), d.containers, {app})
    ensures d.trouble == old(d.trouble) + (if o.Raised? && app in old(d.containers) then 1 else 0)
    ensures o.Ok? ==> app in old(d.containers) && app !in d.containers
    ensures app !in old(d.containers) ==> o == Raise(ContainerKillError(NoSuchContainer))
    ensures o.Raised? && app in old(d.containers) ==>
              app in d.containers && d.containers[app].bundle == old(d.containers[app].bundle)
              && !MentionsMissingContainer(o.error)
    ensures o.Raised? ==> o.cause == None && (StopFailure(o.error) || o.error == ContainerStateError)
    ensures d.trace == old(d.trace) + steps && Killed(steps, app, timeout, o)
  {
    hide Waited, Killed;
    o := Kill(d, app, SIGKILL);
    ghost var kill := Event(SendSignal(app, SIGKILL), o);
    steps := [kill];
    if o.Raised? {
      if o.error.reason == ProcessFinished || o.error.reason == NotRunning {
        o := Delete(d, app);
        steps := [kill, Event(DeleteContainer(app), o)];
        KilledEnded(kill, app, timeout, o);
        return;
      } else {
        KilledFailed(kill, app, timeout);
        return;
      }
    }
    ghost var later;
    o, later := AwaitKill(d, app, timeout);
    steps := [kill] + later;
  }

  /** What follows a delivered SIGKILL. */
  method AwaitKill(d: Device, app: string, timeout: real) returns (o: Outcome, ghost later: seq<Event>)
    requires app in d.containers
    modifies d`containers, d`clock, d`trouble, d`trace
    ensures OthersKept(old(d.containers), d.containers, {app})
    ensures d.trouble == old(d.trouble) + (if o.Raised? then 1 else 0)
    ensures o.Ok? <==> app !in d.containers
    ensures o.Raised? ==> d.containers[app].bundle == old(d.containers[app].bundle)
    ensures o.Raised? ==> o.cause == None && (StopFailure(o.error) || o.error == ContainerStateError)
    ensures o.Raised? ==> !MentionsMissingContainer(o.error)
    ensures d.trace == old(d.trace) + later && Killed([Event(SendSignal(app, SIGKILL), Ok)] + later, app, timeout, o)
  {
    hide Waited, Killed;
    ghost var kill := Event(SendSignal(app, SIGKILL), Ok);
    ghost var polls, waiting;
    o, polls, waiting := WaitForAppStop(d, app, timeout);
    later := waiting;
    if o.Raised? {
      if o == Raise(AppStopTimeoutError) {
        d.Trouble();
      }
      KilledByWait(kill, waiting, app, timeout, polls, o);
      return;
    }
    o := Delete(d, app);
    later := waiting + [Event(DeleteContainer(app), o)];
    assert [kill] + later == [kill] + waiting + [Event(DeleteContainer(app), o)];
    KilledStopped(kill, waiting, app, timeout, polls, o);
  }

  lemma KilledEnded(kill: Event, app: string, timeout: real, o: Outcome)
    requires kill.command == SendSignal(app, SIGKILL) && o != Raise(AppStopTimeoutError)
    requires kill.outcome in {Raise(ContainerKillError(ProcessFinished)), Raise(ContainerKillError(NotRunning))}
    ensures Killed([kill, Event(DeleteContainer(app), o)], app, timeout, o)
  {
  }

  lemma KilledFailed(kill: Event, app: string, timeout: real)
    requires kill.command == SendSignal(app, SIGKILL) && kill.outcome.Raised?
    requires kill.outcome != Raise(AppStopTimeoutError)
    ensures Killed([kill], app, timeout, kill.outcome)
  {
  }

  lemma KilledByWait(kill: Event, waiting: seq<Event>, app: string, timeout: real, polls: seq<Poll>, o: Outcome)
    requires kill == Event(SendSignal(app, SIGKILL), Ok) && o.Raised? && Waited(waiting, app, timeout, polls, o)
    ensures Killed([kill] + waiting, app, timeout, o)
  {
    WaitShape(waiting, app, timeout, polls, o);
    hide Waited;
  }

  lemma KilledStopped(kill: Event, waiting: seq<Event>, app: string, timeout: real, polls: seq<Poll>, o: Outcome)
    requires kill == Event(SendSignal(app, SIGKILL), Ok) && o != Raise(AppStopTimeoutError)
    requires Waited(waiting, app, timeout, polls, Ok)
    ensures Killed([kill] + waiting + [Event(DeleteContainer(app), o)], app, timeout, o)
  {
    WaitShape(waiting, app, timeout, polls, Ok);
    hide Waited;
  }

  /** `_wait_for_app_stop`: the number of polls is bounded, and a time-out is raised only
      after a poll begun at or past the deadline that did not find the app stopped. */
  method WaitForAppStop(d: Device, app: string, timeout: real)
    returns (o: Outcome, ghost polls: seq<Poll>, ghost steps: seq<Event>)
    modifies d`containers, d`clock, d`trouble, d`trace
    ensures Aged(old(d.containers), d.containers, app)
    ensures d.trouble == old(d.trouble) + (if o == Raise(ContainerStateError) then 1 else 0)
    ensures d.trace == old(d.trace) + steps && Waited(steps, app, timeout, polls, o)
    ensures 1 <= |polls| <= PollBound(timeout)
    ensures Spaced(polls, old(d.clock))
    ensures forall i :: 0 <= i < |polls| - 1 ==> polls[i].report.Some? && !polls[i].Stopped()
    ensures o.Ok? <==> polls[|polls| - 1].Stopped()
    ensures o.Ok? ==> app in d.containers && d.containers[app].phase == Phase.Stopped
    ensures o.Raised? ==> o == Raise(AppStopTimeoutError) || o == Raise(ContainerStateError)
    ensures o == Raise(ContainerStateError) <==> polls[|polls| - 1].report == None
    ensures o == Raise(AppStopTimeoutError) ==> polls[|polls| - 1].at >= old(d.clock) + timeout
  {
    hide Polling, Waited, Spaced, NotYet, PollBound, IsPoll, Aged;
    AgedAtFirst(d.containers, app);
    polls, steps := [], [];
    ghost var start := d.clock;
    NoPolls(app, start);
    d.Elapse(0.0);
    var endtime := d.clock + timeout;
    d.Elapse(0.0);
    var report;
    while endtime > d.clock
      invariant Aged(old(d.containers), d.containers, app) && d.trouble == old(d.trouble)
      invariant d.trace == old(d.trace) + steps && Polling(steps, app, polls) && |steps| == 2 * |polls|
      invariant Spaced(polls, old(d.clock)) && NotYet(polls)
      invariant endtime >= old(d.clock) + timeout
      invariant d.clock >= endtime - timeout + 0.1 * |polls| as real
      invariant |polls| > 0 ==> 0.1 * (|polls| - 1) as real < timeout
      decreases 10.0 * (endtime - d.clock)
    {
      ghost var p, e;
      ghost var c := d.containers;
      o, report, p, e := PollState(d, app);
      AgedSince(old(d.containers), c, d.containers, app);
      PollsInBound(|polls|, timeout);
      PollAdded(steps, app, polls, e, p, start);
      polls, steps := polls + [p], steps + [e];
      if o.Raised? || report == InPhase(Phase.Stopped) {
        d.Record(WaitForStop(app, timeout), o);
        WaitEnds(steps, app, timeout, polls, o);
        steps := steps + [Event(WaitForStop(app, timeout), o)];
        return;
      }
      d.Pause(WAIT_SLEEP_INTERVAL);
      SleepAdded(steps, app, polls);
      steps := steps + [Event(Sleep(WAIT_SLEEP_INTERVAL), Ok)];
      d.Elapse(0.0);
    }
    ghost var p, e;
    ghost var c := d.containers;
    o, report, p, e := PollState(d, app);
    AgedSince(old(d.containers), c, d.containers, app);
    PollsInBound(|polls|, timeout);
    PollAdded(steps, app, polls, e, p, start);
    polls, steps := polls + [p], steps + [e];
    if o.Ok? && report != InPhase(Phase.Stopped) {
      o := Raise(AppStopTimeoutError);
    }
    d.Record(WaitForStop(app, timeout), o);
    WaitEnds(steps, app, timeout, polls, o);
    steps := steps + [Event(WaitForStop(app, timeout), o)];
  }

  /** One poll of the loop. */
  method PollState(d: Device, app: string) returns (o: Outcome, report: Report, ghost p: Poll, ghost e: Event)
    modifies d`containers, d`trouble, d`trace
    ensures Aged(old(d.containers), d.containers, app)
    ensures d.trouble == old(d.trouble) + (if o.Raised? then 1 else 0)
    ensures o.Raised? ==> o == Raise(ContainerStateError)
    ensures d.trace == old(d.trace) + [e] && IsPoll(e, app, p) && e.outcome == o
    ensures p.at == d.clock && p.report == if o.Ok? then Some(report) else None
    ensures p.Stopped() ==> app in d.containers && d.containers[app].phase == Phase.Stopped
  {
    o, report := GetState(d, app);
    p, e := PollAt(d.clock, o, report), Event(ReadState(app, d.clock, report), o);
  }

  lemma AgedAtFirst(c: Containers, app: string)
    ensures Aged(c, c, app)
  {
  }

  lemma AgedSince(c0: Containers, c1: Containers, c: Containers, app: string)
    requires Aged(c0, c1, app) && Aged(c1, c, app)
    ensures Aged(c0, c, app)
  {
  }

  /** After n pauses that began before the deadline, one more poll is within the bound. */
  lemma PollsInBound(n: nat, timeout: real)
    requires n > 0 ==> 0.1 * (n - 1) as real < timeout
    ensures n + 1 <= PollBound(timeout)
  {
  }

  lemma NoPolls(app: string, start: real)
    ensures Polling([], app, []) && Spaced([], start) && NotYet([])
  {
  }

  lemma PollAdded(steps: seq<Event>, app: string, polls: seq<Poll>, e: Event, p: Poll, start: real)
    requires Polling(steps, app, polls) && |steps| == 2 * |polls| && IsPoll(e, app, p)
    requires Spaced(polls, start) && p.at >= start + 0.1 * |polls| as real && NotYet(polls)
    ensures Spaced(polls + [p], start) && (NotYet(polls + [p]) <==> p.report.Some? && !p.Stopped())
    ensures forall i :: 0 <= i < |polls| ==> (polls + [p])[i].report.Some? && !(polls + [p])[i].Stopped()
    ensures Polling(steps + [e], app, polls + [p]) && |steps + [e]| == 2 * |polls + [p]| - 1
  {
    assert e.command.ReadState?;
    hide IsPoll;
    assert (polls + [p])[|polls|] == p;
    assert (steps + [e])[2 * |polls|] == e && (polls + [p])[|polls|] == p;
    assert forall i :: 0 <= i < |polls| ==> (steps + [e])[2 * i] == steps[2 * i] && (polls + [p])[i] == polls[i];
  }

  lemma SleepAdded(steps: seq<Event>, app: string, polls: seq<Poll>)
    requires Polling(steps, app, polls) && |steps| == 2 * |polls| - 1
    ensures Polling(steps + [Event(Sleep(0.1), Ok)], app, polls)
  {
    hide IsPoll;
  }

  lemma WaitEnds(steps: seq<Event>, app: string, timeout: real, polls: seq<Poll>, o: Outcome)
    requires Polling(steps, app, polls) && |steps| == 2 * |polls| - 1
    ensures Waited(steps + [Event(WaitForStop(app, timeout), o)], app, timeout, polls, o)
  {
    hide Polling;
    assert (steps + [Event(WaitForStop(app, timeout), o)])[..|steps|] == steps;
  }
}
