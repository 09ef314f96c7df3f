/** The device as the managers see it, and the `runc` commands that act on it.

    A failure of an external command, and a process that ends by itself, are arbitrary
    choices.  A process that ends by itself is noticed at the next command that names its
    container, so `Running` means "started and not yet seen to have ended". */
module ContainerRuntime {
  import opened Wrappers
  import opened Exceptions
  import opened AppTree
  import NaturalSort

  datatype Phase = Created | Running | Stopped

  datatype Container = Container(phase: Phase, bundle: Bundle)

  /** What `runc state` reports. */
  datatype Report = InPhase(phase: Phase) | DoesNotExist | Unrecognized

  datatype Signal = SIGTERM | SIGKILL

  type Containers = map<string, Container>

  /** One step of the managers that the outside notices. */
  datatype Command =
    | ReadState(id: string, at: real, report: Report)
    | CreateContainer(id: string, bundle: Bundle)
    | StartContainer(id: string)
    | SendSignal(id: string, signal: Signal)
    | DeleteContainer(id: string)
    | Sleep(seconds: real)
    | WaitForStop(id: string, timeout: real)
    | ReadInfo(path: string)
    | InstallPackage(path: string, bundle: Bundle)
    | RemoveBundle(bundle: Bundle)

  /** A step and how it ended. */
  datatype Event = Event(command: Command, outcome: Outcome)

  class Device {
    var tree: Tree
    var containers: Containers
    var clock: real
    /** Every state of the tree so far: the states a crash can leave behind. */
    ghost var history: seq<Tree>
    /** How many external commands have failed and how many processes survived SIGKILL. */
    ghost var trouble: nat
    /** Every step so far. */
    ghost var trace: seq<Event>

    /** The record of the tree is up to date. */
    ghost predicate Valid()
      reads `tree, `history
    {
      history != [] && history[|history| - 1] == tree
    }

    constructor (tree: Tree, containers: Containers, clock: real)
      ensures this.tree == tree && this.containers == containers && this.clock == clock
      ensures history == [tree] && trouble == 0 && trace == [] && Valid()
    {
      this.tree, this.containers, this.clock := tree, containers, clock;
      history, trouble, trace := [tree], 0, [];
    }

    method SetTree(t: Tree)
      modifies `tree, `history
      ensures tree == t && history == old(history) + [t] && Valid()
    {
      tree := t;
      history := history + [t];
    }

    ghost method Trouble()
      modifies `trouble
      ensures trouble == old(trouble) + 1
    {
      trouble := trouble + 1;
    }

    ghost method Record(command: Command, outcome: Outcome)
      modifies `trace
      ensures trace == old(trace) + [Event(command, outcome)]
    {
      trace := trace + [Event(command, outcome)];
    }

    method Pause(seconds: real)
      modifies `clock, `trace
      ensures clock >= old(clock) + seconds
      ensures trace == old(trace) + [Event(Sleep(seconds), Ok)]
    {
      Elapse(seconds);
      Record(Sleep(seconds), Ok);
    }

    /** Time passes. */
    method Elapse(atLeast: real)
      modifies `clock
      ensures clock >= old(clock) + atLeast
    {
      var extra: real :| extra >= 0.0;
      clock := clock + atLeast + extra;
    }

    /** The process of a container may have ended. */
    method MayEnd(id: string)
      modifies `containers
      ensures Aged(old(containers), containers, id)
    {
      if * {
        if id in containers {
          containers := containers[id := containers[id].(phase := Stopped)];
        }
      }
    }
  }

  /** Only the process of container `id` may have ended meanwhile. */
  ghost predicate Aged(c: Containers, c': Containers, id: string) {
    c' == c || (id in c && c' == c[id := c[id].(phase := Stopped)])
  }

  /** Nothing happened to the containers of other applications. */
  ghost predicate OthersKept(c: Containers, c': Containers, ids: set<string>) {
    forall a :: a !in ids ==> (a in c' <==> a in c) && (a in c ==> c'[a] == c[a])
  }

  method GetState(d: Device, id: string) returns (o: Outcome, report: Report)
    modifies d`containers, d`trouble, d`trace
    ensures d.trouble == old(d.trouble) + (if o.Raised? then 1 else 0)
    ensures d.trace == old(d.trace) + [Event(ReadState(id, d.clock, report), o)]
    ensures Aged(old(d.containers), d.containers, id)
    ensures o.Raised? ==> o == Raise(ContainerStateError)
    ensures o.Ok? ==> (report == DoesNotExist <==> id !in d.containers)
    ensures o.Ok? && report.InPhase? ==> report.phase == d.containers[id].phase
  {
    d.MayEnd(id);
    report := Unrecognized;
    o := Ok;
    if * {
      d.Trouble();
      o := Raise(ContainerStateError);
    } else if id !in d.containers {
      report := DoesNotExist;
    } else if * {
      report := InPhase(d.containers[id].phase);
    }
    d.Record(ReadState(id, d.clock, report), o);
  }

  /** `runc create` after the check that no such container exists. */
  method Create(d: Device, id: string, bundle: Bundle) returns (o: Outcome)
    modifies d`containers, d`trouble, d`trace
    ensures d.trouble == old(d.trouble) || (o.Raised? && d.trouble == old(d.trouble) + 1)
    ensures o.Raised? && d.trouble == old(d.trouble) ==>
              if id in old(d.containers) then o == Raise(ContainerAlreadyExistError) else bundle !in d.tree.bundles
    ensures |d.trace| == |old(d.trace)| + 2 && old(d.trace) <= d.trace
    ensures d.trace[|old(d.trace)|].command.ReadState? && d.trace[|old(d.trace)|].command.id == id
    ensures d.trace[|old(d.trace)| + 1] == Event(CreateContainer(id, bundle), o)
    ensures o.Ok? ==> id !in old(d.containers) && bundle in d.tree.bundles
                      && d.containers == old(d.containers)[id := Container(Created, bundle)]
    ensures o.Raised? ==> Aged(old(d.containers), d.containers, id) && o.cause == None
    ensures o.Raised? ==> o.error in {ContainerStateError, ContainerAlreadyExistError, ContainerCreationError}
    ensures var state := d.trace[|old(d.trace)|];
            if state.outcome.Raised? then o == state.outcome
            else if state.command.report != DoesNotExist then o == Raise(ContainerAlreadyExistError)
            else o == Ok || o == Raise(ContainerCreationError)
    ensures o.Raised? && o.error == ContainerAlreadyExistError ==> id in old(d.containers)
    ensures o.Raised? && o.error == ContainerCreationError ==> id !in old(d.containers)
  {
    var report;
    o, report := GetState(d, id);
    if o.Ok? {
      if report != DoesNotExist {
        o := Raise(ContainerAlreadyExistError);
      } else if bundle !in d.tree.bundles {
        o := Raise(ContainerCreationError);
      } else if * {
        d.Trouble();
        o := Raise(ContainerCreationError);
      } else {
        d.containers := d.containers[id := Container(Created, bundle)];
      }
    }
    d.Record(CreateContainer(id, bundle), o);
  }

  /** `runc start`: runs the process of a created container. */
  method Start(d: Device, id: string) returns (o: Outcome)
    modifies d`containers, d`trouble, d`trace
    ensures d.trouble == old(d.trouble) + (if o.Raised? then 1 else 0)
    ensures d.trace == old(d.trace) + [Event(StartContainer(id), o)]
    ensures o.Ok? ==> id in old(d.containers) && old(d.containers[id]).phase == Created
                      && d.containers == old(d.containers)[id := old(d.containers[id]).(phase := Running)]
    ensures o.Raised? ==> o == Raise(ContainerStartError) && Aged(old(d.containers), d.containers, id)
  {
    o := Ok;
    if id in d.containers && d.containers[id].phase == Created {
      if * {
        d.containers := d.containers[id := d.containers[id].(phase := Running)];
        d.Record(StartContainer(id), o);
        return;
      }
    }
    d.MayEnd(id);
    d.Trouble();
    o := Raise(ContainerStartError);
    d.Record(StartContainer(id), o);
  }

  /** `runc kill`: delivers the signal; whether and when the process ends is open. */
  method Kill(d: Device, id: string, signal: Signal) returns (o: Outcome)
    modifies d`containers, d`trouble, d`trace
    ensures d.trouble ==
            old(d.trouble) + (if o == Raise(ContainerKillError(OtherReason)) then 1 else 0)
    ensures d.trace == old(d.trace) + [Event(SendSignal(id, signal), o)]
    ensures Aged(old(d.containers), d.containers, id)
    ensures o.Ok? ==> id in old(d.containers) && old(d.containers[id]).phase != Stopped
    ensures o.Raised? ==> o.error.ContainerKillError? && o.cause == None
    ensures o.Raised? ==> (o.error.reason == NoSuchContainer <==> id !in d.containers)
    ensures o.Raised? && o.error.reason in {ProcessFinished, NotRunning} ==> d.containers[id].phase == Stopped
  {
    if id !in d.containers {
      o := Raise(ContainerKillError(NoSuchContainer));
    } else {
      d.MayEnd(id);
      if d.containers[id].phase == Stopped {
        var reason :| reason in {ProcessFinished, NotRunning};
        o := Raise(ContainerKillError(reason));
      } else if * {
        d.Trouble();
        o := Raise(ContainerKillError(OtherReason));
      } else {
        d.MayEnd(id);
        o := Ok;
      }
    }
    d.Record(SendSignal(id, signal), o);
  }

  /** `runc delete`: refused while the process runs. */
  method Delete(d: Device, id: string) returns (o: Outcome)
    modifies d`containers, d`trouble, d`trace
    ensures d.trouble == old(d.trouble) + (if o.Raised? && id in d.containers then 1 else 0)
    ensures d.trace == old(d.trace) + [Event(DeleteContainer(id), o)]
    ensures o.Ok? ==> id in old(d.containers) && d.containers == old(d.containers) - {id}
    ensures o.Raised? ==> Aged(old(d.containers), d.containers, id) && o.error.ContainerDeleteError? && o.cause == None
    ensures o.Raised? ==> o.error.reason == if id in d.containers then OtherReason else NoSuchContainer
  {
    o := Ok;
    if id !in d.containers {
      o := Raise(ContainerDeleteError(NoSuchContainer));
      d.Record(DeleteContainer(id), o);
      return;
    }
    d.MayEnd(id);
    if d.containers[id].phase != Running {
      if * {
        d.containers := d.containers - {id};
        d.Record(DeleteContainer(id), o);
        return;
      }
    }
    d.Trouble();
    o := Raise(ContainerDeleteError(OtherReason));
    d.Record(DeleteContainer(id), o);
  }

  /** `get_oci_bundle_paths`: the bundles below the directory of an application, in
      whatever order the directory walk meets them. */
  method GetOciBundlePaths(d: Device, app: string) returns (paths: seq<string>)
    ensures ListsBundles(app, d.tree.bundles, paths)
  {
    paths := [];
    var todo := set b | b in d.tree.bundles && b.app == app;
    while todo != {}
      invariant forall b :: b in todo ==> b in d.tree.bundles && b.app == app
      invariant NaturalSort.NoDuplicates(paths)
      invariant forall p :: p in paths ==>
                  BundleAt(app, p) in d.tree.bundles - todo && p == PathOf(BundleAt(app, p))
      invariant forall b :: b in d.tree.bundles - todo && b.app == app ==> PathOf(b) in paths
      decreases todo
    {
      var b :| b in todo;
      PathNamesBundle(b);
      paths := paths + [PathOf(b)];
      todo := todo - {b};
    }
  }
}
