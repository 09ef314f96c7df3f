/** The transactional application update: install all packages, stop the old versions,
    start the new ones, remove the old bundles; roll back when something fails. */
module AppUpdate {
  import opened Wrappers
  import opened Exceptions
  import opened AppTree
  import opened ContainerRuntime
  import opened Lifecycle
  import opened AppManager
  import opened CrashRecovery
  import opened UpdateStates
  import NaturalSort

  /** `_get_app_bundle_paths`; None stands for the missing return value. */
  method GetAppBundlePaths(d: Device, app: string) returns (r: Option<(Option<nat>, nat)>)
    requires d.tree.Valid()
    ensures r == None <==> app in d.tree.dirs && d.tree.Versions(app) == {}
    ensures r.Some? ==> AllocatedIn(d.tree, AppRecord(app, r.value.0, r.value.1))
  {
    if app !in d.tree.dirs {
      return Some((None, 0));
    }
    var paths := GetOciBundlePaths(d, app);
    if paths == [] {
      assert forall v :: v in d.tree.Versions(app) ==> PathOf(Bundle(app, v)) in paths;
      return None;
    }
    assert BundleAt(app, paths[0]).version in d.tree.Versions(app);
    forall p | p in paths ensures NaturalSort.IsVersionPath(ParentDir(app), p) {
      PathNamesBundle(BundleAt(app, p));
    }
    var current, next := NaturalSort.CurrentAndNextPath(ParentDir(app), paths);
    var cur, new_ := NaturalSort.VersionOf(current), NaturalSort.VersionOf(next);
    AllocationIsMinAndNext(d.tree, app, paths, cur, new_);
    return Some((Some(cur), new_));
  }

  lemma AllocationIsMinAndNext(t: Tree, app: string, paths: seq<string>, cur: nat, next: nat)
    requires ListsBundles(app, t.bundles, paths)
    requires exists p :: p in paths && NaturalSort.VersionOf(p) == cur
    requires forall p :: p in paths ==> cur <= NaturalSort.VersionOf(p) < next
    requires exists p :: p in paths && next == NaturalSort.VersionOf(p) + 1
    ensures t.Current(app) == Some(cur) && t.Next(app) == next
  {
    forall b | b in t.bundles && b.app == app ensures cur <= b.version < next {
      PathNamesBundle(b);
    }
    CurrentIs(t, Bundle(app, cur));
    assert Bundle(app, next - 1) in t.bundles;
    assert t.Next(app) > next - 1;
  }

  class AppUpdateManager {
    const device: Device
    var ipks: seq<Ipk>
    var installedApps: seq<AppRecord>

    constructor (device: Device, ipks: seq<Ipk>)
      ensures this.device == device && this.ipks == ipks && installedApps == []
    {
      this.device, this.ipks, installedApps := device, ipks, [];
    }

    /** `_manage_app_installation` with `_install_app`: one package. */
    method ManageAppInstallation(ipk: Ipk) returns (o: Outcome)
      requires device.Valid() && device.tree.Valid()
      modifies this`installedApps, device`tree, device`history, device`trouble, device`trace
      ensures device.Valid() && old(device.history) <= device.history
      ensures InstallFailures(o, device.trouble - old(device.trouble))
      ensures old(device.trace) <= device.trace
      ensures o.Raised? && o.error != TypeError ==> Raises(device.trace, |old(device.trace)|, o)
      ensures o.Raised? && device.trouble == old(device.trouble) ==> Obstacle(old(device.tree), ipk) == Some(o.error)
      ensures o.Ok? ==>
                && |installedApps| == |old(installedApps)| + 1 && old(installedApps) <= installedApps
                && InstalledBy(old(device.tree), ipk.App(), installedApps[|installedApps| - 1], device.tree)
      ensures o.Ok? ==> Obstacle(old(device.tree), ipk) == None
      ensures o.Ok? ==>
                device.tree.bundles == old(device.tree.bundles) + {Bundle(ipk.App(), old(device.tree).Next(ipk.App()))}
      ensures o.Raised? ==> installedApps == old(installedApps) && o.cause == None
      ensures o.Raised? ==> InstallFailure(o.error) || Uncaught(o.error) || o.error == AppUninstallError
      ensures o.Raised? && Uncaught(o.error) ==> Obstacle(old(device.tree), ipk) == Some(o.error)
      ensures o.Raised? && o.error != AppUninstallError ==> device.tree == old(device.tree)
      ensures o.Raised? && o.error == AppUninstallError ==>
                exists r :: InstalledBy(old(device.tree), ipk.App(), r, device.tree)
      ensures forall k :: |old(device.history)| <= k < |device.history| ==>
                || device.history[k] == old(device.tree)
                || exists r :: InstalledBy(old(device.tree), ipk.App(), r, device.history[k])
    {
      hide AppInfo.SplitOn, AppInfo.Lookup, Ipk.Malformed;
      var name;
      o, name := GetAppName(device, ipk);
      if o.Raised? {
        assert device.trace[|device.trace| - 1].outcome == o;
        return;
      }
      var paths := GetAppBundlePaths(device, name);
      if paths == None {
        return Raise(TypeError);
      }
      var r := AppRecord(name, paths.value.0, paths.value.1);
      assert InstalledBy(device.tree, name, r, device.tree.Install(r.NewBundle()));
      RemoveUndoesInstall(device.tree, r.NewBundle());
      assert Obstacle(device.tree, ipk) == None;
      hide AllocatedIn, Tree.Install, Tree.Remove, Tree.Valid, NameError, Obstacle, Ipk.App, Device.Valid;
      :- InstallApp(device, ipk, r.NewBundle());
      installedApps := installedApps + [r];
      return Ok;
    }

    /** `install_apps`: all packages or none, unless LeavesPackages holds or a removal
        fails; AllOrNothing says when. */
    method InstallApps() returns (o: Outcome)
      requires installedApps == [] && device.Valid() && device.tree.Valid()
      modifies this`installedApps, device`tree, device`history, device`trouble, device`trace
      ensures device.Valid() && old(device.history) <= device.history
      ensures InstallFailures(o, device.trouble - old(device.trouble))
      ensures SafeSince(device.history, |old(device.history)|, old(device.tree), IpkNames(ipks), [])
      ensures InstallResult(o, old(device.tree), ipks, installedApps, device.tree)
      ensures o == Raise(AppIdError) || o == Raise(AppInstallError) ==> device.tree == old(device.tree)
      ensures old(device.trace) <= device.trace
      ensures o.Raised? && o.error != TypeError ==> Raises(device.trace, |old(device.trace)|, Raise(o.error))
      ensures o.Raised? && o.cause.Some? ==> Raises(device.trace, |old(device.trace)|, Raise(o.cause.value))
      ensures device.trouble == old(device.trouble) ==> o == InstallVerdict(old(device.tree), ipks)
    {
      hide InstallResult, Installing, InstalledBy, SafeSince, IpkNames, Obstacle, FirstObstacle, Device.Valid;
      hide InstallVerdict, Allocated, AllocatedIn, Ipk.App, Cleared, PartlyRemoved, NotCleanedUp, Tree.Valid, Names;
      ghost var t0, h0 := device.tree, |device.history|;
      InstallBegins(t0, ipks, device.history);
      for i := 0 to |ipks|
        invariant device.Valid() && old(device.history) <= device.history
        invariant device.trouble == old(device.trouble) && old(device.trace) <= device.trace
        invariant SafeSince(device.history, h0, t0, IpkNames(ipks), [])
        invariant Installing(t0, ipks, installedApps, device.tree) && |installedApps| == i
      {
        ghost var recs, t, h, n := installedApps, device.tree, device.history, |device.trace|;
        InstallingIsValid(t0, ipks, recs, t);
        ObstacleIsOriginal(t0, ipks, recs, t, ipks[i]);
        o := ManageAppInstallation(ipks[i]);
        InstallHistory(h, device.history, h0, t0, ipks, recs, t);
        if o.Raised? {
          RaisesBefore(device.trace, device.trace, |old(device.trace)|, n);
          if device.trouble == old(device.trouble) {
            VerdictAt(t0, ipks, recs, t, o.error);
          }
          if InstallFailure(o.error) {
            ghost var h1, before := device.history, device.trace;
            o := RemoveThenRaise(o.error, t0);
            RaisesBefore(before, device.trace, |old(device.trace)|, n);
            SafeAppend(h1, device.history, h0, t0, IpkNames(ipks), []);
          } else if o.error == AppUninstallError {
            ghost var r :| InstalledBy(t, ipks[i].App(), r, device.tree);
            CleanUpFailed(t0, ipks, recs, t, r, device.tree);
            CleanUpEscaped(t0, ipks, recs, t, device.tree);
          } else {
            InstallEscaped(o.error, t0, ipks, recs, t);
          }
          return;
        }
        assert installedApps == recs + [installedApps[i]];
        InstallStep(t0, ipks, recs, installedApps[i], t, device.tree);
      }
      InstallEnds(t0, ipks, installedApps, device.tree);
      return Ok;
    }

    /** The handler of a failed installation: `raise install_error` after all bundles
        installed so far were removed, `raise uninstall_error from install_error` else. */
    method RemoveThenRaise(installError: Error, ghost t0: Tree) returns (o: Outcome)
      requires device.Valid()
      requires Installing(t0, ipks, installedApps, device.tree) && |installedApps| < |ipks|
      requires InstallFailure(installError)
      modifies device`tree, device`history, device`trouble, device`trace
      ensures device.Valid() && old(device.history) <= device.history
      ensures device.trouble == old(device.trouble) + (if o == Raise(installError) then 0 else 1)
      ensures SafeSince(device.history, |old(device.history)|, t0, IpkNames(ipks), [])
      ensures o.Raised? && InstallResult(o, t0, ipks, installedApps, device.tree)
      ensures o == Raise(installError) ==> device.tree == t0
      ensures old(device.trace) <= device.trace
      ensures o in {Raise(installError), Raised(AppUninstallError, Some(installError))}
      ensures o.Raised? && o.cause.Some? ==> Raises(device.trace, |old(device.trace)|, Raise(o.error))
    {
      hide Allocated, Plus, BeforeCommit, CrashState, SafeSince, Stage, IpkNames, Cleared, Device.Valid;
      hide NotCleanedUp, Obstacle, Names;
      NewBundleStages(t0, installedApps);
      StagesBeforeCommit(t0, IpkNames(ipks), installedApps);
      var removal := RemoveAppsBundles(NEW_BUNDLE_PATH, t0, IpkNames(ipks));
      if removal.Raised? {
        return Raised(removal.error, Some(installError));
      }
      return Raise(installError);
    }

    /** `_remove_apps_bundles`: removes the bundles in record order and stops at the first
        failure.  Every path it names exists. */
    method RemoveAppsBundles(attr: PathAttr, ghost t0: Tree, ghost names: seq<string>) returns (o: Outcome)
      requires device.Valid()
      requires Allocated(t0, installedApps) && Names(installedApps) <= names
      requires device.tree == Stage(t0, installedApps, attr, 0)
      requires attr == CURRENT_BUNDLE_PATH ==> Distinct(Names(installedApps))
      modifies device`tree, device`history, device`trouble, device`trace
      ensures device.Valid() && old(device.history) <= device.history
      ensures device.trouble == old(device.trouble) + (if o.Raised? then 1 else 0)
      ensures old(device.trace) <= device.trace
      ensures o.Raised? ==> EndsWith(device.trace, |old(device.trace)|, o)
      ensures SafeSince(device.history, |old(device.history)|, t0, names, installedApps)
      ensures attr == NEW_BUNDLE_PATH ==> SafeSince(device.history, |old(device.history)|, t0, names, [])
      ensures o.Ok? ==> device.tree == Stage(t0, installedApps, attr, |installedApps|)
      ensures o.Raised? ==> o == Raise(AppUninstallError)
      ensures o.Raised? ==>
                exists k :: 0 <= k < |installedApps| && device.tree == Stage(t0, installedApps, attr, k)
      ensures o.Raised? && attr == NEW_BUNDLE_PATH ==> PartlyRemoved(t0, installedApps, device.tree)
    {
      ghost var recs, h0 := installedApps, |device.history|;
      hide Allocated, Distinct, CrashState, Stage, Tree.Remove, Device.Valid;
      for i := 0 to |installedApps|
        invariant device.Valid() && old(device.history) <= device.history
        invariant device.trouble == old(device.trouble) && old(device.trace) <= device.trace
        invariant SafeSince(device.history, h0, t0, names, recs)
        invariant attr == NEW_BUNDLE_PATH ==> SafeSince(device.history, h0, t0, names, [])
        invariant device.tree == Stage(t0, recs, attr, i)
      {
        var app := installedApps[i];
        var path := GetAttr(app, attr);
        StageStep(t0, names, recs, attr, i);
        if path == None {
          continue;
        }
        ghost var h := device.history;
        :- RemoveApp(device, path.value);
        SafeSnoc(h, h0, t0, names, recs, device.tree);
        if attr == NEW_BUNDLE_PATH { SafeSnoc(h, h0, t0, names, [], device.tree); }
      }
      return Ok;
    }

    /** `_stop_running_versions`: no application concerned has a container afterwards.
        `trigger` is the error that started a rollback, if one was started; without one
        nothing on disk changes. */
    method StopRunningVersions(ghost t0: Tree) returns (o: Outcome, ghost trigger: Option<Error>)
      requires device.Valid()
      requires Allocated(t0, installedApps) && device.tree == Plus(t0, installedApps, 0, |installedApps|)
      modifies device`tree, device`history, device`containers, device`clock, device`trouble, device`trace
      ensures device.Valid() && old(device.history) <= device.history
      ensures device.trouble >= old(device.trouble) + (if o.Raised? then 1 else 0)
      ensures o.Ok? ==> device.trouble == old(device.trouble)
      ensures old(device.trace) <= device.trace
      ensures o.Ok? ==> StopsSince(device.trace, |old(device.trace)|, installedApps, |installedApps|)
      ensures o.Raised? && trigger == None ==> EndsWith(device.trace, |old(device.trace)|, o)
      ensures o.Raised? && trigger.Some? && o != Raise(trigger.value) ==>
                EndsWith(device.trace, |old(device.trace)|, Raise(o.error))
      ensures trigger.Some? ==> Raises(device.trace, |old(device.trace)|, Raise(trigger.value))
      ensures trigger.Some? && device.trouble == old(device.trouble) + 1 && Distinct(Names(installedApps)) ==>
                o == Raise(trigger.value)
      ensures trigger.Some? && o == Raise(trigger.value) ==> device.trouble == old(device.trouble) + 1
      ensures device.trouble <= old(device.trouble) + 2
      ensures SafeSince(device.history, |old(device.history)|, t0, Names(installedApps), [])
      ensures trigger == None ==> device.tree == old(device.tree) && device.history == old(device.history)
      ensures o.Ok? ==> trigger == None && NoneBeyond(installedApps, 0, device.containers)
      ensures o.Ok? ==> OthersKept(old(device.containers), device.containers, Apps(installedApps, 0, |installedApps|))
      ensures o.Raised? ==>
                StartFailed(o, trigger, t0, installedApps, old(device.containers), device.tree, device.containers)
    {
      hide Allocated, Plus, CrashState, Restored, Device.Valid, StartFailed, Terminated, Distinct, StopsSince;
      NoStops(device.trace, installedApps);
      trigger := None;
      for i := 0 to |installedApps|
        invariant device.tree == old(device.tree) && device.history == old(device.history)
        invariant device.trouble == old(device.trouble) && old(device.trace) <= device.trace
        invariant StopsSince(device.trace, |old(device.trace)|, installedApps, i)
        invariant OthersKept(old(device.containers), device.containers, Apps(installedApps, 0, |installedApps|))
        invariant forall j :: 0 <= j < i ==> installedApps[j].app !in device.containers
      {
        ghost var steps, n := [], |device.trace|;
        o, steps := TerminateApp(device, installedApps[i].app,
                                 DEFAULT_TIMEOUT_AFTER_SIGTERM, DEFAULT_TIMEOUT_AFTER_SIGKILL);
        assert installedApps[i].app in Apps(installedApps, 0, |installedApps|);
        if o.Raised? {
          TerminateRaises(device.trace, n, steps, installedApps[i].app, o);
          if StopFailure(o.error) {
            ghost var c1, before := device.containers, device.trace;
            trigger := Some(o.error);
            o := RollbackThenRaise(t0, o.error);
            FailureSince(o, trigger, t0, installedApps, old(device.containers), c1, device.tree, device.containers);
            RaisesThen(before, device.trace, |old(device.trace)|, n, Raise(trigger.value));
          } else {
            StopEscapes(o, t0, installedApps, i, old(device.containers), device.tree, device.containers);
          }
          return;
        }
        StopsNext(device.trace[..n], |old(device.trace)|, steps, installedApps, i, o);
        assert device.trace == device.trace[..n] + steps;
      }
      return Ok, None;
    }

    /** `_run_new_installed_versions`.  An application that occurs twice makes it fail with
        `ContainerAlreadyExistError`, and nothing else does. */
    method RunNewInstalledVersions(ghost t0: Tree) returns (o: Outcome, ghost trigger: Option<Error>)
      requires device.Valid()
      requires Allocated(t0, installedApps) && device.tree == Plus(t0, installedApps, 0, |installedApps|)
      requires NoneBeyond(installedApps, 0, device.containers)
      modifies device`tree, device`history, device`containers, device`clock, device`trouble, device`trace
      ensures device.Valid() && old(device.history) <= device.history
      ensures device.trouble >= old(device.trouble) && (o.Ok? ==> device.trouble == old(device.trouble))
      ensures old(device.trace) <= device.trace
      ensures o.Raised? && trigger == None ==> EndsWith(device.trace, |old(device.trace)|, o)
      ensures o.Raised? && trigger.Some? && o != Raise(trigger.value) ==>
                EndsWith(device.trace, |old(device.trace)|, Raise(o.error))
      ensures trigger.Some? ==> Raises(device.trace, |old(device.trace)|, Raise(trigger.value))
      ensures trigger.Some? && device.trouble == old(device.trouble) + 1 && Distinct(Names(installedApps)) ==>
                o == Raise(trigger.value)
      ensures trigger.Some? && o == Raise(trigger.value) ==> device.trouble == old(device.trouble) + 1
      ensures device.trouble <= old(device.trouble) + 2
      ensures o.Raised? && device.trouble == old(device.trouble) ==>
                o == Raise(ContainerAlreadyExistError) && trigger == None
      ensures SafeSince(device.history, |old(device.history)|, t0, Names(installedApps), [])
      ensures trigger == None ==> device.tree == old(device.tree) && device.history == old(device.history)
      ensures o.Ok? ==> trigger == None && RunFrom(installedApps, NEW_BUNDLE_PATH, |installedApps|, device.containers)
      ensures o.Ok? ==> OthersKept(old(device.containers), device.containers, Apps(installedApps, 0, |installedApps|))
      ensures o.Raised? ==>
                StartFailed(o, trigger, t0, installedApps, old(device.containers), device.tree, device.containers)
    {
      hide Allocated, Plus, CrashState, RunFrom, NoneBeyond, Apps, Device.Valid, StartFailed, Names;
      ghost var recs := installedApps;
      trigger := None;
      NoneRun(recs, device.containers);
      for i := 0 to |installedApps|
        invariant device.tree == old(device.tree) && device.history == old(device.history)
        invariant device.trouble == old(device.trouble) && old(device.trace) <= device.trace
        invariant OthersKept(old(device.containers), device.containers, Apps(recs, 0, |recs|))
        invariant RunFrom(recs, NEW_BUNDLE_PATH, i, device.containers) && NoneBeyond(recs, i, device.containers)
      {
        ghost var c, n := device.containers, |device.trace|;
        o, trigger := RunNewVersion(i, t0);
        RaisesBefore(device.trace, device.trace, |old(device.trace)|, n);
        if o.Raised? {
          FailureSince(o, trigger, t0, recs, old(device.containers), c, device.tree, device.containers);
          return;
        }
        OthersKeptSince(old(device.containers), c, device.containers, recs);
      }
      return Ok, None;
    }

    /** One pass of that loop. */
    method RunNewVersion(i: nat, ghost t0: Tree) returns (o: Outcome, ghost trigger: Option<Error>)
      requires device.Valid() && i < |installedApps|
      requires Allocated(t0, installedApps) && device.tree == Plus(t0, installedApps, 0, |installedApps|)
      requires RunFrom(installedApps, NEW_BUNDLE_PATH, i, device.containers)
      requires NoneBeyond(installedApps, i, device.containers)
      modifies device`tree, device`history, device`containers, device`clock, device`trouble, device`trace
      ensures device.Valid() && old(device.history) <= device.history
      ensures device.trouble >= old(device.trouble) && (o.Ok? ==> device.trouble == old(device.trouble))
      ensures old(device.trace) <= device.trace
      ensures o.Raised? && trigger == None ==> EndsWith(device.trace, |old(device.trace)|, o)
      ensures o.Raised? && trigger.Some? && o != Raise(trigger.value) ==>
                EndsWith(device.trace, |old(device.trace)|, Raise(o.error))
      ensures trigger.Some? ==> Raises(device.trace, |old(device.trace)|, Raise(trigger.value))
      ensures trigger.Some? && device.trouble == old(device.trouble) + 1 && Distinct(Names(installedApps)) ==>
                o == Raise(trigger.value)
      ensures trigger.Some? && o == Raise(trigger.value) ==> device.trouble == old(device.trouble) + 1
      ensures device.trouble <= old(device.trouble) + 2
      ensures o.Raised? && device.trouble == old(device.trouble) ==>
                o == Raise(ContainerAlreadyExistError) && trigger == None
      ensures SafeSince(device.history, |old(device.history)|, t0, Names(installedApps), [])
      ensures trigger == None ==> device.tree == old(device.tree) && device.history == old(device.history)
      ensures o.Ok? ==> trigger == None && RunFrom(installedApps, NEW_BUNDLE_PATH, i + 1, device.containers)
      ensures o.Ok? ==> NoneBeyond(installedApps, i + 1, device.containers)
      ensures o.Ok? ==> OthersKept(old(device.containers), device.containers, Apps(installedApps, 0, |installedApps|))
      ensures o.Raised? ==>
                StartFailed(o, trigger, t0, installedApps, old(device.containers), device.tree, device.containers)
    {
      hide Allocated, Plus, CrashState, RunFrom, NoneBeyond, Apps, Device.Valid, StartFailed, RunFailed;
      hide RunEndedAt, OthersKept, Names, SafeSince, Distinct;
      ghost var recs, c, n := installedApps, device.containers, |device.trace|;
      NewBundlesInPlace(t0, recs);
      NothingSince(device.history, t0, Names(recs));
      trigger := None;
      o := RunApp(device, installedApps[i].app, installedApps[i].NewBundle());
      AmongOthers(c, device.containers, recs, i);
      if o.Ok? {
        NewStarted(recs, i, c);
        return;
      }
      RunEnds(recs, NEW_BUNDLE_PATH, i, o.error, c, device.containers);
      RunEndErrors(recs, NEW_BUNDLE_PATH, i, o.error, device.containers);
      if RunFailure(o.error) {
        ghost var c1, before := device.containers, device.trace;
        trigger := Some(o.error);
        o := RollbackThenRaise(t0, o.error);
        FailureSince(o, trigger, t0, recs, c, c1, device.tree, device.containers);
        RaisesThen(before, device.trace, n, n, Raise(trigger.value));
      } else {
        RunEscapes(o, t0, recs, i, c, device.tree, device.containers);
      }
    }

    /** The two handlers that roll back: `raise error` after a complete rollback, `raise
        rollback_error from error` after a failed one. */
    method RollbackThenRaise(ghost t0: Tree, error: Error) returns (o: Outcome)
      requires device.Valid()
      requires Allocated(t0, installedApps) && device.tree == Plus(t0, installedApps, 0, |installedApps|)
      requires StopFailure(error) || RunFailure(error)
      requires EndsWith(device.trace, 0, Raise(error))
      modifies device`tree, device`history, device`containers, device`clock, device`trouble, device`trace
      ensures device.Valid() && old(device.history) <= device.history
      ensures old(device.trouble) <= device.trouble <= old(device.trouble) + 1 && old(device.trace) <= device.trace
      ensures device.trouble == old(device.trouble) && Distinct(Names(installedApps)) ==> o == Raise(error)
      ensures o == Raise(error) ==> device.trouble == old(device.trouble)
      ensures o.Raised? && o != Raise(error) ==> EndsWith(device.trace, |old(device.trace)|, Raise(o.error))
      ensures SafeSince(device.history, |old(device.history)|, t0, Names(installedApps), [])
      ensures o.Raised?
      ensures StartFailed(o, Some(error), t0, installedApps, old(device.containers), device.tree, device.containers)
    {
      hide Restored, RollbackEnded, Distinct, Allocated, Plus, SafeSince, Device.Valid, Apps, OthersKept;
      o := RollbackApps(t0);
      if o.Ok? {
        return Raise(error);
      }
      if RollbackException(o.error) {
        return Raised(o.error, Some(error));
      }
    }

    /** `_rollback_apps`.  If it fails, RollbackEnded tells how far it got. */
    method RollbackApps(ghost t0: Tree) returns (o: Outcome)
      requires device.Valid()
      requires Allocated(t0, installedApps) && device.tree == Plus(t0, installedApps, 0, |installedApps|)
      modifies device`tree, device`history, device`containers, device`clock, device`trouble, device`trace
      ensures device.Valid() && old(device.history) <= device.history
      ensures old(device.trouble) <= device.trouble <= old(device.trouble) + 1 && old(device.trace) <= device.trace
      ensures device.trouble == old(device.trouble) && Distinct(Names(installedApps)) ==> o.Ok?
      ensures o.Ok? ==> device.trouble == old(device.trouble)
      ensures o.Raised? ==> EndsWith(device.trace, |old(device.trace)|, o)
      ensures SafeSince(device.history, |old(device.history)|, t0, Names(installedApps), [])
      ensures OthersKept(old(device.containers), device.containers, Apps(installedApps, 0, |installedApps|))
      ensures o.Ok? ==> Restored(t0, installedApps, old(device.containers), device.tree, device.containers)
      ensures o.Ok? ==> Distinct(Names(installedApps))
      ensures o.Raised? ==> o.cause == None && RollbackEnded(t0, installedApps, o.error, device.tree, device.containers)
    {
      ghost var c0 := device.containers;
      hide RunEndedAt, StopEndedAt, Allocated, Distinct, Restored, OthersKept, Apps, NoneBeyond, Device.Valid;
      hide StopsSince, SafeSince, Plus, PartlyRemoved, Stage, Names, RollbackEnded, EndsWith;
      o := StopAllNewlyInstalledApps();
      if o.Raised? {
        RollbackStopped(t0, installedApps, o.error, device.containers);
        return;
      }
      ghost var c1, n1 := device.containers, device.trace;
      NewBundleStages(t0, installedApps);
      o := RemoveAppsBundles(NEW_BUNDLE_PATH, t0, Names(installedApps));
      EndsLater(old(device.trace), n1, device.trace, o);
      if o.Raised? {
        RollbackPartlyRemoved(t0, installedApps, device.tree, device.containers);
        return;
      }
      ghost var n2 := device.trace;
      o := RunPreviousAppVersions(t0);
      EndsLater(old(device.trace), n2, device.trace, o);
      OthersKeptSince(c0, c1, device.containers, installedApps);
      if o.Ok? {
        RestoredSince(t0, installedApps, c0, c1, device.tree, device.containers);
      } else {
        RollbackNotRunning(t0, installedApps, o.error, device.containers);
      }
    }

    /** `_stop_all_newly_installed_apps`.  An application whose container is missing is
        passed over; any other failure ends the rollback. */
    method StopAllNewlyInstalledApps() returns (o: Outcome)
      modifies device`containers, device`clock, device`trouble, device`trace
      ensures device.trouble == old(device.trouble) + (if o.Raised? then 1 else 0)
      ensures old(device.trace) <= device.trace
      ensures o.Ok? ==> StopsSince(device.trace, |old(device.trace)|, installedApps, |installedApps|)
      ensures o.Raised? ==> EndsWith(device.trace, |old(device.trace)|, o)
      ensures OthersKept(old(device.containers), device.containers, Apps(installedApps, 0, |installedApps|))
      ensures o.Ok? ==> NoneBeyond(installedApps, 0, device.containers)
      ensures o.Raised? ==> o.cause == None
      ensures o.Raised? ==> exists n :: 0 <= n < |installedApps| && StopEndedAt(installedApps, n, o.error, device.containers)
    {
      hide Terminated, StopsSince;
      NoStops(device.trace, installedApps);
      for i := 0 to |installedApps|
        invariant device.trouble == old(device.trouble) && old(device.trace) <= device.trace
        invariant StopsSince(device.trace, |old(device.trace)|, installedApps, i)
        invariant OthersKept(old(device.containers), device.containers, Apps(installedApps, 0, |installedApps|))
        invariant forall j :: 0 <= j < i ==> installedApps[j].app !in device.containers
      {
        ghost var steps, n := [], |device.trace|;
        o, steps := TerminateApp(device, installedApps[i].app,
                                 DEFAULT_TIMEOUT_AFTER_SIGTERM, DEFAULT_TIMEOUT_AFTER_SIGKILL);
        assert installedApps[i].app in Apps(installedApps, 0, |installedApps|);
        if o.Raised? && !MentionsMissingContainer(o.error) {
          TerminateRaises(device.trace, n, steps, installedApps[i].app, o);
          assert StopEndedAt(installedApps, i, o.error, device.containers);
          return;
        }
        StopsNext(device.trace[..n], |old(device.trace)|, steps, installedApps, i, o);
        assert device.trace == device.trace[..n] + steps;
      }
      return Ok;
    }

    /** `_run_previous_app_versions`. */
    method RunPreviousAppVersions(ghost t0: Tree) returns (o: Outcome)
      requires Allocated(t0, installedApps) && device.tree == t0
      requires NoneBeyond(installedApps, 0, device.containers)
      modifies device`containers, device`trouble, device`trace
      ensures old(device.trouble) <= device.trouble <= old(device.trouble) + 1 && old(device.trace) <= device.trace
      ensures device.trouble == old(device.trouble) && Distinct(Names(installedApps)) ==> o.Ok?
      ensures o.Ok? ==> device.trouble == old(device.trouble)
      ensures o.Raised? ==> EndsWith(device.trace, |old(device.trace)|, o)
      ensures OthersKept(old(device.containers), device.containers, Apps(installedApps, 0, |installedApps|))
      ensures o.Ok? ==> Distinct(Names(installedApps))
      ensures o.Ok? ==> Restored(t0, installedApps, old(device.containers), device.tree, device.containers)
      ensures o.Raised? ==> o.cause == None
      ensures o.Raised? ==>
                exists n :: 0 <= n < |installedApps|
                  && RunEndedAt(installedApps, CURRENT_BUNDLE_PATH, n, o.error, device.containers)
    {
      ghost var recs := installedApps;
      hide Allocated, Restored, RunFrom, NoneBeyond, Apps, Tree.Valid, RunEndedAt, RunFailed;
      NoneRun(recs, device.containers);
      for i := 0 to |installedApps|
        invariant device.trouble == old(device.trouble) && old(device.trace) <= device.trace
        invariant OthersKept(old(device.containers), device.containers, Apps(recs, 0, |recs|))
        invariant RunFrom(recs, CURRENT_BUNDLE_PATH, i, device.containers) && NoneBeyond(recs, i, device.containers)
      {
        var app := installedApps[i];
        ghost var c := device.containers;
        OneMore(recs, i);
        if app.cur == None {
          NothingToRestart(t0, recs, i, c);
          continue;
        }
        o := RunApp(device, app.app, Bundle(app.app, app.cur.value));
        if o.Raised? {
          RunEnds(recs, CURRENT_BUNDLE_PATH, i, o.error, c, device.containers);
          if app.app in c {
            RepeatedIn(recs, i, c);
          } else {
            PreviousInPlace(t0, recs, i);
          }
          return;
        }
        OldRestarted(t0, recs, i, c);
      }
      AllRestarted(t0, recs, old(device.containers), device.containers);
      return Ok;
    }

    /** `start_installed_apps`. */
    method StartInstalledApps(ghost t0: Tree) returns (o: Outcome, ghost trigger: Option<Error>)
      requires device.Valid()
      requires Allocated(t0, installedApps) && device.tree == Plus(t0, installedApps, 0, |installedApps|)
      modifies device`tree, device`history, device`containers, device`clock, device`trouble, device`trace
      ensures device.Valid() && old(device.history) <= device.history
      ensures device.trouble >= old(device.trouble) && (o.Ok? ==> device.trouble == old(device.trouble))
      ensures old(device.trace) <= device.trace
      ensures o.Raised? && trigger == None ==> EndsWith(device.trace, |old(device.trace)|, o)
      ensures o.Raised? && trigger.Some? && o != Raise(trigger.value) ==>
                EndsWith(device.trace, |old(device.trace)|, Raise(o.error))
      ensures trigger.Some? ==> Raises(device.trace, |old(device.trace)|, Raise(trigger.value))
      ensures trigger.Some? && device.trouble == old(device.trouble) + 1 && Distinct(Names(installedApps)) ==>
                o == Raise(trigger.value)
      ensures trigger.Some? && o == Raise(trigger.value) ==> device.trouble == old(device.trouble) + 1
      ensures device.trouble <= old(device.trouble) + 2
      ensures device.trouble == old(device.trouble) ==>
                o == if Distinct(Names(installedApps)) then Ok else Raise(ContainerAlreadyExistError)
      ensures SafeSince(device.history, |old(device.history)|, t0, Names(installedApps), installedApps)
      ensures o.Ok? ==> Updated(t0, installedApps, old(device.containers), device.tree, device.containers)
      ensures o.Raised? ==>
                || StartFailed(o, trigger, t0, installedApps, old(device.containers), device.tree, device.containers)
                || RemovalFailed(o, t0, installedApps, device.tree, device.containers)
      ensures o.Raised? && trigger == None && o.error != AppUninstallError ==>
                device.tree == old(device.tree) && device.history == old(device.history)
      ensures o.Raised? && device.trouble == old(device.trouble) ==> trigger == None
      ensures o.Ok? ==> trigger == None
    {
      trigger := None;
      NothingRetired(t0, installedApps);
      if installedApps == [] {
        return Ok, None;
      }
      hide Allocated, Plus, Retired, Restored, RunFrom, NoneBeyond, OthersKept, Apps, Names;
      hide SafeSince, StartFailed, Distinct, Device.Valid, StopsSince;
      ghost var h0 := device.history;
      o, trigger := StopRunningVersions(t0);
      SafeForAll(device.history, |h0|, t0, installedApps);
      if o.Raised? {
        return;
      }
      ghost var c1, h1, n := device.containers, device.history, |device.trace|;
      o, trigger := RunNewInstalledVersions(t0);
      RaisesBefore(device.trace, device.trace, |old(device.trace)|, n);
      SafeForAll(device.history, |h1|, t0, installedApps);
      SafeAppend(h1, device.history, |h0|, t0, Names(installedApps), installedApps);
      if o.Raised? {
        FailureSince(o, trigger, t0, installedApps, old(device.containers), c1, device.tree, device.containers);
        FailureMeans(o, trigger, t0, installedApps, old(device.containers), device.tree, device.containers);
        return;
      }
      OthersKeptSince(old(device.containers), c1, device.containers, installedApps);
      AllDifferent(installedApps, device.containers);
      ghost var h2 := device.history;
      o := RemoveAppsBundles(CURRENT_BUNDLE_PATH, t0, Names(installedApps));
      SafeAppend(h2, device.history, |h0|, t0, Names(installedApps), installedApps);
    }

    /** `install_apps` then `start_installed_apps`, as the command line does.  Whatever
        happens, every state the tree goes through is one that recovery copes with.  If no
        command fails, the packages and the tree decide how it ends. */
    method Update() returns (o: Outcome, ghost trigger: Option<Error>)
      requires installedApps == [] && device.Valid() && device.tree.Valid()
      modifies this`installedApps, device`tree, device`history, device`containers, device`clock, device`trouble, device`trace
      ensures device.Valid() && old(device.history) <= device.history
      ensures device.trouble >= old(device.trouble) && (o.Ok? ==> device.trouble == old(device.trouble))
      ensures old(device.trace) <= device.trace
      ensures o.Raised? && o.error != TypeError ==> Raises(device.trace, |old(device.trace)|, Raise(o.error))
      ensures trigger.Some? ==> Raises(device.trace, |old(device.trace)|, Raise(trigger.value))
      ensures trigger.Some? && device.trouble == old(device.trouble) + 1 && Distinct(Names(installedApps)) ==>
                o == Raise(trigger.value)
      ensures trigger.Some? && o == Raise(trigger.value) ==> device.trouble == old(device.trouble) + 1
      ensures device.trouble <= old(device.trouble) + 2
      ensures device.trouble == old(device.trouble) ==> o == Verdict(old(device.tree), ipks)
      ensures SafeSince(device.history, |old(device.history)|, old(device.tree), IpkNames(ipks), installedApps)
      ensures o.Ok? ==> Names(installedApps) == IpkNames(ipks)
      ensures o.Ok? ==> Updated(old(device.tree), installedApps, old(device.containers), device.tree, device.containers)
      ensures o.Raised? ==>
                || (InstallResult(o, old(device.tree), ipks, installedApps, device.tree)
                    && device.containers == old(device.containers))
                || StartFailed(o, trigger, old(device.tree), installedApps, old(device.containers),
                               device.tree, device.containers)
                || RemovalFailed(o, old(device.tree), installedApps, device.tree, device.containers)
      ensures o.Raised? && o.cause == None
                && (StopFailure(o.error) || RunFailure(o.error) || InstallFailure(o.error)) ==>
                device.tree == old(device.tree)
    {
      hide InstallResult, StartFailed, SafeSince, RemovalFailed, Updated, Device.Valid, Allocated, Plus, Distinct;
      hide InstallVerdict, Raises, EndsWith, IpkNames, Names, FirstObstacle;
      ghost var t0, h0, n0 := device.tree, device.history, |device.trace|;
      trigger := None;
      o := InstallApps();
      ghost var h1, n1 := device.history, |device.trace|;
      ResultIsSafe(o, h1, |h0|, t0, ipks, installedApps, device.tree);
      if o.Raised? {
        return;
      }
      AllInstalled(t0, ipks, installedApps, device.tree);
      o, trigger := StartInstalledApps(t0);
      SafeAppend(h1, device.history, |h0|, t0, IpkNames(ipks), installedApps);
      RaisesBefore(device.trace, device.trace, n0, n1);
      if o.Raised? {
        EndsRaise(device.trace, n1, Raise(o.error));
        NoCause(o, trigger, t0, installedApps, old(device.containers), device.tree, device.containers);
      }
    }
  }

  lemma EndsRaise(trace: seq<Event>, n: nat, o: Outcome)
    ensures EndsWith(trace, n, o) ==> Raises(trace, n, o)
  {
  }

  lemma ResultIsSafe(o: Outcome, h: seq<Tree>, n: nat, t0: Tree, ipks: seq<Ipk>, recs: seq<AppRecord>, t: Tree)
    requires InstallResult(o, t0, ipks, recs, t) && SafeSince(h, n, t0, IpkNames(ipks), [])
    ensures SafeSince(h, n, t0, IpkNames(ipks), recs)
    ensures o.Raised? && o.cause == None && InstallFailure(o.error) ==> t == t0
    ensures o.Raised? && o.cause == None ==> InstallFailure(o.error) || Uncaught(o.error) || o.error == AppUninstallError
  {
    hide SafeSince, BeforeCommit, Plus, Obstacle, NotCleanedUp, PartlyRemoved;
    SafeForAny(h, n, t0, IpkNames(ipks), recs);
  }

  lemma NoTriggerNoCause(o: Outcome, t0: Tree, recs: seq<AppRecord>, c0: Containers, t: Tree, c: Containers)
    ensures StartFailed(o, None, t0, recs, c0, t, c) ==> o.cause == None
  {
    hide RollbackEnded, Escaped, Restored;
  }

  lemma RemovalError(o: Outcome, t0: Tree, recs: seq<AppRecord>, t: Tree, c: Containers)
    requires RemovalFailed(o, t0, recs, t, c)
    ensures o == Raise(AppUninstallError)
  {
  }

  lemma NoCause(o: Outcome, trigger: Option<Error>, t0: Tree, recs: seq<AppRecord>, c0: Containers,
                t: Tree, c: Containers)
    requires o.Raised?
    requires StartFailed(o, trigger, t0, recs, c0, t, c) || RemovalFailed(o, t0, recs, t, c)
    ensures o.cause == None && (StopFailure(o.error) || RunFailure(o.error) || InstallFailure(o.error)) ==> t == t0
    ensures trigger == None ==> o == Raise(o.error)
  {
    hide StartFailed, RemovalFailed, Restored;
    if StartFailed(o, trigger, t0, recs, c0, t, c) {
      FailureMeans(o, trigger, t0, recs, c0, t, c);
      RestoredTree(t0, recs, c0, t, c);
      NoTriggerNoCause(o, t0, recs, c0, t, c);
    } else {
      RemovalError(o, t0, recs, t, c);
    }
  }

  lemma InstallEscaped(e: Error, t0: Tree, ipks: seq<Ipk>, recs: seq<AppRecord>, t: Tree)
    requires Installing(t0, ipks, recs, t) && |recs| < |ipks|
    requires Uncaught(e) && Obstacle(t0, ipks[|recs|]) == Some(e)
    ensures InstallResult(Raise(e), t0, ipks, recs, t)
  {
    hide Cleared, Obstacle, Allocated, BeforeCommit, IpkNames, InstalledBy, Plus, Ipk.App, Names, NotCleanedUp;
    hide PartlyRemoved;
    InstallingIsValid(t0, ipks, recs, t);
  }

  lemma CleanUpFailed(t0: Tree, ipks: seq<Ipk>, recs: seq<AppRecord>, t: Tree, r: AppRecord, t': Tree)
    requires Installing(t0, ipks, recs, t) && |recs| < |ipks|
    requires InstalledBy(t, ipks[|recs|].App(), r, t')
    ensures NotCleanedUp(t0, ipks, recs, t') && BeforeCommit(t0, IpkNames(ipks), t')
  {
    InstallNext(t0, ipks, recs, r, t, t');
  }

  lemma CleanUpEscaped(t0: Tree, ipks: seq<Ipk>, recs: seq<AppRecord>, t: Tree, t': Tree)
    requires Installing(t0, ipks, recs, t) && |recs| < |ipks|
    requires NotCleanedUp(t0, ipks, recs, t') && BeforeCommit(t0, IpkNames(ipks), t')
    ensures InstallResult(Raise(AppUninstallError), t0, ipks, recs, t')
  {
    hide Cleared, Obstacle, Allocated, BeforeCommit, IpkNames, InstalledBy, Plus, Ipk.App, Names, NotCleanedUp;
    hide PartlyRemoved;
  }

  lemma InstallEnds(t0: Tree, ipks: seq<Ipk>, recs: seq<AppRecord>, t: Tree)
    requires Installing(t0, ipks, recs, t) && |recs| == |ipks|
    ensures InstallResult(Ok, t0, ipks, recs, t) && InstallVerdict(t0, ipks) == Ok
  {
    InstallingIsValid(t0, ipks, recs, t);
    FirstObstacleIs(t0, ipks, |ipks|);
  }

  lemma VerdictAt(t0: Tree, ipks: seq<Ipk>, recs: seq<AppRecord>, t: Tree, e: Error)
    requires Installing(t0, ipks, recs, t) && |recs| < |ipks| && Obstacle(t0, ipks[|recs|]) == Some(e)
    ensures InstallVerdict(t0, ipks) == Raise(e)
  {
    FirstObstacleIs(t0, ipks, |recs|);
  }

  /** One removal leads from a stage to the next, through a state recovery copes with. */
  lemma StageStep(t0: Tree, names: seq<string>, recs: seq<AppRecord>, attr: PathAttr, k: nat)
    requires Allocated(t0, recs) && Names(recs) <= names && k < |recs|
    requires attr == CURRENT_BUNDLE_PATH ==> Distinct(Names(recs))
    ensures CrashState(t0, names, recs, Stage(t0, recs, attr, k + 1))
    ensures attr == NEW_BUNDLE_PATH ==> CrashState(t0, names, [], Stage(t0, recs, attr, k + 1))
    ensures match GetAttr(recs[k], attr)
            case None => Stage(t0, recs, attr, k + 1) == Stage(t0, recs, attr, k)
            case Some(b) =>
              b in Stage(t0, recs, attr, k).bundles
              && Stage(t0, recs, attr, k).Remove(b) == Stage(t0, recs, attr, k + 1)
  {
    hide Allocated, Distinct, Plus, Retired, BeforeCommit, Tree.Remove;
    if attr == NEW_BUNDLE_PATH {
      RemoveUndoesPlus(t0, recs, k);
      PlusBeforeCommit(t0, names, recs, k + 1, |recs|);
    } else {
      assert AfterCommit(t0, recs, Retired(t0, recs, k + 1));
      if recs[k].cur.Some? {
        RetireOne(t0, recs, k);
      } else {
        RetireNone(t0, recs, k);
      }
    }
  }

  lemma EndsLater(trace0: seq<Event>, trace1: seq<Event>, trace: seq<Event>, o: Outcome)
    requires trace0 <= trace1 <= trace
    ensures trace0 <= trace && (EndsWith(trace, |trace1|, o) ==> EndsWith(trace, |trace0|, o))
  {
  }

  lemma RaisesBefore(before: seq<Event>, trace: seq<Event>, m: nat, n: nat)
    requires before <= trace && m <= n
    ensures forall o :: Raises(before, n, o) ==> Raises(trace, m, o)
  {
    forall o | Raises(before, n, o) ensures Raises(trace, m, o) {
      var i :| n <= i < |before| && before[i].outcome == o;
      assert trace[i] == before[i];
    }
  }

  lemma RaisesThen(before: seq<Event>, trace: seq<Event>, m: nat, n: nat, o: Outcome)
    requires before <= trace && m <= n && EndsWith(before, n, o)
    ensures Raises(trace, m, o)
  {
    assert trace[|before| - 1] == before[|before| - 1];
  }

  lemma RollbackStopped(t0: Tree, recs: seq<AppRecord>, e: Error, c: Containers)
    requires exists n :: 0 <= n < |recs| && StopEndedAt(recs, n, e, c)
    ensures RollbackEnded(t0, recs, e, Plus(t0, recs, 0, |recs|), c)
  {
  }

  lemma RollbackPartlyRemoved(t0: Tree, recs: seq<AppRecord>, t: Tree, c: Containers)
    requires NoneBeyond(recs, 0, c) && PartlyRemoved(t0, recs, t)
    ensures RollbackEnded(t0, recs, AppUninstallError, t, c)
  {
  }

  lemma RollbackNotRunning(t0: Tree, recs: seq<AppRecord>, e: Error, c: Containers)
    requires exists n :: 0 <= n < |recs| && RunEndedAt(recs, CURRENT_BUNDLE_PATH, n, e, c)
    ensures RollbackEnded(t0, recs, e, t0, c)
  {
  }

  lemma NoStops(trace: seq<Event>, recs: seq<AppRecord>)
    ensures StopsSince(trace, |trace|, recs, 0)
  {
  }

  lemma TerminateRaises(trace: seq<Event>, n: nat, steps: seq<Event>, app: string, o: Outcome)
    requires Terminated(steps, app, DEFAULT_TIMEOUT_AFTER_SIGTERM, DEFAULT_TIMEOUT_AFTER_SIGKILL, o) && o.Raised?
    requires n <= |trace| && trace[n..] == steps
    ensures EndsWith(trace, n, o)
  {
    assert trace[|trace| - 1] == trace[n..][|trace| - n - 1];
  }

  lemma RepeatedIn(recs: seq<AppRecord>, i: nat, c: Containers)
    requires i < |recs| && NoneBeyond(recs, i, c) && recs[i].app in c
    ensures !Distinct(Names(recs))
  {
    var j :| 0 <= j < i && recs[j].app == recs[i].app;
    assert Names(recs)[j] == Names(recs)[i];
  }

  lemma PreviousInPlace(t0: Tree, recs: seq<AppRecord>, i: nat)
    requires Allocated(t0, recs) && i < |recs| && recs[i].cur.Some?
    ensures Distinct(Names(recs)) ==> Bundle(recs[i].app, recs[i].cur.value) in t0.bundles
  {
    if Distinct(Names(recs)) {
      DistinctAllocation(t0, recs, i);
    }
  }

  lemma NothingSince(h: seq<Tree>, t0: Tree, names: seq<string>)
    ensures SafeSince(h, |h|, t0, names, [])
  {}

  lemma SafeSnoc(h: seq<Tree>, n: nat, t0: Tree, names: seq<string>, recs: seq<AppRecord>, t: Tree)
    requires SafeSince(h, n, t0, names, recs) && CrashState(t0, names, recs, t)
    ensures SafeSince(h + [t], n, t0, names, recs)
  {}

  lemma SafeAppend(h: seq<Tree>, h': seq<Tree>, n: nat, t0: Tree, names: seq<string>, recs: seq<AppRecord>)
    requires SafeSince(h, n, t0, names, recs) && h <= h' && SafeSince(h', |h|, t0, names, recs)
    ensures SafeSince(h', n, t0, names, recs)
  {
    forall k | n <= k < |h'| ensures CrashState(t0, names, recs, h'[k]) {
      assert k < |h| ==> h'[k] == h[k];
    }
  }

  lemma FailureSince(o: Outcome, trigger: Option<Error>, t0: Tree, recs: seq<AppRecord>, c0: Containers,
                     c1: Containers, t: Tree, c: Containers)
    requires OthersKept(c0, c1, Apps(recs, 0, |recs|))
    requires StartFailed(o, trigger, t0, recs, c1, t, c)
    ensures StartFailed(o, trigger, t0, recs, c0, t, c)
  {
    hide RollbackEnded, Escaped, Distinct, Apps;
  }

  lemma StopEscapes(o: Outcome, t0: Tree, recs: seq<AppRecord>, n: nat, c0: Containers, t: Tree, c: Containers)
    requires o == Raise(ContainerStateError) && StopEndedAt(recs, n, o.error, c)
    requires t == Plus(t0, recs, 0, |recs|) && OthersKept(c0, c, Apps(recs, 0, |recs|))
    ensures StartFailed(o, None, t0, recs, c0, t, c)
  {}

  lemma RunEscapes(o: Outcome, t0: Tree, recs: seq<AppRecord>, n: nat, c0: Containers, t: Tree, c: Containers)
    requires o.Raised? && o.cause == None && o.error in {ContainerStateError, ContainerAlreadyExistError}
    requires n < |recs| && RunEndedAt(recs, NEW_BUNDLE_PATH, n, o.error, c)
    requires t == Plus(t0, recs, 0, |recs|) && OthersKept(c0, c, Apps(recs, 0, |recs|))
    ensures StartFailed(o, None, t0, recs, c0, t, c)
  {
    hide RunEndedAt;
  }

  lemma SafeForAll(h: seq<Tree>, n: nat, t0: Tree, recs: seq<AppRecord>)
    requires SafeSince(h, n, t0, Names(recs), [])
    requires Allocated(t0, recs)
    ensures SafeSince(h, n, t0, Names(recs), recs)
  {
    SafeForAny(h, n, t0, Names(recs), recs);
  }

  lemma SafeForAny(h: seq<Tree>, n: nat, t0: Tree, names: seq<string>, recs: seq<AppRecord>)
    requires SafeSince(h, n, t0, names, [])
    requires Allocated(t0, recs) && Names(recs) <= names
    ensures SafeSince(h, n, t0, names, recs)
  {
    forall k | n <= k < |h| ensures CrashState(t0, names, recs, h[k]) {
      if AfterCommit(t0, [], h[k]) {
        assert h[k] == t0;
        PlusBeforeCommit(t0, names, recs, 0, 0);
        assert Plus(t0, recs, 0, 0) == t0;
      }
    }
  }

  lemma NothingRetired(t0: Tree, recs: seq<AppRecord>)
    ensures Retired(t0, recs, 0) == Plus(t0, recs, 0, |recs|)
    ensures recs == [] ==> Plus(t0, recs, 0, |recs|) == t0
  {}

  lemma NewBundlesInPlace(t0: Tree, recs: seq<AppRecord>)
    ensures forall i :: 0 <= i < |recs| ==> recs[i].NewBundle() in Plus(t0, recs, 0, |recs|).bundles
  {}

  lemma AllDifferent(recs: seq<AppRecord>, c: Containers)
    requires RunFrom(recs, NEW_BUNDLE_PATH, |recs|, c)
    ensures Distinct(Names(recs))
  {}

  lemma OthersKeptSince(c0: Containers, c1: Containers, c: Containers, recs: seq<AppRecord>)
    requires OthersKept(c0, c1, Apps(recs, 0, |recs|)) && OthersKept(c1, c, Apps(recs, 0, |recs|))
    ensures OthersKept(c0, c, Apps(recs, 0, |recs|))
  {}

  lemma AmongOthers(c: Containers, c': Containers, recs: seq<AppRecord>, i: nat)
    requires i < |recs| && OthersKept(c, c', {recs[i].app})
    ensures OthersKept(c, c', Apps(recs, 0, |recs|))
  {
    assert recs[i].app in Apps(recs, 0, |recs|);
  }

  lemma RestoredSince(t0: Tree, recs: seq<AppRecord>, c0: Containers, c1: Containers, t: Tree, c: Containers)
    requires OthersKept(c0, c1, Apps(recs, 0, |recs|)) && Restored(t0, recs, c1, t, c)
    ensures Restored(t0, recs, c0, t, c)
  {}

  lemma RestoredTree(t0: Tree, recs: seq<AppRecord>, c0: Containers, t: Tree, c: Containers)
    ensures Restored(t0, recs, c0, t, c) ==> t == t0
  {}

  lemma AllInstalled(t0: Tree, ipks: seq<Ipk>, recs: seq<AppRecord>, t: Tree)
    requires InstallResult(Ok, t0, ipks, recs, t)
    ensures Allocated(t0, recs) && Names(recs) == IpkNames(ipks) && t == Plus(t0, recs, 0, |recs|)
  {}

  lemma OneMore(recs: seq<AppRecord>, i: nat)
    requires i < |recs|
    ensures Apps(recs, 0, i + 1) == Apps(recs, 0, i) + {recs[i].app}
    ensures recs[i].app in Apps(recs, 0, |recs|)
  {}

  lemma NoneRun(recs: seq<AppRecord>, c: Containers)
    ensures forall attr :: RunFrom(recs, attr, 0, c)
  {}

  /** A failed run of record i ends the loop there. */
  lemma RunEnds(recs: seq<AppRecord>, attr: PathAttr, i: nat, e: Error, c: Containers, c': Containers)
    requires i < |recs| && RunFrom(recs, attr, i, c) && NoneBeyond(recs, i, c)
    requires GetAttr(recs[i], attr).Some? && RunFailed(e, c, c', recs[i].app, GetAttr(recs[i], attr).value)
    ensures RunEndedAt(recs, attr, i, e, c')
  {
    OneMore(recs, i);
    hide GetAttr;
  }

  lemma MoreRun(recs: seq<AppRecord>, i: nat, c: Containers, b: Bundle)
    requires i < |recs| && NoneBeyond(recs, i, c)
    ensures NoneBeyond(recs, i, c) ==> NoneBeyond(recs, i + 1, c)
    ensures NoneBeyond(recs, i + 1, c[recs[i].app := Container(Running, b)])
  {
    OneMore(recs, i);
  }

  lemma NewStarted(recs: seq<AppRecord>, i: nat, c: Containers)
    requires i < |recs| && RunFrom(recs, NEW_BUNDLE_PATH, i, c) && NoneBeyond(recs, i, c) && recs[i].app !in c
    ensures var c' := c[recs[i].app := Container(Running, recs[i].NewBundle())];
            RunFrom(recs, NEW_BUNDLE_PATH, i + 1, c') && NoneBeyond(recs, i + 1, c')
  {
    MoreRun(recs, i, c, recs[i].NewBundle());
  }

  lemma NothingToRestart(t0: Tree, recs: seq<AppRecord>, i: nat, c: Containers)
    requires Allocated(t0, recs) && i < |recs| && recs[i].cur == None
    requires RunFrom(recs, CURRENT_BUNDLE_PATH, i, c) && NoneBeyond(recs, i, c)
    ensures RunFrom(recs, CURRENT_BUNDLE_PATH, i + 1, c) && NoneBeyond(recs, i + 1, c)
  {
    hide Allocated;
    CurrentOfRecord(t0, recs, i);
    MoreRun(recs, i, c, recs[i].NewBundle());
    assert recs[i].app !in Apps(recs, 0, i);
    assert recs[i].app !in c;
    hide NoneBeyond, Apps;
  }

  lemma RestartedIsNone(t0: Tree, recs: seq<AppRecord>, i: nat, c: Containers)
    requires Allocated(t0, recs) && i < |recs| && RunFrom(recs, CURRENT_BUNDLE_PATH, i, c) && recs[i].app !in c
    requires recs[i].app in t0.dirs
    ensures forall j :: 0 <= j < i ==> recs[j].app != recs[i].app
  {
    forall j | 0 <= j < i ensures recs[j].app != recs[i].app {
      CurrentOfRecord(t0, recs, j);
      assert RunsFrom(recs[j], CURRENT_BUNDLE_PATH, c);
    }
  }

  lemma OldRestarted(t0: Tree, recs: seq<AppRecord>, i: nat, c: Containers)
    requires Allocated(t0, recs) && i < |recs| && recs[i].cur.Some?
    requires RunFrom(recs, CURRENT_BUNDLE_PATH, i, c) && NoneBeyond(recs, i, c) && recs[i].app !in c
    requires Bundle(recs[i].app, recs[i].cur.value) in t0.bundles
    ensures var c' := c[recs[i].app := Container(Running, Bundle(recs[i].app, recs[i].cur.value))];
            RunFrom(recs, CURRENT_BUNDLE_PATH, i + 1, c') && NoneBeyond(recs, i + 1, c')
  {
    assert recs[i].app in t0.dirs;
    hide Allocated, NoneBeyond, Tree.Valid, RunFrom;
    var b := Bundle(recs[i].app, recs[i].cur.value);
    RestartedIsNone(t0, recs, i, c);
    MoreRun(recs, i, c, b);
    RunOldExtends(recs, i, c, b);
  }

  lemma RunOldExtends(recs: seq<AppRecord>, i: nat, c: Containers, b: Bundle)
    requires i < |recs| && RunFrom(recs, CURRENT_BUNDLE_PATH, i, c) && recs[i].cur == Some(b.version) && b.app == recs[i].app
    requires forall j :: 0 <= j < i ==> recs[j].app != recs[i].app
    ensures RunFrom(recs, CURRENT_BUNDLE_PATH, i + 1, c[recs[i].app := Container(Running, b)])
  {
    var c' := c[recs[i].app := Container(Running, b)];
    forall j | 0 <= j < i ensures RunsFrom(recs[j], CURRENT_BUNDLE_PATH, c') {
      assert RunsFrom(recs[j], CURRENT_BUNDLE_PATH, c);
    }
  }

  lemma AllRestarted(t0: Tree, recs: seq<AppRecord>, c0: Containers, c: Containers)
    requires Allocated(t0, recs) && RunFrom(recs, CURRENT_BUNDLE_PATH, |recs|, c) && OthersKept(c0, c, Apps(recs, 0, |recs|))
    ensures Distinct(Names(recs)) && Restored(t0, recs, c0, t0, c)
  {
    forall i | 0 <= i < |recs| ensures recs[i].cur == t0.Current(recs[i].app) && RunsFrom(recs[i], CURRENT_BUNDLE_PATH, c) {
      DistinctAllocation(t0, recs, i);
    }
  }

  /** A package installed after the others. */
  lemma InstallNext(t0: Tree, ipks: seq<Ipk>, recs: seq<AppRecord>, r: AppRecord, t: Tree, t': Tree)
    requires Installing(t0, ipks, recs, t) && |recs| < |ipks|
    requires InstalledBy(t, ipks[|recs|].App(), r, t')
    ensures var q := recs + [r];
            && Allocated(t0, q) && Names(q) <= IpkNames(ipks) && t' == Plus(t0, q, 0, |q|)
            && BeforeCommit(t0, IpkNames(ipks), t')
  {
    var q := recs + [r];
    hide Allocated, AllocatedIn, Plus, Tree.Install, BeforeCommit, Distinct, Cleared;
    AllocateNext(t0, recs, r);
    PlusOfPrefix(t0, recs, r, |recs|);
    PlusGrows(t0, q, |recs|);
    assert q[|recs|] == r;
    assert Names(q) == Names(recs) + [r.app];
    PlusBeforeCommit(t0, IpkNames(ipks), q, 0, |q|);
  }

  lemma InstallStep(t0: Tree, ipks: seq<Ipk>, recs: seq<AppRecord>, r: AppRecord, t: Tree, t': Tree)
    requires Installing(t0, ipks, recs, t) && |recs| < |ipks|
    requires InstalledBy(t, ipks[|recs|].App(), r, t') && Obstacle(t0, ipks[|recs|]) == None
    ensures Installing(t0, ipks, recs + [r], t')
  {
    InstallNext(t0, ipks, recs, r, t, t');
    ClearedNext(t0, ipks, |recs|);
    assert |recs + [r]| == |recs| + 1;
    hide Allocated, Plus, BeforeCommit, InstalledBy, Obstacle, Cleared, IpkNames, Names;
  }

  lemma ClearedNext(t0: Tree, ipks: seq<Ipk>, k: nat)
    requires k < |ipks| && Cleared(t0, ipks, k) && Obstacle(t0, ipks[k]) == None
    ensures Cleared(t0, ipks, k + 1)
  {}

  lemma InstallBegins(t0: Tree, ipks: seq<Ipk>, h: seq<Tree>)
    requires t0.Valid()
    ensures Installing(t0, ipks, [], t0) && SafeSince(h, |h|, t0, IpkNames(ipks), [])
  {}

  lemma InstallingIsValid(t0: Tree, ipks: seq<Ipk>, recs: seq<AppRecord>, t: Tree)
    requires Installing(t0, ipks, recs, t)
    ensures t.Valid() && BeforeCommit(t0, IpkNames(ipks), t)
  {
    PlusBeforeCommit(t0, IpkNames(ipks), recs, 0, |recs|);
  }

  lemma InstallHistory(h: seq<Tree>, h': seq<Tree>, n: nat, t0: Tree, ipks: seq<Ipk>, recs: seq<AppRecord>, t: Tree)
    requires Installing(t0, ipks, recs, t) && |recs| < |ipks|
    requires h <= h' && SafeSince(h, n, t0, IpkNames(ipks), [])
    requires forall k :: |h| <= k < |h'| ==>
               h'[k] == t || exists r :: InstalledBy(t, ipks[|recs|].App(), r, h'[k])
    ensures SafeSince(h', n, t0, IpkNames(ipks), [])
  {
    InstallingIsValid(t0, ipks, recs, t);
    hide Installing, BeforeCommit, InstalledBy, AfterCommit;
    forall k | |h| <= k < |h'| ensures BeforeCommit(t0, IpkNames(ipks), h'[k]) {
      if h'[k] != t {
        var r :| InstalledBy(t, ipks[|recs|].App(), r, h'[k]);
        InstallNext(t0, ipks, recs, r, t, h'[k]);
      }
    }
    SafeAppend(h, h', n, t0, IpkNames(ipks), []);
  }

  lemma NewBundleStages(t0: Tree, recs: seq<AppRecord>)
    ensures Stage(t0, recs, NEW_BUNDLE_PATH, 0) == Plus(t0, recs, 0, |recs|)
    ensures Stage(t0, recs, NEW_BUNDLE_PATH, |recs|) == t0
  {}

  lemma StagesBeforeCommit(t0: Tree, names: seq<string>, recs: seq<AppRecord>)
    requires Allocated(t0, recs) && Names(recs) <= names
    ensures forall k :: 0 <= k <= |recs| ==> BeforeCommit(t0, names, Stage(t0, recs, NEW_BUNDLE_PATH, k))
  {
    forall k | 0 <= k <= |recs| ensures BeforeCommit(t0, names, Stage(t0, recs, NEW_BUNDLE_PATH, k)) {
      PlusBeforeCommit(t0, names, recs, k, |recs|);
    }
  }
}
