/** The boot-time `run-all`: every application runs from its lowest version and the other
    versions are deleted. */
module BootRun {
  import opened Wrappers
  import opened Exceptions
  import opened AppTree
  import opened ContainerRuntime
  import opened Lifecycle
  import opened CrashRecovery
  import opened UpdateStates
  import NaturalSort

  /** The tree when the applications of `done` have been cleaned up. */
  ghost predicate CleanedUp(t0: Tree, done: set<string>, t: Tree) {
    && t.dirs == t0.dirs
    && t.bundles <= t0.bundles
    && forall b :: b in t0.bundles ==>
         (b in t.bundles <==> b.app !in done || t0.Current(b.app) == Some(b.version))
  }

  /** Some versions other than the current one of `app` are gone; recovery from here gives
      the same result. */
  ghost predicate PartlyCleaned(t0: Tree, t: Tree) {
    && t.dirs == t0.dirs
    && t.bundles <= t0.bundles
    && forall b :: b in t0.bundles && t0.Current(b.app) == Some(b.version) ==> b in t.bundles
  }

  /** Recovery interrupted at any point and started again ends in the same tree. */
  lemma RecoveryRestarts(t0: Tree, t: Tree)
    requires PartlyCleaned(t0, t)
    ensures Recovered(t) == Recovered(t0)
  {
    forall b | b in t0.bundles
      ensures b in t.bundles && t.Current(b.app) == Some(b.version) <==> t0.Current(b.app) == Some(b.version)
    {
      assert b.version in t0.Versions(b.app);
      var c := Bundle(b.app, Min(t0.Versions(b.app)));
      CurrentIs(t0, c);
      CurrentIs(t, c);
    }
  }

  ghost predicate RecoverableSince(h: seq<Tree>, n: nat, t0: Tree) {
    n <= |h| && forall k :: n <= k < |h| ==> Recovered(h[k]) == Recovered(t0)
  }

  /** `run_app_from_parent_dir`: the lowest version is started first; only when that
      succeeded are the others deleted. */
  method RunAppFromParentDir(d: Device, app: string) returns (o: Outcome)
    requires d.Valid()
    modifies d`tree, d`history, d`containers, d`trouble, d`trace
    ensures d.Valid() && old(d.history) <= d.history
    ensures d.trouble >= old(d.trouble) && (o.Ok? ==> d.trouble == old(d.trouble))
    ensures old(d.trace) <= d.trace
    ensures o.Raised? && o.error != AppNotInstalled ==> EndsWith(d.trace, |old(d.trace)|, o)
    ensures o.Raised? && d.trouble == old(d.trouble) ==> app !in old(d.tree).dirs || app in old(d.containers)
    ensures RecoverableSince(d.history, |old(d.history)|, old(d.tree))
    ensures OthersKept(old(d.containers), d.containers, {app})
    ensures o == Raise(AppNotInstalled) <==> app !in old(d.tree).dirs
    ensures o.Ok? ==> CleanedUp(old(d.tree), {app}, d.tree)
    ensures o.Ok? ==>
              match old(d.tree).Current(app)
              case Some(v) => d.containers == old(d.containers)[app := Container(Running, Bundle(app, v))]
                              && app !in old(d.containers)
              case None => d.containers == old(d.containers)
    ensures o.Raised? ==> d.tree == old(d.tree) && o.cause == None
  {
    if app !in d.tree.dirs {
      return Raise(AppNotInstalled);
    }
    hide RecoverableSince, CleanedUp, RunFailed;
    ghost var t0, h0 := d.tree, |d.history|;
    var versions := SortedVersions(d, app);
    assert t0.Current(app).Some? ==> t0.Current(app).value in versions;
    if versions == [] {
      return Ok;
    }
    var valid := versions[0];
    CurrentIs(t0, Bundle(app, valid));
    :- RunApp(d, app, Bundle(app, valid));
    RemoveOthers(d, app, versions, t0);
    return Ok;
  }

  /** The loop that deletes all versions but the first. */
  method RemoveOthers(d: Device, app: string, versions: seq<nat>, ghost t0: Tree)
    requires d.Valid() && d.tree == t0 && Ascending(t0, app, versions)
    modifies d`tree, d`history
    ensures d.Valid() && old(d.history) <= d.history
    ensures RecoverableSince(d.history, |old(d.history)|, t0)
    ensures CleanedUp(t0, {app}, d.tree)
  {
    hide CleanedUp, RecoverableSince, Recovered;
    Untouched(t0, app, versions, d.history);
    for i := 1 to |versions|
      invariant d.Valid() && old(d.history) <= d.history
      invariant RecoverableSince(d.history, |old(d.history)|, t0)
      invariant Deleted(t0, app, versions, i, d.tree)
    {
      ghost var h, t := d.history, d.tree;
      d.SetTree(Tree(d.tree.dirs, d.tree.bundles - {Bundle(app, versions[i])}));
      DeleteOne(t0, app, versions, i, t, d.tree);
      RecoverableSnoc(h, |old(d.history)|, t0, d.tree);
    }
    AllDeleted(t0, app, versions, d.tree);
  }

  /** The versions 1..i of the list are gone. */
  ghost predicate Deleted(t0: Tree, app: string, versions: seq<nat>, i: nat, t: Tree)
    requires i <= |versions|
  {
    && t.dirs == t0.dirs
    && forall b :: b in t.bundles <==> b in t0.bundles && !(exists k :: 1 <= k < i && b == Bundle(app, versions[k]))
  }

  ghost predicate Ascending(t0: Tree, app: string, versions: seq<nat>) {
    && versions != []
    && (forall v: nat :: v in versions <==> Bundle(app, v) in t0.bundles)
    && forall i, j :: 0 <= i < j < |versions| ==> versions[i] < versions[j]
  }

  lemma Untouched(t0: Tree, app: string, versions: seq<nat>, h: seq<Tree>)
    requires Ascending(t0, app, versions)
    ensures Deleted(t0, app, versions, 1, t0) && RecoverableSince(h, |h|, t0)
  {
  }

  lemma DeleteOne(t0: Tree, app: string, versions: seq<nat>, i: nat, t: Tree, t': Tree)
    requires Ascending(t0, app, versions) && 1 <= i < |versions| && Deleted(t0, app, versions, i, t)
    requires t' == Tree(t.dirs, t.bundles - {Bundle(app, versions[i])})
    ensures Deleted(t0, app, versions, i + 1, t') && Recovered(t') == Recovered(t0)
  {
    CurrentIs(t0, Bundle(app, versions[0]));
    RecoveryRestarts(t0, t');
  }

  lemma RecoverableSnoc(h: seq<Tree>, n: nat, t0: Tree, t: Tree)
    requires RecoverableSince(h, n, t0) && Recovered(t) == Recovered(t0)
    ensures RecoverableSince(h + [t], n, t0)
  {
  }

  lemma AllDeleted(t0: Tree, app: string, versions: seq<nat>, t: Tree)
    requires Ascending(t0, app, versions) && Deleted(t0, app, versions, |versions|, t)
    ensures CleanedUp(t0, {app}, t)
  {
    CurrentIs(t0, Bundle(app, versions[0]));
    forall b | b in t0.bundles && b.app == app
      ensures b in t.bundles <==> b.version == versions[0]
    {
      var k :| 0 <= k < |versions| && versions[k] == b.version;
    }
  }

  /** The bundle paths of an application, sorted and read as version numbers. */
  method SortedVersions(d: Device, app: string) returns (versions: seq<nat>)
    ensures forall v: nat :: v in versions <==> Bundle(app, v) in d.tree.bundles
    ensures forall i, j :: 0 <= i < j < |versions| ==> versions[i] < versions[j]
  {
    var paths := GetOciBundlePaths(d, app);
    var sorted := NaturalSort.SortedCopy(paths);
    SortedPathsAscend(app, d.tree.bundles, paths);
    versions := seq(|sorted|, i requires 0 <= i < |sorted| => NaturalSort.VersionOf(sorted[i]));
    VersionsOfPaths(app, d.tree.bundles, sorted, versions);
  }

  lemma VersionsOfPaths(app: string, bundles: set<Bundle>, paths: seq<string>, versions: seq<nat>)
    requires ListsBundles(app, bundles, paths) && |versions| == |paths|
    requires forall i :: 0 <= i < |paths| ==> versions[i] == NaturalSort.VersionOf(paths[i])
    ensures forall v: nat :: v in versions <==> Bundle(app, v) in bundles
  {
    hide NaturalSort.VersionOf, PathOf;
    forall v: nat ensures v in versions <==> Bundle(app, v) in bundles {
      PathNamesBundle(Bundle(app, v));
      if Bundle(app, v) in bundles {
        var k :| 0 <= k < |paths| && paths[k] == PathOf(Bundle(app, v));
        assert versions[k] == v;
      }
      if v in versions {
        var k :| 0 <= k < |versions| && versions[k] == v;
        assert paths[k] in paths;
      }
    }
  }

  /** Sorting the paths of an application's bundles puts the versions in ascending order. */
  lemma SortedPathsAscend(app: string, bundles: set<Bundle>, paths: seq<string>)
    requires ListsBundles(app, bundles, paths)
    ensures ListsBundles(app, bundles, NaturalSort.Sorted(paths))
    ensures var l := NaturalSort.Sorted(paths);
            forall i, j :: 0 <= i < j < |l| ==> NaturalSort.VersionOf(l[i]) < NaturalSort.VersionOf(l[j])
  {
    var l := NaturalSort.Sorted(paths);
    forall p | p in paths ensures NaturalSort.IsVersionPath(ParentDir(app), p) {
      PathNamesBundle(BundleAt(app, p));
    }
    NaturalSort.SortedVersionsAscend(ParentDir(app), paths);
    NaturalSort.SortedNoDuplicates(paths);
    forall i, j | 0 <= i < j < |l| ensures NaturalSort.VersionOf(l[i]) != NaturalSort.VersionOf(l[j]) {
      assert l[i] in paths && l[j] in paths && l[i] != l[j];
    }
  }

  /** `run-all` over the directories present at boot, in any order.  When it succeeds, the
      tree is the recovered one and every application with a bundle runs from the one that
      is left; when it is interrupted or fails, running it again can still finish. */
  method RunAll(d: Device) returns (o: Outcome)
    requires d.Valid() && d.tree.Valid()
    modifies d`tree, d`history, d`containers, d`trouble, d`trace
    ensures d.Valid() && old(d.history) <= d.history
    ensures d.trouble >= old(d.trouble) && (o.Ok? ==> d.trouble == old(d.trouble))
    ensures old(d.trace) <= d.trace
    ensures o.Raised? ==> EndsWith(d.trace, |old(d.trace)|, o)
    ensures d.trouble == old(d.trouble) && old(d.containers) == map[] ==> o.Ok?
    ensures RecoverableSince(d.history, |old(d.history)|, old(d.tree))
    ensures o.Ok? ==> d.tree == Recovered(old(d.tree))
    ensures o.Ok? ==> forall b :: b in d.tree.bundles ==>
              b.app in d.containers && d.containers[b.app] == Container(Running, b)
    ensures o.Raised? ==> Recovered(d.tree) == Recovered(old(d.tree))
  {
    ghost var t0, h0 := d.tree, |d.history|;
    var todo := d.tree.dirs;
    ghost var done: set<string> := {};
    while todo != {}
      invariant d.Valid() && old(d.history) <= d.history
      invariant d.trouble == old(d.trouble) && old(d.trace) <= d.trace
      invariant old(d.containers) == map[] ==> d.containers.Keys <= done
      invariant RecoverableSince(d.history, h0, t0)
      invariant done + todo == t0.dirs && done !! todo
      invariant CleanedUp(t0, done, d.tree)
      invariant forall b :: b in d.tree.bundles && b.app in done ==>
                  b.app in d.containers && d.containers[b.app] == Container(Running, b)
      decreases todo
    {
      var app :| app in todo;
      ghost var t := d.tree;
      RecoveryRestarts(t0, t);
      o := RunAppFromParentDir(d, app);
      if o.Raised? { return; }
      CleanupComposes(t0, done, t, app, d.tree);
      todo, done := todo - {app}, done + {app};
    }
    assert d.tree.bundles == Recovered(t0).bundles;
    return Ok;
  }

  lemma CleanupComposes(t0: Tree, done: set<string>, t: Tree, app: string, t': Tree)
    requires CleanedUp(t0, done, t) && CleanedUp(t, {app}, t') && app !in done
    ensures CleanedUp(t0, done + {app}, t')
    ensures t.Current(app) == t0.Current(app)
  {
    assert forall b :: b in t0.bundles && b.app == app ==> b in t.bundles;
    assert t.Versions(app) == t0.Versions(app);
  }

  lemma CrashStateIsValid(t0: Tree, names: seq<string>, recs: seq<AppRecord>, t: Tree)
    requires t0.Valid() && CrashState(t0, names, recs, t)
    ensures t.Valid()
  {
    if AfterCommit(t0, recs, t) {
      PlusIsValid(t0, recs, 0, |recs|);
    }
  }

  /** `crashed` is what the crash left, `t` the tree after the reboot. */
  ghost predicate OneSurvivor(t0: Tree, crashed: Tree, t: Tree) {
    forall app :: t.Versions(app) == (if crashed.Versions(app) == {} then {} else {Survivor(t0, crashed, app)})
  }

  ghost predicate SurvivorsRun(t0: Tree, crashed: Tree, containers: Containers) {
    forall app :: crashed.Versions(app) != {} ==>
      app in containers && containers[app] == Container(Running, Bundle(app, Survivor(t0, crashed, app)))
  }

  /** A reboot after a crash anywhere in an update of a tree with at most one bundle per
      application: all containers are gone, and after a successful `run-all` every
      application that has a bundle has one, the previous one if the crash left it and
      otherwise the new one, and runs from it. */
  method Reboot(d: Device, ghost t0: Tree, ghost names: seq<string>, ghost recs: seq<AppRecord>) returns (o: Outcome)
    requires d.Valid() && t0.Valid() && CrashState(t0, names, recs, d.tree) && Distinct(names)
    requires forall app :: |t0.Versions(app)| <= 1
    modifies d`tree, d`history, d`containers, d`trouble, d`trace
    ensures d.Valid()
    ensures d.trouble == old(d.trouble) <==> o.Ok?
    ensures o.Raised? ==> EndsWith(d.trace, |old(d.trace)|, o)
    ensures o.Ok? ==> OneSurvivor(t0, old(d.tree), d.tree)
    ensures o.Ok? ==> SurvivorsRun(t0, old(d.tree), d.containers)
    ensures o.Raised? ==> Recovered(d.tree) == Recovered(old(d.tree))
  {
    d.containers := map[];
    CrashStateIsValid(t0, names, recs, d.tree);
    ghost var t := d.tree;
    o := RunAll(d);
    forall app
      ensures t.Versions(app) == {} ==> Recovered(t).Versions(app) == {}
      ensures t.Versions(app) != {} ==> Recovered(t).Versions(app) == {Survivor(t0, t, app)}
    {
      RecoveryAfterCrash(t0, names, recs, t, app);
    }
    if o.Ok? {
      forall app | t.Versions(app) != {}
        ensures Bundle(app, Survivor(t0, t, app)) in d.tree.bundles
      {
        assert Survivor(t0, t, app) in d.tree.Versions(app);
      }
    }
  }
}
