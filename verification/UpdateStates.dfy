/** The states that an application update goes through and can end in. */
module UpdateStates {
  import opened Wrappers
  import opened Exceptions
  import opened AppTree
  import opened ContainerRuntime
  import opened Lifecycle
  import opened AppManager
  import opened CrashRecovery
  import AppInfo

  /** Which bundle of a record `_remove_apps_bundles` removes. */
  datatype PathAttr = NEW_BUNDLE_PATH | CURRENT_BUNDLE_PATH

  /** `getattr(app, path_attr)`. */
  function GetAttr(r: AppRecord, attr: PathAttr): Option<Bundle> {
    match attr
    case NEW_BUNDLE_PATH => Some(r.NewBundle())
    case CURRENT_BUNDLE_PATH => if r.cur.Some? then Some(Bundle(r.app, r.cur.value)) else None
  }

  /** The tree when the first k bundles have been removed. */
  ghost function Stage(t0: Tree, recs: seq<AppRecord>, attr: PathAttr, k: nat): Tree
    requires k <= |recs|
  {
    match attr
    case NEW_BUNDLE_PATH => Plus(t0, recs, k, |recs|)
    case CURRENT_BUNDLE_PATH => Retired(t0, recs, k)
  }

  /** States recorded since position n. */
  ghost predicate SafeSince(h: seq<Tree>, n: nat, t0: Tree, names: seq<string>, recs: seq<AppRecord>) {
    n <= |h| && forall k :: n <= k < |h| ==> CrashState(t0, names, recs, h[k])
  }

  /** The last step, one since position n, ended as `o`. */
  ghost predicate EndsWith(trace: seq<Event>, n: nat, o: Outcome) {
    n < |trace| && trace[|trace| - 1].outcome == o
  }

  /** Some step since position n ended as `o`. */
  ghost predicate Raises(trace: seq<Event>, n: nat, o: Outcome) {
    exists i :: n <= i < |trace| && trace[i].outcome == o
  }

  /** The steps of terminating the applications of the first k records one after the other:
      each gets three seconds after SIGTERM and one after SIGKILL. */
  ghost predicate Stops(steps: seq<Event>, recs: seq<AppRecord>, k: nat)
    requires k <= |recs|
    decreases k, 0
  {
    if k == 0 then steps == [] else StopsLast(steps, recs, k - 1)
  }

  ghost predicate StopsLast(steps: seq<Event>, recs: seq<AppRecord>, k: nat)
    requires k < |recs|
    decreases k, 1
  {
    exists first: seq<Event>, last: seq<Event> ::
      steps == first + last && Stops(first, recs, k) && TerminatedInTime(last, recs[k].app)
  }

  ghost predicate TerminatedInTime(steps: seq<Event>, app: string) {
    exists o :: Terminated(steps, app, 3.0, 1.0, o)
  }

  /** The steps since position n do so. */
  ghost predicate StopsSince(trace: seq<Event>, n: nat, recs: seq<AppRecord>, k: nat)
    requires k <= |recs|
  {
    n <= |trace| && Stops(trace[n..], recs, k)
  }

  lemma StopsNext(before: seq<Event>, n: nat, steps: seq<Event>, recs: seq<AppRecord>, k: nat, o: Outcome)
    requires k < |recs| && StopsSince(before, n, recs, k)
    requires Terminated(steps, recs[k].app, 3.0, 1.0, o)
    ensures StopsSince(before + steps, n, recs, k + 1)
  {
    assert TerminatedInTime(steps, recs[k].app);
    hide Terminated, TerminatedInTime;
    assert Stops(before[n..], recs, k);
    assert StopsLast(before[n..] + steps, recs, k);
    assert (before + steps)[n..] == before[n..] + steps;
  }

  // --------------------------------------------------------------- containers

  /** The application of a record runs from the given bundle, or has no container if the
      record has no such bundle. */
  ghost predicate RunsFrom(r: AppRecord, attr: PathAttr, c: Containers) {
    match GetAttr(r, attr)
    case Some(b) => r.app in c && c[r.app] == Container(Running, b)
    case None => r.app !in c
  }

  /** The same, except that its process may have ended. */
  ghost predicate RanFrom(r: AppRecord, attr: PathAttr, c: Containers) {
    match GetAttr(r, attr)
    case Some(b) => r.app in c && c[r.app].bundle == b && c[r.app].phase != Created
    case None => r.app !in c
  }

  ghost predicate NoRepeats(recs: seq<AppRecord>, k: nat)
    requires k <= |recs|
  {
    forall i, j :: 0 <= i < j < k ==> recs[i].app != recs[j].app
  }

  /** The first k records name different applications, which run from the given bundles. */
  ghost predicate RunFrom(recs: seq<AppRecord>, attr: PathAttr, k: nat, c: Containers)
    requires k <= |recs|
  {
    && NoRepeats(recs, k)
    && forall i :: 0 <= i < k ==> RunsFrom(recs[i], attr, c)
  }

  /** Of the applications concerned only the first k can have a container. */
  ghost predicate NoneBeyond(recs: seq<AppRecord>, k: nat, c: Containers)
    requires k <= |recs|
  {
    forall i :: 0 <= i < |recs| && recs[i].app in c ==> recs[i].app in Apps(recs, 0, k)
  }

  /** A loop that stops the applications ended at record n with error `e`. */
  ghost predicate StopEndedAt(recs: seq<AppRecord>, n: nat, e: Error, c: Containers) {
    && n < |recs|
    && (forall j :: 0 <= j < n ==> recs[j].app !in c)
    && recs[n].app in c
    && (StopFailure(e) || e == ContainerStateError) && !MentionsMissingContainer(e)
  }

  /** A loop that runs the applications ended at record n with error `e`: those before it
      run, those after it do not, and of the one at hand the error tells how far it got. */
  ghost predicate RunEndedAt(recs: seq<AppRecord>, attr: PathAttr, n: nat, e: Error, c: Containers) {
    && n < |recs|
    && NoRepeats(recs, n) && NoneBeyond(recs, n + 1, c)
    && (forall i :: 0 <= i < n && recs[i].app != recs[n].app ==> RunsFrom(recs[i], attr, c))
    && (forall i :: 0 <= i < n && recs[i].app == recs[n].app && e != ContainerStartError ==> RanFrom(recs[i], attr, c))
    && match e
       case ContainerAlreadyExistError => recs[n].app in c && recs[n].app in Apps(recs, 0, n)
       case ContainerStateError => recs[n].app in c ==> recs[n].app in Apps(recs, 0, n)
       case ContainerCreationError => recs[n].app !in c
       case ContainerStartError =>
         recs[n].app in c && c[recs[n].app].phase != Running && Some(c[recs[n].app].bundle) == GetAttr(recs[n], attr)
       case _ => false
  }

  // ----------------------------------------------------------------- outcomes

  /** Everything is as before the update, and the applications concerned run again from
      the version they had, or have no container if they were not installed. */
  ghost predicate Restored(t0: Tree, recs: seq<AppRecord>, c0: Containers, t: Tree, c: Containers) {
    && t == t0
    && OthersKept(c0, c, Apps(recs, 0, |recs|))
    && forall i :: 0 <= i < |recs| ==>
         match t0.Current(recs[i].app)
         case Some(v) => recs[i].app in c && c[recs[i].app] == Container(Running, Bundle(recs[i].app, v))
         case None => recs[i].app !in c
  }

  /** The result of a successful update. */
  ghost predicate Updated(t0: Tree, recs: seq<AppRecord>, c0: Containers, t: Tree, c: Containers) {
    && Allocated(t0, recs) && Distinct(Names(recs))
    && t == Retired(t0, recs, |recs|)
    && RunFrom(recs, NEW_BUNDLE_PATH, |recs|, c)
    && OthersKept(c0, c, Apps(recs, 0, |recs|))
  }

  /** A rollback that raised `e`: how far it got. */
  ghost predicate RollbackEnded(t0: Tree, recs: seq<AppRecord>, e: Error, t: Tree, c: Containers) {
    || (t == Plus(t0, recs, 0, |recs|) && exists n :: 0 <= n < |recs| && StopEndedAt(recs, n, e, c))
    || (e == AppUninstallError && NoneBeyond(recs, 0, c) && PartlyRemoved(t0, recs, t))
    || (t == t0 && exists n :: 0 <= n < |recs| && RunEndedAt(recs, CURRENT_BUNDLE_PATH, n, e, c))
  }

  /** An exception that no handler of the stop and run loops catches, and where it came up. */
  ghost predicate Escaped(recs: seq<AppRecord>, e: Error, c: Containers) {
    || (e == ContainerStateError && exists n :: 0 <= n < |recs| && StopEndedAt(recs, n, e, c))
    || (e in {ContainerStateError, ContainerAlreadyExistError}
        && exists n :: 0 <= n < |recs| && RunEndedAt(recs, NEW_BUNDLE_PATH, n, e, c))
  }

  /** How the stop and run phases can fail; `trigger` is the error that a handler caught to
      start a rollback, if one did.  Without a rollback all new bundles stay.  A complete
      rollback restores everything and raises the trigger again; one that fails raises its
      own error, from the trigger if it is one of the guarded exceptions. */
  ghost predicate StartFailed(o: Outcome, trigger: Option<Error>, t0: Tree, recs: seq<AppRecord>, c0: Containers,
                              t: Tree, c: Containers)
  {
    && o.Raised?
    && OthersKept(c0, c, Apps(recs, 0, |recs|))
    && match trigger
       case None => o.cause == None && t == Plus(t0, recs, 0, |recs|) && Escaped(recs, o.error, c)
       case Some(e) =>
         && (StopFailure(e) || RunFailure(e))
         && (|| (o == Raise(e) && Distinct(Names(recs)) && Restored(t0, recs, c0, t, c))
             || (RollbackEnded(t0, recs, o.error, t, c)
                 && o.cause == if RollbackException(o.error) then trigger else None))
  }

  /** `start_installed_apps` failed to remove an old bundle: all new versions run, and the
      old bundles of the first applications are gone. */
  ghost predicate RemovalFailed(o: Outcome, t0: Tree, recs: seq<AppRecord>, t: Tree, c: Containers) {
    && o == Raise(AppUninstallError)
    && Distinct(Names(recs)) && RunFrom(recs, NEW_BUNDLE_PATH, |recs|, c)
    && exists k :: 0 <= k < |recs| && t == Retired(t0, recs, k)
  }

  lemma RunEndErrors(recs: seq<AppRecord>, attr: PathAttr, n: nat, e: Error, c: Containers)
    requires RunEndedAt(recs, attr, n, e, c)
    ensures RunFailure(e) || e == ContainerStateError || e == ContainerAlreadyExistError
    ensures e == ContainerAlreadyExistError ==> !Distinct(Names(recs))
  {
    if e == ContainerAlreadyExistError {
      var j :| 0 <= j < n && recs[j].app == recs[n].app;
      assert Names(recs)[j] == Names(recs)[n];
    }
  }

  lemma EndErrors(t0: Tree, recs: seq<AppRecord>, e: Error, t: Tree, c: Containers)
    requires RollbackEnded(t0, recs, e, t, c) || Escaped(recs, e, c)
    ensures RollbackException(e) || e == ContainerStateError || e == ContainerAlreadyExistError
    ensures e != AppPathInexistent
    ensures e == ContainerAlreadyExistError ==> !Distinct(Names(recs))
  {
    if attr, n :| 0 <= n < |recs| && RunEndedAt(recs, attr, n, e, c) {
      RunEndErrors(recs, attr, n, e, c);
    }
    hide RunEndedAt, Distinct;
  }

  /** What a failure means, error by error. */
  lemma FailureMeans(o: Outcome, trigger: Option<Error>, t0: Tree, recs: seq<AppRecord>, c0: Containers,
                     t: Tree, c: Containers)
    requires StartFailed(o, trigger, t0, recs, c0, t, c)
    ensures o.cause == None && (StopFailure(o.error) || RunFailure(o.error)) ==> Restored(t0, recs, c0, t, c)
    ensures o.error == ContainerAlreadyExistError ==> !Distinct(Names(recs))
    ensures trigger == None ==> o.error == ContainerStateError || o.error == ContainerAlreadyExistError
    ensures trigger.Some? ==>
              || trigger.value.ContainerKillError? || trigger.value.ContainerDeleteError?
              || trigger.value in {AppStopTimeoutError, ContainerCreationError, ContainerStartError}
    ensures trigger.Some? && o != Raise(trigger.value) ==>
              (o.cause == None <==> o.error == ContainerStateError || o.error == ContainerAlreadyExistError)
              && (o.cause.Some? ==> o.cause == trigger)
    ensures o.cause == None ==> o.error != AppUninstallError
    ensures RollbackException(o.error) || o.error in {ContainerStateError, ContainerAlreadyExistError}
    ensures o.error != AppPathInexistent
  {
    if RollbackEnded(t0, recs, o.error, t, c) || Escaped(recs, o.error, c) {
      EndErrors(t0, recs, o.error, t, c);
    }
    assert Escaped(recs, o.error, c) ==> o.error in {ContainerStateError, ContainerAlreadyExistError};
    hide RollbackEnded, Escaped, Restored, Distinct;
  }

  /** With a repeated application name an update cannot be completed, and no rollback of it
      completes either: without one, all new bundles stay, some applications run from them
      and some do not run at all. */
  lemma RepeatedNames(o: Outcome, trigger: Option<Error>, t0: Tree, recs: seq<AppRecord>, c0: Containers,
                      t: Tree, c: Containers)
    requires StartFailed(o, trigger, t0, recs, c0, t, c) || Updated(t0, recs, c0, t, c)
    requires Allocated(t0, recs) && !Distinct(Names(recs))
    ensures StartFailed(o, trigger, t0, recs, c0, t, c)
    ensures trigger == None ==> t == Plus(t0, recs, 0, |recs|) != t0 && Escaped(recs, o.error, c)
    ensures trigger.Some? ==> RollbackEnded(t0, recs, o.error, t, c)
  {
    NewBundlesAreFresh(t0, recs, 0);
    assert recs[0].NewBundle() in Plus(t0, recs, 0, |recs|).bundles;
  }

  // ------------------------------------------------------------- installation

  function IpkNames(ipks: seq<Ipk>): (names: seq<string>)
    ensures |names| == |ipks| && forall i :: 0 <= i < |ipks| ==> names[i] == ipks[i].App()
  {
    seq(|ipks|, i requires 0 <= i < |ipks| => ipks[i].App())
  }

  /** What keeps a package from being installed, as far as the package and the tree tell. */
  function Obstacle(t: Tree, ipk: Ipk): Option<Error> {
    if NameError(ipk).Some? then NameError(ipk)
    else if ipk.App() in t.dirs && t.Versions(ipk.App()) == {} then Some(TypeError)
    else None
  }

  /** The first k packages have no obstacle. */
  ghost predicate Cleared(t: Tree, ipks: seq<Ipk>, k: nat) {
    k <= |ipks| && forall i :: 0 <= i < k ==> Obstacle(t, ipks[i]) == None
  }

  function FirstObstacle(t: Tree, ipks: seq<Ipk>): Option<Error> {
    if ipks == [] then None
    else if Obstacle(t, ipks[0]).Some? then Obstacle(t, ipks[0])
    else FirstObstacle(t, ipks[1..])
  }

  lemma {:induction false} FirstObstacleIs(t: Tree, ipks: seq<Ipk>, k: nat)
    requires Cleared(t, ipks, k)
    ensures FirstObstacle(t, ipks) == if k < |ipks| then FirstObstacle(t, ipks[k..]) else None
    ensures k < |ipks| && Obstacle(t, ipks[k]).Some? ==> FirstObstacle(t, ipks) == Obstacle(t, ipks[k])
  {
    if k > 0 {
      assert forall i :: 0 <= i < k - 1 ==> ipks[1..][i] == ipks[i + 1];
      FirstObstacleIs(t, ipks[1..], k - 1);
      if k < |ipks| {
        assert ipks[1..][k - 1..] == ipks[k..];
      }
    } else {
      assert ipks[0..] == ipks;
    }
  }

  /** How the installation, and the whole update, end if no command fails. */
  function InstallVerdict(t: Tree, ipks: seq<Ipk>): Outcome {
    match FirstObstacle(t, ipks)
    case None => Ok
    case Some(e) => Raise(e)
  }

  ghost function Verdict(t: Tree, ipks: seq<Ipk>): Outcome {
    if InstallVerdict(t, ipks).Raised? then InstallVerdict(t, ipks)
    else if Distinct(IpkNames(ipks)) then Ok
    else Raise(ContainerAlreadyExistError)
  }

  /** `t'` is `t` with the bundle of record `r`, allocated in `t` for `app`, installed. */
  ghost predicate InstalledBy(t: Tree, app: string, r: AppRecord, t': Tree) {
    r.app == app && AllocatedIn(t, r) && t' == t.Install(r.NewBundle())
  }

  /** All packages so far are installed. */
  ghost predicate Installing(t0: Tree, ipks: seq<Ipk>, recs: seq<AppRecord>, t: Tree) {
    && Allocated(t0, recs) && Names(recs) <= IpkNames(ipks)
    && t == Plus(t0, recs, 0, |recs|)
    && Cleared(t0, ipks, |recs|)
  }

  /** The exceptions that `install_apps` catches, and the others a package can cause. */
  predicate InstallFailure(e: Error) { e.AppIdError? || e.AppInstallError? }

  predicate Uncaught(e: Error) { e.TypeError? || e.ValueError? }

  /** The removal of the installed bundles stopped before one of them. */
  ghost predicate PartlyRemoved(t0: Tree, recs: seq<AppRecord>, t: Tree) {
    exists k :: 0 <= k < |recs| && t == Stage(t0, recs, NEW_BUNDLE_PATH, k)
  }

  /** All installed bundles stay, and so does what a failing package left of its own. */
  ghost predicate NotCleanedUp(t0: Tree, ipks: seq<Ipk>, recs: seq<AppRecord>, t: Tree)
    requires |recs| < |ipks|
  {
    exists r :: InstalledBy(Plus(t0, recs, 0, |recs|), ipks[|recs|].App(), r, t)
  }

  /** How `install_apps` can end.  A package that cannot be identified or installed undoes
      the installation of all.  A directory without bundles and a malformed control file
      escape the handler: the packages before it stay.  So does a failing removal, and the
      tree tells how far things got. */
  ghost predicate InstallResult(o: Outcome, t0: Tree, ipks: seq<Ipk>, recs: seq<AppRecord>, t: Tree) {
    && Allocated(t0, recs) && Names(recs) <= IpkNames(ipks) && BeforeCommit(t0, IpkNames(ipks), t)
    && Cleared(t0, ipks, |recs|)
    && (o.Raised? ==> |recs| < |ipks|)
    && match o
       case Ok => |recs| == |ipks| && t == Plus(t0, recs, 0, |recs|)
       case Raised(e, Some(cause)) =>
         e == AppUninstallError && InstallFailure(cause) && PartlyRemoved(t0, recs, t)
       case Raised(e, None) =>
         if InstallFailure(e) then t == t0
         else if Uncaught(e) then
           t == Plus(t0, recs, 0, |recs|) && Obstacle(t0, ipks[|recs|]) == Some(e)
         else
           e == AppUninstallError && NotCleanedUp(t0, ipks, recs, t)
  }

  predicate MeetsUncaught(t: Tree, ipk: Ipk) {
    Obstacle(t, ipk).Some? && Uncaught(Obstacle(t, ipk).value)
  }

  /** Some package but the first meets an obstacle that the handler does not catch, and no
      package before it meets any. */
  ghost predicate LeavesPackages(t0: Tree, ipks: seq<Ipk>) {
    exists k :: 0 < k < |ipks| && Cleared(t0, ipks, k) && MeetsUncaught(t0, ipks[k])
  }

  /** When installing is not all-or-nothing, no removal having failed: exactly for the
      packages that LeavesPackages describes if no command fails, and otherwise only then. */
  lemma AllOrNothing(o: Outcome, t0: Tree, ipks: seq<Ipk>, recs: seq<AppRecord>, t: Tree)
    requires InstallResult(o, t0, ipks, recs, t)
    ensures o.Raised? && o.error != AppUninstallError && t != t0 ==> LeavesPackages(t0, ipks)
    ensures o == InstallVerdict(t0, ipks) && LeavesPackages(t0, ipks) ==> o.Raised? && t != t0
  {
    hide Allocated, BeforeCommit, IpkNames, NotCleanedUp, PartlyRemoved, Obstacle, Cleared, FirstObstacle, Names;
    if o.Raised? && Uncaught(o.error) && o.cause == None {
      if recs == [] {
        NothingInstalled(t0);
      } else {
        assert Cleared(t0, ipks, |recs|);
      }
    }
    if o == InstallVerdict(t0, ipks) && LeavesPackages(t0, ipks) {
      LeavesSome(o, t0, ipks, recs, t);
    }
  }

  lemma NothingInstalled(t0: Tree)
    ensures Plus(t0, [], 0, 0) == t0
  {}

  lemma LeavesSome(o: Outcome, t0: Tree, ipks: seq<Ipk>, recs: seq<AppRecord>, t: Tree)
    requires InstallResult(o, t0, ipks, recs, t)
    requires o == InstallVerdict(t0, ipks) && LeavesPackages(t0, ipks)
    ensures o.Raised? && t != t0
  {
    hide BeforeCommit, IpkNames, NotCleanedUp, PartlyRemoved, Obstacle, FirstObstacle, Names;
    var k :| 0 < k < |ipks| && Cleared(t0, ipks, k) && MeetsUncaught(t0, ipks[k]);
    FirstObstacleIs(t0, ipks, k);
    assert |recs| == k;
    NewBundlesAreFresh(t0, recs, 0);
    assert recs[0].NewBundle() in Plus(t0, recs, 0, |recs|).bundles;
  }

  /** An installable package, one whose control data has a URL, and one whose application
      has an empty directory. */
  const PLAIN := Ipk("a.ipk", "Package: a")
  const WITH_URL := Ipk("b.ipk", "Homepage: http://b\nPackage: b")
  const EMPTY := Tree({"a"}, {})

  lemma LeavesPackagesExamples()
    ensures LeavesPackages(Tree({}, {}), [PLAIN, WITH_URL])
    ensures LeavesPackages(EMPTY, [Ipk("c.ipk", "Package: c"), PLAIN])
  {
    hide AppInfo.SplitOn, AppInfo.Lookup;
    PlainPackage(PLAIN, "a");
    PlainPackage(Ipk("c.ipk", "Package: c"), "c");
    UrlIsMalformed();
    hide NameError, Ipk.App;
    assert Cleared(Tree({}, {}), [PLAIN, WITH_URL], 1);
    assert Cleared(EMPTY, [Ipk("c.ipk", "Package: c"), PLAIN], 1);
  }

  lemma PlainPackage(ipk: Ipk, name: string)
    requires ':' !in name && '\n' !in name && name != "" && !AppInfo.IsSpace(name[0])
    requires ipk.control == "Package: " + name
    ensures NameError(ipk) == None && ipk.App() == name
  {
    hide AppInfo.SplitOn, AppInfo.Lookup;
    AppInfo.OneLine("Package", name, ipk.control);
  }

  lemma UrlIsMalformed()
    ensures NameError(WITH_URL) == Some(ValueError)
  {
    hide AppInfo.SplitOn, AppInfo.Lookup, AppInfo.Malformed;
    AppInfo.TwoColons("Homepage", " http", "//b", "Homepage: http://b");
    AppInfo.FirstLine("Homepage: http://b", "Package: b", WITH_URL.control);
  }

  lemma ObstacleIsOriginal(t0: Tree, ipks: seq<Ipk>, recs: seq<AppRecord>, t: Tree, ipk: Ipk)
    requires Installing(t0, ipks, recs, t)
    ensures Obstacle(t, ipk) == Obstacle(t0, ipk)
  {
    var app := ipk.App();
    forall i | 0 <= i < |recs| && recs[i].app == app
      ensures app in t0.dirs ==> recs[i].cur.Some? && recs[i].cur.value in t0.Versions(app)
      ensures recs[i].installed in t.Versions(app)
    {
      CurrentOfRecord(t0, recs, i);
      assert recs[i].NewBundle() in t.bundles;
    }
    hide NameError, Ipk.App;
    assert forall v :: v in t0.Versions(app) ==> Bundle(app, v) in t0.bundles;
    assert forall v :: v in t0.Versions(app) ==> v in t.Versions(app);
    if app in t0.dirs && t0.Versions(app) == {} {
      assert t.Versions(app) == {};
    }
  }
}
