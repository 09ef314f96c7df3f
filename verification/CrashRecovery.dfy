/** What a crash in the middle of an application update can leave on disk, and what the
    boot-time `run-all` makes of it: it keeps the lowest version of every application. */
module CrashRecovery {
  import opened Wrappers
  import opened AppTree

  /** A bundle that an update with these packages may have added to `t0`. */
  ghost predicate IsNew(t0: Tree, names: seq<string>, b: Bundle) {
    && b.app in names
    && t0.Next(b.app) <= b.version
    && (Distinct(names) ==> b.version == t0.Next(b.app))
  }

  /** Nothing of `t0` is lost, and everything else is new. */
  ghost predicate BeforeCommit(t0: Tree, names: seq<string>, t: Tree) {
    && t.Valid()
    && t0.dirs <= t.dirs <= t0.dirs + (set a | a in names)
    && t0.bundles <= t.bundles
    && forall b :: b in t.bundles && b !in t0.bundles ==> IsNew(t0, names, b)
  }

  /** All new bundles are in place and the first k previous ones are gone. */
  ghost predicate AfterCommit(t0: Tree, recs: seq<AppRecord>, t: Tree) {
    && Allocated(t0, recs)
    && Distinct(Names(recs))
    && exists k :: 0 <= k <= |recs| && t == Retired(t0, recs, k)
  }

  ghost predicate CrashState(t0: Tree, names: seq<string>, recs: seq<AppRecord>, t: Tree) {
    BeforeCommit(t0, names, t) || AfterCommit(t0, recs, t)
  }

  lemma PlusBeforeCommit(t0: Tree, names: seq<string>, recs: seq<AppRecord>, lo: nat, hi: nat)
    requires Allocated(t0, recs) && Names(recs) <= names && lo <= hi <= |recs|
    ensures BeforeCommit(t0, names, Plus(t0, recs, lo, hi))
  {
    PlusIsValid(t0, recs, lo, hi);
    forall i | lo <= i < hi
      ensures recs[i].app in names && IsNew(t0, names, recs[i].NewBundle())
    {
      assert recs[i].app == Names(recs)[i] == names[i];
      NewBundlesAreFresh(t0, recs, i);
      if Distinct(names) {
        assert Distinct(Names(recs));
        DistinctAllocation(t0, recs, i);
      }
    }
  }

  /** Whatever state of an update a crash leaves, the applications that are not part of the
      update keep their directory and exactly their versions. */
  lemma OthersAreUntouched(t0: Tree, names: seq<string>, recs: seq<AppRecord>, t: Tree, app: string)
    requires CrashState(t0, names, recs, t) && Names(recs) <= names && app !in names
    ensures t.Versions(app) == t0.Versions(app)
    ensures app in t.dirs <==> app in t0.dirs
  {
    forall i | 0 <= i < |recs| ensures recs[i].app != app {
      assert recs[i].app == Names(recs)[i] == names[i];
    }
    assert forall b: Bundle :: b.app == app ==> (b in t.bundles <==> b in t0.bundles);
  }

  /** The tree that a complete `run-all` leaves. */
  ghost function Recovered(t: Tree): Tree {
    Tree(t.dirs, set b | b in t.bundles && t.Current(b.app) == Some(b.version))
  }

  /** Recovery keeps exactly one bundle, the lowest, of every application that has any. */
  lemma RecoveredVersions(t: Tree, app: string)
    ensures Recovered(t).Versions(app) ==
            (match t.Current(app) case None => {} case Some(v) => {v})
    ensures Recovered(Recovered(t)) == Recovered(t)
  {
    OneVersionLeft(t, app);
    forall b | b in Recovered(t).bundles ensures Recovered(t).Current(b.app) == t.Current(b.app) {
      OneVersionLeft(t, b.app);
    }
    assert Recovered(Recovered(t)).bundles == Recovered(t).bundles;
  }

  lemma OneVersionLeft(t: Tree, app: string)
    ensures Recovered(t).Versions(app) ==
            (match t.Current(app) case None => {} case Some(v) => {v})
  {
    match t.Current(app)
    case None =>
      assert forall b :: b in t.bundles && b.app == app ==> b.version in t.Versions(app);
    case Some(v) =>
      assert Bundle(app, v) in Recovered(t).bundles;
  }

  lemma CurrentIs(t: Tree, b: Bundle)
    requires b in t.bundles && forall c :: c in t.bundles && c.app == b.app ==> b.version <= c.version
    ensures t.Current(b.app) == Some(b.version)
  {
    assert b.version in t.Versions(b.app);
  }

  /** Until the first previous bundle is removed, a crash undoes the update: every
      application that was installed comes back in the version it had, whatever names the
      packages repeat and however many versions were lying about. */
  lemma CrashBeforeCommitKeepsOld(t0: Tree, names: seq<string>, t: Tree, app: string)
    requires BeforeCommit(t0, names, t) && t0.Versions(app) != {}
    ensures Recovered(t).Versions(app) == Recovered(t0).Versions(app) == {t0.Current(app).value}
  {
    var v := t0.Current(app).value;
    assert t0.Next(app) > v;
    CurrentIs(t, Bundle(app, v));
    OneVersionLeft(t, app);
    OneVersionLeft(t0, app);
  }

  /** The previous version if its bundle is still there, and otherwise the new one. */
  ghost function Survivor(t0: Tree, t: Tree, app: string): nat {
    match t0.Current(app)
    case Some(prev) => if Bundle(app, prev) in t.bundles then prev else t0.Next(app)
    case None => t0.Next(app)
  }

  /** Crash recovery.  Start with at most one bundle per application and distinct package
      names.  After a crash in any state of the update, recovery leaves exactly one bundle
      of every application that has any: the previous one if it is still there, and
      otherwise the one the update installed. */
  lemma RecoveryAfterCrash(t0: Tree, names: seq<string>, recs: seq<AppRecord>, t: Tree, app: string)
    requires t0.Valid() && CrashState(t0, names, recs, t)
    requires Distinct(names) && |t0.Versions(app)| <= 1
    ensures t.Versions(app) == {} ==> Recovered(t).Versions(app) == {}
    ensures t.Versions(app) != {} ==> Recovered(t).Versions(app) == {Survivor(t0, t, app)}
  {
    hide CrashState, Distinct, Recovered;
    OneVersionLeft(t, app);
    if t.Versions(app) != {} {
      var w := t.Current(app).value;
      VersionsAfterCrash(t0, names, recs, t, Bundle(app, w));
      match t0.Current(app)
      case None =>
      case Some(prev) => assert prev < t0.Next(app);
    }
  }

  /** A crash leaves no version but the previous and the new one. */
  lemma VersionsAfterCrash(t0: Tree, names: seq<string>, recs: seq<AppRecord>, t: Tree, b: Bundle)
    requires t0.Valid() && CrashState(t0, names, recs, t) && b in t.bundles
    requires Distinct(names) && |t0.Versions(b.app)| <= 1
    ensures b.version == t0.Next(b.app) || t0.Current(b.app) == Some(b.version)
  {
    hide Distinct;
    if b in t0.bundles {
      OnlyVersion(t0, b.app, b.version);
    } else if AfterCommit(t0, recs, t) {
      var i :| 0 <= i < |recs| && recs[i].NewBundle() == b;
      DistinctAllocation(t0, recs, i);
    }
  }

  lemma OnlyVersion(t0: Tree, app: string, v: nat)
    requires |t0.Versions(app)| <= 1 && Bundle(app, v) in t0.bundles
    ensures t0.Current(app) == Some(v)
  {
    assert v in t0.Versions(app);
    AtMostOne(t0.Versions(app), v);
  }

  lemma RetiredBundle(t0: Tree, recs: seq<AppRecord>, k: nat, j: nat, v: nat)
    requires Distinct(Names(recs)) && j < |recs| && k <= |recs|
    ensures Bundle(recs[j].app, v) in Retired(t0, recs, k).bundles <==>
            (Bundle(recs[j].app, v) in t0.bundles || v == recs[j].installed) && !(j < k && recs[j].cur == Some(v))
  {
    var b := Bundle(recs[j].app, v);
    assert forall i :: 0 <= i < |recs| && i != j ==> Names(recs)[i] != Names(recs)[j];
    assert b in News(recs, 0, |recs|) <==> v == recs[j].installed by {
      assert recs[j].NewBundle() in News(recs, 0, |recs|);
    }
    assert b in Olds(recs, 0, k) <==> j < k && recs[j].cur == Some(v);
  }

  /** The versions of an updated application after k previous bundles were removed. */
  lemma RetiredVersions(t0: Tree, recs: seq<AppRecord>, k: nat, j: nat)
    requires Distinct(Names(recs)) && j < |recs| && k <= |recs|
    ensures Retired(t0, recs, k).Versions(recs[j].app) ==
            t0.Versions(recs[j].app) + {recs[j].installed}
            - (if j < k && recs[j].cur.Some? then {recs[j].cur.value} else {})
  {
    var t, app := Retired(t0, recs, k), recs[j].app;
    forall v: nat
      ensures v in t.Versions(app) <==> Bundle(app, v) in t.bundles
      ensures v in t0.Versions(app) <==> Bundle(app, v) in t0.bundles
      ensures Bundle(app, v) in t.bundles <==>
              (Bundle(app, v) in t0.bundles || v == recs[j].installed) && !(j < k && recs[j].cur == Some(v))
    {
      RetiredBundle(t0, recs, k, j, v);
    }
  }

  /** The lowest version is `n` exactly when nothing else is left, if `n` is the highest. */
  lemma HighestIsCurrent(t: Tree, app: string, others: set<nat>, n: nat)
    requires t.Versions(app) == others + {n} && forall v :: v in others ==> v < n
    ensures t.Current(app) == Some(n) <==> others == {}
  {
    var c := Min(t.Versions(app));
    if others != {} {
      var v :| v in others;
      assert v in t.Versions(app);
    }
  }

  lemma NewIsCurrentAlone(t: Tree, app: string, versions: set<nat>, c: nat, n: nat)
    requires c in versions && forall v :: v in versions ==> v < n
    requires t.Versions(app) == versions + {n} - {c}
    ensures t.Current(app) == Some(n) <==> |versions| <= 1
  {
    AtMostOne(versions, c);
    assert t.Versions(app) == versions - {c} + {n};
    HighestIsCurrent(t, app, versions - {c}, n);
  }

  /** A finished update survives a reboot exactly for the applications that had no version
      besides the current one: any further old version would win over the new one. */
  lemma UpdateSurvivesReboot(t0: Tree, recs: seq<AppRecord>, j: nat)
    requires Allocated(t0, recs) && Distinct(Names(recs)) && j < |recs|
    ensures Recovered(Retired(t0, recs, |recs|)).Versions(recs[j].app) == {recs[j].installed}
            <==> |t0.Versions(recs[j].app)| <= 1
  {
    var t, app, n := Retired(t0, recs, |recs|), recs[j].app, recs[j].installed;
    DistinctAllocation(t0, recs, j);
    OneVersionLeft(t, app);
    assert t.Current(app) == Some(n) <==> |t0.Versions(app)| <= 1 by {
      RetiredVersions(t0, recs, |recs|, j);
      assert forall v :: v in t0.Versions(app) ==> Bundle(app, v) in t0.bundles;
      if t0.Versions(app) == {} {
        HighestIsCurrent(t, app, {}, n);
      } else {
        NewIsCurrentAlone(t, app, t0.Versions(app), recs[j].cur.value, n);
      }
    }
  }

  /** A tree with two versions is what a failed removal of old bundles leaves of application
      j.  The next update of it is lost at the reboot after it: back comes the version that
      the failed update installed. */
  lemma NextUpdateIsLost(t0: Tree, recs: seq<AppRecord>, k: nat, j: nat, next: seq<AppRecord>, i: nat)
    requires Allocated(t0, recs) && Distinct(Names(recs)) && k <= j < |recs| && recs[j].cur.Some?
    requires |t0.Versions(recs[j].app)| <= 1
    requires Allocated(Retired(t0, recs, k), next) && Distinct(Names(next))
    requires i < |next| && next[i].app == recs[j].app
    ensures Retired(t0, recs, k).Versions(recs[j].app) == {recs[j].cur.value, recs[j].installed}
    ensures recs[j].cur.value < recs[j].installed < next[i].installed
    ensures Recovered(Retired(Retired(t0, recs, k), next, |next|)).Versions(recs[j].app) == {recs[j].installed}
  {
    hide Allocated, Distinct, Retired, Recovered;
    var t, app, n := Retired(t0, recs, k), recs[j].app, recs[j].installed;
    DistinctAllocation(t0, recs, j);
    OnlyVersion(t0, app, recs[j].cur.value);
    RetiredVersions(t0, recs, k, j);
    AtMostOne(t0.Versions(app), recs[j].cur.value);
    assert t.Versions(app) == {recs[j].cur.value, n};
    var v := recs[j].cur.value;
    TwoVersions(t, app, v, n);
    DistinctAllocation(t, next, i);
    RetiredVersions(t, next, |next|, i);
    var t2 := Retired(t, next, |next|);
    assert t2.Versions(app) == {n, n + 1};
    TwoVersions(t2, app, n, n + 1);
    OneVersionLeft(t2, app);
  }

  lemma TwoVersions(t: Tree, app: string, v: nat, n: nat)
    requires t.Versions(app) == {v, n} && v < n
    ensures t.Current(app) == Some(v) && t.Next(app) == n + 1
  {
    forall u | u in t.Versions(app) ensures Bundle(app, u) in t.bundles {}
    assert v in t.Versions(app) && n in t.Versions(app);
    assert t.Next(app) - 1 in t.Versions(app);
  }

  lemma AtMostOne(s: set<nat>, c: nat)
    requires c in s
    ensures |s| <= 1 <==> s - {c} == {}
  {
    assert s == s - {c} + {c};
    assert |s| == |s - {c}| + 1;
  }

  /** The switch to the new versions is not atomic across applications: a crash after k
      removals brings the first k applications back new and the later ones old. */
  lemma CrashMixesVersions(t0: Tree, recs: seq<AppRecord>, k: nat, j: nat)
    requires Allocated(t0, recs) && Distinct(Names(recs)) && j < |recs| && k <= |recs|
    requires |t0.Versions(recs[j].app)| <= 1
    ensures Recovered(Retired(t0, recs, k)).Versions(recs[j].app) ==
            {if j < k || recs[j].cur == None then recs[j].installed else recs[j].cur.value}
  {
    var t, app := Retired(t0, recs, k), recs[j].app;
    DistinctAllocation(t0, recs, j);
    RetiredVersions(t0, recs, k, j);
    assert recs[j].installed in t.Versions(app);
    assert AfterCommit(t0, recs, t);
    RecoveryAfterCrash(t0, Names(recs), recs, t, app);
    forall v ensures v in t.Versions(app) <==> Bundle(app, v) in t.bundles {}
  }
}
