/** The tree under `/home/app`: one directory per application, holding one directory per
    installed version (an OCI bundle named by a decimal number). */
module AppTree {
  import opened Wrappers
  import NaturalSort

  const APPS_PATH := "/home/app"

  datatype Bundle = Bundle(app: string, version: nat)

  function ParentDir(app: string): string { APPS_PATH + "/" + app }

  function PathOf(b: Bundle): string {
    ParentDir(b.app) + "/" + NaturalSort.Decimal(b.version)
  }

  /** The bundle of an application that lies at a path. */
  function BundleAt(app: string, path: string): Bundle {
    Bundle(app, NaturalSort.VersionOf(path))
  }

  lemma PathNamesBundle(b: Bundle)
    ensures NaturalSort.IsVersionPath(ParentDir(b.app), PathOf(b))
    ensures BundleAt(b.app, PathOf(b)) == b
  {
    NaturalSort.VersionOfJoin(ParentDir(b.app), b.version);
  }

  /** For example, version 10 of application "hello". */
  lemma PathOfHello()
    ensures PathOf(Bundle("hello", 10)) == "/home/app/hello/10"
  {
    assert NaturalSort.Decimal(1) == "1";
    assert NaturalSort.Decimal(10) == NaturalSort.Decimal(1) + "0";
    hide NaturalSort.Decimal;
  }

  /** The paths are those of the bundles of one application, each once. */
  ghost predicate ListsBundles(app: string, bundles: set<Bundle>, paths: seq<string>) {
    && NaturalSort.NoDuplicates(paths)
    && (forall p :: p in paths ==> BundleAt(app, p) in bundles && p == PathOf(BundleAt(app, p)))
    && (forall b :: b in bundles && b.app == app ==> PathOf(b) in paths)
  }

  ghost function Min(s: set<nat>): (m: nat)
    requires s != {}
    ensures m in s && forall x :: x in s ==> m <= x
  {
    var x :| x in s;
    if s == {x} then x
    else
      var rest := s - {x};
      assert s == rest + {x};
      var m := Min(rest);
      if x < m then x else m
  }

  ghost function Max(s: set<nat>): (m: nat)
    requires s != {}
    ensures m in s && forall x :: x in s ==> x <= m
  {
    var x :| x in s;
    if s == {x} then x
    else
      var rest := s - {x};
      assert s == rest + {x};
      var m := Max(rest);
      if m < x then x else m
  }

  datatype Tree = Tree(dirs: set<string>, bundles: set<Bundle>) {

    /** Every bundle lies in the directory of its application. */
    predicate Valid() { forall b :: b in bundles ==> b.app in dirs }

    function Versions(app: string): set<nat> {
      set b | b in bundles && b.app == app :: b.version
    }

    /** The lowest installed version: the one `run-all` keeps. */
    ghost function Current(app: string): (v: Option<nat>)
      ensures v == None <==> Versions(app) == {}
      ensures v.Some? ==> Bundle(app, v.value) in bundles
      ensures v.Some? ==> forall b :: b in bundles && b.app == app ==> v.value <= b.version
    {
      assert forall b :: b in bundles && b.app == app ==> b.version in Versions(app);
      if Versions(app) == {} then None else Some(Min(Versions(app)))
    }

    /** The number given to the next installed version. */
    ghost function Next(app: string): (v: nat)
      ensures forall b :: b in bundles && b.app == app ==> b.version < v
      ensures v == 0 || Bundle(app, v - 1) in bundles
    {
      assert forall b :: b in bundles && b.app == app ==> b.version in Versions(app);
      if Versions(app) == {} then 0 else Max(Versions(app)) + 1
    }

    function Install(b: Bundle): Tree {
      Tree(dirs + {b.app}, bundles + {b})
    }

    /** Removing the last bundle of an application removes its directory as well. */
    function Remove(b: Bundle): Tree {
      var rest := bundles - {b};
      Tree(if exists c :: c in rest && c.app == b.app then dirs else dirs - {b.app}, rest)
    }
  }

  /** What one `AppRecord` remembers: the version that was current when the package was
      installed, if any, and the version the package was installed as. */
  datatype AppRecord = AppRecord(app: string, cur: Option<nat>, installed: nat) {
    function NewBundle(): Bundle { Bundle(app, installed) }
  }

  function Names(recs: seq<AppRecord>): (names: seq<string>)
    ensures |names| == |recs| && forall i :: 0 <= i < |recs| ==> names[i] == recs[i].app
  {
    seq(|recs|, i requires 0 <= i < |recs| => recs[i].app)
  }

  ghost predicate Distinct(names: seq<string>) {
    forall i, j :: 0 <= i < j < |names| ==> names[i] != names[j]
  }

  /** Applications, new bundles and previous bundles of the records lo..hi. */
  ghost function Apps(recs: seq<AppRecord>, lo: nat, hi: nat): set<string>
    requires lo <= hi <= |recs|
  {
    set i | lo <= i < hi :: recs[i].app
  }

  ghost function News(recs: seq<AppRecord>, lo: nat, hi: nat): set<Bundle>
    requires lo <= hi <= |recs|
  {
    set i | lo <= i < hi :: recs[i].NewBundle()
  }

  ghost function Olds(recs: seq<AppRecord>, lo: nat, hi: nat): set<Bundle>
    requires lo <= hi <= |recs|
  {
    set i | lo <= i < hi && recs[i].cur.Some? :: Bundle(recs[i].app, recs[i].cur.value)
  }

  /** The tree with the new bundles of the records lo..hi added. */
  ghost function Plus(t: Tree, recs: seq<AppRecord>, lo: nat, hi: nat): Tree
    requires lo <= hi <= |recs|
  {
    Tree(t.dirs + Apps(recs, lo, hi), t.bundles + News(recs, lo, hi))
  }

  /** The tree with every new bundle, less the previous bundles of the first k records. */
  ghost function Retired(t: Tree, recs: seq<AppRecord>, k: nat): Tree
    requires k <= |recs|
  {
    var full := Plus(t, recs, 0, |recs|);
    Tree(full.dirs, full.bundles - Olds(recs, 0, k))
  }

  /** The record that installing `app` into `t` produces.  There is none when the
      directory of the application exists without any bundle in it. */
  ghost predicate AllocatedIn(t: Tree, r: AppRecord) {
    && r.cur == t.Current(r.app)
    && r.installed == t.Next(r.app)
    && (r.app in t.dirs ==> r.cur.Some?)
  }

  /** Each record was allocated in the tree left by the installations before it. */
  ghost predicate Allocated(t: Tree, recs: seq<AppRecord>) {
    && t.Valid()
    && forall i :: 0 <= i < |recs| ==> AllocatedIn(Plus(t, recs, 0, i), recs[i])
  }

  lemma PlusOfPrefix(t: Tree, recs: seq<AppRecord>, r: AppRecord, i: nat)
    requires i <= |recs|
    ensures Plus(t, recs + [r], 0, i) == Plus(t, recs, 0, i)
  {
    var q := recs + [r];
    assert forall k :: 0 <= k < i ==> q[k] == recs[k];
    assert Apps(q, 0, i) == Apps(recs, 0, i);
    assert News(q, 0, i) == News(recs, 0, i);
  }

  lemma PlusGrows(t: Tree, recs: seq<AppRecord>, k: nat)
    requires k < |recs|
    ensures Plus(t, recs, 0, k + 1) == Plus(t, recs, 0, k).Install(recs[k].NewBundle())
  {
    assert Apps(recs, 0, k + 1) == Apps(recs, 0, k) + {recs[k].app};
    assert News(recs, 0, k + 1) == News(recs, 0, k) + {recs[k].NewBundle()};
  }

  lemma PlusShrinks(t: Tree, recs: seq<AppRecord>, k: nat)
    requires k < |recs|
    ensures Plus(t, recs, k, |recs|) == Plus(t, recs, k + 1, |recs|).Install(recs[k].NewBundle())
  {
    assert Apps(recs, k, |recs|) == Apps(recs, k + 1, |recs|) + {recs[k].app};
    assert News(recs, k, |recs|) == News(recs, k + 1, |recs|) + {recs[k].NewBundle()};
  }

  lemma AllocateNext(t: Tree, recs: seq<AppRecord>, r: AppRecord)
    requires Allocated(t, recs) && AllocatedIn(Plus(t, recs, 0, |recs|), r)
    ensures Allocated(t, recs + [r])
  {
    var q := recs + [r];
    forall i | 0 <= i < |q| ensures AllocatedIn(Plus(t, q, 0, i), q[i]) {
      PlusOfPrefix(t, recs, r, i);
      assert i < |recs| ==> q[i] == recs[i];
    }
  }

  /** New bundles are new: different from everything installed before, and numbered
      above every earlier version of the same application. */
  lemma NewBundlesAreFresh(t: Tree, recs: seq<AppRecord>, j: nat)
    requires Allocated(t, recs) && j < |recs|
    ensures recs[j].installed >= t.Next(recs[j].app)
    ensures recs[j].NewBundle() !in t.bundles
    ensures forall i :: 0 <= i < j ==> recs[i].NewBundle() != recs[j].NewBundle()
  {
    var before := Plus(t, recs, 0, j);
    var app := recs[j].app;
    assert AllocatedIn(before, recs[j]);
    assert t.Next(app) > 0 ==> Bundle(app, t.Next(app) - 1) in before.bundles;
    forall i | 0 <= i < j ensures recs[i].NewBundle() != recs[j].NewBundle() {
      assert recs[i].NewBundle() in before.bundles;
    }
  }

  /** When no application occurs twice, a record depends on the original tree only. */
  lemma DistinctAllocation(t: Tree, recs: seq<AppRecord>, j: nat)
    requires Allocated(t, recs) && j < |recs| && Distinct(Names(recs))
    ensures recs[j].installed == t.Next(recs[j].app)
    ensures recs[j].cur == t.Current(recs[j].app)
    ensures recs[j].app in t.dirs ==> recs[j].cur.Some?
  {
    var before := Plus(t, recs, 0, j);
    var app := recs[j].app;
    assert AllocatedIn(before, recs[j]);
    assert forall i :: 0 <= i < j ==> Names(recs)[i] != Names(recs)[j];
    assert before.Versions(app) == t.Versions(app);
  }

  /** The current version a record remembers is the lowest one installed before the
      update; for an application that was not installed it is a bundle of this update. */
  lemma CurrentOfRecord(t: Tree, recs: seq<AppRecord>, j: nat)
    requires Allocated(t, recs) && j < |recs|
    ensures recs[j].app in t.dirs ==> recs[j].cur.Some? && Bundle(recs[j].app, recs[j].cur.value) in t.bundles
    ensures forall i :: 0 <= i < j && recs[i].app == recs[j].app ==> recs[j].cur.Some?
  {
    var before := Plus(t, recs, 0, j);
    var app := recs[j].app;
    assert AllocatedIn(before, recs[j]);
    forall i | 0 <= i < j && recs[i].app == app
      ensures recs[j].cur.Some? && (app in t.dirs ==> recs[j].cur.value < recs[i].installed)
    {
      assert recs[i].NewBundle() in before.bundles;
      assert recs[i].installed in before.Versions(app);
      if app in t.dirs {
        assert AllocatedIn(Plus(t, recs, 0, i), recs[i]);
        var earlier := Bundle(app, recs[i].cur.value);
        assert earlier in Plus(t, recs, 0, i).bundles;
        assert earlier in before.bundles;
      }
    }
  }

  /** Removing a freshly installed bundle restores the tree, directory included. */
  lemma RemoveUndoesInstall(t: Tree, b: Bundle)
    requires t.Valid() && b !in t.bundles
    requires b.app in t.dirs ==> exists c :: c in t.bundles && c.app == b.app
    ensures t.Install(b).Remove(b) == t
  {
    assert t.Install(b).bundles - {b} == t.bundles;
    if b.app !in t.dirs {
      assert forall c :: c in t.bundles ==> c.app != b.app;
      assert t.dirs + {b.app} - {b.app} == t.dirs;
    }
  }

  lemma PlusIsValid(t: Tree, recs: seq<AppRecord>, lo: nat, hi: nat)
    requires t.Valid() && lo <= hi <= |recs|
    ensures Plus(t, recs, lo, hi).Valid()
  {
    forall i | lo <= i < hi ensures recs[i].NewBundle().app in Apps(recs, lo, hi) {}
  }

  /** Removing the new bundles one by one walks back through `Plus`. */
  lemma RemoveUndoesPlus(t: Tree, recs: seq<AppRecord>, k: nat)
    requires Allocated(t, recs) && k < |recs|
    ensures recs[k].NewBundle() in Plus(t, recs, k, |recs|).bundles
    ensures Plus(t, recs, k, |recs|).Remove(recs[k].NewBundle()) == Plus(t, recs, k + 1, |recs|)
  {
    var n, b := |recs|, recs[k].NewBundle();
    var rest := Plus(t, recs, k + 1, n);
    NewBundlesAreFresh(t, recs, k);
    forall j | k < j < n ensures recs[j].NewBundle() != b {
      NewBundlesAreFresh(t, recs, j);
    }
    PlusShrinks(t, recs, k);
    PlusIsValid(t, recs, k + 1, n);
    if b.app in t.dirs {
      CurrentOfRecord(t, recs, k);
      assert Bundle(b.app, recs[k].cur.value) in rest.bundles;
    } else if b.app in rest.dirs {
      var j :| k < j < n && recs[j].app == b.app;
      assert recs[j].NewBundle() in rest.bundles;
    }
    RemoveUndoesInstall(rest, b);
  }

  /** With distinct names, retiring a previous bundle finds it in place and keeps the
      directory of the application. */
  lemma RetireOne(t: Tree, recs: seq<AppRecord>, k: nat)
    requires Allocated(t, recs) && Distinct(Names(recs)) && k < |recs| && recs[k].cur.Some?
    ensures Bundle(recs[k].app, recs[k].cur.value) in Retired(t, recs, k).bundles
    ensures Retired(t, recs, k).Remove(Bundle(recs[k].app, recs[k].cur.value)) == Retired(t, recs, k + 1)
  {
    var b := Bundle(recs[k].app, recs[k].cur.value);
    DistinctAllocation(t, recs, k);
    NotRetiredYet(recs, k);
    NewBundleStays(t, recs, k, k + 1);
    assert b in t.bundles;
    hide Allocated, Distinct, Olds;
    assert Retired(t, recs, k).bundles - {b} == Retired(t, recs, k + 1).bundles;
    assert recs[k].NewBundle().app == b.app;
  }

  lemma NotRetiredYet(recs: seq<AppRecord>, k: nat)
    requires Distinct(Names(recs)) && k < |recs| && recs[k].cur.Some?
    ensures var b := Bundle(recs[k].app, recs[k].cur.value);
            b !in Olds(recs, 0, k) && Olds(recs, 0, k + 1) == Olds(recs, 0, k) + {b}
  {
    forall i | 0 <= i < k ensures recs[i].app != recs[k].app {
      assert Names(recs)[i] != Names(recs)[k];
    }
  }

  lemma RetireNone(t: Tree, recs: seq<AppRecord>, k: nat)
    requires k < |recs| && recs[k].cur == None
    ensures Retired(t, recs, k + 1) == Retired(t, recs, k)
  {
    assert Olds(recs, 0, k + 1) == Olds(recs, 0, k);
  }

  /** Retiring previous bundles never removes a new one. */
  lemma NewBundleStays(t: Tree, recs: seq<AppRecord>, j: nat, k: nat)
    requires Allocated(t, recs) && Distinct(Names(recs)) && j < |recs| && k <= |recs|
    ensures recs[j].NewBundle() in Retired(t, recs, k).bundles
  {
    NewBundlesAreFresh(t, recs, j);
    forall i | 0 <= i < k && recs[i].cur.Some?
      ensures Bundle(recs[i].app, recs[i].cur.value) in t.bundles
    {
      DistinctAllocation(t, recs, i);
    }
  }
}
