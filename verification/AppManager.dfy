/** Installing and removing one application package. */
module AppManager {
  import opened Wrappers
  import opened Exceptions
  import opened AppTree
  import opened ContainerRuntime
  import AppInfo

  /** A package file and the control data that opkg reports for it. */
  datatype Ipk = Ipk(path: string, control: string) {
    function Lines(): seq<string> { AppInfo.SplitOn(control, '\n') }

    predicate Malformed() { exists line :: line in Lines() && AppInfo.Malformed(line) }

    function Package(): Option<string> { AppInfo.Lookup(Lines(), "Package") }

    /** The application named in the control data, if there is one. */
    function App(): string { if Package() == None then "" else Package().value }
  }

  /** What the control data alone makes `get_app_name` raise. */
  function NameError(ipk: Ipk): Option<Error> {
    if ipk.Malformed() then Some(ValueError) else if ipk.Package() == None then Some(AppIdError) else None
  }

  /** How many commands fail when an installation ends like this. */
  predicate InstallFailures(o: Outcome, n: int) {
    match o
    case Ok => n == 0
    case Raised(AppIdError, _) => 0 <= n <= 1
    case Raised(AppInstallError, _) => n == 1
    case Raised(AppUninstallError, None) => n == 2
    case Raised(AppUninstallError, Some(AppInstallError)) => n == 2
    case Raised(AppUninstallError, _) => 1 <= n <= 2
    case _ => n == 0
  }

  /** `get_app_name`; `opkg info` may fail. */
  method GetAppName(d: Device, ipk: Ipk) returns (o: Outcome, name: string)
    modifies d`trouble, d`trace
    ensures d.trouble == old(d.trouble) || (o == Raise(AppIdError) && d.trouble == old(d.trouble) + 1)
    ensures d.trace == old(d.trace) + [Event(ReadInfo(ipk.path), o)]
    ensures o.Ok? ==> NameError(ipk) == None && name == ipk.App()
    ensures o.Ok? ==> AppInfo.Lookup(AppInfo.SplitOn(ipk.control, '\n'), "Package") == Some(name)
    ensures o.Ok? ==> forall line :: line in AppInfo.SplitOn(ipk.control, '\n') ==> |AppInfo.SplitOn(line, ':')| <= 2
    ensures o.Raised? ==> o in {Raise(AppIdError), Raise(ValueError)}
    ensures o == Raise(ValueError) ==> NameError(ipk) == Some(ValueError)
    ensures o.Raised? && d.trouble == old(d.trouble) ==> NameError(ipk) == Some(o.error)
  {
    if * {
      d.Trouble();
      o, name := Raise(AppIdError), "";
    } else {
      o, name := AppInfo.ParsePackageName(ipk.control);
    }
    d.Record(ReadInfo(ipk.path), o);
  }

  /** `opkg install` into the directory of bundle `b`.  When it fails it may leave a part
      of the bundle behind. */
  method OpkgInstall(d: Device, path: string, b: Bundle) returns (o: Outcome)
    modifies d`tree, d`history, d`trouble, d`trace
    ensures o == Ok || o == Raise(AppInstallError)
    ensures d.trouble == old(d.trouble) + (if o.Ok? then 0 else 1)
    ensures d.trace == old(d.trace) + [Event(InstallPackage(path, b), o)]
    ensures (o.Raised? && d.tree == old(d.tree) && d.history == old(d.history))
            || (d.tree == old(d.tree).Install(b) && d.history == old(d.history) + [d.tree])
  {
    o := Ok;
    if * {
      d.SetTree(d.tree.Install(b));
    } else {
      d.Trouble();
      o := Raise(AppInstallError);
      if * {
        d.SetTree(d.tree.Install(b));
      }
    }
    d.Record(InstallPackage(path, b), o);
  }

  /** `install_app`: what a failed installation leaves of the bundle is removed. */
  method InstallApp(d: Device, ipk: Ipk, b: Bundle) returns (o: Outcome)
    requires d.Valid() && ipk.App() == b.app && d.tree.Valid()
    modifies d`tree, d`history, d`trouble, d`trace
    ensures d.Valid() && old(d.history) <= d.history
    ensures InstallFailures(o, d.trouble - old(d.trouble))
    ensures o.Raised? && d.trouble == old(d.trouble) ==> NameError(ipk) == Some(o.error)
    ensures old(d.trace) < d.trace && d.trace[|old(d.trace)|].command == ReadInfo(ipk.path)
    ensures o.Ok? ==> d.trace[|d.trace| - 1] == Event(InstallPackage(ipk.path, b), Ok)
    ensures o == Raise(AppIdError) || o == Raise(ValueError) ==> d.trace[|d.trace| - 1] == Event(ReadInfo(ipk.path), o)
    ensures o == Raise(AppInstallError) || o == Raise(AppUninstallError) ==>
              |d.trace| > |old(d.trace)| + 1
              && d.trace[|old(d.trace)| + 1] == Event(InstallPackage(ipk.path, b), Raise(AppInstallError))
    ensures o == Raise(AppUninstallError) ==> d.trace[|d.trace| - 1] == Event(RemoveBundle(b), o)
    ensures forall k :: |old(d.history)| <= k < |d.history| ==>
              d.history[k] == old(d.tree).Install(b) || d.history[k] == old(d.tree).Install(b).Remove(b)
    ensures o.Ok? ==> d.tree == old(d.tree).Install(b)
    ensures o.Raised? ==>
              || o == Raise(AppIdError) || o == Raise(ValueError)
              || o == Raise(AppInstallError) || o == Raise(AppUninstallError)
    ensures o == Raise(ValueError) ==> NameError(ipk) == Some(ValueError)
    ensures o == Raise(AppIdError) || o == Raise(ValueError) ==> d.tree == old(d.tree)
    ensures o == Raise(AppUninstallError) ==> d.tree == old(d.tree).Install(b)
    ensures o == Raise(AppInstallError) ==>
              && b !in d.tree.bundles
              && (d.tree == old(d.tree) || d.tree == old(d.tree).Install(b).Remove(b))
  {
    hide NameError, Ipk.App, Tree.Remove, Tree.Install, AppInfo.SplitOn, AppInfo.Lookup;
    var _ :- GetAppName(d, ipk);
    o := OpkgInstall(d, ipk.path, b);
    if o.Ok? {
      return;
    }
    InstallThenRemove(old(d.tree), b);
    if b in d.tree.bundles {
      :- RemoveApp(d, b);
    }
    return Raise(AppInstallError);
  }

  lemma InstallThenRemove(t: Tree, b: Bundle)
    requires t.Valid()
    ensures b in t.Install(b).bundles && b !in t.Install(b).Remove(b).bundles
    ensures b in t.bundles ==> t.Install(b) == t
  {
  }

  /** `opkg remove`, then the directory itself and an emptied parent directory. */
  method RemoveApp(d: Device, b: Bundle) returns (o: Outcome)
    requires d.Valid()
    modifies d`tree, d`history, d`trouble, d`trace
    ensures d.Valid()
    ensures o.Ok? ==> b in old(d.tree).bundles
                      && d.tree == old(d.tree).Remove(b) && d.history == old(d.history) + [d.tree]
    ensures o.Raised? ==> d.tree == old(d.tree) && d.history == old(d.history)
    ensures o.Raised? ==> o in {Raise(AppPathInexistent), Raise(AppUninstallError)}
    ensures o == Raise(AppPathInexistent) <==> b !in old(d.tree).bundles
    ensures d.trouble == old(d.trouble) + (if o == Raise(AppUninstallError) then 1 else 0)
    ensures d.trace == old(d.trace) + [Event(RemoveBundle(b), o)]
  {
    if b !in d.tree.bundles {
      o := Raise(AppPathInexistent);
    } else if * {
      d.Trouble();
      o := Raise(AppUninstallError);
    } else {
      d.SetTree(d.tree.Remove(b));
      o := Ok;
    }
    d.Record(RemoveBundle(b), o);
  }
}
