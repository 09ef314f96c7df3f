/** The handshake between the application installer, one run per request, and the update
    daemon: two shell scripts that share four files in one directory.

    Every command is one atomic step, except that a redirection first creates an empty file
    and then writes it.  A test for a file that is missing leaves the process where it is. */
module FlagHandshake {

  datatype File<T> = Missing | Empty | Holds(value: T)

  datatype DaemonPc =
    | WaitForDo
    | RemoveDo
    | CatPath
    | RunManager(path: string)
    | CreateRc(status: int)
    | WriteRc(status: int)
    | RemovePath
    | TouchDone

  datatype InstallerPc =
    | Idle
    | CreatePath(path: string)
    | WritePath(path: string)
    | TouchDo
    | WaitForDone
    | RemoveDone
    | CatRc
    | RemoveRc(answer: int)

  /** One run of the update manager. */
  datatype ManagerRun = ManagerRun(path: string, status: int)

  /** `requests`, `runs` and `answers` (the exit statuses of the installer) are only
      observed, and `fault` records a `cat` or `rm` of a missing or unwritten file. */
  datatype System = System(
    firmwarePath: File<string>,
    doUpdate: bool,
    doneUpdate: bool,
    updateRc: File<int>,
    daemon: DaemonPc,
    installer: InstallerPc,
    requests: seq<string>,
    runs: seq<ManagerRun>,
    answers: seq<int>,
    fault: bool)

  function Initial(): System {
    System(Missing, false, false, Missing, WaitForDo, Idle, [], [], [], false)
  }

  /** The next installer may start at any time, a process may take its next step, and the
      manager's exit status is arbitrary. */
  datatype Step = Begin(path: string) | Installer | Daemon(status: int)

  predicate Enabled(s: System, step: Step) {
    match step
    case Begin(_) => s.installer == Idle
    case Installer => s.installer != Idle
    case Daemon(_) => true
  }

  /** `exit 47` on a non-zero status. */
  function ExitStatus(rc: int): int {
    if rc != 0 then 47 else 0
  }

  function Apply(s: System, step: Step): System
    requires Enabled(s, step)
  {
    match step
    case Begin(path) => s.(installer := CreatePath(path), requests := s.requests + [path])
    case Installer => InstallerStep(s)
    case Daemon(status) => DaemonStep(s, status)
  }

  function InstallerStep(s: System): System
    requires s.installer != Idle
  {
    match s.installer
    case CreatePath(path) => s.(firmwarePath := Empty, installer := WritePath(path))
    case WritePath(path) => s.(firmwarePath := Holds(path), installer := TouchDo)
    case TouchDo => s.(doUpdate := true, installer := WaitForDone)
    case WaitForDone => if s.doneUpdate then s.(installer := RemoveDone) else s
    case RemoveDone => s.(doneUpdate := false, installer := CatRc, fault := s.fault || !s.doneUpdate)
    case CatRc =>
      (match s.updateRc
       case Holds(rc) => s.(installer := RemoveRc(rc))
       case _ => s.(installer := RemoveRc(0), fault := true))
    case RemoveRc(rc) =>
      s.(updateRc := Missing, installer := Idle, answers := s.answers + [ExitStatus(rc)],
         fault := s.fault || s.updateRc == Missing)
  }

  function DaemonStep(s: System, status: int): System {
    match s.daemon
    case WaitForDo => if s.doUpdate then s.(daemon := RemoveDo) else s
    case RemoveDo => s.(doUpdate := false, daemon := CatPath, fault := s.fault || !s.doUpdate)
    case CatPath =>
      (match s.firmwarePath
       case Holds(path) => s.(daemon := RunManager(path))
       case _ => s.(daemon := RunManager(""), fault := true))
    case RunManager(path) => s.(daemon := CreateRc(status), runs := s.runs + [ManagerRun(path, status)])
    case CreateRc(rc) => s.(updateRc := Empty, daemon := WriteRc(rc))
    case WriteRc(rc) => s.(updateRc := Holds(rc), daemon := RemovePath)
    case RemovePath => s.(firmwarePath := Missing, daemon := TouchDone, fault := s.fault || s.firmwarePath == Missing)
    case TouchDone => s.(doneUpdate := true, daemon := WaitForDo)
  }

  ghost predicate Run(s: System, steps: seq<Step>, s': System)
    decreases |steps|
  {
    if steps == [] then s == s'
    else Enabled(s, steps[0]) && Run(Apply(s, steps[0]), steps[1..], s')
  }

  // ----------------------------------------------------------------- invariant

  ghost predicate Files(s: System, path: File<string>, doUpdate: bool, doneUpdate: bool, rc: File<int>) {
    s.firmwarePath == path && s.doUpdate == doUpdate && s.doneUpdate == doneUpdate && s.updateRc == rc
  }

  /** The daemon has run the manager for the current request. */
  ghost predicate HasRun(s: System) {
    && |s.runs| == |s.answers| + 1
    && s.requests != [] && s.runs[|s.runs| - 1].path == s.requests[|s.requests| - 1]
  }

  ghost predicate NotRun(s: System) {
    |s.runs| == |s.answers|
  }

  /** Where both processes are determines the four files completely. */
  ghost predicate Agreed(s: System) {
    match s.installer
    case Idle =>
      s.daemon == WaitForDo && Files(s, Missing, false, false, Missing) && NotRun(s)
    case CreatePath(p) =>
      s.daemon == WaitForDo && Files(s, Missing, false, false, Missing) && NotRun(s) && IsCurrent(s, p)
    case WritePath(p) =>
      s.daemon == WaitForDo && Files(s, Empty, false, false, Missing) && NotRun(s) && IsCurrent(s, p)
    case TouchDo =>
      s.daemon == WaitForDo && s.firmwarePath.Holds? && IsCurrent(s, s.firmwarePath.value)
      && Files(s, s.firmwarePath, false, false, Missing) && NotRun(s)
    case WaitForDone => DaemonAtWork(s)
    case RemoveDone => Answered(s, true)
    case CatRc => Answered(s, false)
    case RemoveRc(rc) => Answered(s, false) && s.updateRc == Holds(rc)
  }

  ghost predicate IsCurrent(s: System, path: string) {
    s.requests != [] && s.requests[|s.requests| - 1] == path
  }

  /** The daemon is done with the current request, whose status waits in a file. */
  ghost predicate Answered(s: System, doneUpdate: bool) {
    && s.daemon == WaitForDo && HasRun(s)
    && Files(s, Missing, false, doneUpdate, Holds(s.runs[|s.runs| - 1].status))
  }

  ghost predicate DaemonAtWork(s: System) {
    match s.daemon
    case WaitForDo => Answered(s, true) || (PathReady(s) && Files(s, s.firmwarePath, true, false, Missing) && NotRun(s))
    case RemoveDo => PathReady(s) && Files(s, s.firmwarePath, true, false, Missing) && NotRun(s)
    case CatPath => PathReady(s) && Files(s, s.firmwarePath, false, false, Missing) && NotRun(s)
    case RunManager(p) =>
      PathReady(s) && s.firmwarePath.value == p && Files(s, s.firmwarePath, false, false, Missing) && NotRun(s)
    case CreateRc(rc) =>
      PathReady(s) && Files(s, s.firmwarePath, false, false, Missing) && HasRun(s) && s.runs[|s.runs| - 1].status == rc
    case WriteRc(rc) =>
      PathReady(s) && Files(s, s.firmwarePath, false, false, Empty) && HasRun(s) && s.runs[|s.runs| - 1].status == rc
    case RemovePath =>
      PathReady(s) && HasRun(s) && Files(s, s.firmwarePath, false, false, Holds(s.runs[|s.runs| - 1].status))
    case TouchDone =>
      HasRun(s) && Files(s, Missing, false, false, Holds(s.runs[|s.runs| - 1].status))
  }

  ghost predicate PathReady(s: System) {
    s.firmwarePath.Holds? && IsCurrent(s, s.firmwarePath.value)
  }

  /** The n-th run served the n-th request, and the n-th installer reported its status. */
  ghost predicate Matched(s: System) {
    && |s.requests| == |s.answers| + (if s.installer == Idle then 0 else 1)
    && |s.answers| <= |s.runs| <= |s.requests|
    && (forall i :: 0 <= i < |s.runs| ==> s.runs[i].path == s.requests[i])
    && (forall i :: 0 <= i < |s.answers| ==> s.answers[i] == ExitStatus(s.runs[i].status))
  }

  ghost predicate Inv(s: System) {
    Agreed(s) && Matched(s) && !s.fault
  }

  lemma AgreedAfterInstaller(s: System)
    requires Agreed(s) && s.installer != Idle
    ensures Agreed(InstallerStep(s)) && (!s.fault ==> !InstallerStep(s).fault)
  {
  }

  lemma DaemonWorks(s: System, status: int)
    requires DaemonAtWork(s)
    ensures DaemonAtWork(DaemonStep(s, status)) && (!s.fault ==> !DaemonStep(s, status).fault)
    ensures DaemonStep(s, status).installer == s.installer
  {
  }

  lemma DaemonSleeps(s: System, status: int)
    requires Agreed(s) && s.installer != WaitForDone
    ensures DaemonStep(s, status) == s
  {
    hide DaemonAtWork;
    assert s.daemon == WaitForDo && !s.doUpdate;
  }

  lemma AgreedAfterDaemon(s: System, status: int)
    requires Agreed(s)
    ensures Agreed(DaemonStep(s, status)) && (!s.fault ==> !DaemonStep(s, status).fault)
  {
    hide DaemonAtWork, DaemonStep;
    if s.installer == WaitForDone {
      DaemonWorks(s, status);
    } else {
      DaemonSleeps(s, status);
    }
  }

  lemma MatchedAfterInstaller(s: System)
    requires Agreed(s) && Matched(s) && s.installer != Idle
    ensures Matched(InstallerStep(s))
  {
    hide DaemonAtWork;
  }

  lemma MatchedAfterDaemon(s: System, status: int)
    requires Agreed(s) && Matched(s)
    ensures Matched(DaemonStep(s, status))
  {
    hide DaemonAtWork;
    if s.installer != WaitForDone {
      DaemonSleeps(s, status);
    } else {
      match s.daemon {
        case RunManager(path) => RunIsMatched(s, path);
        case _ =>
      }
    }
  }

  lemma RunIsMatched(s: System, path: string)
    requires Agreed(s) && s.installer == WaitForDone && s.daemon == RunManager(path) && Matched(s)
    ensures |s.runs| == |s.answers| == |s.requests| - 1 && path == s.requests[|s.runs|]
  {
  }

  lemma InvariantStep(s: System, step: Step)
    requires Inv(s) && Enabled(s, step)
    ensures Inv(Apply(s, step))
  {
    hide Matched, DaemonAtWork, InstallerStep, DaemonStep;
    match step {
      case Begin(path) => MatchedAfterBegin(s, path);
      case Installer =>
        AgreedAfterInstaller(s);
        MatchedAfterInstaller(s);
      case Daemon(status) =>
        AgreedAfterDaemon(s, status);
        MatchedAfterDaemon(s, status);
    }
  }

  lemma MatchedAfterBegin(s: System, path: string)
    requires Agreed(s) && Matched(s) && s.installer == Idle
    ensures Agreed(Apply(s, Begin(path))) && Matched(Apply(s, Begin(path)))
  {
  }

  lemma {:induction false} Invariant(s: System, steps: seq<Step>, s': System)
    requires Inv(s) && Run(s, steps, s')
    ensures Inv(s')
    decreases |steps|
  {
    if steps != [] {
      InvariantStep(s, steps[0]);
      Invariant(Apply(s, steps[0]), steps[1..], s');
    }
  }

  // ------------------------------------------------------------------ theorems

  /** However the steps interleave, no command ever meets a missing or half-written file,
      the n-th run of the manager gets the n-th path, and the n-th installer exits according
      to the status of that run. */
  lemma HandshakeIsCorrect(steps: seq<Step>, s: System)
    requires Run(Initial(), steps, s)
    ensures !s.fault
    ensures |s.answers| <= |s.runs| <= |s.requests|
    ensures forall i :: 0 <= i < |s.runs| ==> s.runs[i].path == s.requests[i]
    ensures forall i :: 0 <= i < |s.answers| ==> s.answers[i] == if s.runs[i].status == 0 then 0 else 47
  {
    Invariant(Initial(), steps, s);
  }

  /** The paths of the installers that were started, in order. */
  function Begun(steps: seq<Step>): seq<string> {
    if steps == [] then []
    else (match steps[0] case Begin(path) => [path] case _ => []) + Begun(steps[1..])
  }

  /** The statuses that the manager exited with, in order. */
  ghost function Exits(s: System, steps: seq<Step>): seq<int>
    decreases |steps|
  {
    if steps == [] || !Enabled(s, steps[0]) then []
    else
      (match steps[0] case Daemon(status) => if s.daemon.RunManager? then [status] else [] case _ => [])
      + Exits(Apply(s, steps[0]), steps[1..])
  }

  /** The requests are those of the installers that were started, and the statuses those
      that the manager exited with. */
  lemma {:induction false} LogsAreTrue(s: System, steps: seq<Step>, s': System)
    requires Run(s, steps, s')
    ensures s'.requests == s.requests + Begun(steps)
    ensures Statuses(s'.runs) == Statuses(s.runs) + Exits(s, steps)
    decreases |steps|
  {
    hide Apply, Statuses;
    if steps != [] {
      LogsAfter(s, steps[0]);
      LogsAreTrue(Apply(s, steps[0]), steps[1..], s');
    }
  }

  lemma LogsAfter(s: System, step: Step)
    requires Enabled(s, step)
    ensures Apply(s, step).requests == s.requests + (match step case Begin(path) => [path] case _ => [])
    ensures Statuses(Apply(s, step).runs) == Statuses(s.runs) +
            (match step case Daemon(status) => if s.daemon.RunManager? then [status] else [] case _ => [])
  {
    hide Statuses;
    match step {
      case Daemon(status) =>
        if s.daemon.RunManager? {
          StatusesSnoc(s.runs, ManagerRun(s.daemon.path, status));
        }
      case _ =>
    }
  }

  function Statuses(runs: seq<ManagerRun>): (r: seq<int>)
    ensures |r| == |runs| && forall i :: 0 <= i < |runs| ==> r[i] == runs[i].status
  {
    seq(|runs|, i requires 0 <= i < |runs| => runs[i].status)
  }

  lemma StatusesSnoc(runs: seq<ManagerRun>, r: ManagerRun)
    ensures Statuses(runs + [r]) == Statuses(runs) + [r.status]
  {
  }

  /** Between requests the directory is clean, every request has been served, and the
      daemon waits for the next one. */
  lemma CleanBetweenRequests(steps: seq<Step>, s: System)
    requires Run(Initial(), steps, s) && s.installer == Idle
    ensures s.firmwarePath == Missing && !s.doUpdate && !s.doneUpdate && s.updateRc == Missing
    ensures s.daemon == WaitForDo && |s.requests| == |s.runs| == |s.answers|
    ensures forall path :: Enabled(s, Begin(path))
  {
    Invariant(Initial(), steps, s);
  }

  /** In any state at all, a command that misses its file sets `fault`, which stays set. */
  lemma FaultIsRecorded(s: System, step: Step)
    requires Enabled(s, step)
    ensures s.fault ==> Apply(s, step).fault
    ensures step.Installer? && s.installer == RemoveDone && !s.doneUpdate ==> Apply(s, step).fault
    ensures step.Installer? && s.installer == CatRc && !s.updateRc.Holds? ==> Apply(s, step).fault
    ensures step.Installer? && s.installer.RemoveRc? && s.updateRc == Missing ==> Apply(s, step).fault
    ensures step.Daemon? && s.daemon == RemoveDo && !s.doUpdate ==> Apply(s, step).fault
    ensures step.Daemon? && s.daemon == CatPath && !s.firmwarePath.Holds? ==> Apply(s, step).fault
    ensures step.Daemon? && s.daemon == RemovePath && s.firmwarePath == Missing ==> Apply(s, step).fault
  {
  }

  /** A file that is about to be read is written, one that is about to be removed exists,
      and at most one of the two flags is set. */
  lemma CommandsFindTheirFiles(steps: seq<Step>, s: System)
    requires Run(Initial(), steps, s)
    ensures s.daemon == RemoveDo ==> s.doUpdate
    ensures s.daemon == CatPath || s.daemon == RemovePath ==> s.firmwarePath.Holds?
    ensures s.installer == RemoveDone ==> s.doneUpdate
    ensures s.installer == CatRc || s.installer.RemoveRc? ==> s.updateRc.Holds?
    ensures s.doUpdate ==> s.firmwarePath.Holds? && !s.doneUpdate && s.updateRc == Missing
    ensures s.doneUpdate ==> s.updateRc.Holds? && s.firmwarePath == Missing
    ensures s.installer == WaitForDone && s.firmwarePath == Missing ==> s.updateRc.Holds?
  {
    Invariant(Initial(), steps, s);
    hide Matched;
  }

  /** Steps left until the current request is answered. */
  function Remaining(s: System): nat {
    match s.installer
    case Idle => 0
    case CreatePath(_) => 16
    case WritePath(_) => 15
    case TouchDo => 14
    case WaitForDone =>
      5 + (match s.daemon
           case WaitForDo => if s.doUpdate then 8 else 0
           case RemoveDo => 7
           case CatPath => 6
           case RunManager(_) => 5
           case CreateRc(_) => 4
           case WriteRc(_) => 3
           case RemovePath => 2
           case TouchDone => 1)
    case RemoveDone => 3
    case CatRc => 2
    case RemoveRc(_) => 1
  }

  lemma InstallerProgress(s: System)
    requires Agreed(s) && s.installer != Idle
    ensures InstallerStep(s) == s || Remaining(InstallerStep(s)) < Remaining(s)
    ensures InstallerStep(s) == s ==> s.installer == WaitForDone && !s.doneUpdate
  {
  }

  lemma DaemonProgress(s: System, status: int)
    requires Agreed(s) && s.installer != Idle
    ensures DaemonStep(s, status) == s || Remaining(DaemonStep(s, status)) < Remaining(s)
    ensures s.installer == WaitForDone && !s.doneUpdate ==> DaemonStep(s, status) != s
  {
  }

  /** Every request is answered after at most sixteen steps other than unsuccessful tests:
      while one is pending some process can make such a step, and each brings the answer
      closer. */
  lemma RequestsAreAnswered(steps: seq<Step>, s: System, step: Step)
    requires Run(Initial(), steps, s) && s.installer != Idle
    ensures Remaining(s) <= 16
    ensures Apply(s, Installer) != s || forall status :: Apply(s, Daemon(status)) != s
    ensures step.Installer? || step.Daemon? ==> Apply(s, step) == s || Remaining(Apply(s, step)) < Remaining(s)
  {
    Invariant(Initial(), steps, s);
    hide Inv, InstallerStep, DaemonStep;
    InstallerProgress(s);
    match step {
      case Daemon(status) => DaemonProgress(s, status);
      case _ =>
    }
    forall status {
      DaemonProgress(s, status);
    }
  }
}
