/** The banked update of the root file system: the image goes to the bank that is not
    mounted, then the boot flag is flipped. */
module RootfsBank {
  import opened Wrappers
  import opened BankNames

  const MAX_DEVICE_FILE_PATH := 512

  datatype Image = Complete(id: int) | Partial

  /** What survives a power cut: the partitions, by device path, and the boot flag. */
  datatype Flash = Flash(partitions: map<CString, Image>, rootfs2: bool)

  /** How far `copyimage` gets: the whole image, a part of it, or nothing. */
  datatype Copy = Whole | Cut | Untouched

  /** What the calls into the system answer. `synced` is about fsync; if it fails, `flushed`
      says whether the data reaches the medium nevertheless. */
  datatype Answers = Answers(
    mounted: Option<CString>, part1: Option<CString>, part2: Option<CString>,
    opened_: bool, copy: Copy, synced: bool, flushed: bool, closed: bool,
    madeDir: bool, wroteFlag: bool, removedFlag: bool, removedNoReboot: bool)

  predicate Stored(a: Answers) { a.copy.Whole? && (a.synced || a.flushed) }

  /** The content of a partition after the copy was attempted. */
  function Copied(before: Option<Image>, a: Answers, image: int): Option<Image> {
    if !a.opened_ || a.copy.Untouched? then before else Some(if Stored(a) then Complete(image) else Partial)
  }

  /** The target partition, if the handler gets that far: the mounted device and the part
      numbers are known, the paths fit their buffers and the target can be computed. */
  function Located(a: Answers): Option<CString> {
    if a.mounted == None || |a.mounted.value| >= MAX_DEVICE_FILE_PATH || a.part1 == None || a.part2 == None then None
    else
      var target := Target(a.mounted.value, a.part1.value, a.part2.value);
      if target == None || |target.value| >= MAX_DEVICE_FILE_PATH then None else target
  }

  function Write(f: Flash, path: CString, content: Image): Flash {
    f.(partitions := f.partitions[path := content])
  }

  function Last(f: Flash, states: seq<Flash>): Flash {
    if states == [] then f else states[|states| - 1]
  }

  /** The states of the medium while the image is copied. */
  function CopyStates(f: Flash, path: CString, a: Answers, image: int): seq<Flash> {
    if !a.opened_ || a.copy.Untouched? then []
    else [Write(f, path, Partial)] + (if Stored(a) then [Write(f, path, Complete(image))] else [])
  }

  /** The states of the medium while the boot flag is set or removed. */
  function FlagStates(f: Flash, bank2: bool, a: Answers): seq<Flash> {
    if bank2 && a.madeDir && a.wroteFlag then [f.(rootfs2 := true)]
    else if !bank2 && f.rootfs2 && a.removedFlag then [f.(rootfs2 := false)]
    else []
  }

  /** All states of the medium that one call of the handler goes through: a crash leaves the
      initial one or one of these. */
  function States(f: Flash, a: Answers, image: int): seq<Flash> {
    match Located(a)
    case None => []
    case Some(target) =>
      var copying := CopyStates(f, target, a, image);
      if !a.opened_ || !a.closed then copying
      else copying + FlagStates(Last(f, copying), StrEndsWith(a.part2.value, target), a)
  }

  /** The handler gets past the boot flag, which then names the target. */
  predicate Flips(f: Flash, a: Answers) {
    && Located(a).Some? && a.opened_ && a.closed
    && if StrEndsWith(a.part2.value, Located(a).value) then a.madeDir && a.wroteFlag else !f.rootfs2 || a.removedFlag
  }

  /** What the handler returns; `locked` is whether the "do not reboot" file is there. */
  function HandlerResult(f: Flash, locked: bool, a: Answers): int {
    if Flips(f, a) && (!locked || a.removedNoReboot) then 0 else 1
  }

  class Board {
    var flash: Flash
    var doNotReboot: bool
    ghost var history: seq<Flash>

    constructor (flash: Flash)
      ensures this.flash == flash && doNotReboot && history == [flash]
    {
      this.flash, doNotReboot, history := flash, true, [flash];
    }

    function Content(path: CString): Option<Image>
      reads this
    {
      if path in flash.partitions then Some(flash.partitions[path]) else None
    }

    method Store(path: CString, content: Image)
      modifies this`flash, this`history
      ensures flash == old(flash).(partitions := old(flash.partitions)[path := content])
      ensures history == old(history) + [flash]
    {
      flash := flash.(partitions := flash.partitions[path := content]);
      history := history + [flash];
    }

    method SetFlag(present: bool)
      modifies this`flash, this`history
      ensures flash == old(flash).(rootfs2 := present)
      ensures history == old(history) + [flash]
    {
      flash := flash.(rootfs2 := present);
      history := history + [flash];
    }

    /** `copy_image_and_sync`: fails exactly if the device cannot be opened or closed, so
        not if the copy failed; a partition that is being written holds a partial image. */
    method CopyImageAndSync(a: Answers, image: int, path: CString) returns (r: int)
      modifies this`flash, this`history
      ensures r == if a.opened_ && a.closed then 0 else -1
      ensures flash.rootfs2 == old(flash.rootfs2)
      ensures Content(path) == Copied(old(Content(path)), a, image)
      ensures forall p :: p != path ==> Content(p) == old(Content(p))
      ensures history == old(history) + CopyStates(old(flash), path, a, image)
      ensures flash == Last(old(flash), CopyStates(old(flash), path, a, image))
    {
      if !a.opened_ {
        return -1;
      }
      r := 0;
      if !a.copy.Untouched? {
        Store(path, Partial);
        if a.copy.Whole? && (a.synced || a.flushed) {
          Store(path, Complete(image));
          assert flash == Write(old(flash), path, Complete(image));
        }
      }
      if !a.closed {
        r := -1;
      }
    }

    /** `write_bootflag_file`. */
    method WriteBootflagFile(a: Answers) returns (r: int)
      modifies this`flash, this`history
      ensures r == if a.madeDir && a.wroteFlag then 0 else -1
      ensures flash == if r == 0 then old(flash).(rootfs2 := true) else old(flash)
      ensures history == old(history) + (if r == 0 then [flash] else [])
    {
      if !a.madeDir || !a.wroteFlag {
        return -1;
      }
      SetFlag(true);
      return 0;
    }

    /** `remove_bootflag_file`: no file to remove is no failure. */
    method RemoveBootflagFile(a: Answers) returns (r: int)
      modifies this`flash, this`history
      ensures r == if !old(flash).rootfs2 || a.removedFlag then 0 else -1
      ensures flash == if r == 0 then old(flash).(rootfs2 := false) else old(flash)
      ensures history == old(history) + (if flash != old(flash) then [flash] else [])
    {
      if !flash.rootfs2 {
        return 0;
      }
      if !a.removedFlag {
        return -1;
      }
      SetFlag(false);
      return 0;
    }

    /** `remove_do_not_reboot_flag`. */
    method RemoveDoNotRebootFlag(a: Answers) returns (r: int)
      modifies this`doNotReboot
      ensures r == if !old(doNotReboot) || a.removedNoReboot then 0 else -1
      ensures doNotReboot == (old(doNotReboot) && r != 0)
    {
      if !doNotReboot {
        return 0;
      }
      if !a.removedNoReboot {
        return -1;
      }
      doNotReboot := false;
      return 0;
    }

    /** The part of the handler that makes the flag name the target. */
    method SelectTarget(a: Answers, target: CString) returns (r: int)
      requires a.part2.Some?
      modifies this`flash, this`history
      ensures var bank2 := StrEndsWith(a.part2.value, target);
              && r == (if if bank2 then a.madeDir && a.wroteFlag else !old(flash).rootfs2 || a.removedFlag then 0 else -1)
              && history == old(history) + FlagStates(old(flash), bank2, a)
              && flash == Last(old(flash), FlagStates(old(flash), bank2, a))
              && (r == 0 ==> flash.rootfs2 == bank2)
    {
      hide StrEndsWith;
      if StrEndsWith(a.part2.value, target) {
        r := WriteBootflagFile(a);
      } else {
        r := RemoveBootflagFile(a);
      }
    }

    /** `rootfsv4_handler`. */
    method RootfsV4Handler(a: Answers, image: int) returns (r: int)
      modifies this
      ensures r == HandlerResult(old(flash), old(doNotReboot), a)
      ensures r == 0 <==>
                && Located(a).Some? && a.opened_ && a.closed
                && (if StrEndsWith(a.part2.value, Located(a).value) then a.madeDir && a.wroteFlag
                    else !old(flash).rootfs2 || a.removedFlag)
                && (!old(doNotReboot) || a.removedNoReboot)
      ensures r == 0 ==> !doNotReboot && flash.rootfs2 == StrEndsWith(a.part2.value, Located(a).value)
      ensures r != 0 ==> r == 1
      ensures history == old(history) + States(old(flash), a, image)
      ensures flash == Last(old(flash), States(old(flash), a, image))
      ensures doNotReboot == (old(doNotReboot) && r != 0)
    {
      hide StrEndsWith, Target, CopyStates, FlagStates, Text;
      if a.mounted == None || |a.mounted.value| >= MAX_DEVICE_FILE_PATH {
        return 1;
      }
      if a.part1 == None {
        return 1;
      }
      if a.part2 == None {
        return 1;
      }
      var buffer := new char[MAX_DEVICE_FILE_PATH];
      var found := FindTargetPartition(buffer, a.mounted.value, a.part1.value, a.part2.value);
      if !found {
        return 1;
      }
      var target := Text(buffer[..]);
      var copied := CopyImageAndSync(a, image, target);
      if copied == -1 {
        return 1;
      }
      var flagged := SelectTarget(a, target);
      if flagged == -1 {
        return 1;
      }
      var removed := RemoveDoNotRebootFlag(a);
      if removed == -1 {
        return 1;
      }
      return 0;
    }
  }

  // ------------------------------------------------------------------ crashes

  datatype Bank = Bank1 | Bank2

  datatype Layout = Layout(disk: CString, part1: CString, part2: CString)

  function Path(l: Layout, bank: Bank): CString {
    l.disk + "p" + (if bank.Bank1? then l.part1 else l.part2)
  }

  function Other(bank: Bank): Bank {
    if bank.Bank1? then Bank2 else Bank1
  }

  /** What the boot loader goes by. */
  function Selected(f: Flash): Bank {
    if f.rootfs2 then Bank2 else Bank1
  }

  function At(f: Flash, path: CString): Option<Image> {
    if path in f.partitions then Some(f.partitions[path]) else None
  }

  function Content(l: Layout, f: Flash, bank: Bank): Option<Image> {
    At(f, Path(l, bank))
  }

  predicate IsComplete(content: Option<Image>) {
    content.Some? && content.value.Complete?
  }

  /** The selected bank holds a complete image. */
  predicate Bootable(l: Layout, f: Flash) {
    IsComplete(Content(l, f, Selected(f)))
  }

  /** The answers are about this layout, with the given bank mounted. */
  ghost predicate On(l: Layout, mounted: Bank, a: Answers) {
    && WellNamed(l.disk, l.part1, l.part2)
    && a.mounted == Some(Path(l, mounted)) && a.part1 == Some(l.part1) && a.part2 == Some(l.part2)
  }

  lemma Locates(l: Layout, mounted: Bank, a: Answers)
    requires On(l, mounted, a)
    ensures Path(l, mounted) != Path(l, Other(mounted))
    ensures Located(a) ==
            if |Path(l, Bank1)| < 512 && |Path(l, Bank2)| < 512
            then Some(Path(l, Other(mounted))) else None
    ensures a.part2 == Some(l.part2) && (StrEndsWith(l.part2, Path(l, Other(mounted))) <==> mounted.Bank1?)
  {
    TargetIsInvolution(l.disk, l.part1, l.part2);
  }

  /** One state of the medium in the course of an update of `path`, with the flag as it was
      or, only after the copy, as it will be. */
  ghost predicate Between(f: Flash, g: Flash, path: CString, bank2: bool, a: Answers, image: int) {
    && (forall q :: q != path ==> At(g, q) == At(f, q))
    && (g.rootfs2 == f.rootfs2 || (Flips(f, a) && g.rootfs2 == bank2 && At(g, path) == Copied(At(f, path), a, image)))
  }

  lemma StatesAreBetween(f: Flash, a: Answers, image: int, i: nat)
    requires i < |States(f, a, image)|
    ensures Located(a).Some?
    ensures var path := Located(a).value;
            Between(f, States(f, a, image)[i], path, StrEndsWith(a.part2.value, path), a, image)
  {
    hide Located, StrEndsWith;
  }

  lemma LastState(f: Flash, a: Answers, image: int)
    requires Located(a).Some?
    ensures var path := Located(a).value;
            var last := Last(f, States(f, a, image));
            && At(last, path) == Copied(At(f, path), a, image)
            && last.rootfs2 == if Flips(f, a) then StrEndsWith(a.part2.value, path) else f.rootfs2
  {
    hide Located, StrEndsWith;
  }

  /** The bank that is running is never touched, whatever the answers. */
  lemma MountedBankIsKept(l: Layout, mounted: Bank, f: Flash, a: Answers, image: int, i: nat)
    requires On(l, mounted, a) && i < |States(f, a, image)|
    ensures Content(l, States(f, a, image)[i], mounted) == Content(l, f, mounted)
  {
    Locates(l, mounted, a);
    StatesAreBetween(f, a, image, i);
  }

  /** If the flag names the mounted bank, a crash at any point leaves a bootable board
      exactly if the handler does not get to the flag with a target that is incomplete. */
  lemma CrashSafety(l: Layout, f: Flash, a: Answers, image: int)
    requires On(l, Selected(f), a) && Bootable(l, f)
    ensures var states := States(f, a, image);
            (forall i :: 0 <= i < |states| ==> Bootable(l, states[i])) <==>
            (Flips(f, a) ==> IsComplete(Copied(Content(l, f, Other(Selected(f))), a, image)))
  {
    Locates(l, Selected(f), a);
    hide Located, StrEndsWith, On, WellNamed, Path, States, Flips, Copied, IsComplete;
    var states := States(f, a, image);
    if Flips(f, a) {
      LastState(f, a, image);
      assert states != [];
      assert Bootable(l, states[|states| - 1]) <==> IsComplete(Copied(Content(l, f, Other(Selected(f))), a, image));
    }
    if Flips(f, a) ==> IsComplete(Copied(Content(l, f, Other(Selected(f))), a, image)) {
      forall i | 0 <= i < |states|
        ensures Bootable(l, states[i])
      {
        StatesAreBetween(f, a, image, i);
      }
    }
  }

  /** Past the flag, the next boot is from the other bank, with whatever was copied there. */
  lemma FlippedBoardBootsTarget(l: Layout, f: Flash, a: Answers, image: int)
    requires On(l, Selected(f), a) && Flips(f, a)
    ensures var g := Last(f, States(f, a, image));
            && Selected(g) == Other(Selected(f))
            && Content(l, g, Selected(g)) == Copied(Content(l, f, Selected(g)), a, image)
  {
    Locates(l, Selected(f), a);
    LastState(f, a, image);
  }

  /** When the handler returns 0, for two banks that are well named: the paths fit their
      buffers, the device was opened and closed, the flag operation that was needed did not
      fail, and the reboot lock is gone.  Then the flag names the bank that was not mounted. */
  lemma ZeroMeansSwitched(l: Layout, mounted: Bank, f: Flash, locked: bool, a: Answers, image: int)
    requires On(l, mounted, a)
    ensures HandlerResult(f, locked, a) == 0 <==>
            && |Path(l, Bank1)| < 512 && |Path(l, Bank2)| < 512 && a.opened_ && a.closed
            && (if mounted.Bank1? then a.madeDir && a.wroteFlag else !f.rootfs2 || a.removedFlag)
            && (!locked || a.removedNoReboot)
    ensures HandlerResult(f, locked, a) == 0 ==> Last(f, States(f, a, image)).rootfs2 == mounted.Bank1?
    ensures HandlerResult(f, locked, a) in {0, 1}
  {
    hide Located, StrEndsWith, WellNamed, Path, States;
    Locates(l, mounted, a);
    if Located(a).Some? {
      LastState(f, a, image);
    }
  }

  /** Line 319 jumps over the assignment that would report a failed copy: the handler then
      returns 0, and the next boot is from a partial image. */
  lemma FailedCopyIsReportedAsSuccess(l: Layout, f: Flash, locked: bool, a: Answers, image: int)
    requires On(l, Selected(f), a) && Bootable(l, f)
    requires |Path(l, Bank1)| < MAX_DEVICE_FILE_PATH && |Path(l, Bank2)| < MAX_DEVICE_FILE_PATH
    requires a.opened_ && a.copy.Cut? && a.closed
    requires a.madeDir && a.wroteFlag && a.removedFlag && a.removedNoReboot
    ensures HandlerResult(f, locked, a) == 0 && !Bootable(l, Last(f, States(f, a, image)))
  {
    Locates(l, Selected(f), a);
    LastState(f, a, image);
  }

  /** The answers are about this layout, which need not be well named. */
  ghost predicate Reports(l: Layout, mounted: Bank, a: Answers) {
    a.mounted == Some(Path(l, mounted)) && a.part1 == Some(l.part1) && a.part2 == Some(l.part2)
  }

  /** If the number of bank 2 ends that of bank 1, an update while bank 2 is mounted is
      lost: the image goes to bank 1, the flag says bank 2 before and after, and the handler
      reports success all the same. */
  lemma UpdateIsLost(l: Layout, f: Flash, locked: bool, a: Answers, image: int)
    requires l.disk != "" && Free(l.disk) && Free(l.part1) && Free(l.part2)
    requires l.part1 != l.part2 && StrEndsWith(l.part2, l.part1)
    requires Reports(l, Bank2, a) && Selected(f) == Bank2 && HandlerResult(f, locked, a) == 0
    ensures var g := Last(f, States(f, a, image));
            && Content(l, g, Bank1) == Copied(Content(l, f, Bank1), a, image)
            && Content(l, g, Bank2) == Content(l, f, Bank2)
            && Selected(g) == Bank2
  {
    ShorterIsNoSuffix(l.part2, l.part1);
    TargetOfBank2(l.disk, l.part1, l.part2);
    EndsPartition(l.part2, l.disk, l.part1);
    SameNumber(l.disk, l.part1, l.part2);
    LastState(f, a, image);
    var states := States(f, a, image);
    if states != [] {
      StatesAreBetween(f, a, image, |states| - 1);
    }
  }

  /** If the number of bank 1 ends that of bank 2, an update while bank 2 is mounted writes
      over the file system that is running. */
  lemma MountedBankIsOverwritten(l: Layout, f: Flash, a: Answers, image: int)
    requires l.disk != "" && Free(l.disk) && Free(l.part1) && Free(l.part2)
    requires l.part1 != l.part2 && StrEndsWith(l.part1, l.part2)
    requires Reports(l, Bank2, a) && |Path(l, Bank2)| < MAX_DEVICE_FILE_PATH
    requires a.opened_ && !a.copy.Untouched?
    ensures States(f, a, image) != [] && Content(l, States(f, a, image)[0], Bank2) == Some(Partial)
  {
    TargetOfBank2(l.disk, l.part1, l.part2);
    assert Located(a) == Some(Path(l, Bank2));
    hide Located, StrEndsWith, Path;
    assert States(f, a, image)[0] == Write(f, Located(a).value, Partial);
  }

  lemma ShorterIsNoSuffix(s: string, t: string)
    requires StrEndsWith(s, t) && s != t
    ensures !StrEndsWith(t, s)
  {
    assert t[0..] == t;
  }

  /** A second update in the same boot writes to the bank that the flag already selects: it
      can be interrupted safely exactly if it does not write at all. */
  lemma SecondUpdate(l: Layout, f: Flash, a: Answers, image: int)
    requires On(l, Other(Selected(f)), a) && Bootable(l, f)
    ensures var states := States(f, a, image);
            (forall i :: 0 <= i < |states| ==> Bootable(l, states[i])) <==>
            (Located(a) == None || !a.opened_ || a.copy.Untouched?)
  {
    Locates(l, Other(Selected(f)), a);
    var states := States(f, a, image);
    if Located(a) == None || !a.opened_ || a.copy.Untouched? {
      forall i | 0 <= i < |states|
        ensures Bootable(l, states[i])
      {
        StatesAreBetween(f, a, image, i);
      }
    } else {
      hide Located, StrEndsWith, On, WellNamed, Path;
      assert states[0] == Write(f, Located(a).value, Partial);
      assert !Bootable(l, states[0]);
    }
  }

  // -------------------------------------------------------------------- boots

  /** One boot with one update, cut off after `crash` changes of the medium. */
  datatype Attempt = Attempt(answers: Answers, image: int, crash: nat)

  function After(f: Flash, t: Attempt): Flash {
    var states := States(f, t.answers, t.image);
    if t.crash == 0 || t.crash > |states| then f else states[t.crash - 1]
  }

  /** Boots in sequence: each mounts the bank that the flag selects. */
  ghost predicate Boots(l: Layout, f: Flash, attempts: seq<Attempt>, f': Flash)
    decreases attempts
  {
    if attempts == [] then f' == f
    else On(l, Selected(f), attempts[0].answers) && Boots(l, After(f, attempts[0]), attempts[1..], f')
  }

  /** `copyimage` and the write-back succeed if they are attempted and reported. */
  predicate CopySucceeds(t: Attempt) {
    t.answers.opened_ && t.answers.closed ==> Stored(t.answers)
  }

  /** The image that runs after these boots: the one of the last attempt that switched the
      flag before it was cut off. */
  function Running(f: Flash, attempts: seq<Attempt>, image: int): int
    decreases attempts
  {
    if attempts == [] then image
    else
      var g := After(f, attempts[0]);
      Running(g, attempts[1..], if Selected(g) == Selected(f) then image else attempts[0].image)
  }

  lemma AfterBetween(l: Layout, f: Flash, g: Flash, a: Answers, image: int)
    requires Path(l, Selected(f)) != Path(l, Other(Selected(f)))
    requires Between(f, g, Path(l, Other(Selected(f))), Selected(f).Bank1?, a, image)
    requires Flips(f, a) ==> Stored(a)
    ensures Content(l, g, Selected(g)) ==
            if Selected(g) == Selected(f) then Content(l, f, Selected(f)) else Some(Complete(image))
  {
    hide Path, Located;
    assert Flips(f, a) ==> Copied(Content(l, f, Other(Selected(f))), a, image) == Some(Complete(image));
    hide Flips, Copied, At, Stored;
  }

  lemma AfterOneBoot(l: Layout, f: Flash, t: Attempt)
    requires On(l, Selected(f), t.answers) && CopySucceeds(t)
    ensures var g := After(f, t);
            Content(l, g, Selected(g)) ==
            if Selected(g) == Selected(f) then Content(l, f, Selected(f)) else Some(Complete(t.image))
  {
    hide Located, StrEndsWith, On, WellNamed, Path, States, Flips, Stored, Between, Content, At, CopySucceeds;
    Locates(l, Selected(f), t.answers);
    FlipsStored(f, t);
    if 0 < t.crash <= |States(f, t.answers, t.image)| {
      StatesAreBetween(f, t.answers, t.image, t.crash - 1);
      AfterBetween(l, f, After(f, t), t.answers, t.image);
    }
  }

  lemma FlipsStored(f: Flash, t: Attempt)
    requires CopySucceeds(t)
    ensures Flips(f, t.answers) ==> Stored(t.answers)
  {}

  /** Over any number of boots, each with an update that may be cut off anywhere, the board
      stays bootable, and it runs the image whose flag switch came last. */
  lemma {:induction false} BoardStaysBootable(l: Layout, f: Flash, attempts: seq<Attempt>, f': Flash, image: int)
    requires Content(l, f, Selected(f)) == Some(Complete(image)) && Boots(l, f, attempts, f')
    requires forall i :: 0 <= i < |attempts| ==> CopySucceeds(attempts[i])
    ensures Content(l, f', Selected(f')) == Some(Complete(Running(f, attempts, image)))
    decreases attempts
  {
    hide On, After, Content, Selected, CopySucceeds;
    if attempts != [] {
      var g := After(f, attempts[0]);
      AfterOneBoot(l, f, attempts[0]);
      BoardStaysBootable(l, g, attempts[1..], f', if Selected(g) == Selected(f) then image else attempts[0].image);
    }
  }
}
