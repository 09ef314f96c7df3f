# Verified model of the Mbed Linux OS update path

This Dafny project models how a device running Mbed Linux OS takes an update, and proves
that the update path keeps its promises under failures, crashes and concurrency. The
project file is `dfyconfig.toml`.

| component | modules |
|---|---|
| Transactional update of applications: install, stop, start, retire, roll back, and the boot-time recovery | `AppUpdate`, `UpdateStates`, `CrashRecovery`, `BootRun`, over `AppTree`, `AppManager`, `AppInfo`, `Lifecycle`, `ContainerRuntime`, `Exceptions` |
| Natural sort of version paths | `NaturalSort`, `VersionOrder` |
| Codec of the firmware update HEADER and its checksum | `FirmwareHeader`, `Crc32`, `HeaderWindows`, `CrcWindows`, `CrcCheck` |
| Banked update of the root file system | `RootfsBank`, `BankNames` |
| File-flag handshake of installer script and update daemon | `FlagHandshake` |
| UpdateD's coordinator and its payload link | `UpdateCoordinator`, `PayloadLink` |
| Cloud client: life of the singleton, re-registration | `CloudClient`, `Reregistration` |

How it is modelled:

- Python and C code that changes things is a class with methods, proved against
  specification functions. A Python exception is an `Outcome` that carries the error and
  the error it was raised from; a command that can fail is an arbitrary choice, or, in
  `RootfsBank`, one of the `Answers` given as a parameter.
- A crash is a stop between two changes of the disk. `Device` and `Board` record every state
  of the disk in a ghost `history`, and contracts speak about all recorded states. `Device`
  also counts failed commands in `trouble`, so that contracts can say what happens when
  there are none, and lists every command with its outcome in `trace`, so that they can say
  in which order things happen and which failure an error stands for.
- Concurrent code is a state machine whose steps are single statements or file operations.
  Theorems hold for every finite sequence of enabled steps. Critical sections are also given
  as methods, and a lemma shows that the steps compose to them.
- Durations are `real`, the monotonic clock only moves forward, and the C++ loop sees it in
  whole seconds.

What the proofs show about the code beyond its comments:

- `install_apps` is all-or-nothing unless a package other than the first has a control line
  with two colons (a `ValueError`) or an application directory without bundles (a
  `TypeError`, since `_get_app_bundle_paths` falls off its end): then the earlier packages
  stay (`LeavesPackages`, `AllOrNothing`).
- `ContainerAlreadyExistError` and `ContainerStateError` start no rollback, so all new
  bundles stay. The first needs a package name that occurs twice; such an update never
  completes (`RepeatedNames`).
- A finished update survives a reboot exactly for applications that had at most one version:
  recovery prefers the lowest number, so any leftover version wins over the new one. A
  failed removal of an old bundle leaves such a version (`NextUpdateIsLost`).
- After a crash while old bundles are removed, some applications come back new and others
  old.
- `unpack` assigns fields before it checks them, and keeps an old signature when the new one
  is empty.
- The payload link that replaces an unconsumed link in the same directory is deleted by the
  destructor of the old link.
- A failed `copyimage` is reported as success, and then the boot flag selects a partial
  image; a failed fsync is only a warning. A second root file system update in one boot
  overwrites the bank that the flag already selects.
- For part numbers without the letter p, the handler treats both banks rightly exactly if
  the disk name has no p and neither number ends in the other (`NamingIsExact`). With a p in
  the disk name the target is no bank. If the number of bank 1 ends that of bank 2, an
  update from bank 2 overwrites the mounted bank; if it is the other way round, the target
  is right but the flag is not, and the update is lost although it is reported as done.
- The HEADER checksum detects all changes within 32 consecutive bits of the header part or
  inside the CRC field, but not quite all within four bytes across the border of the two.

## Model

| member | source | states |
|---|---|---|
| AppUpdate.AppUpdateManager.InstallApps | firmware-management/mbl-app-update-manager/mbl/app_update_manager/manager.py:87-110 | All-or-nothing, for every position of the failing package and for repeated application names, with every other exit told apart: which trees a failing removal leaves, and that a TypeError or ValueError comes only from a package whose application directory is empty or whose control data is malformed, all packages before it staying. The error and its cause are outcomes of commands on the trace, and it gives up at the first failure: the number of failed commands is fixed by the outcome. If no command fails, the first obstacle of the packages decides. Every tree on the way is one that reboot recovery copes with |
| AppUpdate.AppUpdateManager.ManageAppInstallation | firmware-management/mbl-app-update-manager/mbl/app_update_manager/manager.py:173-198 | One package: success if and only if it meets no obstacle, when no command fails; the appended record names the lowest installed version and one more than the highest, and exactly that bundle is added; an error other than a failed clean-up changes nothing |
| AppUpdate.GetAppBundlePaths | firmware-management/mbl-app-update-manager/mbl/app_update_manager/manager.py:217-235 | The current path is the lowest installed version and the next one is above all installed versions; nothing is returned exactly when the application directory exists without any bundle |
| AppUpdate.AppUpdateManager.RemoveThenRaise | firmware-management/mbl-app-update-manager/mbl/app_update_manager/manager.py:96-110 | The handler of a failed installation: the original error exactly if no removal failed, with everything removed, else the removal error chained to it with the tree of exactly the removals done |
| AppUpdate.AppUpdateManager.RemoveAppsBundles | firmware-management/mbl-app-update-manager/mbl/app_update_manager/manager.py:237-259 | Removes the chosen bundle of each record in order; the tree afterwards is that of exactly the removals done, every path named still exists when its turn comes, and every intermediate tree is recoverable |
| AppUpdate.AppUpdateManager.StopRunningVersions | firmware-management/mbl-app-update-manager/mbl/app_update_manager/manager.py:261-284 | After a normal return no updated application has a container, each was terminated in record order with the default time-outs, and all others are as before. Whatever terminate_app raised last is either the error that escapes or, if it is a guarded one, the trigger of a rollback: an error without trigger is the outcome of the last step and leaves the disk untouched; with one, a rollback in which no command fails raises the trigger again if the names are distinct, and only such a one does |
| AppUpdate.AppUpdateManager.RunNewInstalledVersions | firmware-management/mbl-app-update-manager/mbl/app_update_manager/manager.py:306-327 | After a normal return all updated applications are different and run from their new bundles. The error that escapes without a trigger is the outcome of the last step, and a trigger is an outcome of a step; without a trigger the disk is untouched, the applications before the failing one run new and those after it do not run. A rollback in which no command fails raises the trigger again if the names are distinct, and only such a one does. ContainerAlreadyExistError needs a repeated name |
| AppUpdate.AppUpdateManager.RollbackThenRaise | firmware-management/mbl-app-update-manager/mbl/app_update_manager/manager.py:279-284 | The triggering error again exactly if no command fails and the names are distinct, and everything is then restored; a failed rollback raises the error of its last step, from the trigger if it is guarded, and how far it got is known |
| AppUpdate.AppUpdateManager.RollbackApps | firmware-management/mbl-app-update-manager/mbl/app_update_manager/manager.py:200-215 | When it returns normally, the tree equals the pre-install one, each updated application runs from its previous lowest version or has no container if it had none, and the names were distinct; it does so whenever no command fails and the names are distinct. It stops at the first failure, raises the outcome of that step, and at which application and in which of its three phases is known. All other applications are untouched |
| AppUpdate.AppUpdateManager.StopAllNewlyInstalledApps | firmware-management/mbl-app-update-manager/mbl/app_update_manager/manager.py:286-304 | After a normal return no updated application has a container, each having been terminated in record order with the default time-outs; a missing container never ends the loop, and a failure names the application at which it stopped |
| AppUpdate.AppUpdateManager.RunPreviousAppVersions | firmware-management/mbl-app-update-manager/mbl/app_update_manager/manager.py:329-356 | From the original tree with no container left, a normal return restores every application; after a failure those before the failing one run from their previous versions and those after it do not run; repeated names make it fail |
| AppUpdate.AppUpdateManager.StartInstalledApps | firmware-management/mbl-app-update-manager/mbl/app_update_manager/manager.py:112-129 | A normal return means: all names distinct, every updated application runs from its new bundle, every previous current bundle is gone, nothing else changed. Every failure is one of: restored, a rollback that stopped at a known point, an escaped error without rollback and with all new bundles in place, or a removal of old bundles that stopped; in each the error raised is what the last step or the trigger raised. If the names are distinct and a single command fails, whose error triggers a rollback, that error is raised again. If no command fails it succeeds exactly for distinct names |
| AppUpdate.AppUpdateManager.Update | firmware-management/mbl-app-update-manager/mbl/app_update_manager/manager.py:87-129 | The whole update from any valid tree: how it can end, that every error and trigger is the outcome of a step, that every tree in its history, inside rollbacks too, is a crash state of CrashRecovery, and that packages and tree alone decide the outcome if no command fails |
| UpdateStates.AllOrNothing | firmware-management/mbl-app-update-manager/mbl/app_update_manager/manager.py:92-110 | Installation leaves packages behind, no removal having failed, only if a package other than the first has malformed control data or an empty application directory and none before it has an obstacle; if no command fails, then also whenever that is so |
| UpdateStates.LeavesPackagesExamples | firmware-management/mbl-app-update-manager/mbl/app_update_manager/manager.py:224-235 | Two such updates: control data with a URL, and an empty application directory |
| UpdateStates.ObstacleIsOriginal | firmware-management/mbl-app-update-manager/mbl/app_update_manager/manager.py:187-198 | Installing packages neither removes nor adds an obstacle for the ones after them |
| UpdateStates.FailureMeans | firmware-management/mbl-app-update-manager/mbl/app_update_manager/manager.py:261-327 | What each error of the stop and run phases says about the state; which errors start a rollback, which escape, and when the error of a failed rollback is chained to its trigger; ContainerAlreadyExistError means a repeated name |
| UpdateStates.RepeatedNames | firmware-management/mbl-app-update-manager/mbl/app_update_manager/manager.py:306-327 | With a repeated name an update never completes and neither does a rollback of it; without a rollback all new bundles stay, and which applications run is known |
| AppInfo.ParsePackageName | firmware-management/mbl-app-manager/mbl/app_manager/parser.py:38-56 | A ValueError exactly if a line has more than one colon; otherwise the value of the last line that sets the field, or an error if there is none |
| AppInfo.LookupIsLast | firmware-management/mbl-app-manager/mbl/app_manager/parser.py:39-49 | The last line that sets a field determines its value |
| AppInfo.SplitJoins | firmware-management/mbl-app-manager/mbl/app_manager/parser.py:39-41 | Splitting loses nothing and leaves no separator in the pieces |
| AppInfo.StripsOnlySpace | firmware-management/mbl-app-manager/mbl/app_manager/parser.py:45-46 | Stripping removes white space at one end and nothing else; the white space characters are listed |
| AppManager.GetAppName | firmware-management/mbl-app-manager/mbl/app_manager/manager.py:36-49 | Without a failing command the control data decides between the name and the two errors |
| CrashRecovery.RecoveryAfterCrash | application-framework/mbl-app-lifecycle-manager/mbl/app_lifecycle_manager/cli.py:45-60 | From at most one bundle per application and distinct names, recovery after a crash in any state of the update leaves one bundle of every application that has any: the previous one if it survived, else the new one |
| CrashRecovery.CrashBeforeCommitKeepsOld | firmware-management/mbl-app-update-manager/mbl/app_update_manager/manager.py:112-129 | Until the first previous bundle is removed a crash undoes the update for every installed application, with repeated names and leftover versions allowed |
| CrashRecovery.OthersAreUntouched | firmware-management/mbl-app-update-manager/mbl/app_update_manager/manager.py:87-129 | In every state a crash can leave, applications outside the update keep their directory and exactly their versions |
| CrashRecovery.UpdateSurvivesReboot | firmware-management/mbl-app-update-manager/mbl/app_update_manager/manager.py:217-235 | After a finished update, recovery keeps the new version if and only if the application had at most one version before |
| CrashRecovery.NextUpdateIsLost | firmware-management/mbl-app-update-manager/mbl/app_update_manager/manager.py:358-364 | A failed removal of old bundles leaves an application with two versions; its next update is lost at the reboot after it |
| CrashRecovery.CrashMixesVersions | firmware-management/mbl-app-update-manager/mbl/app_update_manager/manager.py:358-364 | A crash after k removals brings the first k applications back new and the later ones old: the switch is not atomic across applications |
| CrashRecovery.RecoveredVersions | application-framework/mbl-app-lifecycle-manager/mbl/app_lifecycle_manager/cli.py:68-74 | Recovery keeps exactly the lowest version of each application that has any, and is idempotent |
| BootRun.RunAppFromParentDir | application-framework/mbl-app-lifecycle-manager/mbl/app_lifecycle_manager/cli.py:35-60 | The lowest version runs and all others are gone after a normal return; nothing is deleted if it cannot be started; an interruption never changes what recovery ends with |
| BootRun.SortedVersions | application-framework/mbl-app-lifecycle-manager/mbl/app_lifecycle_manager/cli.py:50-54 | The versions in ascending numeric order, each installed version exactly once |
| BootRun.RecoveryRestarts | application-framework/mbl-app-lifecycle-manager/mbl/app_lifecycle_manager/cli.py:57-60 | Recovery interrupted after any deletions and started again ends in the same tree |
| BootRun.RunAll | application-framework/mbl-app-lifecycle-manager/mbl/app_lifecycle_manager/cli.py:68-74 | When it returns normally the tree is the recovered one and every bundle left is running; when it fails or is cut off, recovery from there has the same result; it succeeds if no container exists and no command fails |
| BootRun.Reboot | application-framework/mbl-app-lifecycle-manager/mbl/app_lifecycle_manager/cli.py:68-74 | From any crash state of an update, a reboot succeeds exactly if no command fails; it then leaves one surviving version per application, as RecoveryAfterCrash names it, and it is running. A failure is the outcome of the last step, and running again can still finish |
| AppTree.NewBundlesAreFresh | firmware-management/mbl-app-update-manager/mbl/app_update_manager/manager.py:217-235 | New versions differ from everything installed and from each other and are numbered above all earlier ones, even with repeated names |
| AppTree.DistinctAllocation | firmware-management/mbl-app-update-manager/mbl/app_update_manager/manager.py:187-198 | With distinct names a record depends on the original tree only |
| AppTree.RemoveUndoesInstall | firmware-management/mbl-app-manager/mbl/app_manager/manager.py:90-123 | Removing a freshly installed bundle restores the tree, the application directory included |
| AppTree.RemoveUndoesPlus | firmware-management/mbl-app-update-manager/mbl/app_update_manager/manager.py:251-259 | Removing the new bundles in installation order walks back step by step to the original tree, with repeated names too |
| AppTree.RetireOne | firmware-management/mbl-app-update-manager/mbl/app_update_manager/manager.py:358-364 | With distinct names a previous bundle is still there when it is to be removed, and its application directory stays |
| AppTree.NewBundleStays | firmware-management/mbl-app-update-manager/mbl/app_update_manager/manager.py:358-364 | Removing previous bundles never removes a new one |
| AppTree.PathNamesBundle | firmware-management/mbl-app-update-manager/mbl/app_update_manager/manager.py:220-233 | The path of a version determines the bundle |
| AppManager.InstallApp | firmware-management/mbl-app-manager/mbl/app_manager/manager.py:51-88 | The bundle is there after success; after AppInstallError it is not, the partial installation having been removed; a failed clean-up leaves it. Name look-up, installation and clean-up are the steps on the trace, in this order, and their failures are counted |
| AppManager.RemoveApp | firmware-management/mbl-app-manager/mbl/app_manager/manager.py:90-126 | Success removes the bundle and an emptied application directory; AppPathInexistent exactly if there is no such bundle; no change on failure |
| Lifecycle.RunApp | application-framework/mbl-app-lifecycle-manager/mbl/app_lifecycle_manager/manager.py:18-22 | Success means that no container existed and that it now runs from the bundle; what each kind of failure leaves |
| Lifecycle.TerminateApp | application-framework/mbl-app-lifecycle-manager/mbl/app_lifecycle_manager/manager.py:25-69 | It returns normally if and only if the container does not exist afterwards; no error of it mentions a missing container. Its steps are fixed: SIGTERM, then the wait, after which comes the deletion if the last poll found the application stopped, and SIGKILL with its own wait if it timed out; a container found ended is deleted at once |
| Lifecycle.KillApp | application-framework/mbl-app-lifecycle-manager/mbl/app_lifecycle_manager/manager.py:72-97 | A normal return means that the container existed and is gone; a container that did not exist is an error. After a delivered SIGKILL comes the wait, and the deletion only after a poll that found the application stopped |
| Lifecycle.WaitForAppStop | application-framework/mbl-app-lifecycle-manager/mbl/app_lifecycle_manager/manager.py:100-125 | Polls with pauses of a tenth of a second between them, at most ceil(10 timeout) + 1 of them, one if the timeout is not positive; normal return exactly if the last poll found the application stopped; a timeout error only after a non-stopped poll begun at or past the deadline |
| Lifecycle.DefaultPolls | application-framework/mbl-app-lifecycle-manager/mbl/app_lifecycle_manager/manager.py:12-15 | With the default time-outs a wait ends after at most 31 polls following SIGTERM and 11 following SIGKILL |
| ContainerRuntime.GetState | application-framework/mbl-app-lifecycle-manager/mbl/app_lifecycle_manager/container.py:32-90 | "Does not exist" exactly if there is no container; otherwise the phase of the container, an unrecognized status or an error |
| ContainerRuntime.Create | application-framework/mbl-app-lifecycle-manager/mbl/app_lifecycle_manager/container.py:93-166 | Success creates the container from an existing bundle; ContainerAlreadyExistError only if it existed |
| ContainerRuntime.Start | application-framework/mbl-app-lifecycle-manager/mbl/app_lifecycle_manager/container.py:169-191 | Success takes a created container to running |
| ContainerRuntime.Kill | application-framework/mbl-app-lifecycle-manager/mbl/app_lifecycle_manager/container.py:194-222 | Success only for a container whose process has not ended; the reason of a failure agrees with the state of the container |
| ContainerRuntime.Delete | application-framework/mbl-app-lifecycle-manager/mbl/app_lifecycle_manager/container.py:225-247 | Success removes the container and nothing else |
| ContainerRuntime.GetOciBundlePaths | application-framework/mbl-app-lifecycle-manager/mbl/app_lifecycle_manager/container.py:250-266 | The paths of exactly the bundles of the application, in any order |
| NaturalSort.SplitAlternates | firmware-management/mbl-app-update-manager/mbl/app_update_manager/utils.py:34-35 | The split key alternates text and digits, starts and ends with text, and its pieces concatenate to the string, for every string |
| NaturalSort.SplitExact | firmware-management/mbl-app-update-manager/mbl/app_update_manager/utils.py:34-35 | The pieces are the only such decomposition |
| NaturalSort.NeverTypeError | firmware-management/mbl-app-update-manager/mbl/app_update_manager/utils.py:30-37 | Comparing the keys of any two strings never compares a number with a text |
| NaturalSort.LeqIsTotalPreorder | firmware-management/mbl-app-update-manager/mbl/app_update_manager/utils.py:34-37 | The order is a total preorder, and equivalence in it is equality of keys |
| NaturalSort.HumanSort | application-framework/mbl-app-lifecycle-manager/mbl/app_lifecycle_manager/utils.py:22-36 | The list is sorted in place into Sorted of its old contents (both copies of the function) |
| NaturalSort.SortedSorts | firmware-management/mbl-app-update-manager/mbl/app_update_manager/utils.py:28-37 | The result is sorted and keeps every group of equal keys in its order |
| NaturalSort.StableSortIsUnique | firmware-management/mbl-app-update-manager/mbl/app_update_manager/utils.py:37 | Being sorted and stable determines the result |
| NaturalSort.VersionsSortNumerically | application-framework/mbl-app-lifecycle-manager/mbl/app_lifecycle_manager/utils.py:22-36 | Under any common parent, digits in its name included, version paths compare as their numbers do |
| NaturalSort.SortedVersionsAscend | application-framework/mbl-app-lifecycle-manager/mbl/app_lifecycle_manager/utils.py:22-36 | The sorted list is ascending in the version numbers and has the same members |
| NaturalSort.CurrentAndNextPath | firmware-management/mbl-app-update-manager/mbl/app_update_manager/manager.py:226-235 | The current path has the lowest version; the next one is strictly above all, canonical and not in the list |
| VersionOrder.ValueOfNumeral | firmware-management/mbl-app-update-manager/mbl/app_update_manager/utils.py:30-35 | Appending a digit to a numeral multiplies its value by ten and adds the place of the digit in 0123456789 |
| VersionOrder.DecimalOf | firmware-management/mbl-app-update-manager/mbl/app_update_manager/manager.py:230-233 | The decimal text of a number, digit by digit |
| VersionOrder.ShorterVersionFirst | firmware-management/mbl-app-update-manager/mbl/app_update_manager/utils.py:28-37 | Of two version numbers without leading zeros the one with fewer characters sorts first |
| VersionOrder.SmallerDigitFirst | firmware-management/mbl-app-update-manager/mbl/app_update_manager/utils.py:28-37 | Of two as long, the one with the smaller first differing character |
| VersionOrder.TextsByCharacter | firmware-management/mbl-app-update-manager/mbl/app_update_manager/utils.py:28-37 | Texts compare character by character, and a proper prefix comes first |
| VersionOrder.FirstPieceDecides | firmware-management/mbl-app-update-manager/mbl/app_update_manager/utils.py:28-37 | The first pieces of two keys that differ decide their order |
| Crc32.StepIsLinear | firmware-management/mbl-firmware-update-header-util/mbl/firmware_update_header_util/firmware_update_header_util.py:237-246 | One bit step of the CRC-32 of RFC 1952 (section 8) is linear over exclusive or |
| Crc32.StepKeepsNonZero | firmware-management/mbl-firmware-update-header-util/mbl/firmware_update_header_util/firmware_update_header_util.py:237-246 | The bit step maps no non-zero register to zero |
| Crc32.RegisterIsInjective | firmware-management/mbl-firmware-update-header-util/mbl/firmware_update_header_util/firmware_update_header_util.py:237-246 | Different registers stay different over any message |
| Crc32.RegisterOfWord | firmware-management/mbl-firmware-update-header-util/mbl/firmware_update_header_util/firmware_update_header_util.py:237-246 | Up to four bytes enter the register as one word that is shifted through |
| Crc32.TableDriven | firmware-management/mbl-firmware-update-header-util/mbl/firmware_update_header_util/firmware_update_header_util.py:237-246 | The table look-up form of the checksum computes the same as the bit-by-bit definition |
| Crc32.PresetIsOnes | firmware-management/mbl-firmware-update-header-util/mbl/firmware_update_header_util/firmware_update_header_util.py:237-246 | For four bytes or more the checksum is the complement of the register that starts at zero and reads the message with its first four bytes complemented |
| CrcCheck.CheckValue | firmware-management/mbl-firmware-update-header-util/mbl/firmware_update_header_util/firmware_update_header_util.py:237-246 | The check value of CRC-32: the digits 1 to 9 give CBF43926 in hexadecimal |
| Crc32.BurstChangesCrc | firmware-management/mbl-firmware-update-header-util/mbl/firmware_update_header_util/firmware_update_header_util.py:237-246 | Messages that differ only inside at most four consecutive bytes have different checksums |
| Crc32.BitBurstChangesCrc | firmware-management/mbl-firmware-update-header-util/mbl/firmware_update_header_util/firmware_update_header_util.py:237-246 | Messages whose differences lie within any 32 consecutive bits, byte-aligned or not, have different checksums |
| CrcWindows.TailDifference | firmware-management/mbl-firmware-update-header-util/mbl/firmware_update_header_util/firmware_update_header_util.py:237-246 | Of the words of one to three bytes exactly one, of two bytes, is shifted to a register with as many low bytes clear |
| FirmwareHeader.DecodeOfEncode | firmware-management/mbl-firmware-update-header-util/mbl/firmware_update_header_util/firmware_update_header_util.py:107-170 | Unpacking a packed header, whatever follows it, accepts it and gives its fields back |
| FirmwareHeader.EncodeOfDecode | firmware-management/mbl-firmware-update-header-util/mbl/firmware_update_header_util/firmware_update_header_util.py:180-222 | An accepted blob is the packed form of its own fields, which are in range, followed by the rest |
| FirmwareHeader.AcceptedExactly | firmware-management/mbl-firmware-update-header-util/mbl/firmware_update_header_util/firmware_update_header_util.py:107-170 | A blob is accepted if and only if it is a packed header in range followed by anything |
| FirmwareHeader.EncodeIsInjective | firmware-management/mbl-firmware-update-header-util/mbl/firmware_update_header_util/firmware_update_header_util.py:172-222 | Packed headers are uniquely decodable, trailing data included |
| FirmwareHeader.Layout | firmware-management/mbl-firmware-update-header-util/mbl/firmware_update_header_util/firmware_update_header_util.py:180-222 | Which bytes of a packed header hold which field, the CRC field included |
| FirmwareHeader.BigEndianByte | firmware-management/mbl-firmware-update-header-util/mbl/firmware_update_header_util/firmware_update_header_util.py:66-67 | Byte i of an n-byte field is its digit n - 1 - i to base 256 |
| FirmwareHeader.BurstIsRejected | firmware-management/mbl-firmware-update-header-util/mbl/firmware_update_header_util/firmware_update_header_util.py:150-156 | A change inside any four consecutive bytes of the 108-byte part, or inside the CRC field, of any packed header is rejected |
| FirmwareHeader.BitBurstIsRejected | firmware-management/mbl-firmware-update-header-util/mbl/firmware_update_header_util/firmware_update_header_util.py:150-156 | The same for 32 consecutive bits of the 108-byte part, starting at any bit |
| HeaderWindows.StraddlingBurst | firmware-management/mbl-firmware-update-header-util/mbl/firmware_update_header_util/firmware_update_header_util.py:150-167 | A change inside four consecutive bytes on both sides of the border to the CRC field is accepted if and only if it is one particular pattern on two bytes of each side and enough data remains for the resulting signature size |
| HeaderWindows.UndetectedBurst | firmware-management/mbl-firmware-update-header-util/mbl/firmware_update_header_util/firmware_update_header_util.py:150-170 | That pattern turns any header with a signature of 25048 bytes into an accepted one without signature |
| FirmwareHeader.FirmwareUpdateHeader.constructor | firmware-management/mbl-firmware-update-header-util/mbl/firmware_update_header_util/firmware_update_header_util.py:85-89 | A new object has zeroed fields and no signature |
| FirmwareHeader.FirmwareUpdateHeader.Unpack | firmware-management/mbl-firmware-update-header-util/mbl/firmware_update_header_util/firmware_update_header_util.py:107-170 | The verdict is that of Check; fields are assigned before the checks; the object holds exactly the decoded header if and only if the new signature is not empty or there was none before |
| FirmwareHeader.FirmwareUpdateHeader.Pack | firmware-management/mbl-firmware-update-header-util/mbl/firmware_update_header_util/firmware_update_header_util.py:180-222 | Succeeds exactly on headers in range, with the buffer equal to their encoding; which error the others give |
| PayloadLink.PayloadHardLink.constructor | firmware-management/updated/updated/source/fileutils/payload.h:27-45 | Replaces whatever the directory held by the new link |
| PayloadLink.PayloadHardLink.Destroy | firmware-management/updated/updated/source/fileutils/payload.h:53-57 | Removes the directory, whoever made its present contents |
| UpdateCoordinator.UpdateCoordinator.StartLocked | firmware-management/updated/updated/source/UpdateCoordinator.cpp:24-28 | The critical section of start: header, new link made before the old one is destroyed, flag |
| UpdateCoordinator.UpdateCoordinator.RunLocked | firmware-management/updated/updated/source/UpdateCoordinator.cpp:41-47 | The critical section of run: flag cleared, link handed over and destroyed |
| UpdateCoordinator.StartSteps | firmware-management/updated/updated/source/UpdateCoordinator.cpp:23-30 | The interleaved small steps of a start compose to its critical section |
| UpdateCoordinator.RunSteps | firmware-management/updated/updated/source/UpdateCoordinator.cpp:43-47 | The same for run |
| UpdateCoordinator.FlagMeansLink | firmware-management/updated/updated/source/UpdateCoordinator.cpp:18-48 | In every interleaving of any number of starts with the run loop: with the mutex free, the flag is set exactly if there is a link, which is then the latest request, and otherwise the latest request has been consumed |
| UpdateCoordinator.NoLostWakeup | firmware-management/updated/updated/source/UpdateCoordinator.cpp:30-40 | A blocked runner with a pending update has a start between unlock and notification, which will wake it |
| UpdateCoordinator.RunTakesLatest | firmware-management/updated/updated/source/UpdateCoordinator.cpp:40-47 | A run consumes the link and header of the latest start, never twice and in order; its assertion holds |
| UpdateCoordinator.StartsAreIssued | firmware-management/updated/updated/source/UpdateCoordinator.cpp:18-27 | What the critical sections record is, in order, what the callers passed to start |
| UpdateCoordinator.ManifestIsLatest | firmware-management/updated/updated/source/UpdateCoordinator.cpp:50-53 | The header that manifest reads is always that of the latest start, before and after its run |
| UpdateCoordinator.AccessIsLocked | firmware-management/updated/updated/source/UpdateCoordinator.cpp:23-48 | Header, link and flag are touched only by the thread that has the mutex |
| UpdateCoordinator.LinksAreCleanedUp | firmware-management/updated/updated/source/fileutils/payload.h:35-57 | In every state no directory outlives its link, foreign directories are kept, and the payload handed over exists exactly if the latest start did not replace an unconsumed link in the same place |
| UpdateCoordinator.NewLinkExists | firmware-management/updated/updated/source/UpdateCoordinator.cpp:24-27 | Right after a start the link file exists if and only if no unconsumed earlier link had the same parent directory |
| UpdateCoordinator.NoDeadlock | firmware-management/updated/updated/source/updated.cpp:46-49 | While a call is unfinished or an update is pending, some thread can take a real step; new calls and spurious wake-ups can come at any time |
| FlagHandshake.Invariant | firmware-management/mbl-app-update-manager/bin/mbl-app-update-manager-daemon:14-35 | The invariant that ties both program counters to the four files holds over every interleaving |
| FlagHandshake.HandshakeIsCorrect | cloud-services/mbl-cloud-client/scripts/apps_installer.sh:27-46 | For any number of installers, one at a time: no cat or rm meets a missing or unwritten file, the n-th run gets the n-th path and the n-th installer exits with 0 if that run did and with 47 otherwise |
| FlagHandshake.LogsAreTrue | firmware-management/mbl-app-update-manager/bin/mbl-app-update-manager-daemon:25-28 | The requests are the paths of the installers started, and the statuses those that the runs of the manager ended with, in order |
| FlagHandshake.CommandsFindTheirFiles | cloud-services/mbl-cloud-client/scripts/apps_installer.sh:27-46 | A file about to be read is written and one about to be removed exists, the two flags are never both set, and the path is not removed before the status is written |
| FlagHandshake.CleanBetweenRequests | firmware-management/mbl-app-update-manager/bin/mbl-app-update-manager-daemon:25-35 | Between requests all four files are absent, every request has been served, and any new one can begin |
| FlagHandshake.RequestsAreAnswered | cloud-services/mbl-cloud-client/scripts/apps_installer.sh:34-46 | A pending request always has a process that can advance it, and is answered after at most sixteen advancing steps |
| BankNames.FindTargetPartition | firmware-management/swupdate-handlers/arm-handler-common.c:136-201 | Succeeds exactly if there is a target that fits the buffer, which then holds it as a C string |
| BankNames.TargetOfBank1 | firmware-management/swupdate-handlers/arm-handler-common.c:147-157 | From bank 1 the target is bank 2 if and only if the disk name is free of the delimiter |
| BankNames.TargetOfBank2 | firmware-management/swupdate-handlers/arm-handler-common.c:155-176 | From bank 2 the target is bank 1, unless the number of bank 1 is a suffix of that of bank 2, when it is the mounted partition itself |
| BankNames.TargetIsInvolution | firmware-management/swupdate-handlers/arm-handler-common.c:136-201 | For well named banks the target is the other bank, twice leads back, and the later suffix test tells the banks apart |
| BankNames.NamingIsExact | firmware-management/swupdate-handlers/rootfs-handler.c:46-80 | The choice of the target and the test that follows are right for both banks if and only if the names are well formed: no delimiter in the disk name and neither number a suffix of the other |
| BankNames.StrayTarget | firmware-management/swupdate-handlers/arm-handler-common.c:147-176 | With the delimiter in the disk name the target is neither bank |
| BankNames.EndsPartition | firmware-management/swupdate-handlers/arm-handler-common.c:39-46 | A delimiter-free name ends a partition path exactly if it ends the partition number |
| BankNames.EndsWithIsSuffix | firmware-management/swupdate-handlers/arm-handler-common.c:39-46 | The suffix test is true exactly if the name is some text followed by the other name |
| BankNames.TokenIsFirst | firmware-management/swupdate-handlers/arm-handler-common.c:144-153 | The first token is the text before the first delimiter after leading ones |
| RootfsBank.Board.CopyImageAndSync | firmware-management/swupdate-handlers/arm-handler-common.c:306-336 | Fails exactly if the device cannot be opened or closed, whatever became of the copy; what the partition holds then and in between |
| RootfsBank.Board.WriteBootflagFile | firmware-management/swupdate-handlers/arm-handler-common.c:253-285 | The flag is present after success and unchanged after failure |
| RootfsBank.Board.RemoveBootflagFile | firmware-management/swupdate-handlers/arm-handler-common.c:287-304 | The flag is absent after success, also if it was absent before |
| RootfsBank.Board.RemoveDoNotRebootFlag | firmware-management/swupdate-handlers/arm-handler-common.c:338-370 | The file is gone exactly after success |
| RootfsBank.Board.RootfsV4Handler | firmware-management/swupdate-handlers/rootfs-handler.c:20-92 | Every state of the medium, and the return value: 0 if and only if the target was located, opened and closed, the flag on the medium selects the bank of the target, which needed an operation that did not fail or none, and the reboot lock is gone; 1 otherwise |
| RootfsBank.ZeroMeansSwitched | firmware-management/swupdate-handlers/rootfs-handler.c:55-91 | After a return of 0 the flag selects the bank that was written |
| RootfsBank.MountedBankIsKept | firmware-management/swupdate-handlers/rootfs-handler.c:46-60 | The partition that is running is never changed |
| RootfsBank.CrashSafety | firmware-management/swupdate-handlers/rootfs-handler.c:55-80 | With the flag naming the mounted bank, the selected bank is complete after a crash at every point if and only if the handler does not reach the flag with an incomplete target |
| RootfsBank.FlippedBoardBootsTarget | firmware-management/swupdate-handlers/rootfs-handler.c:62-80 | Past the flag the next boot is from the other bank with what was copied |
| RootfsBank.FailedCopyIsReportedAsSuccess | firmware-management/swupdate-handlers/arm-handler-common.c:316-321 | A copy that fails half-way makes the handler return 0, and the next boot is from a partial image |
| RootfsBank.UpdateIsLost | firmware-management/swupdate-handlers/rootfs-handler.c:62-80 | If the number of bank 2 ends that of bank 1, an update from bank 2 returns 0 but leaves bank 2 selected and unchanged |
| RootfsBank.MountedBankIsOverwritten | firmware-management/swupdate-handlers/arm-handler-common.c:155-176 | If the number of bank 1 ends that of bank 2, an update from bank 2 overwrites the running file system |
| RootfsBank.SecondUpdate | firmware-management/swupdate-handlers/rootfs-handler.c:48-60 | A second update in one boot is crash safe if and only if it writes nothing |
| RootfsBank.BoardStaysBootable | firmware-management/swupdate-handlers/rootfs-handler.c:20-92 | Over any number of boots, each with one update cut off anywhere, the board stays bootable and runs the image whose flag switch came last, if reported copies reach the medium |
| CloudClient.Statics.HandleClientRegistered | cloud-services/mbl-cloud-client/source/MblCloudClient.cpp:182-190 | The state change and client use of the registered callback |
| CloudClient.Statics.HandleClientUnregistered | cloud-services/mbl-cloud-client/source/MblCloudClient.cpp:205-211 | The state change of the unregistered callback |
| CloudClient.Statics.HandleWithClient | cloud-services/mbl-cloud-client/source/MblCloudClient.cpp:224-245 | The error and authorize callbacks use the client only if there is an instance and change no state |
| CloudClient.CallbackSteps | cloud-services/mbl-cloud-client/source/MblCloudClient.cpp:175-245 | The interleaved small steps of a callback compose to its critical section; which state each callback writes |
| CloudClient.NoDanglingAccess | cloud-services/mbl-cloud-client/source/MblCloudClient.cpp:59-97 | In every interleaving of callbacks with runs and destruction, no access goes through a null or deleted object and no assertion fails |
| CloudClient.AccessIsValid | cloud-services/mbl-cloud-client/source/MblCloudClient.cpp:77-245 | Whatever is about to be accessed exists, and callbacks reach the pointer, the state and the client only under the mutex, as run does the state |
| CloudClient.NothingIsLeaked | cloud-services/mbl-cloud-client/source/MblCloudClient.cpp:77-97 | The object and its client exist during a run and no others ever do |
| CloudClient.CheckedInstanceStays | cloud-services/mbl-cloud-client/source/MblCloudClient.cpp:182-190 | An instance a callback has found stays, with its client, until the callback unlocks |
| CloudClient.UnregisteredNeedsCallback | cloud-services/mbl-cloud-client/source/MblCloudClient.cpp:124-129 | A run returns DeviceUnregistered only if the last write of the state was that of an unregister callback after the set-up |
| CloudClient.PassDecides | cloud-services/mbl-cloud-client/source/MblCloudClient.cpp:124-129 | A pass of the loop ends the run with DeviceUnregistered if and only if that is so at the time of the read |
| CloudClient.OtherReturns | cloud-services/mbl-cloud-client/source/MblCloudClient.cpp:107-122 | A pass ends the run with ShutdownRequested exactly if a signal came before it, and a failed set-up ends it with its error |
| CloudClient.DecisionStands | cloud-services/mbl-cloud-client/source/MblCloudClient.cpp:107-129 | What a run has decided to return is what it returns |
| CloudClient.ResultsHaveReasons | cloud-services/mbl-cloud-client/source/MblCloudClient.cpp:107-129 | Each result of a run has its reason among the steps: a signal, a failed set-up, or an unregister callback |
| CloudClient.NoDeadlock | cloud-services/mbl-cloud-client/source/MblCloudClient.cpp:77-142 | A run in progress can always go on, or the callback that has the mutex can, without any further call or signal |
| Reregistration.RunLoop | cloud-services/mbl-cloud-client/source/MblCloudClient.cpp:117-139 | The loop ends at the first pass with a signal or without registration, and the updates are those of Updates |
| Reregistration.ReregistrationBound | cloud-services/mbl-cloud-client/mbed_cloud_client_user_config.h:24 | If clock readings are at most delta seconds apart, updates are at least 300 and at most 299 + delta apart, hence within the lifetime of 600 if delta is at most 300, the time up to the last reading included |
| Reregistration.BoundIsTight | cloud-services/mbl-cloud-client/source/MblCloudClient.cpp:131-136 | For every delta the bound is reached; a delta above P can exceed the lifetime |

## Left out

- Unpacking of update archives: validation of tar members and extraction; the list of packages is given.
- The inside of runc, opkg, swupdate, tar, gRPC, systemd, D-Bus and the Mbed cloud client: their commands succeed or fail with stated effects.
- Partially executed opkg or rmtree runs: installing or removing one bundle is one change of the tree, and a partial installation counts as the bundle being there.
- Files in application directories that are no bundles, bundles nested deeper than one level and bundle directories with non-numeric names.
- A failed `runc create` leaving a container behind, and a container that anyone but these managers creates.
- Restarting the update manager in the middle of its work: the model starts each update with an empty record list.
- A failing deletion of an old version at boot: deleting is one step that succeeds, although RecoveryRestarts covers stopping before any of them.
- White space outside ASCII and undecodable bytes in control data.
- `list_installed_apps`, `force_install_app`, command-line parsing, logging and exit codes.
- Non-ASCII digits in version paths: only 0 to 9 are digits.
- SHA-256, `calculate_firmware_hash` and Python values other than integers and bytes in the header fields.
- FirmwareHeader.BurstIsRejected: does not cover changes of the signature, which the checksum does not protect.
- The unlocked read in `UpdateCoordinator::manifest` and the C++ memory model: only steps ordered by the mutex.
- A constructor failure inside the `noexcept` `start`, which aborts the process, and the assertions on empty arguments.
- Payload directories nested in each other's `updated` directories, and a payload that itself lies in one.
- The installer and the daemon sharing a directory: one script has it in a variable, the other in a constant; both are taken to mean the same one.
- A full disk or a failing `touch` in the handshake scripts, and a crash of either script in the middle of a request.
- Fairness: FlagHandshake and UpdateCoordinator prove that someone can move and, for the handshake, that each effective step brings the answer closer, not that the scheduler runs it.
- Reading mtab and the partition files, and the abort on exhausted memory: the mounted device and the part numbers are given, or missing.
- The private copy that `strtok` changes: Token gives the first token as a value.
- The boot loader, which is not part of this model: the flag file `rootfs2` is taken to select bank 2 and its absence bank 1.
- Wear, torn writes and reordering on the medium other than a bank that is partially written until it is synced.
- RootfsBank.BoardStaysBootable: assumes that each boot mounts the bank the flag selects and sees one update.
- Registering resources, the resource broker and provisioning in the cloud client.
- The callback logging and the endpoint information that a registered callback reads after it has changed the state, apart from the access to the client.
