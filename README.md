# Veeam folder synchronizer, modelled in Dafny

This project models the two core files of the Veeam folder synchronizer and proves properties of the model.

- `Veeam/Synchronizer.cs` holds the one-way mirroring pass. `SynchronizeFolders` first runs `CheckForAdded` on every file listed under the source directory. A source file missing from the replica is copied there, after its directory is created. A replica file whose MD5 differs from its source file's is overwritten. The method then lists the replica again and runs `CheckForRemoved` on every file, which deletes the replica files the source lacks. Every copy, update and deletion is logged.
- `Veeam/ConsoleManager.cs` holds the console setup. The model covers the parts of it that decide something: the guard chain of `IsValidAbsoluteDirectoryPath`, with its fixed messages; the answer test of `GetUserConfirmation`; and the five-minute fallback of `GetTimeSpan`.

Modules:

- `Trees` (`trees.dfy`): the filesystem as the synchronizer sees it.
  - A tree is a map from relative path to file contents. A relative path is a sequence of names, so a file's directories are the proper prefixes of its path.
  - The replica also carries its set of existing directories.
  - `GetFiles` is the recursive listing, in an order the host chooses.
- `SyncPass` (`sync_pass.dfy`): the specification functions of one pass, and the lemmas about them.
  - `AddedStep` and `RemovedStep` are the effect of one check on the replica.
  - `Steps` is the `CheckFiles` loop, and `Pass` is `SynchronizeFolders`.
  - `Lines` is the log a run of actions produces.
- `Synchronization` (`synchronization.dfy`): the class `Synchronizer`.
  - It holds the source tree, the replica's files and directories, and the log. The log is ghost: it is the sequence of messages handed to the logger.
  - Its methods change that state in place. Each method is proved against the functions of `SyncPass`.
- `ConsoleManager` (`console_manager.dfy`): the validator, `Trim`/`ToLower` and the confirmation test, and the interval fallback.
- `Configuration` (`configuration.dfy`) and `Wrappers` (`wrappers.dfy`): the `Repository` record, `TimeSpan`, and `Option`/`Result`.

How exceptions are modelled: `Synchronizer` catches nothing, so an exception thrown by `Directory.CreateDirectory` or `File.Copy` ends the whole pass. The model records such a pass as a `Run` whose `failedAt` names the file whose copy threw.

- `CreateDirectory` fails when a file stands where one of the new file's directories must go.
- `File.Copy` without overwrite fails when a directory stands where the file must go.
- A source file meeting either condition is `Blocked`, and a source tree with a blocked file is in `Conflict` with the replica.

The pass completes exactly when there is no conflict. A failed pass leaves the conflict in place, so a rerun over the same source fails too (`FailedPassFailsAgain`). The program itself never reruns: the exception escapes `SynchronizeFolders`. That ends `Veeam/Program.cs`'s single pass, and it also ends the timer loop of `Veeam/SynchronizationChecker.cs:28-31`. So `FailedPassFailsAgain` is about a restart of the program on the same trees.

There is no skip-and-continue. A failing file is not skipped with an error logged while the pass carries on: it ends the pass, and the files after it in the listing are never looked at (`FailureIsFinal`).

## Model

| member | source | states |
|---|---|---|
| Trees.GetFiles | Veeam/Synchronizer.cs:34 | the listing holds every file of the tree exactly once, in an order left to the host |
| Trees.MirrorsIdentical | Veeam/Synchronizer.cs:49-55 | if the digest is injective, a replica that mirrors the source by digest holds exactly the source's contents |
| SyncPass.CreateDirectoryFails | Veeam/Synchronizer.cs:43 | Directory.CreateDirectory throws when a file stands at one of the new file's ancestor paths |
| SyncPass.Blocked | Veeam/Synchronizer.cs:41-44 | a source file absent from the replica cannot be copied there: its directory cannot be created, or a directory stands at its own path so File.Copy throws |
| SyncPass.AddedStep | Veeam/Synchronizer.cs:37-57 | CheckForAdded fails exactly when the file is blocked. An absent file is copied under newly created directories, with a Copied action. A file whose digest differs is overwritten, with an Updated action. A copied or overwritten file holds the source's bytes. A file with the same digest is left alone with no action. No other file changes, and directories are only added, and only the file's ancestors |
| SyncPass.RemovedStep | Veeam/Synchronizer.cs:69-79 | CheckForRemoved deletes the replica file and logs Deleted exactly when the source has no file at that path; otherwise it changes nothing; it never fails and never touches directories |
| SyncPass.Step | Veeam/Synchronizer.cs:32 | the check CheckFiles is handed, on one file: only CheckForAdded can throw, and then on that file; at most one action is logged, and it is about that file |
| SyncPass.Steps | Veeam/Synchronizer.cs:29-33 | CheckFiles as a fold over the listing that stops at the first check that throws; only the add check can fail, and then on a source file; no more actions than listed files |
| SyncPass.Pass | Veeam/Synchronizer.cs:20-27 | SynchronizeFolders: the add loop over the source listing, then, if it completed, the delete loop over a replica listing taken after it. Only a source file can make it fail, and no more actions are logged than the two listings hold files |
| SyncPass.Join | Veeam/Synchronizer.cs:39 | the relative path as Path.GetRelativePath renders it, with names joined by the host's separator |
| SyncPass.Line | Veeam/Synchronizer.cs:45 | the message for each action, from lines 45, 54 and 77: "Copied new file: ", "Updated file: " or "Deleted file: " followed by the relative path |
| SyncPass.LineTellsKind | Veeam/Synchronizer.cs:45 | two actions of different kinds never give the same log line (the messages of lines 45, 54 and 77 differ in their first letter) |
| SyncPass.Lines | Veeam/Synchronizer.cs:45 | the log gets one line per action in order: "Copied new file: ", "Updated file: " or "Deleted file: " followed by the relative path |
| SyncPass.LinesAppend | Veeam/Synchronizer.cs:29-33 | logging two runs of actions one after the other appends their lines in that order |
| SyncPass.StepsExtend | Veeam/Synchronizer.cs:31-32 | the loop over one more file applies that file's check where the shorter loop left off |
| SyncPass.FailureIsFinal | Veeam/Synchronizer.cs:29-33 | once a check throws, CheckFiles looks at no further file |
| SyncPass.AddedPassFrame | Veeam/Synchronizer.cs:22-23 | the add loop leaves every file outside the source listing in place and unchanged, and removes no directory |
| SyncPass.AddedPassKeepsFilePlaces | Veeam/Synchronizer.cs:43 | the add loop never creates a directory at a path where the source has a file |
| SyncPass.AddedPassMirrors | Veeam/Synchronizer.cs:41-55 | after a completed add loop the replica holds its old files plus every listed file, and each listed file has its source's digest |
| SyncPass.AddedPassMakesDirs | Veeam/Synchronizer.cs:43-44 | every file the add loop copied lies below directories that now exist |
| SyncPass.AddedPassCopies | Veeam/Synchronizer.cs:41-56 | every file the add loop copied or updated holds its source file's bytes when the loop ends (each listed file is checked once), and is a source file |
| SyncPass.AddedPassUntouched | Veeam/Synchronizer.cs:41-56 | the add loop keeps the bytes of every replica file it logged no update for, and each directory it created is an ancestor of a listed file |
| SyncPass.AddedPassSucceeds | Veeam/Synchronizer.cs:22-23 | the add loop completes exactly when no listed file is blocked in the starting replica. Otherwise it stops at a listed file that was blocked there and is still blocked |
| SyncPass.AddedPassActionPaths | Veeam/Synchronizer.cs:41-55 | the add loop names each file at most once, only listed files, and never deletes |
| SyncPass.AddedPassActions | Veeam/Synchronizer.cs:41-55 | a completed add loop logs Copied for exactly the listed files the replica lacked, and Updated for exactly those whose digest differed |
| SyncPass.RemovedPass | Veeam/Synchronizer.cs:25-26 | the delete loop never fails and keeps the directories. It removes exactly the listed replica files the source lacks, keeps every other file unchanged, and logs a Deleted for each of them |
| SyncPass.AddedStepKeepsValid | Veeam/Synchronizer.cs:41-56 | one add step keeps the replica a consistent tree |
| SyncPass.RemovedStepKeepsValid | Veeam/Synchronizer.cs:74-78 | one delete step keeps the replica a consistent tree |
| SyncPass.StepsKeepValid | Veeam/Synchronizer.cs:29-33 | either loop keeps the replica a consistent tree, whether or not it completes |
| SyncPass.PassKeepsValid | Veeam/Synchronizer.cs:20-27 | a pass keeps the replica consistent, and directories are only ever created |
| SyncPass.PassSucceeds | Veeam/Synchronizer.cs:20-27 | a pass completes exactly when the source has no file that is blocked in the replica, for any listing order |
| SyncPass.PassConverges | Veeam/Synchronizer.cs:20-27 | after a completed pass the replica has exactly the source's relative paths, each with its source's digest, and every copied file's directories exist |
| SyncPass.PassCopies | Veeam/Synchronizer.cs:20-27 | after a pass every file it copied or updated is a source file and holds that file's bytes, not only its digest; the delete loop never removes such a file |
| SyncPass.PassUntouched | Veeam/Synchronizer.cs:20-27 | nothing else changes: a replica file the source also has keeps its bytes unless the pass logged an update for it, and each directory the pass created is an ancestor of a source file, so no directory holding no source file is created |
| SyncPass.PassActions | Veeam/Synchronizer.cs:20-27 | a completed pass logs at most one action per file: Copied for each source file the replica lacked, Updated for each whose digest differed, and Deleted for each replica file the source lacks |
| SyncPass.AddedStepsOnMirror | Veeam/Synchronizer.cs:49-55 | on a replica that already mirrors the source, the add loop changes nothing and logs nothing |
| SyncPass.RemovedStepsOnMirror | Veeam/Synchronizer.cs:74-78 | a delete loop over files that all exist in the source changes nothing and logs nothing |
| SyncPass.PassOnMirrorIsNoOp | Veeam/Synchronizer.cs:20-27 | a pass over a replica that already mirrors the source leaves it unchanged and logs nothing |
| SyncPass.SecondPassIsNoOp | Veeam/Synchronizer.cs:20-27 | idempotence: a second pass right after a completed one, whatever the listing orders, copies, updates and deletes nothing and logs nothing |
| SyncPass.FailedPassFailsAgain | Veeam/Synchronizer.cs:20-27 | a pass that threw leaves the replica such that every later pass over the same source throws too |
| Synchronization.Synchronizer.constructor | Veeam/Synchronizer.cs:14-18 | a synchronizer starts from a consistent source and replica, with an empty log |
| Synchronization.Synchronizer.CheckForAdded | Veeam/Synchronizer.cs:37-57 | the new replica and the actions are those of AddedStep, the log grows by their lines, and the source is unchanged |
| Synchronization.Synchronizer.CheckForRemoved | Veeam/Synchronizer.cs:69-79 | the new replica and the actions are those of RemovedStep, the log grows by their lines, and the source is unchanged |
| Synchronization.Synchronizer.ApplyCheck | Veeam/Synchronizer.cs:32 | applying the action CheckFiles was handed is the matching step |
| Synchronization.Synchronizer.CheckFiles | Veeam/Synchronizer.cs:29-33 | the loop leaves the replica, the actions and the outcome of Steps on its listing, logs their lines, and stops at the first check that throws |
| Synchronization.Synchronizer.SynchronizeFolders | Veeam/Synchronizer.cs:20-27 | The state is that of Pass on a source listing and on a replica listing taken after the add loop. The source is unchanged, consistency is kept and directories only grow. The pass completes iff there is no conflict, and then the replica mirrors the source and the log names each copy, update and deletion once. A failed pass leaves a conflict. Every file copied or updated holds its source file's bytes, and a replica file the source also has keeps its bytes unless an update was logged for it, and new directories are only ancestors of source files. An already mirrored replica is left as it is, with nothing logged |
| ConsoleManager.WindowsInvalidPathChars | Veeam/ConsoleManager.cs:107 | Path.GetInvalidPathChars on Windows under .NET Core: '\|', NUL and the control characters 1 to 31 |
| ConsoleManager.UnixInvalidPathChars | Veeam/ConsoleManager.cs:107 | Path.GetInvalidPathChars on Unix: NUL only |
| ConsoleManager.UnixIsPathRooted | Veeam/ConsoleManager.cs:110 | Path.IsPathRooted on Unix: the path starts with '/' |
| ConsoleManager.IsWhiteSpace | Veeam/ConsoleManager.cs:90 | char.IsWhiteSpace, the test of both Trim and string.IsNullOrWhiteSpace: the controls TAB to CR, the space, NEL and the Unicode space separators, line separator and paragraph separator |
| ConsoleManager.ConsolePaddingIsWhiteSpace | Veeam/ConsoleManager.cs:90 | space, tab, CR and LF are white space; 'y', 'Y', '0' and NUL are not |
| ConsoleManager.IsNullOrWhiteSpace | Veeam/ConsoleManager.cs:105 | string.IsNullOrWhiteSpace on a non-null string: every character is white space, the empty string included |
| ConsoleManager.IsDriveRoot | Veeam/ConsoleManager.cs:116 | the regex `^[A-Za-z]:\\$`: one ASCII letter, ':' and a backslash, with at most one final line feed, which .NET's '$' lets through |
| ConsoleManager.DriveRootMatches | Veeam/ConsoleManager.cs:116 | the regex accepts `C:\`, `z:\` and `D:\` followed by a line feed; it refuses `C:`, a UNC root, a digit in place of the letter and a doubled backslash |
| ConsoleManager.IndexOfAny | Veeam/ConsoleManager.cs:107 | -1 exactly when no character of the path is invalid, otherwise the first index of an invalid character |
| ConsoleManager.IsValidAbsoluteDirectoryPath | Veeam/ConsoleManager.cs:103-121 | The validator never returns false. Each message comes exactly when the earlier guards pass and its own guard fails: blank; invalid character; not rooted; on Windows, a root that is not a drive letter. It returns true exactly when all guards pass |
| ConsoleManager.BlankPathRejectedOnEveryHost | Veeam/ConsoleManager.cs:105-106 | a blank path gets "Path cannot be null or empty." whatever the host, since that guard comes first |
| ConsoleManager.InvalidPathRejectedOnWindows | Veeam.Tests/ConsoleManagerTests.cs:43-60 | with Windows' invalid path characters, "Invalid|Path" is refused with "Path contains invalid characters." |
| ConsoleManager.UnixRefusesRelativePaths | Veeam/ConsoleManager.cs:107-111 | with Unix's invalid characters and rooting, a non-blank path free of NUL and not starting with '/' is refused only for not being absolute |
| ConsoleManager.RootIgnoredOffWindows | Veeam/ConsoleManager.cs:113-118 | away from Windows the path root plays no part in the verdict |
| ConsoleManager.WindowsAcceptsOnlyDriveRoots | Veeam/ConsoleManager.cs:113-117 | on Windows an accepted path's root is one ASCII letter, ':' and '\\' (with at most a final line feed, which .NET's '$' lets through) |
| ConsoleManager.ContentStart | Veeam/ConsoleManager.cs:90 | the first non-white-space position at or after i, with only white space skipped before it |
| ConsoleManager.ContentEnd | Veeam/ConsoleManager.cs:90 | the position after the last non-white-space character before e (at least k), with only white space after it |
| ConsoleManager.Trim | Veeam/ConsoleManager.cs:90 | Trim keeps the stretch of the string between its leading and trailing white space, and that stretch starts and ends with non-white-space |
| ConsoleManager.TrimEmptyIffBlank | Veeam/ConsoleManager.cs:90 | a string trims to the empty string exactly when it is all white space |
| ConsoleManager.ToLowerChar | Veeam/ConsoleManager.cs:90 | an upper-case ASCII letter becomes its lower-case letter; every other character is kept |
| ConsoleManager.ToLower | Veeam/ConsoleManager.cs:90 | lower-casing keeps the length and maps each character on its own |
| ConsoleManager.ToLowerIsY | Veeam/ConsoleManager.cs:90 | only "y" and "Y" lower-case to "y" |
| ConsoleManager.IsConfirmed | Veeam/ConsoleManager.cs:86-91 | the answer is yes exactly when a response was read and it trims to "y" or "Y"; a null response is no |
| ConsoleManager.PaddedYIsConfirmed | Veeam/ConsoleManager.cs:90 | " Y\r\n" is a yes |
| ConsoleManager.OtherAnswersAreNotConfirmed | Veeam/ConsoleManager.cs:90 | "yes", "n", the empty answer and a null response are not a yes |
| ConsoleManager.IntervalOrDefault | Veeam/ConsoleManager.cs:150-162 | a parsed interval is kept as it is, and an input that does not parse gives five minutes (3,000,000,000 ticks) |

## Left out

- Filesystem calls (`Directory.GetFiles`, `File.Copy`, `File.Delete`, `Directory.CreateDirectory`, `Path.GetRelativePath`, `Path.Combine`) are replaced by maps keyed by relative path. Combining a root with a relative path and taking the relative path again is taken to give the same path back. Only the two failures described above are modelled; other I/O errors (permissions, locked files, files vanishing mid-pass) are not.
- The MD5 algorithm of `ComputeMD5` is a function parameter `md5` with no properties. Only its use for comparison is modelled.
- `Veeam/Logger.cs` (file appends, `DateTime.Now` timestamps, exceptions it swallows) is not part of this model. The log is the sequence of messages handed to the logger.
- `Veeam/SynchronizationChecker.cs` is not part of this model. It is the `PeriodicTimer` loop that repeats the pass, and it waits for the first tick before the first pass; `Veeam/Program.cs` runs a single pass and never uses it.
- Async/await is treated as plain sequential code.
- Path identity is exact equality of the sequences of names. On a host whose filesystem ignores case (Windows by default), `File.Exists` at `Veeam/Synchronizer.cs:41` and `:74` finds a file whose name differs only in case. There, a replica `README.TXT` next to a source `readme.txt` is overwritten as an update and never deleted. The model copies `readme.txt` and deletes `README.TXT` instead. `PassConverges`, `PassActions`, `PassUntouched` and `SecondPassIsNoOp` therefore describe case-sensitive filesystems only.
- The three roots are taken to be disjoint: the source, the replica and the log are separate variables, so the pass cannot write into the source. The program does not check this: `SetupDirectory` and `IsValidAbsoluteDirectoryPath` (`Veeam/ConsoleManager.cs:48-67`, `:103-121`) look at each path on its own. Two overlaps break the model's promises:
  - A replica inside the source makes `GetFiles` list the replica's own files. The copies then land inside the source, and each pass nests one more copy.
  - A log directory inside the source makes the log file (`Veeam/Logger.cs:19`, `:31`) a source file that changes on every pass, so every pass logs an update.
  - In both cases `source == old(source)`, `SecondPassIsNoOp` and `PassOnMirrorIsNoOp` do not hold for the real program.
- Empty directories are never mirrored or removed, because only files are listed. The model keeps the replica's directories so that directory creation and the two failures can be stated. `PassUntouched` shows that every directory a pass creates is an ancestor of a source file, so an empty source directory is never created in the replica; `PassKeepsValid` shows that no replica directory is ever removed.
- The separator used when a relative path is logged is the field `separator`, standing for the host's directory separator.
- Console I/O is not modelled. That covers `CreateRepository`, `SetupDirectory`, `GetUserInput`, `IsCreatedCorrectly` and `Veeam/ConsoleInput.cs`: the prompts, the reads, and the directory creation after a confirmation. Their decisions are modelled as functions of what was read.
- Host facts are parameters (`Host`), not computed: `Path.GetInvalidPathChars`, `Path.IsPathRooted`, `Path.GetPathRoot` and `OperatingSystem.IsWindows`. Only the invalid character sets and Unix rooting are written out, as constants used by the lemmas. `TimeSpan.TryParse` is an `Option<TimeSpan>`, and `Console.ReadLine`'s null is `None`.
- IsValidAbsoluteDirectoryPath: a null path is not modelled, since its only caller passes what `GetUserInput` returns, which is never null.
- ToLowerChar: only ASCII upper-case letters are lower-cased; every other character is returned as it is.
- ToLower: only ASCII letters are lower-cased. Culture-specific lower-casing of other letters is not modelled; none of them lower-cases to 'y', so `IsConfirmed` is unaffected.
