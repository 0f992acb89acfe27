# Verified model of mingyue-go's configuration engine

mingyue-go is an agent that manages a Linux host: it shares directories over Samba and NFS, mounts file
systems and records them in `/etc/fstab`, serves files below a root directory, and keeps API keys. This project
models the parts of it that change state which must stay consistent, and proves what they promise.

| directory | what it models |
|---|---|
| `common/` | Go's string operations, the order of strings, a file system with atomic replacement |
| `share/` | the share transaction: memory, three files and two services, as a class and as interleaved steps |
| `disk/` | fstab entries, persistent mounts with credentials, the mount table, mounting and unmounting |
| `file/` | path cleaning, symbolic links, confinement below a root, the operations that change files |
| `auth/` | the keystore file and the index of keys in memory |
| `process/`, `cli/`, `acl/` | paging in 64-bit arithmetic, sizes and uptimes, getfacl output |

## How the parts fit together

**Shares.** `ShareSpec.Apply` and `ShareSpec.Answer` say what Create, Update and Delete promise as one
all-or-nothing transaction. The classes `ShareService.FileBackend` and `ShareService.Manager` do it step by step
(mutate the map, snapshot three files, write them, signal two services, restore the files, undo the map), and each
method is proved to end where the transaction says. `ShareLaws` says what that is in terms of names, shares and files:
which service is concerned, what each operation leaves, what a restart finds. `ShareTheorems` draws the consequences: a restart always
restores memory; smbd turns stale after exactly one kind of failure, and over any run it is fresh at the end
exactly when its last load of a snippet was not part of such a failure.
`ShareInterleaving` drops the assumption that calls run one at a time, because the manager holds no lock across
its steps: what survives every interleaving is proved, calls that do not overlap are proved to behave as a
sequential run, and a run of two overlapping creates without any failure is given after which a restart forgets a
share. `ShareOverlap` says exactly when a restart is right after overlapping calls, whatever fails, and gives a
rule for callers that is enough; for successful calls about different shares `ShareSchedule` gives the exact
condition on the schedule. The printed configuration files are read back by independent parsers for their formats.

**Mounts.** `FstabText` proves that rewriting the text of the fstab replaces one row of a table by the lines of the
entry or adds them. `FstabPersister` proves for which requests that is an update at one mountpoint and idempotent, and
runs the credentials file and the fstab through atomic replacements on a file system that records every state a crash
could leave. `MountOptions` reads the command lines back as mount(8) does, and `MountLaws` reads entries and
credentials files back field by field. `MountService` decides conflicts on the text of
the mount table, with the kernel's escapes, and hands the kernel what the request means.

**Files.** `FileManager.Manager.SafePath` works on strings; it is proved to decide a condition on path components
and on a tree with symbolic links. From that and from what the system calls do follows exactly where calls take
effect. open(2) follows a link at the end of a path and creates one missing name, so WriteFile and CopyFile can write
through a dangling link. mkdir(2) does not follow it: `Tree.MkdirAll` models the recursion of os.MkdirAll, and is
proved to add directories below the root only. Remove, RemoveAll and Rename act on the directory entry itself. For
each of the six calls `FileManager.CallConfinedIff` says when it stays below the root.

**Where code and comments differ.** The comment at internal/service/share/filebackend.go:152-154 promises that the
files are restored when a reload command fails. A failing write returns earlier and restores nothing
(filebackend.go:178-188); `ShareTheorems.RestartAfterFailedWrite` says exactly when a restart is still right then.
The comment at internal/service/file/manager.go:61-64 promises paths within the root; writing can follow a dangling
link outside, and removing or renaming can act on a link that lies outside. Tests and comments do not
mention the other entries of this table either. Each has an input and its exact condition.

| what happens | input | exact condition |
|---|---|---|
| a call on an accepted path takes effect outside the root | Tree.DanglingLinkEscapes, Tree.EntryOutsideRoot | FileManager.CallConfinedIff |
| a rejected share stays loaded in smbd, also after a later success | ShareTheorems.StaleShareOutlivesSuccess | ShareTheorems.StaleExactlyAfterHalfReload, SuccessHealsIffSignalled, SmbFreshAtEndIff |
| overlapping calls lose a committed share | ShareInterleaving.ConcurrentCreatesLoseOne | ShareOverlap.RestartAfterOverlapIff, ShareSchedule.RestartAfterScheduleIff |
| index and keystore file disagree before the first load | KeyStore.SaveBeforeLoadDisagrees | KeyStore.AgreementIff |
| each persist of one mount adds a line, or one persist adds several | FstabPersister.CommentSourcePilesUp, LineBreakAddsLine | FstabPersister.PersistUpdatesTable, PersistTwice |
| a mount is not listed, so a second one is no conflict and unmounting is NotFound; or a mountpoint is listed where nothing is mounted | MountTable.NeverListed, FalselyListed | MountTable.SeenIff, ListedIff |
| a mount succeeds, is logged and persisted, and nothing is mounted | MountService.VersionMountsNothing | MountService.NilMountsIff, MountOptions.GenericArgs |
| listing a page panics | Paging.WrappedOffsetPanics, WrappedEndPanics | Paging.PanicsIff |

**Assumptions.** The JSON codec is a parameter with `decode(encode(x)) == x` that rejects the empty text.
SHA-256 file names are a parameter function. Commands answer with a success flag; a failed command changes
nothing in the service. Restoring a file and removing a temporary file succeed in the sequential models; in the
interleaved model a restore may fail. Rename is atomic. A mount command that names one source and one mountpoint is
refused or recorded under that mountpoint; any other mount command may do anything to the mount table. The kernel
escapes space, tab, newline, backslash and `#` in /proc/mounts, and takes away the latest mount of a mountpoint. The
names of temporary credentials files have no comma and no white space at their ends.
INI and exports files are read without line continuation by a trailing backslash. Text is a sequence of Unicode
scalar values; letter case is exact wherever the result is compared with ASCII text.

## Model

| member | source | states |
|---|---|---|
| ShareTypes.SortedDeterministic | internal/service/share/filebackend.go:156-164 | whatever order the map is enumerated in and whatever sorted permutation sort.Slice returns, the sorted list is the same |
| ShareTypes.FromSorted | internal/service/share/filebackend.go:87-89 | loading the sorted list of a well-keyed map gives the map back |
| ShareTypes.FromListKeyed | internal/service/share/filebackend.go:87-89 | every key that load creates is the name of its share |
| Order.LessIff | internal/service/share/filebackend.go:156-164 | the order of names: a proper prefix, or the smaller character at the first difference |
| SambaPrinter.WriteSambaConf | internal/service/share/filebackend.go:289-339 | the buffer filled in the loop is the header and one block per Samba share, in order |
| SambaPrinter.SambaParsesBack | internal/service/share/filebackend.go:289-339 | an INI reader of the snippet finds exactly the enabled Samba shares in order, with all their settings; disabled ones are comments |
| SambaPrinter.CommentLine | internal/service/share/filebackend.go:306-312 | a line that starts with # declares nothing, whatever the share's fields contain on that line |
| SambaPrinter.OneShare | internal/service/share/filebackend.go:289-339 | the file for one share declares it when it is an enabled Samba share, browsable, and nothing else |
| SambaPrinter.SharesInTurn | internal/service/share/filebackend.go:289-339 | the file for several shares declares what each of them declares, in order |
| SambaPrinter.DisabledKept | internal/service/share/filebackend.go:305-313 | the comment block of a disabled share keeps its name, path, comment and access |
| ExportsPrinter.WriteNFSExports | internal/service/share/filebackend.go:347-387 | the buffer filled in the loop is the header and one line per enabled NFS share, in order |
| ExportsPrinter.ExportLineRead | internal/service/share/filebackend.go:359-380 | a printed line reads back as path, every host with its options, and comment |
| ExportsPrinter.ExportsParseBack | internal/service/share/filebackend.go:347-387 | an exports reader finds exactly the enabled NFS shares in order |
| ExportsPrinter.HostsRead | internal/service/share/filebackend.go:359-380 | the printed line gives access to exactly the listed hosts, in order, with the access asked for |
| ExportsPrinter.EveryoneRead | internal/service/share/filebackend.go:369-373 | without hosts the only client is everyone |
| ExportsPrinter.OneExport | internal/service/share/filebackend.go:347-387 | the file for one share exports it when it is an enabled NFS share, and nothing else |
| ExportsPrinter.ExportsInTurn | internal/service/share/filebackend.go:347-387 | the file for several shares exports what each of them exports, in order |
| ShareService.FileBackend.constructor | internal/service/share/filebackend.go:61-90 | a start loads the last entry per name from the state file, and nothing from a missing or unreadable one |
| ShareService.FileBackend.Get | internal/service/share/filebackend.go:104-113 | the share of that name, or NotFound |
| ShareService.FileBackend.Create | internal/service/share/filebackend.go:115-123 | Conflict for a known name, otherwise the map gains the share |
| ShareService.FileBackend.Update | internal/service/share/filebackend.go:125-133 | NotFound for an unknown name, otherwise the share is replaced |
| ShareService.FileBackend.Delete | internal/service/share/filebackend.go:135-143 | NotFound for an unknown name, otherwise the share is gone |
| ShareService.FileBackend.Listing | internal/service/share/filebackend.go:156-164 | ranging over the map in any order and sorting gives the sorted shares |
| ShareService.FileBackend.DiskHasShareTypes | internal/service/share/filebackend.go:230-247 | which kinds of share a state file holds; none when it is empty or does not parse |
| ShareService.FileBackend.RestoreDisk | internal/service/share/filebackend.go:202-207 | the three files are as in the snapshot, absent ones absent |
| ShareService.Host.RestoreFile | internal/service/share/filebackend.go:252-262 | the file holds the snapshot, or is absent when the snapshot is nil |
| ShareService.FileBackend.Reload | internal/service/share/filebackend.go:155-223 | files and services end as the transaction says for every outcome of the writes and commands; nil exactly when it commits |
| ShareService.Manager.Create | internal/service/share/manager.go:74-98 | memory, files, services, answer and audit events are those of the transaction, rollback included |
| ShareService.Manager.Update | internal/service/share/manager.go:101-131 | as for Create; the previous share is back after a failed reload |
| ShareService.Manager.Delete | internal/service/share/manager.go:134-163 | as for Create; the deleted share is back after a failed reload |
| ShareLaws.CreateMeans | internal/service/share/manager.go:74-98 | reply, memory, files and services for every outcome, and which creates are turned down with which code |
| ShareLaws.UpdateMeans | internal/service/share/manager.go:101-131 | the same for an update |
| ShareLaws.DeleteMeans | internal/service/share/manager.go:134-163 | the same for a deletion |
| ShareLaws.CreateSurvives | internal/service/share/manager.go:74-98 | a created share is there now and after a restart, and no other name has changed |
| ShareLaws.UpdateSurvives | internal/service/share/manager.go:101-131 | an updated share has its new value now and after a restart, and no other name has changed |
| ShareLaws.DeleteSurvives | internal/service/share/manager.go:134-163 | a deleted share is gone now and after a restart, and no other name has changed |
| ShareLaws.SignalledIff | internal/service/share/filebackend.go:173-220 | a service is signalled exactly when a share of its kind will be in memory or is in the state file |
| ShareLaws.TransactMeans | internal/service/share/filebackend.go:155-223 | which files and services change for every combination of failures |
| ShareLaws.LoadMeans | internal/service/share/filebackend.go:74-90 | a start takes the last share of each name from the state file, and nothing else |
| ShareLaws.NothingToLoad | internal/service/share/filebackend.go:74-90 | without a readable state file a start has no shares |
| ShareLaws.AuditMeans | internal/service/share/manager.go:74-163 | the one event of an operation, and which operations leave none |
| ShareLaws.RollbackMeans | internal/service/share/manager.go:87-158 | what a rollback does to memory that others have changed meanwhile |
| ShareLaws.GoneIsNotFound | internal/service/share/filebackend.go:125-143 | an update or deletion whose share has gone meanwhile is NotFound |
| ShareTheorems.StartUpInSync | internal/service/share/filebackend.go:74-90 | after a start, memory is what the state file holds |
| ShareTheorems.CommitOrAbort | internal/service/share/manager.go:74-163 | whatever the two commands do, memory and all three files are new and the answer is nil, or all are as before |
| ShareTheorems.EveryRunInSync | internal/service/share/filebackend.go:152-154 | after any run of operations a restart restores memory as it is |
| ShareTheorems.RestartAfterFailedWrite | internal/service/share/filebackend.go:177-188 | after a failed write, exactly when a restart still restores memory |
| ShareTheorems.RestartRevivesRejectedShare | internal/service/share/filebackend.go:183-185 | a create rejected because the Samba snippet could not be written is in memory after a restart |
| ShareTheorems.NotSignalled | internal/service/share/filebackend.go:173-220 | a service that is not signalled has no share before and after, and its snippet does not change |
| ShareTheorems.StaleExactlyAfterHalfReload | internal/service/share/filebackend.go:209-220 | smbd serves other shares than memory asks for exactly when a changed snippet was loaded and exportfs then failed; nfsd never does |
| ShareTheorems.EveryRunFresh | internal/service/share/filebackend.go:145-154 | after any run without such a failure both services serve what memory asks for, also after deleting the last share |
| ShareTheorems.FreshMeansServed | internal/service/share/filebackend.go:145-150 | what a fresh service reads from its configuration is the enabled shares of memory |
| ShareTheorems.SmbFreshAfter | internal/service/share/filebackend.go:173-220 | from any state, exactly when smbd is fresh after an operation: after a load unless it was a half reload, otherwise as before |
| ShareTheorems.SuccessHealsIffSignalled | internal/service/share/filebackend.go:209-220 | a successful operation leaves smbd fresh exactly when it signals it or smbd was fresh |
| ShareTheorems.SmbFreshAtEndIff | internal/service/share/filebackend.go:173-220 | over any run smbd is fresh at the end exactly when its last load was not a half reload, or it never loaded and started fresh |
| ShareTheorems.NfsFreshAtEnd | internal/service/share/filebackend.go:173-220 | nfsd is fresh after every run, half reloads included |
| ShareTheorems.StaleShareOutlivesSuccess | internal/service/share/filebackend.go:209-220 | the input: after a rejected change of type smbd serves the share, and still does after a successful create of an NFS share |
| ShareInterleaving.EveryInterleavingSafe | internal/service/share/manager.go:74-163 | under any interleaving and any failures each file holds its initial content or the rendering of a map that memory held, and keys are names |
| ShareInterleaving.ExecuteKnown | internal/service/share/filebackend.go:155-223 | the invariant behind it, for snapshots and local variables of unfinished calls too |
| ShareInterleaving.AloneReload | internal/service/share/filebackend.go:166-223 | the steps of a reload without interference amount to the file part of the transaction, whatever snapshot they use |
| ShareInterleaving.AloneRefinesApply | internal/service/share/manager.go:74-163 | a call without interference does what the sequential specification says |
| ShareInterleaving.CallsInTurnAreSequential | internal/service/share/manager.go:74-163 | calls that do not overlap do what a sequential run does, so a restart after them restores memory |
| ShareInterleaving.ConcurrentCreatesLoseOne | internal/service/share/manager.go:80-97 | the input: two overlapping creates, both answered with nil, after which a restart forgets one share |
| ShareOverlap.StateFileIsLastPersisted | internal/service/share/filebackend.go:155-223 | under any interleaving and any failures the state file holds the map of the call that wrote or restored it last |
| ShareOverlap.RestartAfterOverlapIff | internal/service/share/manager.go:74-163 | whatever overlaps and fails, a restart restores memory exactly when memory is that map |
| ShareOverlap.ExclusiveSectionsRestartSafe | internal/service/share/manager.go:74-163 | calls without failures may overlap if one at a time is between changing memory and writing the state file; then a restart restores memory |
| ShareSchedule.RestartAfterScheduleIff | internal/service/share/manager.go:74-163 | for successful calls about different shares, overlapping in any way, a restart restores memory exactly when no step changes memory after the snapshot of the call that writes the state file last |
| ShareSchedule.StaysNowOrNever | internal/service/share/manager.go:80-143 | memory never returns to a value it had before such a change |
| FileSystems.AtomicWriteFile | internal/service/disk/mount.go:517-562 | nil exactly with the target holding the data; an error with every file as before and no temporary file; every crash in between leaves the target old or new |
| FstabText.ReplaceFirst | internal/service/disk/mount.go:404-422 | the loop overwrites the first active line of the mountpoint or appends the entry |
| FstabText.ViewOfText | internal/service/disk/mount.go:500-515 | reading a file shows its non-blank lines whatever its line ends |
| FstabText.ViewRendered | internal/service/disk/mount.go:424-428 | writing any lines and reading them back shows the table lines of each, in order |
| FstabText.PersistRefinesSplice | internal/service/disk/mount.go:393-429 | rewriting the file with any entry replaces one line of its table by the lines of the entry, or appends them |
| FstabText.ReplaceUpdatesTable | internal/service/disk/mount.go:404-422 | the table maps the mountpoint to the entry and every other mountpoint as before |
| FstabText.ReplaceAppends | internal/service/disk/mount.go:420-422 | without an active line of the mountpoint the entry is appended and nothing else changes |
| FstabText.ReplaceOverwrites | internal/service/disk/mount.go:405-419 | otherwise one active line of the mountpoint is overwritten and nothing else changes |
| FstabText.ReplaceTwice | internal/service/disk/mount.go:404-422 | for all lines, replacing twice is replacing once exactly when the entry is an active line of the mountpoint |
| FstabText.SpliceTwice | internal/service/disk/mount.go:404-422 | the same for an entry of several lines: never idempotent |
| MountOptions.NormalizedShape | internal/service/disk/mount.go:299-314 | a normalised source is // and its segments, and exists exactly when there are two |
| MountOptions.NormalizedEqualIff | internal/service/disk/mount.go:299-314 | two sources normalise alike exactly when their segments over both slashes agree |
| MountOptions.NormalizedFixedIff | internal/service/disk/mount.go:299-314 | normalising again changes nothing exactly when the last segment does not end in white space |
| MountOptions.NormalizedIdempotent | internal/service/disk/mount.go:299-314 | on sources without white space normalising is idempotent |
| MountOptions.SplitMountOptions | internal/service/disk/mount.go:564-579 | the trimmed non-empty pieces between commas, in order |
| MountOptions.PartsWellFormed | internal/service/disk/mount.go:564-579 | every part is trimmed, non-empty and free of commas |
| MountOptions.ResplitParts | internal/service/disk/mount.go:564-579 | splitting the joined parts again gives the same parts |
| MountOptions.HasExactOption | internal/service/disk/mount.go:581-588 | whether some part equals the option up to letter case |
| Text.AsciiCase | internal/service/disk/mount.go:581-588 | letter case on ASCII text |
| MountOptions.GenericArgs | internal/service/disk/mount.go:211-230 | reading the command line as mount(8) does gives the type, options, source and mountpoint that were requested, exactly when neither operand reads as a flag |
| MountOptions.CifsArgs | internal/service/disk/mount.go:278-288 | the same for CIFS, with the credentials file as the first option; a normalised source never reads as a flag |
| MountOptions.ReadArgs | internal/service/disk/mount.go:211-230 | what such a command line reads back as, for any type, options and operands |
| MountLaws.EntryAgreesWithLive | internal/service/disk/mount.go:211-230 | the options of the entry and those of the live command line are the same, up to letter case |
| MountOptions.LiveAndPersistedAgree | internal/service/disk/mount.go:217-227 | the live -o string and the options field stand for the same lower-cased options |
| MountLaws.WantedMeans | internal/service/disk/mount.go:211-297 | a command line asks for every requested option, ro exactly when the mount is read-only, the credentials file exactly for CIFS, and the type unless it is left to the kernel |
| MountLaws.SinglePart | internal/service/disk/mount.go:564-579 | a list without commas is one trimmed option, or none when it is blank |
| MountLaws.SlashesNormalize | internal/service/disk/mount.go:299-314 | a source over either slash normalises to its segments over forward slashes |
| MountLaws.AcceptableIff | internal/service/disk/mount.go:316-360 | exactly which requests may be persisted, in terms of characters and of lower-cased option names |
| MountOptions.EntryKeyed | internal/service/disk/mount.go:431-452 | for any source, mountpoint, type and options, exactly when an entry is found again under its mountpoint |
| MountOptions.EntryKeyedPlain | internal/service/disk/mount.go:404-418 | on columns without white space: exactly when the source is present and no comment, and the mountpoint present |
| MountOptions.EntryCredentials | internal/service/disk/mount.go:460-471 | the credentials option at the head of an entry is read back as its path |
| FstabPersister.WriteCIFSCredentials | internal/service/disk/mount.go:474-498 | the credentials file holds the given user, password and domain, or nothing changed |
| FstabPersister.BuildOptions | internal/service/disk/mount.go:454-472 | the options field of the entry, with the credentials file in place when it refers to one |
| FstabPersister.RewriteFstab | internal/service/disk/mount.go:399-428 | the fstab is replaced as a whole or not at all |
| FstabPersister.Persist | internal/service/disk/mount.go:393-452 | nil exactly when every step succeeds; every crash state is untouched, has new credentials, or is complete |
| MountLaws.EntryReads | internal/service/disk/mount.go:431-472 | the six fields of an entry; its options are the generated credentials file, the requested options, and ro when the mount is read-only and they do not say so |
| MountLaws.EntryIff | internal/service/disk/mount.go:431-452 | which requests have an entry, and the error of the others |
| MountLaws.PersistedReads | internal/service/disk/mount.go:393-452 | after a persist the line of the mountpoint reads like that |
| MountLaws.PersistTouches | internal/service/disk/mount.go:393-498 | a persist changes no file but the fstab and the credentials file of the mountpoint |
| MountLaws.PersistedCredentials | internal/service/disk/mount.go:474-498 | the file that the entry refers to reads back as the user, password and domain of the request |
| MountLaws.CredentialsRead | internal/service/disk/mount.go:479-489 | the credentials text reads back as user, password, and domain if there is one |
| MountLaws.RewriteExactIff | internal/service/disk/mount.go:399-428 | every other line stays as it is, byte for byte, exactly unless the last line is blank; then one line end is lost |
| MountLaws.KeyIff | internal/service/disk/mount.go:405-414 | which lines are active, and for which mountpoint |
| FstabPersister.PersistUpdatesTable | internal/service/disk/mount.go:393-429 | for every checked request, how the table changes; the mountpoint has the new entry and every other mountpoint what it had exactly when no type or option has a line break and the entry is found again |
| FstabPersister.PersistTwice | internal/service/disk/mount.go:393-429 | for every checked request, persisting twice gives the same table as once under exactly that condition |
| FstabPersister.EntriesPileUp | internal/service/disk/mount.go:404-422 | an entry of one line that is not found again is appended by each persist, once no other line of the mountpoint is left |
| FstabPersister.EntryBroken | internal/service/disk/mount.go:316-360 | the entry of a checked request has a line break exactly when its type or an option has one |
| FstabPersister.LineBreakAddsLine | internal/service/disk/mount.go:431-452 | the input: an option with a line break ends the entry there and begins another line |
| FstabPersister.CommentSourcePilesUp | internal/service/disk/mount.go:407-414 | the input: a source starting with # is accepted, and two persists append two lines |
| FstabPersister.EntrySafe | internal/service/disk/mount.go:460-471 | the entry of a request that names no generated file itself refers to its own credentials file or to none that is generated |
| FstabPersister.EntryStageSafe | internal/service/disk/mount.go:431-498 | a completed persist is safe exactly when the new line refers to no generated file but a complete one |
| FstabPersister.EveryCrashSafe | internal/service/disk/mount.go:431-498 | after any crash the fstab is wholly old or wholly new, a new entry's credentials are complete, and no entry refers to a missing or torn generated file |
| FstabPersister.EveryRunOfCrashesSafe | internal/service/disk/mount.go:393-562 | the same at every point of any sequence of persists, each possibly cut short |
| MountTable.ParseMounts | internal/service/disk/mount.go:619-644 | the loop returns the first four fields of every active line, or an error when a line does not fit the buffer |
| MountLaws.MountLineIff | internal/service/disk/mount.go:626-640 | which lines of the mount table count, and as which fields |
| MountTable.ParseInvertsPrint | internal/service/disk/mount.go:616-644 | parsing the kernel's text gives one mount per mount, with escaped fields, whatever the mountpoints contain; an error exactly when a line does not fit |
| MountTable.SeenIff | internal/service/disk/mount.go:632-640 | a mountpoint is parsed as it is exactly when it is one word without a character that the kernel escapes |
| MountTable.MountedIsListed | internal/service/disk/mount.go:132-142 | such a mountpoint is found when it is mounted |
| MountTable.ListedIff | internal/service/disk/mount.go:132-142 | for every table, the search is right about every mountpoint exactly when every mountpoint in it is of that kind |
| MountTable.NeverListed | internal/service/disk/mount.go:132-142 | the input: any other mountpoint is mounted in some table and not found |
| MountTable.FalselyListed | internal/service/disk/mount.go:132-142 | the input: a mountpoint with white space that the kernel does not escape makes its front listed, though nothing is mounted there |
| MountService.Service.IsMounted | internal/service/disk/mount.go:201-208 | the search finds a mountpoint exactly when the kernel's text shows it; an error exactly when the table cannot be read or a line does not fit |
| MountService.Service.MountCIFS | internal/service/disk/mount.go:244-297 | the kernel gets the requested mount while the temporary file holds the complete credentials; afterwards, and in every crash state but for that file, all files are as before |
| MountService.Service.RunMount | internal/service/disk/mount.go:140-149 | reply and table are what the kernel makes of the request's meaning, or anything when an operand is read as a flag; a bad CIFS source is InvalidInput |
| MountService.GrantedOrRefused | internal/service/disk/mount.go:211-297 | a request that no step stops gets what the kernel answers: an error, or one mount at its mountpoint |
| MountService.NilMountsIff | internal/service/disk/mount.go:211-297 | whatever kernel and mount program do, success means that the mountpoint is mounted, exactly when no operand is read as a flag |
| MountService.VersionMountsNothing | internal/service/disk/mount.go:118-164 | the input: an accepted persistent request with the source --version succeeds, mounts nothing and is persisted |
| MountService.Service.Mount | internal/service/disk/mount.go:118-164 | the answer and the table in every case; Conflict exactly when the mountpoint is listed; unless an operand is a flag no simple mountpoint is mounted twice; the fstab changes only in a persistent mount that returns nil; every crash state; one event unless the table is unreadable |
| MountService.Service.Umount | internal/service/disk/mount.go:168-198 | NotFound exactly when the mountpoint is not listed; success takes away its latest mount and no other mountpoint's |
| MountService.WithoutOne | internal/service/disk/mount.go:188-192 | one mount goes and the others keep their order |
| MountService.UmountUndoesMount | internal/service/disk/mount.go:118-198 | unmounting after mounting gives the table from before |
| Paths.CleanIsAbsolute | internal/service/file/manager.go:67-71 | cleaning an absolute path gives proper components without . and .. |
| Paths.CleanIdempotent | internal/service/file/manager.go:71 | cleaning is idempotent on absolute paths |
| Paths.DotMeansNothing | internal/service/file/manager.go:71 | an empty element or . makes no difference to a cleaned path |
| Paths.UpUndoesName | internal/service/file/manager.go:71 | a name followed by .. makes no difference |
| Paths.UpFromRoot | internal/service/file/manager.go:71 | .. at the file system's root makes no difference |
| Paths.DirOfAbsolute | internal/service/file/manager.go:89-94 | the parent drops the last component, and only the root is its own parent |
| Paths.InRootIffPrefix | internal/service/file/manager.go:73-76 | the string test on cleaned paths holds exactly when the root's components are a prefix |
| Tree.FollowConcat | internal/service/file/manager.go:78-95 | resolving a path is resolving its front and going on from there, with the links that are left |
| Tree.NeverAboveRoot | internal/service/file/manager.go:80-95 | climbing from a path below a root that resolves never passes the root |
| Tree.PastLink | internal/service/file/manager.go:78-95 | when the component after the nearest ancestor is a link, it dangles, and where the path then leads |
| Tree.PastMissing | internal/service/file/manager.go:78-95 | when it is none, it is missing from a directory or lies in a file, and where the path then leads |
| Tree.WrittenConfinedIff | internal/service/file/manager.go:363-384 | writing takes effect below the root exactly unless the last component is a dangling link of whose target only the last name is missing and which lies outside |
| Tree.MkdirAllProgress | internal/service/file/manager.go:357 | os.MkdirAll adds the components after the nearest ancestor as directories when the first is missing from a directory, else nothing |
| Tree.MkdirConfined | internal/service/file/manager.go:357 | on an accepted path os.MkdirAll adds directories below the root and changes nothing else, whatever links there are |
| Tree.PhysicallyConfined | internal/service/file/manager.go:61-64 | writing takes effect below the root when no link on the path dangles |
| Tree.EntryConfinedIff | internal/service/file/manager.go:358-360 | a call on the directory entry takes effect below the root exactly when the check would accept the path's parent, or the entry is the root |
| Tree.PlainEntryConfined | internal/service/file/manager.go:358-360 | so it does when the entry is no link |
| Tree.RootIsPlain | internal/service/file/manager.go:78-95 | the root of an accepted path is not reached through links |
| Tree.DanglingLinkEscapes | internal/service/file/manager.go:78-95 | the input: writing an accepted path through a dangling link outside; os.MkdirAll does nothing there |
| Tree.EntryOutsideRoot | internal/service/file/manager.go:358-360 | the input: an accepted path without dangling links whose last entry is a link outside the root |
| FileManager.Manager.SafePath | internal/service/file/manager.go:65-98 | accepts exactly when the root's components start the cleaned path and the place its nearest ancestor resolves to |
| FileManager.RelativePath | internal/service/file/manager.go:65-98 | a relative path denotes the components below the root, and is accepted exactly when the check accepts those |
| FileManager.EmptyPath | internal/service/file/manager.go:65-98 | the empty path and . denote the root |
| FileManager.AbsolutePath | internal/service/file/manager.go:65-98 | a cleaned absolute path denotes itself |
| FileManager.RelativeUp | internal/service/file/manager.go:65-98 | a name followed by .. makes no difference in a relative path |
| FileManager.ClimbingOut | internal/service/file/manager.go:65-98 | .. from the root is Forbidden |
| FileManager.Manager.AncestorInRoot | internal/service/file/manager.go:80-95 | the loop terminates and decides about the nearest ancestor that resolves |
| FileManager.SafePathIdempotent | internal/service/file/manager.go:65-98 | an accepted path is accepted again as it is |
| FileManager.AcceptedParts | internal/service/file/manager.go:65-98 | an accepted path is a cleaned absolute path that the check accepts |
| FileManager.AcceptedIsConfined | internal/service/file/manager.go:61-98 | an accepted path is below the root in text; on disk always for making directories, when no link dangles for writing, and when the entry is no link for removing and renaming |
| FileManager.CallConfinedIff | internal/service/file/manager.go:181-314 | for each of the six calls with accepted paths, exactly when every place it can touch lies below the root |
| FileManager.Manager.Mkdir | internal/service/file/manager.go:181-194 | one call with a confined path if accepted, none otherwise; one event, success exactly for nil |
| FileManager.Manager.Remove | internal/service/file/manager.go:200-223 | as for Mkdir, with NotFound told apart |
| FileManager.Manager.Transfer | internal/service/file/manager.go:228-277 | Move and Copy: both paths are checked before one call; one event, success exactly for nil |
| FileManager.TransferMeans | internal/service/file/manager.go:228-277 | from source to destination, by renaming or copying, when both ends are accepted |
| FileManager.Manager.Write | internal/service/file/manager.go:301-314 | as for Mkdir |
| FileManager.ReplyMeans | internal/service/file/manager.go:181-314 | which outcome gets which code |
| FileManager.EventMeans | internal/service/file/manager.go:318-336 | an event tells of success, or of failure with the code |
| KeyStore.Compact | internal/auth/keystore.go:83-91 | compacting into the front of the same array equals filtering, and drops every entry of the key |
| KeyStore.WithoutMembers | internal/auth/keystore.go:85-91 | filtering keeps exactly the entries of other keys |
| KeyStore.WithoutConcat | internal/auth/keystore.go:85-91 | filtering goes entry by entry and keeps their order |
| KeyStore.EntriesIff | internal/auth/keystore.go:107-125 | what a file holds: nothing when absent or blank, an error when it does not parse |
| KeyStore.FoldWithout | internal/auth/keystore.go:83-101 | removing a key's entries from the file removes the key from the index it stands for |
| KeyStore.WriteEntries | internal/auth/keystore.go:127-182 | an error leaves every file as before, except that a failed final chmod leaves the new content in place |
| KeyStore.Store.LoadKeyStore | internal/auth/keystore.go:45-54 | the last entry of each key is registered with its role and subject; other keys stay as they are |
| KeyStore.Store.SaveKeyEntry | internal/auth/keystore.go:58-69 | file and index both gain the entry, with its key, role and subject, or the file alone after a failed final chmod |
| KeyStore.Store.RevokeKey | internal/auth/keystore.go:78-103 | file and index both lose the key, or the file alone after a failed final chmod; no duplicate stays |
| KeyStore.Store.Validate | internal/auth/auth.go:64-75 | the role of a registered non-empty token, Unauthorized otherwise |
| KeyStore.RegisteredServes | internal/auth/keystore.go:45-54 | registering entries leaves the last one of each key in the index, field by field |
| KeyStore.ValidatesLastEntry | internal/auth/keystore.go:45-103 | over any run from a start, without a failed final chmod, in which the store was loaded, a key is valid exactly when the file has an entry for it, with the role and subject of the last one |
| KeyStore.IndexFollowsFile | internal/auth/keystore.go:45-103 | over any run without a failed final chmod the index holds nothing that the file does not, and equals it once loaded |
| KeyStore.AgreementAfterLateFault | internal/auth/keystore.go:169-173 | exactly when a failed final chmod breaks the agreement |
| KeyStore.AgreementIff | internal/auth/keystore.go:45-103 | over any run without a failed final chmod, index and file agree at the end exactly when a load ran or each key missing from the index was saved or revoked |
| KeyStore.SaveBeforeLoadDisagrees | internal/auth/keystore.go:58-69 | the input: a save before the first load, with another key in the file |
| Paging.List | internal/service/process/manager.go:56-92 | a panic exactly when the slice bounds are bad, otherwise the queried processes of the selected slice |
| Paging.SelectedIsPageIff | internal/service/process/manager.go:65-79 | the right page is selected exactly when its offset is representable or wraps beyond the end |
| Paging.PageEntries | internal/service/process/manager.go:65-79 | the entries of a page are those at its offset, and a page is full up to the end of the list |
| Paging.PagesBelowOne | internal/service/process/manager.go:65-79 | pages below the first are the first, later ones as asked, and without a limit there is no paging |
| Paging.QueriedOne | internal/service/process/manager.go:81-90 | a process that cannot be queried is skipped, any other listed, in order |
| Paging.PanicsIff | internal/service/process/manager.go:65-79 | List panics exactly when the wrapped offset is negative, or inside the list so late that the end wraps |
| Paging.WrappedOffsetPanics | internal/service/process/manager.go:70-78 | the input for the first: a page whose offset wraps to the most negative number, for any list |
| Paging.WrappedEndPanics | internal/service/process/manager.go:70-78 | the input for the second: a page whose offset wraps to 3, for lists of more than three |
| Paging.PagesTile | internal/service/process/manager.go:53-92 | pages one to the last, put together, answer what the unpaged request answers, also when queries fail |
| Format.FormatBytes | internal/cli/system.go:51-62 | the unit index is in range, the divisor is the power of 1024 that the unit letter stands for, without overflow, and the quotient lies between 1 and 1024 |
| Format.UnitUnique | internal/cli/system.go:56-61 | no other unit has such a quotient |
| Format.FormatUptime | internal/cli/system.go:65-79 | the fields are within their bounds, recombine to the input, and the text reads back as the input |
| Format.UptimeShape | internal/cli/system.go:72-79 | days are printed from one day on, hours from one hour on, minutes and seconds always |
| Getfacl.ParseGetfaclOutput | internal/service/acl/manager.go:181-231 | the loop returns the entries of the lines, in order, up to a line that does not fit the scanner's buffer |
| Getfacl.ParseInvertsPrint | internal/cli/acl.go:67-75 | parsing the lines that the CLI prints gives the entries back, up to one whose line does not fit |
| Getfacl.CommentsSkipped | internal/service/acl/manager.go:185-189 | blank lines and comments are no entries |
| Getfacl.OtherKinds | internal/service/acl/manager.go:217-225 | only the four kinds, with permissions of three bytes, are entries |
| Getfacl.InlineComment | internal/service/acl/manager.go:208-215 | a comment after the permissions makes no difference |
| Getfacl.DefaultPrefix | internal/service/acl/manager.go:191-197 | nor does the prefix of a default entry |

## Left out

- FstabPersister.EveryCrashSafe: a request whose options name a file in the generated-credentials directory that is missing or torn is not covered; `FstabPersister.EntryStageSafe` shows that the persist is not safe then.
- SambaPrinter.SambaParsesBack: stated for fields without line breaks and values without white space at their ends, which an INI reader trims; the program validates neither.
- ExportsPrinter.ExportsParseBack: stated for paths without white space, and for paths and hosts without `#`, which starts a comment in exports(5).
- MountService.Service.Mount: device, type and options as the kernel records them have no white space but what it escapes; the mountpoint is arbitrary. mount(8) is read as far as -t, -o and operands, and options that change an existing mount, such as remount, are not told apart.
- ShareInterleaving.EveryInterleavingSafe: a failed write leaves its file as it was; torn writes are in the sequential model only.
- Format.FormatBytes: the rounding of the quotient to one decimal is not modelled.
- FileManager.Manager.Transfer: one method stands for Move and Copy, which differ in the call and the action name only.
- FileManager.Manager.SafePath: relative root directories, and changes of the tree by other processes during a check, are not modelled.
- FileManager.CallConfinedIff: a call may also fail for reasons outside the tree, such as permissions, and then touches less.
- FileSystems.AtomicWriteFile: permissions, ownership, fsync durability, directories, and a temporary file that cannot be removed are not modelled.
- Error texts and wrapping: only the error code is kept.
- Listing shares, reading one share through the manager, and the reading operations of the file manager: they change nothing.
- internal/service/disk/mount.go:362-380: the text that is made of a mount command's output.
- internal/service/acl/manager.go:143-172: it repeats the file manager's path logic.
- HTTP handlers, command-line plumbing, audit storage, UDP discovery, SMART, Samba users and network management.
- Key generation, timestamps and role comparison.
