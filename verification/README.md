# Claude Foundry Manager, modelled in Dafny

Claude Foundry Manager switches Claude Code between the Anthropic API and
Azure AI Foundry. It does this by writing seven environment variables:
- on Windows, into the machine-wide registry;
- on Linux and macOS, into a marked block of the user's shell profile.

It also keeps timestamped JSON backups of those variables, which can be
listed, restored and deleted. This project models the logic of that system
as pure Dafny functions over immutable data, and proves what the code
promises.

The modules follow the program's structure:

| file | module | models |
|---|---|---|
| `wrappers.dfy` | `Wrappers`, `Enumeration` | `Option`, `Result` and `Outcome`; a Go map iteration order, given as an explicit sequence that enumerates the map's keys |
| `text.dfy` | `Text` | the parts of Go's `strings` and `bufio.ScanLines` that the profile editor relies on |
| `fixedlines.dfy` | `FixedLines` | the marker and comment lines of the profile block, and facts about their characters |
| `profile.dfy` | `Profile` | the POSIX profile-block editor (`internal/config/manager_unix.go`): parsing the block, rewriting the file, set and delete as read-modify-write, and the choice of profile file |
| `store.dfy` | `Store` | the variable-store facade (`internal/config/manager.go`) over an abstract backend |
| `timefmt.dfy` | `TimeFormat` | calendar times and the backup file name `backup_YYYYMMDD_HHMMSS.json` |
| `backups.dfy` | `Backups` | the backup store (`internal/backup/backup.go`) over an abstract backup directory |
| `cli.dfy` | `Commands` | `maskAPIKey` and the `show` API-key line (`cmd/show.go`); the validation, defaulting and backup-then-apply order of `configure` (`cmd/configure.go`) |

Effects become inputs and outputs:
- **Files.** A file is its text, or `None` when it cannot be opened. An edit returns the new text, or leaves the file untouched; Profile.Commit then writes it, and fails when the write does.
- **Environment.** The shell name and whether `~/.bash_profile` exists are inputs.
- **Clock.** The two clock readings `createBackup` takes are inputs.
- **Backup directory.** It is a map from names to entries. An entry is a subdirectory, or a file that is unreadable, malformed or a parsed backup.
- **Failure switches.** Whether a directory can be created, whether a file can be written and whether a file can be removed are boolean inputs (`mkdirOk`, `writeOk`, `removeOk`).
- **Store backend.** The variable store is a map, plus:
  - the names whose read fails;
  - the names whose write or removal is refused;
  - whether the Windows broadcast succeeds.
- **Map iteration.** Where Go iterates over a map, the order is a parameter. It is required to enumerate the keys exactly once, and every result is proved for every such order.

Two contracts of the Windows backend are laws of the abstract backend:
- reading an absent name gives "" (`internal/config/manager_windows.go:38-40`);
- removing an absent name succeeds (`internal/config/manager_windows.go:72-74`).

## Model

| member | source | states |
|---|---|---|
| Profile.ParseExport | internal/config/manager_unix.go:74-82 | a line yields an entry exactly when its trimmed form starts with `export ` and it contains `=`; the key is then the text before the first `=` with a leading `export` removed and the blanks trimmed, so it holds no `=` and has no surrounding blanks; the value is the text after that `=` with every surrounding quote trimmed |
| Profile.IndentedExportKeepsWord | internal/config/manager_unix.go:74-80 | `export` is removed before the blanks are trimmed, so on an indented line such as ` export FOO=bar` the key read is `export FOO` |
| Profile.NotExportLine | internal/config/manager_unix.go:74 | a line that starts with anything other than a blank or `e` (a comment, say) assigns nothing |
| Profile.ParseWindow | internal/config/manager_unix.go:61-73 | reading considers only the lines strictly between the first begin line and the first end line; with no begin line before the first end line the block is empty |
| Profile.ParseInBlockStops | internal/config/manager_unix.go:70-72 | inside the block, nothing after the first end line is read |
| Profile.ParseWithoutBegin | internal/config/manager_unix.go:66-69 | without a begin line nothing is ever read |
| Profile.ParseSkipsPlain | internal/config/manager_unix.go:61-73 | lines without markers in front of the block are ignored |
| Profile.ParseLines | internal/config/manager_unix.go:61-83 | the scan only ever adds keys to what it has read so far |
| Profile.ReadVars | internal/config/manager_unix.go:51-86 | a file that cannot be opened reads as the empty map; every entry read can be written back as an export line that reads the same |
| Profile.ParsedRenderable | internal/config/manager_unix.go:74-82 | the entry parsed from a line without newline or marker has no `=` or blanks around its key, no quotes around its value, and renders to a line without a marker |
| Profile.ParseLinesRenderable | internal/config/manager_unix.go:61-83 | every entry the scan reads from lines without newlines is renderable |
| Profile.ParseBodyAssign | internal/config/manager_unix.go:74-82 | between the markers, reading performs each line's assignment in order, starting from what was read so far |
| Profile.AssignKeys | internal/config/manager_unix.go:80 | a key is present after the assignments exactly when it was present before or some assignment names it |
| Profile.AssignLastWins | internal/config/manager_unix.go:80 | the last assignment naming a key decides its value, so a later duplicate overrides an earlier one |
| Profile.AssignUntouched | internal/config/manager_unix.go:80 | a key no assignment names keeps its value |
| Profile.StripBlocks | internal/config/manager_unix.go:99-114 | the lines kept contain no marker line, are no more than the input, and each is one of the input lines |
| Profile.StripKeepsPlain | internal/config/manager_unix.go:111-113 | lines outside any marked region are kept verbatim and in their order |
| Profile.StripDropsRegionBody | internal/config/manager_unix.go:102-109 | inside a region, everything up to and including its end line goes, and scanning resumes outside |
| Profile.StripDropsRegion | internal/config/manager_unix.go:99-114 | a whole marked region disappears and the text after it is processed the same way, so every region goes, not only the first |
| Profile.ExportLines | internal/config/manager_unix.go:123-125 | one `export K="V"` line per key, in the order the map iteration visits the keys |
| Profile.ParseExportLine | internal/config/manager_unix.go:74-82 | a rendered export line reads back as exactly its entry, when the key has no `=` or surrounding blanks and the value no newline or surrounding quotes |
| Profile.ParseExports | internal/config/manager_unix.go:123-125 | inside the block, the rendered export lines add exactly the written entries |
| Profile.CommentLines | internal/config/manager_unix.go:119-121 | the two comment lines of the block are neither markers nor assignments |
| Profile.MarkersRecognised | internal/config/manager_unix.go:14-17 | the begin and end marker lines are recognised as begin and end lines |
| Profile.WriteVars | internal/config/manager_unix.go:89-132 | for renderable entries, the lines of the new text are the old lines outside every marked region, then a blank line, the begin marker, the two comment lines, one export line per entry and the end marker |
| Profile.ReadAfterWrite | internal/config/manager_unix.go:89-132 | round trip: reading the file just written yields exactly the map written, whatever the file held before and in any iteration order |
| Profile.RewriteAddsBlankLine | internal/config/manager_unix.go:117-128 | after a rewrite, the only marked region is the new block; the lines outside it are the old outside lines plus the blank line written in front of the block |
| Profile.RewriteNotIdempotent | internal/config/manager_unix.go:118 | writing the same map twice never gives the same text twice: each rewrite adds one more blank line outside the markers |
| Profile.SetVar | internal/config/manager_unix.go:28-34 | after setting a renderable entry, the file's block holds the key with the new value |
| Profile.DeleteVar | internal/config/manager_unix.go:37-48 | the file is left untouched exactly when it cannot be opened; otherwise it is rewritten, by removing the block or by writing the rest |
| Profile.Commit | internal/config/manager_unix.go:130-131 | committing an edit fails exactly when there is text to write and the write fails; an untouched file stays as it was and a written file holds the new text |
| Profile.SetVarUpdatesOneKey | internal/config/manager_unix.go:28-34 | after setting a renderable entry, the block reads back as the old block updated at that key, and every other key keeps its value |
| Profile.DeleteVarRemovesOneKey | internal/config/manager_unix.go:37-48 | for any file, after deleting a key the block reads back as the old block without it; when nothing is left, no marker line remains; a file that cannot be opened is left alone |
| Profile.DeleteAbsentKey | internal/config/manager_unix.go:37-48 | for any file, deleting a key the block does not hold leaves its contents as they were |
| Profile.DeleteFromMissingFile | internal/config/manager_unix.go:140-143 | deleting from a file that cannot be opened succeeds and leaves it missing, whether or not a write would fail |
| Profile.RemoveBlock | internal/config/manager_unix.go:135-168 | the file is left untouched exactly when it cannot be opened |
| Profile.RemoveBlockRescan | internal/config/manager_unix.go:135-168 | scanning the rewritten file gives the lines outside every marked region (without carriage returns, one final empty line aside); no marker line is left and nothing reads from it |
| Profile.RemoveBlockDropsRegion | internal/config/manager_unix.go:146-167 | a file of plain lines, one marked region and more plain lines loses exactly that region |
| Profile.RemoveAfterWrite | internal/config/manager_unix.go:117-167 | removing the block just written leaves the old outside lines followed by the blank line written in front of the block |
| Profile.ChooseProfile | internal/config/manager_unix.go:180-196 | zsh wins over bash, and bash over fish; for bash, `.bash_profile` is chosen exactly when it exists; `.profile` is the fallback |
| Profile.ProfilePath | internal/config/manager_unix.go:171-197 | the profile path is the home directory followed by exactly the chosen file's components |
| Profile.ProfilePathsDiffer | internal/config/manager_unix.go:180-196 | different choices of profile file give different paths |
| Text.SplitOnce | internal/config/manager_unix.go:76-77 | splitting at the first `=` gives two parts exactly when there is one, the first part without `=` and the parts rejoined around it giving the line back |
| Text.TrimPrefix | internal/config/manager_unix.go:78 | the prefix is removed when present, and otherwise the text is unchanged |
| Text.TrimSpaceAfterBlank | internal/config/manager_unix.go:78 | trimming ` ` + key gives the key back when it has no surrounding blanks |
| Text.TrimQuotesQuoted | internal/config/manager_unix.go:79 | trimming quotes from a quoted value gives the value back when it has no surrounding quotes |
| Text.ScanLines | internal/config/manager_unix.go:62-64 | a text without newline scans to no line when empty, and otherwise to itself without a trailing carriage return |
| Text.JoinLines | internal/config/manager_unix.go:131 | joined lines without newlines contain a newline exactly when there are at least two, and the first newline follows the first line |
| Text.ScanLinesCons | internal/config/manager_unix.go:62-64 | the scanner yields the first line (without a trailing carriage return), then the lines of the rest |
| Text.ScanJoin | internal/config/manager_unix.go:131 | scanning lines joined by newlines gives them back, except for one final empty line and trailing carriage returns |
| Store.ManagedKeysDistinct | internal/config/manager.go:10-16 | the seven variable names are pairwise different |
| Store.ReadVar | internal/config/manager_windows.go:36-44 | a read fails exactly for an unreadable name; an absent name reads as "" |
| Store.WriteVar | internal/config/manager_windows.go:48-61 | a write fails exactly for a refused name, and then changes nothing |
| Store.RemoveVar | internal/config/manager_windows.go:64-80 | a removal fails exactly for a refused name; removing an absent name succeeds and changes nothing |
| Store.ValueOf | internal/config/manager.go:103-111 | the facade drops read errors: an unreadable or absent name gives "" |
| Store.Notify | internal/config/manager.go:191-199 | the notification always succeeds off Windows, and on Windows exactly when the broadcast does |
| Store.SetEach | internal/config/manager.go:142-146 | setting the entries never changes the platform, the unreadable or refused names, or the broadcast's outcome |
| Store.SetEachEffect | internal/config/manager.go:58-62 | setting stops at the first refused name with an error naming it, after exactly the names before it were set; with none refused, every entry is set and nothing else changes |
| Store.FoundryVars | internal/config/manager.go:41-55 | the map holds the flag "true", the resource, the URL derived from the resource and the three model names, plus the API key only when one is given |
| Store.BaseURLFor | internal/config/manager.go:41 | the URL is `https://`, then the resource name, then `.services.ai.azure.com/models` |
| Store.ApplyFoundryConfig | internal/config/manager.go:40-70 | it succeeds exactly when no written name is refused and the notification succeeds; then the store is the old one overridden by the map; a set error names a refused key of the map |
| Store.RemoveEach | internal/config/manager.go:84-89 | each name that can be removed is gone, every other variable is unchanged, and the warnings are exactly the refused names |
| Store.RollbackClears | internal/config/manager.go:84-89 | a rollback removes every managed name it may remove and keeps every other variable with its value |
| Store.RollbackToDefault | internal/config/manager.go:73-97 | it fails only when the notification fails, however many removals fail, and warns exactly about the refused managed names |
| Store.RollbackEmptiesAll | internal/config/manager.go:73-97 | when every managed name can be removed, nothing is left to read back and Foundry is off |
| Store.GetCurrentConfig | internal/config/manager.go:100-114 | the flag counts exactly when it reads as the string "true" |
| Store.CurrentConfigAgrees | internal/config/manager.go:100-114 | every field of GetCurrentConfig is GetAllVars' entry for that name, or "" when there is none |
| Store.CollectVars | internal/config/manager.go:130-135 | a name is collected exactly when it is visited and its value is non-empty, with that value |
| Store.GetAllVars | internal/config/manager.go:117-138 | the result holds exactly the managed names whose value reads as non-empty |
| Store.GetAllVarsExact | internal/config/manager.go:117-138 | a store holding only managed names with non-empty readable values is read back whole |
| Store.SetAllVars | internal/config/manager.go:141-154 | it merges without clearing and succeeds exactly when no name is refused and the notification succeeds; an empty map only notifies |
| Store.ApplyThenRead | internal/config/manager.go:40-70 | after a successful apply the configuration reads back as given, and the API key keeps its old value when none was given |
| Store.FoundryVarsWithoutKey | internal/config/manager.go:43-55 | without an API key the map has six managed names and no API-key entry |
| Store.ApplyOnEmptyStore | internal/config/manager.go:43-55 | on an empty store, applying a configuration without an API key succeeds, and GetAllVars then returns exactly the six written entries |
| TimeFormat.TicksLexicographic | internal/backup/backup.go:137-139 | `After` orders valid times by year, month, day, hour, minute, second and nanosecond in turn, and two valid times have the same key exactly when they are equal |
| TimeFormat.Place | internal/backup/backup.go:137-139 | in a mixed-radix number the higher place decides first, and two numbers are equal exactly when every place is |
| TimeFormat.DayPlaces | internal/backup/backup.go:137-139 | the day slot orders valid dates by year, month and day, and tells different dates apart |
| TimeFormat.AppendInt | internal/backup/backup.go:75 | the field is padded to at least its width; a negative number starts with `-`, any other is all digits; a two-digit or four-digit field in range has exactly its width |
| TimeFormat.BackupName | internal/backup/backup.go:75 | for a valid time the name has 27 characters, starts with `backup_`, has `_` between date and clock, and ends with `.json` |
| TimeFormat.Value2 | internal/backup/backup.go:75 | a two-digit field reads back as its number |
| TimeFormat.Value4 | internal/backup/backup.go:75 | a four-digit year reads back as its number |
| TimeFormat.BackupNameLayout | internal/backup/backup.go:75 | a backup name has 27 characters: `backup_`, eight date digits, `_`, six clock digits, `.json` |
| TimeFormat.ParseBackupNameInverts | internal/backup/backup.go:75 | reading the digits of a backup name gives back the second it was made in |
| TimeFormat.BackupNameSameSecond | internal/backup/backup.go:75 | two valid times give the same name exactly when they fall in the same second |
| Backups.GetBackupDir | internal/backup/backup.go:31-37 | the backup directory is `.claude-code-backups` under the home directory |
| Backups.EnsureDir | internal/backup/backup.go:39-43 | when creating the directory succeeds it exists afterwards; its files are the same, and a directory already there is unchanged |
| Backups.CreateBackup | internal/backup/backup.go:60-90 | the errors come in order (directory, then encoding for a year outside 0..9999, then writing); with the directory made and the year in range any error is the write's, and a write that succeeds onto a free name gives success; on success the file named after the second holds the timestamp, the description verbatim and GetAllVars, and the path is returned |
| Backups.CreateManualBackup | internal/backup/backup.go:51-57 | it returns only the base file name, and passes on createBackup's error |
| Backups.CreateAutoBackup | internal/backup/backup.go:46-48 | it succeeds exactly when createBackup does; a failure adds no file, although the directory may have been created |
| Backups.SameSecondOverwrites | internal/backup/backup.go:75-87 | a second backup in the same second gets the same name and, when written, replaces the first |
| Backups.DifferentSecondsKeepBoth | internal/backup/backup.go:75-87 | backups made in different seconds are both kept |
| Backups.Ext | internal/backup/backup.go:109 | the extension is empty or a suffix of the name starting with `.` |
| Backups.ExtJson | internal/backup/backup.go:109 | the extension is `.json` exactly when the name ends with `.json`; no `backup_` prefix is needed |
| Backups.InfoOf | internal/backup/backup.go:125-131 | the summary carries the name, timestamp and description; the flag is set exactly when the snapshot holds "true"; the resource is the snapshot's, or "" |
| Backups.Collect | internal/backup/backup.go:107-134 | a summary is collected exactly when it belongs to a listed decodable `.json` file; distinct files give distinct summaries |
| Backups.Insert | internal/backup/backup.go:137-139 | inserting keeps the list newest first and adds exactly the new element |
| Backups.SortNewestFirst | internal/backup/backup.go:137-139 | the result is a permutation of the input, newest first |
| Backups.ListBackups | internal/backup/backup.go:93-142 | a missing directory gives an empty list; an unreadable listing is an error; otherwise the list is a newest-first permutation of the collected summaries |
| Backups.ListBackupsExact | internal/backup/backup.go:107-134 | the list holds exactly the summaries of the decodable `.json` files, each once; directories, other names, unreadable and malformed files are skipped |
| Backups.ReadBackup | internal/backup/backup.go:148-157 | reading succeeds exactly for a decodable file; a malformed file is a parse error and anything else a read error |
| Backups.RestoreBackup | internal/backup/backup.go:145-172 | a read or parse error leaves the store untouched; otherwise it succeeds exactly when the notification succeeds and no snapshot name is refused, and the store is then the old one without the managed names cleared, overridden by the snapshot |
| Backups.PutSnapshot | internal/backup/backup.go:159-169 | a failed notification of the rollback stops the restore with a clear error |
| Backups.PutSnapshotPasses | internal/backup/backup.go:159-169 | clearing and setting succeed exactly when the notification succeeds and no snapshot name is refused |
| Backups.PutSnapshotVars | internal/backup/backup.go:159-169 | after success, the removable managed names are gone and the snapshot's entries are set |
| Backups.RollbackRemovesCleared | internal/config/manager.go:84-89 | a rollback removes exactly the managed names it may remove |
| Backups.RestoreReproducesSnapshot | internal/backup/backup.go:145-172 | restoring a backup just created makes GetAllVars what it was at creation, however the store changed since, including the absence of names that were not set |
| Backups.DeleteBackup | internal/backup/backup.go:174-178 | removal succeeds exactly for an existing file or empty directory that the file system lets go, and otherwise fails and changes nothing |
| Backups.DeleteUnlists | internal/backup/backup.go:174-178 | after a deletion the list no longer mentions the file, and every other backup is still listed |
| Commands.MaskAPIKey | cmd/show.go:57-62 | a key of at most eight bytes masks to `***`; a longer one to its first eight bytes and `***`; never more than 11 bytes |
| Commands.MaskRevealsOnlyPrefix | cmd/show.go:57-62 | two keys mask alike exactly when both are short, or both are long with the same first eight bytes |
| Commands.ShowAPIKey | cmd/show.go:37-41 | the key line says "not set" exactly when the key is empty, and otherwise shows the masked key |
| Commands.ValidateTarget | cmd/configure.go:45-51 | RunE's own check passes exactly when one of the resource and the base URL is non-empty, with an error for neither and one for both |
| Commands.CheckFlagGroups | cmd/configure.go:100-101 | the flag groups pass exactly when one of --resource and --base-url was given, whatever its value; giving neither and giving both are separate errors |
| Commands.Validate | cmd/configure.go:44-51 | `configure` gets past validation exactly when one of the two flags was given and exactly one of their values is non-empty; a flag-group error comes first, and otherwise the result is RunE's check |
| Commands.ConflictUnreachable | cmd/configure.go:49-51 | when a flag that was not given holds "", RunE's error for both targets can never be returned: the flag groups refuse that case first |
| Commands.SetButEmptyRefused | cmd/configure.go:100-101 | `--resource=acme --base-url=` passes RunE's value checks, yet `configure` refuses it and changes nothing, because both flags were given |
| Commands.OrDefault | cmd/configure.go:53-62 | an empty model name becomes the default, and any other is kept |
| Commands.ConfigFromFlags | cmd/configure.go:53-71 | the configuration carries the resource and key, and each model name or its default |
| Commands.Configure | cmd/configure.go:44-101 | flags refused by the flag groups or by RunE change nothing; otherwise a backup of the old store is attempted first, its failure only warns, and the result is Apply's, wrapped |
| Commands.BackupFailureOnlyWarns | cmd/configure.go:73-81 | the store and the result are the same whether or not the backup could be written |
| Commands.ConfigureUndoable | cmd/configure.go:73-81 | restoring the automatic backup taken by a successful `configure` brings GetAllVars back to what it was before |
| Commands.BaseURLFlagDropped | cmd/configure.go:64-71 | in the model's reading of lines that do not compile, with only --base-url the given URL is dropped: the resource is empty and the URL written is the one derived from an empty resource |

## Left out

- The Windows registry calls and the `SendMessageTimeoutW` broadcast (`internal/config/manager_windows.go`): the backend is abstract. Only the two laws above are kept, plus a switch for the broadcast's outcome.
- Real I/O (`os.Open`, `os.WriteFile`, `os.ReadDir`, `os.MkdirAll`, `os.UserHomeDir`, `os.Getenv`, `os.Stat`, `time.Now`): their results are inputs.
- `getCurrentShell` (`internal/config/manager_unix.go:200-211`): it runs `ps`, a foreign process.
- JSON encoding: a backup file is its decoded record or a decoding failure. Encoding is modelled only by its one failure, a year outside 0 to 9999; a written record is taken to decode back to itself.
- Time zones, the monotonic clock and calendar validity: `After` compares a linear key over the calendar fields, which orders valid times correctly but does not count real days.
- `sort.Slice`: it is not stable, so ListBackups' order among equal timestamps is not fixed. The model sorts by insertion, which is one order it may produce. SortNewestFirst states only what every such order satisfies: newest first, and a permutation.
- The `bufio.Scanner` 64 KiB line limit: longer lines are not modelled.
- `filepath.Join` cleaning of `.` and `..`: paths are sequences of elements, and file names are taken to hold no separator.
- The panic when there is no home directory: the home directory is an input.
- `os.MkdirAll` of the fish configuration directory in getProfilePath: it only creates a directory.
- The UTF-8 encoding of the key in `show`: MaskAPIKey works on the key's bytes, as Go's `len` and slicing do.
- The terminal UI (`internal/ui/interactive.go`) and the cobra wiring (`cmd/root.go`, `cmd/backup.go`, `cmd/rollback.go`): they only call the core. Of cobra's own checks only the flag groups of `configure` (`cmd/configure.go:100-101`) are modelled, by Commands.CheckFlagGroups; flag parsing itself is not, and Commands.Flags takes its result as given. The copy of maskAPIKey at `internal/ui/interactive.go:419-424` is the same function.
- The Python scripts (`claude_foundry_manager.py`, `legacy/claude_foundry_quick.py`): they are a separate Windows-only implementation. It differs in sorting backups by file name (`claude_foundry_manager.py:177`) and in its Opus default (`legacy/claude_foundry_quick.py:158`).
- `isTruthy`: `internal/config/manager_test.go` tests it, but no source file defines it. GetCurrentConfig compares with "true" exactly.
- Concurrency: there is no locking, and concurrent writers can lose updates.
- Printed messages and warnings: the rollback warnings are returned as a list of names, and the `configure` warning as an optional error.
- Profile.ReadAfterWrite: the round trip is stated for renderable entries only. Keys must have no `=`, no surrounding blanks and no newline. Values must have no newline and no surrounding quotes. No export line may contain a marker. Other entries do not survive the file, because the source does not escape them.
- Profile.ParseExportLine: stated for renderable entries only, for the same reason. Profile.ParseExports, Profile.WriteVars, Profile.SetVar, Profile.SetVarUpdatesOneKey and Profile.RemoveAfterWrite carry the same restriction. Deletion needs none: every entry read from a file is renderable (Profile.ReadVars).
- Profile.Commit: a failed write returns only the error. What `os.WriteFile` leaves in the file after failing part way (it truncates first) is not modelled.
- Invalid UTF-8: Go strings are bytes, and the model's strings are sequences of Unicode scalar values. Every delimiter the profile editor looks for (`=`, `"`, the markers, newline, carriage return, blanks) is ASCII, but a profile holding bytes that are not valid UTF-8 is not modelled.

## Notes on the code

Where the code does not compile, the note says which reading the model takes; elsewhere the model follows the code.

- **Unix reads.** On Unix, reads come from the process environment (`internal/config/manager_unix.go:20-25`), not from the profile block, so in the program a write is not seen by a read in the same process. The Store module reads what its backend holds. The round trip of the POSIX backend holds at the block level: Profile.ReadAfterWrite and Profile.SetVarUpdatesOneKey.
- **CreateAutoBackup.** `internal/backup/backup.go:46-48` returns createBackup's two results from a function with one result, so it does not compile as written. The model returns only the error, which is what `cmd/configure.go:74` uses.
- **No BaseURL field.** `FoundryConfig` has no `BaseURL` field (`internal/config/manager.go:20-26`), although the composite literal at `cmd/configure.go:66` names one. That is a compile error, so package `cmd` does not build as written. As with CreateAutoBackup, the model takes a reading of these lines: it drops --base-url. ApplyFoundryConfig always derives the URL from the resource (`internal/config/manager.go:41`), so with only --base-url the URL written is the one for an empty resource name (Commands.BaseURLFlagDropped).
- **Duplicate getEnvVar.** `internal/config/manager_windows.go:29` defines `getEnvVar`, and so do `setEnvVar` and `deleteEnvVar`, while `internal/config/manager.go:161-188` defines dispatchers of the same names that call `getEnvVarWindows`. The model has one backend operation for each.
- **Rewrites add blank lines.** The blank line written in front of the block lies outside the markers, survives the next rewrite, and gains a companion each time (Profile.RewriteNotIdempotent). The order of the export lines follows map iteration.
- **Block layout.** The block written is a blank line, the begin marker, two comment lines, the export lines, the end marker and a blank line.
- **Entries written.** Applying a configuration without an API key writes six entries: the flag, the resource, the URL and three model names (Store.ApplyOnEmptyStore).
- **Notifications on restore.** Restoring a non-empty snapshot notifies at the end of RollbackToDefault and again at the end of SetAllVars.
- **List summaries.** The list summary's flag is whether the snapshot's flag is exactly "true", and its resource is the snapshot's resource or "". Neither records whether the names were present.
- **Flag groups.** `cmd/configure.go:100-101` makes --resource and --base-url a group of which exactly one must be given, and the command-line parser checks that before RunE. It looks at whether a flag was given, not at its value, so `--resource=acme --base-url=` is refused (Commands.SetButEmptyRefused), and RunE's error for both targets can never be returned (Commands.ConflictUnreachable).
- **Delete errors.** Deleting a backup that does not exist is an error. Deleting a variable that does not exist is not.
