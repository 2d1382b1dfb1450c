# rules_go builder environment and replication, in Dafny

This project models two files of the rules_go builders: `env.go` and
`replicate.go`. The builders are small Go programs that Bazel runs to drive
the Go toolchain.

`env.go` holds the builder environment:

- the command-line helpers `splitArgs`, `readParamsFiles` and `abs`/`absArgs`;
- the quoting helpers of `formatCommand`;
- the `env` object: `checkFlags`, the lazily created `workDir`, and the tool
  paths `goTool` and `goCmd`;
- `absEnv`, which makes the path-valued flags in the cgo environment
  variables absolute.

`replicate.go` makes a file or a directory tree visible at a new location by
copying, hard-linking or symlinking it. It reads either from the live file
system (`filesystemReplicator`) or from the entries of a zip archive
(`zipReplicator`).

## Layout

| file | module | contents |
|---|---|---|
| `wrappers.dfy` | `Wrappers` | `Option` and `Result` |
| `strings.dfy` | `GoStrings` | `strings.HasPrefix`, `IndexByte`, `Split`, `Join` and `Fields`, with their round-trip lemmas |
| `paths.dfy` | `PathOrder` | paths as component sequences, and the lexical order `filepath.Walk` visits them in |
| `filesystem.dfy` | `FileSystem` | a file-system state (entries, inodes, symlinks), the `os` calls the core makes as functions on it, and a class `Fs` whose methods perform them in place |
| `env_args.dfy` | `EnvArgs` | `splitArgs`, `readParamsFiles`, `abs`, `absArgs`, `quoteIfNeeded`, `quoteEnvIfNeeded` |
| `env.dfy` | `Env` | the `env` class, `workDir` and its cleanup, `goTool`, `goCmd`, `os.Setenv`, `absEnv` |
| `replicate.dfy` | `Replicate` | the options and the configuration, every replication step as a function on the state, and the methods that perform them |
| `replicate_facts.dfy` | `ReplicateFacts` | what the replication modes guarantee, stated over those functions |

Each step that changes the file system has two forms:

- a specification function from the state before to an `Outcome`: the state
  after, plus the first failure if there was one;
- a method on an `Fs` object that does the same step in place.

Each method's contract says it reaches exactly its function's outcome, so the
lemmas about the functions hold for the methods too. `absArgs` rewrites a Go
slice in place, so it is a method on an `array<string>`. The `env` and
`replicateConfig` structs become classes. The process environment is a class
holding a map.

Everything outside the process is a parameter:

- `filepath.Abs` is a partial function `absFn`.
- `filepath.Join` is a function parameter of `goTool` and `goCmd`, and
  `strconv.Quote` one of the quoting helpers. Replication joins paths with the
  model's own `JoinPath`.
- The readable params files are a map from name to content.
- The archives that can be opened are a map from name to entries.
- The temporary directory and the random part of the work directory's name
  are parameters.
- The iteration order of Go's map of recorded zip directories is a ghost
  sequence. The methods prove it lists each directory exactly once.

Where the documentation and the code differ, the model follows the code:

- The comment on `readParamsFiles` says blank lines are ignored. The code
  drops only a final empty line, and so does `FileArgs`.
- The zip pass calls `replicatePrepare` on `dst` joined with each recorded
  directory. That creates only the directory's parent, and with
  `removeFirst` it removes an empty directory already there.
- `replicateTree` always clears `dst` with `RemoveAll`, whatever
  `removeFirst` says. The zip replicator never clears `dst`.
- An invalid `dirMode` is reported with the value of `fileMode`
  (`ReplicateFacts.InvalidDirModeReportsFileMode`).

## Model

| member | source | states |
|---|---|---|
| EnvArgs.SplitArgs | go/tools/builders/env.go:212-219 | with a `--`, the builder part, `--` and the tool part rebuild the arguments, and the builder part has no `--`; without one, everything is builder arguments and the tool part is empty |
| EnvArgs.FileArgs | go/tools/builders/env.go:198-202 | no argument read from a params file contains a newline |
| EnvArgs.FileArgsRoundTrip | go/tools/builders/env.go:198-202 | joining a file's arguments with newlines, plus the final newline if there was one, gives back the file's content |
| EnvArgs.FileArgsOfLines | go/tools/builders/env.go:198-202 | a file written as newline-terminated lines yields exactly those lines |
| EnvArgs.ExpandNoParams | go/tools/builders/env.go:184-186 | without a `-param=` token the arguments come back unchanged |
| EnvArgs.ExpandPlainRun | go/tools/builders/env.go:189-191 | a leading run of ordinary tokens is copied unchanged in front of the rest's expansion |
| EnvArgs.ExpandSplice | go/tools/builders/env.go:189-205 | one `-param=F` among ordinary tokens is replaced in place by F's arguments; if F cannot be read, that read error is the result |
| EnvArgs.ExpandLinesFile | go/tools/builders/env.go:189-205 | a params file of newline-terminated lines splices exactly those lines where its token stood |
| EnvArgs.ExpandStep | go/tools/builders/env.go:189-204 | one round of the loop: the gap before the next `-param=` token is copied, then the file's lines are spliced or its read error ends the call |
| EnvArgs.ReadParamsFiles | go/tools/builders/env.go:177-207 | the index-collecting loop and the splicing loop give exactly the expansion: each `-param=` token is replaced by its file's arguments, and the first unreadable file from the left is the error |
| EnvArgs.Abs | go/tools/builders/env.go:229-239 | a path starting with `__BAZEL_`, or one `filepath.Abs` rejects, is returned unchanged; any other path becomes its absolute form |
| EnvArgs.AbsIdempotent | go/tools/builders/env.go:229-239 | when `filepath.Abs` is idempotent, applying abs twice is the same as once |
| EnvArgs.FirstFlag | go/tools/builders/env.go:251-254 | finds the first flag, in list order, that prefixes the token, or reports that none does |
| EnvArgs.AbsArgsAt | go/tools/builders/env.go:244-268 | each token's rewrite depends only on the token and on whether the token before it was a bare flag that was not itself taken as a flag's value |
| EnvArgs.BareFlag | go/tools/builders/env.go:246-259 | a token equal to a flag stays as it is; only the next token goes through abs, and that token is not checked against the flags |
| EnvArgs.NoFlag | go/tools/builders/env.go:251-254 | a token that no flag prefixes is left unchanged |
| EnvArgs.FlagWithValue | go/tools/builders/env.go:255-266 | `f=value` becomes `f=` plus abs(value), and `fvalue` becomes `f` plus abs(value), where f is the first matching flag |
| EnvArgs.FirstFlagFound | go/tools/builders/env.go:251-254 | the flag the inner loop stops at is the first flag that prefixes the token |
| EnvArgs.RewriteToken | go/tools/builders/env.go:251-267 | the inner flag loop over one token gives the token's rewrite and whether the next token is to be made absolute |
| EnvArgs.AbsArgs | go/tools/builders/env.go:243-269 | rewrites the array in place, each element as the token-by-token specification says |
| EnvArgs.QuoteIfNeeded | go/tools/builders/env.go:274-279 | an argument without a space is unchanged; one with a space is quoted whole |
| EnvArgs.QuoteEnvIfNeeded | go/tools/builders/env.go:280-290 | an entry with no `=`, or whose value has no space, is unchanged; otherwise only the value after the first `=` is quoted |
| EnvArgs.QuoteEnvKeepsKey | go/tools/builders/env.go:280-290 | quoting keeps the first `=` at the same index and the key before it unchanged |
| GoStrings.FieldsJoin | go/tools/builders/env.go:154-156 | splitting a space-joined list of words into fields gives back the same words |
| GoStrings.SplitJoin | go/tools/builders/env.go:198 | joining the parts of a split with the separator gives back the string |
| GoStrings.JoinSplit | go/tools/builders/env.go:198 | splitting a join of separator-free parts gives back the parts |
| Env.Env.constructor | go/tools/builders/env.go:45-79 | a new env holds the given flag values and has no work directory yet |
| Env.Env.CheckFlags | go/tools/builders/env.go:83-88 | reports an error exactly when `-sdk` was not set |
| Env.WorkDirSpec | go/tools/builders/env.go:93-111 | returns the cached directory, with a no-op cleanup and no change, when there is one; otherwise on failure it returns "" and changes nothing; otherwise it creates a new directory `rules_go_work-<random>` under the temporary directory, records it, and returns a cleanup that removes it unless `-work` preserves it |
| Env.WorkDirCached | go/tools/builders/env.go:94-95 | after a first call that succeeds, a later call returns the same path with a no-op cleanup and creates nothing |
| Env.WorkDirCleanup | go/tools/builders/env.go:105-109 | the cleanup removes the new directory and everything beneath it, or, when preserved, changes nothing and the directory remains |
| Env.CleanupSpec | go/tools/builders/env.go:106-108 | a no-op cleanup keeps the state; a removing cleanup drops exactly the paths at or beneath the directory |
| Env.Env.WorkDir | go/tools/builders/env.go:93-111 | the method reaches the `workDir` outcome, updates `workDirPath` as it says, and leaves the other fields unchanged |
| Env.RunCleanup | go/tools/builders/env.go:106-108 | running the cleanup changes the file system as the cleanup specification says |
| Env.Env.GoTool | go/tools/builders/env.go:115-122 | the tool path is `sdk/pkg/tool/<goos>_<goarch>/<tool>`, plus `.exe` on Windows, followed by the arguments unchanged |
| Env.Env.GoCmd | go/tools/builders/env.go:126-132 | the go command path is `sdk/bin/go`, plus `.exe` on Windows, followed by the subcommand and the arguments |
| Env.SetenvSpec | go/tools/builders/env.go:156 | `os.Setenv` succeeds exactly when the key is non-empty with no `=` or NUL and the value has no NUL; it then sets that one key, and otherwise it reports the key |
| Env.ProcessEnv.Setenv | go/tools/builders/env.go:156 | the environment changes exactly as the `os.Setenv` specification says |
| Env.Getenv | go/tools/builders/env.go:154 | an unset variable reads as "" |
| Env.SetEach | go/tools/builders/env.go:153-160 | variables not named are untouched |
| Env.AbsEnvSpec | go/tools/builders/env.go:152-161 | variables not named are untouched |
| Env.SetEachRewrites | go/tools/builders/env.go:153-160 | with distinct names, the loop succeeds exactly when every rewritten value can be set, and then every named variable holds its original value rewritten |
| Env.AbsEnvRewrites | go/tools/builders/env.go:152-161 | with distinct names, absEnv succeeds exactly when every rewritten value can be set, and then each variable holds its fields, with the paths after the given flags made absolute, joined by single spaces |
| Env.AbsEnv | go/tools/builders/env.go:152-161 | the loop of Getenv, Fields, absArgs on an array, Join and Setenv ends with the environment and error the specification gives |
| Replicate.ReplicateConfig.constructor | go/tools/builders/replicate.go:173-175 | a new configuration has `removeFirst` set, copy modes, no paths and no zip |
| Replicate.ReplicateConfig.Apply | go/tools/builders/replicate.go:51-63 | `replicatePaths` appends its paths, and `replicateFromZip` sets the zip name; nothing else changes |
| Replicate.OptionPaths | go/tools/builders/replicate.go:51-55 | no options give no paths |
| Replicate.OptionPathsAppend | go/tools/builders/replicate.go:51-55 | applying one more option appends its paths, if it has any, after the earlier ones |
| Replicate.LastZip | go/tools/builders/replicate.go:59-63 | the zip name is that of the last `replicateFromZip` option, or "" when there is none |
| Replicate.NewConfig | go/tools/builders/replicate.go:172-178 | applying the options in order gives the default configuration, with the concatenated paths and the last zip name |
| Replicate.Components | go/tools/builders/replicate.go:201-202 | the components a name joins with are non-empty, never `.`, and contain no `/` |
| Replicate.JoinPath | go/tools/builders/replicate.go:201-202 | in the model, joining a name onto a base gives a path beneath the base (the model does not resolve `..`, see below) |
| Replicate.DirName | go/tools/builders/replicate.go:240 | the directory of an entry's name is "." when the name has no slash, and otherwise "/" or the part of the name before its last slash |
| Replicate.Lift | go/tools/builders/replicate.go:116-118 | a file-system error passes through unchanged, and so does the state |
| Replicate.PrepareSpec | go/tools/builders/replicate.go:66-75 | fails, changing nothing, exactly when the parent directory cannot be made, reporting that directory; otherwise the parent is a directory, and with `removeFirst` dst is gone unless it is a non-empty directory; only new 0755 directories on the parent's path are added |
| Replicate.ReplicatePrepare | go/tools/builders/replicate.go:66-75 | the method reaches exactly the preparation outcome |
| Replicate.CreateFileSpec | go/tools/builders/replicate.go:79-96 | a create error is returned with the state unchanged; otherwise the call fails exactly when reading the input fails, and on success the opened file holds the bytes read and has the given permission bits, with no link changed |
| Replicate.CreateFile | go/tools/builders/replicate.go:79-96 | the method reaches exactly the createFile outcome |
| Replicate.ZipReplicateSpec | go/tools/builders/replicate.go:216-275 | an archive that cannot be opened fails with its name, changing nothing |
| Replicate.FsReplicateSpec | go/tools/builders/replicate.go:196-199 | with no configured paths the whole tree is replicated once |
| Replicate.ReplicateFile | go/tools/builders/replicate.go:99-122 | the method reaches exactly the replicateFile outcome |
| Replicate.CopyEntries | go/tools/builders/replicate.go:132-141 | the walk callback's loop over the entries reaches exactly the specified outcome |
| Replicate.ReplicateDir | go/tools/builders/replicate.go:126-149 | the method reaches exactly the replicateDir outcome, copying the entries in the order `filepath.Walk` visits them |
| Replicate.ReplicateTree | go/tools/builders/replicate.go:151-166 | the method reaches exactly the replicateTree outcome |
| Replicate.FsReplicate | go/tools/builders/replicate.go:196-208 | the method reaches exactly the file-system replicator's outcome |
| Replicate.SelectEntries | go/tools/builders/replicate.go:229-245 | the nested selection loop yields exactly the selected directory keys, as the names are written, and the selected files |
| Replicate.SelectedFiles | go/tools/builders/replicate.go:229-245 | selection never yields more files than the archive has |
| Replicate.PrepareDirsAppend | go/tools/builders/replicate.go:261-266 | preparing `xs + ys` is preparing `xs` and, only if that succeeded, `ys` |
| Replicate.CompleteOrder | go/tools/builders/replicate.go:261-266 | the directories already prepared, followed by the rest in sorted order, list every recorded directory exactly once |
| Replicate.PrepareDirs | go/tools/builders/replicate.go:261-266 | the loop over the map visits each recorded directory exactly once, in some order, and reaches that order's outcome |
| Replicate.ExtractAll | go/tools/builders/replicate.go:247-272 | the extraction loop reaches exactly the specified outcome |
| Replicate.ZipReplicate | go/tools/builders/replicate.go:216-275 | the zip replicator reaches the specified outcome for an order that lists each recorded directory key exactly once, preparing each key joined onto `dst` |
| Replicate.Replicate | go/tools/builders/replicate.go:172-188 | the configuration is built from the options, and the zip or file-system replicator, chosen by whether a zip is named, reaches the specified outcome |
| ReplicateFacts.InvalidFileMode | go/tools/builders/replicate.go:119-120 | an unknown file mode fails with that mode after the preparation step, and nothing else changes |
| ReplicateFacts.InvalidDirModeReportsFileMode | go/tools/builders/replicate.go:146-147 | an unknown directory mode fails after preparation, but the error carries `fileMode` |
| ReplicateFacts.HardlinkSharesEntry | go/tools/builders/replicate.go:115-116 | on success in hard-link mode, `dst` holds the very entry at `src`, which is not a directory; a file shares its inode |
| ReplicateFacts.SoftlinkPointsAtSource | go/tools/builders/replicate.go:117-118 | on success in symlink mode, `dst` is a symlink to `src` |
| ReplicateFacts.CopyToFreePlace | go/tools/builders/replicate.go:104-114 | copying a regular file to a free place whose parent exists succeeds and adds just one new file, with the source's content and permission bits; every other regular file keeps its content and bits |
| ReplicateFacts.CopyFileCopies | go/tools/builders/replicate.go:99-114 | in copy mode with `removeFirst`, copying a regular file succeeds exactly when the parent of `dst` can be made; `dst` then is a fresh file with the source's content and bits, and the source is unchanged |
| ReplicateFacts.ChildrenUnderDir | go/tools/builders/replicate.go:71-73 | in a well-formed tree only a directory has entries beneath it, so the place `replicatePrepare` fails to remove is a directory |
| ReplicateFacts.CopyEntryInto | go/tools/builders/replicate.go:99-114 | in copy mode with `removeFirst`, a successful copy of a regular file leaves a file with its content and bits at `dst`, whatever stood there, and every other regular file as it was |
| ReplicateFacts.RelocatedApart | go/tools/builders/replicate.go:136-140 | distinct entries beneath `src` are copied to distinct places, all beneath `dst` and none beneath `src`, when `src` and `dst` do not nest |
| ReplicateFacts.CopyEntriesCopies | go/tools/builders/replicate.go:132-141 | when the copy callback succeeds on every entry, each entry's place beneath `dst` holds a file with that entry's content and bits, and every regular file at no such place is unchanged |
| ReplicateFacts.PrepareKeepsSource | go/tools/builders/replicate.go:127-129 | preparing `dst` leaves the walk of a `src` that does not nest with it, and the content and bits of its files, unchanged |
| ReplicateFacts.CopyDirCopies | go/tools/builders/replicate.go:126-141 | `replicateDir` in copy mode, when it succeeds, leaves at `dst` plus each file's path relative to `src` a file with that file's content and permission bits |
| ReplicateFacts.CopyTreeCopies | go/tools/builders/replicate.go:151-166 | `replicateTree` in copy mode on a directory gives the same copies, whatever stood at `dst` before |
| ReplicateFacts.TreeIgnoresOldDestination | go/tools/builders/replicate.go:151-154 | whatever was at or beneath `dst` before has no effect on the outcome |
| ReplicateFacts.PathsInOrder | go/tools/builders/replicate.go:200-207 | the paths are replicated in order: running `xs + ys` is running `xs` and, only if that succeeded, `ys` |
| ReplicateFacts.PathFailureStops | go/tools/builders/replicate.go:200-206 | the first path that fails ends the run with its error, and no later path is replicated |
| ReplicateFacts.SelectedFilesCount | go/tools/builders/replicate.go:229-245 | each non-directory entry that some path prefixes is selected as often as it occurs, and nothing else is |
| ReplicateFacts.SelectedFilesInOrder | go/tools/builders/replicate.go:229-245 | selected files keep their archive order |
| ReplicateFacts.SelectedDirsMembers | go/tools/builders/replicate.go:229-245 | a directory is recorded exactly when some matching entry records it: its own name for a directory entry, its parent for a file |
| ReplicateFacts.FileDirRecorded | go/tools/builders/replicate.go:238-240 | every selected file's directory is recorded, so it is prepared before any file is extracted |
| ReplicateFacts.NothingSelectedWithoutPaths | go/tools/builders/replicate.go:229-245 | with no configured paths the zip replicator selects nothing |
| ReplicateFacts.ExtractWrites | go/tools/builders/replicate.go:247-259 | when an extracted entry's place is not a symlink, success leaves a file there with the entry's bytes and permission bits |
| ReplicateFacts.ExtractInOrder | go/tools/builders/replicate.go:268-272 | files are extracted in order, and the first failure stops extraction |
| ReplicateFacts.PrepareFailureExtractsNothing | go/tools/builders/replicate.go:261-272 | a failure while preparing the directories ends the run before any file is extracted |
| FileSystem.Fs.Walk | go/tools/builders/replicate.go:132-135 | the walk lists every non-directory entry beneath the root, in lexical order; the callback's skipping of directories is folded into the walk |
| PathOrder.PrefixFirst | go/tools/builders/replicate.go:132 | a directory comes before everything beneath it in walk order |

## Left out

- Running subprocesses is not modelled: `runCommand`, `runCommandToFile` and
  `runAndLogCommand` only hand a command line to the operating system.
- `formatCommand`'s writing of lines to its writer is left out. Only its two
  quoting helpers are modelled, with `strconv.Quote` as a parameter.
- `envFlags` and the `tags` flag value are flag-package plumbing. The
  constructor of `Env.Env` takes the parsed values instead.
- The `sdkzip` field is left out: no modelled operation reads it.
- The `WORK=` log line is output only and is left out.
- Env.WorkDirSpec: `ioutil.TempDir` picks random names and retries on a name
  clash. The model takes the random part as a parameter and makes one attempt.
- `filepath.Abs` is a parameter everywhere, and `filepath.Join` is a parameter
  of `goTool` and `goCmd`. Replication joins paths with the concrete
  `JoinPath`, whose `Components` drops empty and `.` components but does not
  resolve `..`.
- Zip entry names and path options containing `..` that climb out of `dst`
  are not modelled: `JoinPath` keeps every result beneath its base, where Go
  would leave it.
- Replicate.DirName: it does not clean the name the way `filepath.Dir` does.
  A name with doubled slashes or `.` components keeps them in its key, so two
  names that Go records under one key can record two keys here. Both keys
  name the same directory once joined onto `dst`, which the model may then
  prepare twice where Go prepares it once.
- The file system is an abstraction, and these parts of it are left out:
  - Symlinks are resolved at the final component only.
  - `MkdirAll` does not follow links, neither in intermediate components nor
    at the path itself. Go's `MkdirAll` succeeds on a symlink to a directory;
    the model's fails with a not-a-directory error. So `replicatePrepare` and
    zip extraction fail in the model when a parent of `dst` is a symlink to a
    directory, where Go succeeds.
  - Errors follow from the state alone. I/O failures, permission checks and
    the umask are not modelled.
  - `Close` errors, and `zip.File.Open` failures, do not arise.
  - `RemoveAll` never fails.
- `filepath.Walk` is modelled as a snapshot of the tree, taken when the walk
  starts. In Go, each directory is read as the walk reaches it, so entries
  the copy itself creates beneath `src` are not seen here.
- The walk callback's crash when `f` is nil, after an error reading the
  source, is left out.
- FileSystem.PermAt: `os.Stat` on a directory reports mode 0. That value is
  never applied, because reading a directory fails first.
- `io.Copy` is modelled as one read of the whole input, taken after `Create`
  has truncated the destination. Partial writes are not modelled.
- Zip decoding is left out: an archive is its list of decoded entries.
- ReplicateFacts.CopyDirCopies and ReplicateFacts.CopyTreeCopies: proved
  for copy mode with `removeFirst`, when `src` holds no symbolic links and
  `src` and `dst` do not nest. A link beneath `src` is copied from the file
  it leads to, and a `dst` inside `src` is walked while it is written; the
  lemmas say nothing about those cases.
- Replicate.ZipReplicate: Go's map iteration order is not fixed. The model
  proves the result for an order that lists each recorded directory once. It
  does not say which order the runtime picks.
- Concurrency and signal handling are left out: the builders are
  single-threaded in these files.
