/**
 * The builder environment (env.go): the parsed SDK settings, the lazily
 * created work directory, the paths of the Go tools, and the rewriting of
 * path-valued flags inside environment variables.
 */
module Env {
  import opened Wrappers
  import opened GoStrings
  import opened PathOrder
  import opened FileSystem
  import opened EnvArgs

  /** The environment variables that hold C compiler flags. */
  const CGO_ENV_VARS: seq<string> := ["CGO_CFLAGS", "CGO_CXXFLAGS", "CGO_CPPFLAGS", "CGO_LDFLAGS"]

  /** The flags among them whose values are paths. */
  const CGO_ABS_ENV_FLAGS: seq<string> := ["-I", "-L", "-isysroot", "-isystem", "-iquote", "-include", "-gcc-toolchain", "--sysroot"]

  /** The stem of the work directory's name. */
  const WORK_DIR_PREFIX := "rules_go_work-"

  /** `ioutil.TempDir` creates its directory with mode 0700. */
  const WORK_DIR_PERM := 448

  /** `runtime.GOOS` and `runtime.GOARCH`. */
  datatype Host = Host(goos: string, goarch: string)

  /** `filepath.Join`, left uninterpreted. */
  type JoinFunc = seq<string> -> string

  /** The slash-separated text of an absolute path. */
  function PathString(p: Path): (s: string)
    ensures |s| > 0 && s[0] == '/'
  {
    "/" + Join(p, "/")
  }

  // ---------------------------------------------------------------------
  // workDir

  /** The function `workDir` hands back for the caller to run when done. */
  datatype Cleanup =
    | NoCleanup
    | RemoveTree(dir: Path)

  /** What a call of `workDir` returns, the file system after it, and the
      new value of the `workDirPath` field. */
  datatype WorkDirResult = WorkDirResult(path: string, cleanup: Cleanup, err: Option<FsError>, st: FsState, workDirPath: string)

  /** `workDir`: the cached directory when there is one; otherwise a new
      directory named with the stem and `random` under the temporary
      directory `tempRoot`, recorded in `workDirPath`, whose cleanup removes
      it unless the work directory is to be preserved. */
  function WorkDirSpec(workDirPath: string, preserve: bool, st: FsState, tempRoot: Path, random: string): (r: WorkDirResult)
    ensures workDirPath != "" ==> r == WorkDirResult(workDirPath, NoCleanup, None, st, workDirPath)
    ensures workDirPath == "" && r.err.Some? ==> r == WorkDirResult("", NoCleanup, r.err, st, "")
    ensures workDirPath == "" && r.err.None? ==>
      var dir := tempRoot + [WORK_DIR_PREFIX + random];
      && dir !in st.nodes && IsDirAt(r.st, dir)
      && r.path == r.workDirPath == PathString(dir)
      && (r.cleanup == RemoveTree(dir) <==> !preserve)
      && (preserve ==> r.cleanup == NoCleanup)
  {
    if workDirPath != "" then WorkDirResult(workDirPath, NoCleanup, None, st, workDirPath)
    else
      var dir := tempRoot + [WORK_DIR_PREFIX + random];
      var m := MkdirSpec(st, dir, WORK_DIR_PERM);
      if m.err.Some? then WorkDirResult("", NoCleanup, m.err, st, "")
      else
        var path := PathString(dir);
        WorkDirResult(path, if preserve then NoCleanup else RemoveTree(dir), None, m.st, path)
  }

  /** Running a cleanup. */
  function CleanupSpec(st: FsState, cleanup: Cleanup): (r: FsState)
    ensures cleanup.NoCleanup? ==> r == st
    ensures cleanup.RemoveTree? ==> forall q :: q in r.nodes <==> q in st.nodes && !(cleanup.dir <= q)
  {
    match cleanup
    case NoCleanup => st
    case RemoveTree(dir) => RemoveAllSpec(st, dir)
  }

  /** After a first call that succeeds, every later call returns the same
      path with a cleanup that does nothing, and creates nothing. */
  lemma WorkDirCached(preserve: bool, st: FsState, tempRoot: Path, random: string, tempRoot': Path, random': string)
    ensures
      var first := WorkDirSpec("", preserve, st, tempRoot, random);
      var again := WorkDirSpec(first.workDirPath, preserve, first.st, tempRoot', random');
      first.err.None? ==>
        && first.workDirPath != ""
        && again == WorkDirResult(first.path, NoCleanup, None, first.st, first.workDirPath)
  {
  }

  /** The first cleanup removes the new directory and all it holds, unless
      it is to be preserved, in which case nothing changes. */
  lemma WorkDirCleanup(preserve: bool, st: FsState, tempRoot: Path, random: string)
    ensures
      var first := WorkDirSpec("", preserve, st, tempRoot, random);
      var dir := tempRoot + [WORK_DIR_PREFIX + random];
      var after := CleanupSpec(first.st, first.cleanup);
      first.err.None? ==>
        && (!preserve ==> dir !in after.nodes && forall q :: q in after.nodes ==> !(dir <= q))
        && (preserve ==> after == first.st && IsDirAt(after, dir))
  {
  }

  // ---------------------------------------------------------------------
  // The environment object

  class Env {
    /** The path of the Go SDK. */
    var sdk: string
    /** The directory below GOROOT/pkg holding the standard library. */
    var installSuffix: string
    /** Whether subprocess command lines are printed. */
    var verbose: bool
    /** The work directory, once created; "" before. */
    var workDirPath: string
    /** Whether the work directory survives its cleanup. */
    var shouldPreserveWorkDir: bool

    /** The environment as the builders' flags leave it. */
    constructor (sdk: string, installSuffix: string, verbose: bool, preserve: bool)
      ensures this.sdk == sdk && this.installSuffix == installSuffix && this.verbose == verbose
      ensures workDirPath == "" && shouldPreserveWorkDir == preserve
    {
      this.sdk := sdk;
      this.installSuffix := installSuffix;
      this.verbose := verbose;
      workDirPath := "";
      shouldPreserveWorkDir := preserve;
    }

    /** `checkFlags`: the SDK path must have been given. */
    function CheckFlags(): (r: Option<string>)
      reads this
      ensures r.Some? <==> sdk == ""
    {
      if sdk == "" then Some("-sdk was not set") else None
    }

    method WorkDir(fs: Fs, tempRoot: Path, random: string) returns (path: string, cleanup: Cleanup, err: Option<FsError>)
      requires fs.Valid()
      modifies this, fs
      ensures fs.Valid()
      ensures WorkDirResult(path, cleanup, err, fs.State(), workDirPath) ==
        WorkDirSpec(old(workDirPath), shouldPreserveWorkDir, old(fs.State()), tempRoot, random)
      ensures sdk == old(sdk) && installSuffix == old(installSuffix) && verbose == old(verbose)
      ensures shouldPreserveWorkDir == old(shouldPreserveWorkDir)
    {
      if workDirPath != "" {
        return workDirPath, NoCleanup, None;
      }
      var dir := tempRoot + [WORK_DIR_PREFIX + random];
      err := fs.Mkdir(dir, WORK_DIR_PERM);
      if err.Some? {
        workDirPath := "";
        return "", NoCleanup, err;
      }
      workDirPath := PathString(dir);
      cleanup := if shouldPreserveWorkDir then NoCleanup else RemoveTree(dir);
      path := workDirPath;
    }

    /** `goTool`: the tool's path under the SDK's platform directory, then
        the arguments. */
    function GoTool(tool: string, args: seq<string>, host: Host, join: JoinFunc): (r: seq<string>)
      reads this
      ensures |r| == |args| + 1 && r[1..] == args
      ensures host.goos == "windows" ==> r[0] == join([sdk, "pkg", "tool", host.goos + "_" + host.goarch, tool]) + ".exe"
      ensures host.goos != "windows" ==> r[0] == join([sdk, "pkg", "tool", host.goos + "_" + host.goarch, tool])
    {
      var platform := host.goos + "_" + host.goarch;
      var toolPath := join([sdk, "pkg", "tool", platform, tool]);
      [if host.goos == "windows" then toolPath + ".exe" else toolPath] + args
    }

    /** `goCmd`: the SDK's go command, the subcommand, then the arguments. */
    function GoCmd(cmd: string, args: seq<string>, host: Host, join: JoinFunc): (r: seq<string>)
      reads this
      ensures |r| == |args| + 2 && r[1] == cmd && r[2..] == args
      ensures host.goos == "windows" ==> r[0] == join([sdk, "bin", "go"]) + ".exe"
      ensures host.goos != "windows" ==> r[0] == join([sdk, "bin", "go"])
    {
      var exe := join([sdk, "bin", "go"]);
      [if host.goos == "windows" then exe + ".exe" else exe, cmd] + args
    }
  }

  /** Runs a cleanup `workDir` returned. */
  method RunCleanup(fs: Fs, cleanup: Cleanup)
    requires fs.Valid()
    modifies fs
    ensures fs.Valid() && fs.State() == CleanupSpec(old(fs.State()), cleanup)
  {
    match cleanup {
      case NoCleanup =>
      case RemoveTree(dir) => fs.RemoveAll(dir);
    }
  }

  // ---------------------------------------------------------------------
  // absEnv

  /** `os.Setenv` refuses an empty name, a name with '=' or NUL, and a
      value with NUL. */
  datatype SetenvError = InvalidSetenv(key: string)

  predicate SettableEnv(key: string, value: string) {
    key != "" && '=' !in key && '\0' !in key && '\0' !in value
  }

  /** `os.Getenv`: "" for an unset variable. */
  function Getenv(vars: map<string, string>, key: string): (r: string)
    ensures key in vars ==> r == vars[key]
    ensures key !in vars ==> r == ""
  {
    if key in vars then vars[key] else ""
  }

  function SetenvSpec(vars: map<string, string>, key: string, value: string): (r: Result<map<string, string>, SetenvError>)
    ensures r.Ok? <==> SettableEnv(key, value)
    ensures r.Ok? ==> r.value == vars[key := value]
    ensures r.Err? ==> r.error == InvalidSetenv(key)
  {
    if SettableEnv(key, value) then Ok(vars[key := value]) else Err(InvalidSetenv(key))
  }

  /** A variable's value with the paths after `flags` absolutised: split into
      fields, rewritten by absArgs, joined with single spaces. */
  function RewriteEnvValue(value: string, flags: seq<string>, absFn: AbsFunc): string {
    Join(AbsArgsFrom(Fields(value), flags, absFn, false), " ")
  }

  /** The process environment. */
  class ProcessEnv {
    var vars: map<string, string>

    constructor (vars: map<string, string>)
      ensures this.vars == vars
    {
      this.vars := vars;
    }

    function GetenvAt(key: string): string
      reads this
    {
      Getenv(vars, key)
    }

    method Setenv(key: string, value: string) returns (err: Option<SetenvError>)
      modifies this
      ensures var r := SetenvSpec(old(vars), key, value);
        (r.Ok? ==> err.None? && vars == r.value) && (r.Err? ==> err == Some(r.error) && vars == old(vars))
    {
      match SetenvSpec(vars, key, value)
      case Ok(v) =>
        vars := v;
        err := None;
      case Err(e) =>
        err := Some(e);
    }
  }

  datatype EnvOutcome = EnvOutcome(vars: map<string, string>, err: Option<SetenvError>)

  /** Sets each named variable, in turn, to `rewrite` of its current value;
      the first refused `Setenv` ends the run. */
  function SetEach(vars: map<string, string>, names: seq<string>, rewrite: string -> string): (r: EnvOutcome)
    ensures forall k :: k !in names ==> (k in r.vars <==> k in vars) && (k in vars ==> r.vars[k] == vars[k])
    decreases |names|
  {
    if names == [] then EnvOutcome(vars, None)
    else
      var name := names[0];
      match SetenvSpec(vars, name, rewrite(Getenv(vars, name)))
      case Err(e) => EnvOutcome(vars, Some(e))
      case Ok(v) => SetEach(v, names[1..], rewrite)
  }

  /** `absEnv`: each named variable's value is rewritten as absArgs rewrites
      a command line. */
  function AbsEnvSpec(vars: map<string, string>, names: seq<string>, flags: seq<string>, absFn: AbsFunc): (r: EnvOutcome)
    ensures forall k :: k !in names ==> (k in r.vars <==> k in vars) && (k in vars ==> r.vars[k] == vars[k])
  {
    SetEach(vars, names, value => RewriteEnvValue(value, flags, absFn))
  }

  /** Every rewritten value (of the variables as they are in `vars`) can
      be set. */
  ghost predicate AllSettable(vars: map<string, string>, names: seq<string>, rewrite: string -> string) {
    forall i :: 0 <= i < |names| ==> SettableEnv(names[i], rewrite(Getenv(vars, names[i])))
  }

  /** Every named variable of `result` holds its value in `vars`, rewritten. */
  ghost predicate AllRewritten(result: map<string, string>, vars: map<string, string>, names: seq<string>, rewrite: string -> string) {
    forall i :: 0 <= i < |names| ==> names[i] in result && result[names[i]] == rewrite(Getenv(vars, names[i]))
  }

  /** Setting a variable the rest of the names do not mention changes
      nothing the rest depend on. */
  lemma UnmentionedSet(vars: map<string, string>, name: string, value: string, rest: seq<string>, rewrite: string -> string)
    requires name !in rest
    ensures AllSettable(vars[name := value], rest, rewrite) <==> AllSettable(vars, rest, rewrite)
    ensures forall result :: AllRewritten(result, vars[name := value], rest, rewrite) <==> AllRewritten(result, vars, rest, rewrite)
  {
    assert forall i :: 0 <= i < |rest| ==> Getenv(vars[name := value], rest[i]) == Getenv(vars, rest[i]);
  }

  /** With distinct names, the run succeeds exactly when every rewritten
      value can be set, and then each named variable holds its original
      value rewritten. */
  lemma {:induction false} SetEachRewrites(vars: map<string, string>, names: seq<string>, rewrite: string -> string)
    requires forall i, j :: 0 <= i < j < |names| ==> names[i] != names[j]
    ensures var r := SetEach(vars, names, rewrite);
      && (r.err.None? <==> AllSettable(vars, names, rewrite))
      && (r.err.None? ==> AllRewritten(r.vars, vars, names, rewrite))
    decreases |names|
  {
    if names != [] {
      var name := names[0];
      var value := rewrite(Getenv(vars, name));
      var rest := names[1..];
      if SettableEnv(name, value) {
        var v := vars[name := value];
        SetEachRewrites(v, rest, rewrite);
        assert name !in rest by {
          forall i | 0 <= i < |rest| ensures rest[i] != name {
            assert rest[i] == names[i + 1];
          }
        }
        UnmentionedSet(vars, name, value, rest, rewrite);
      }
    }
  }

  /** With distinct names, absEnv succeeds exactly when every rewritten
      value can be set, and then each named variable holds its original
      value with the paths after `flags` absolutised. */
  lemma AbsEnvRewrites(vars: map<string, string>, names: seq<string>, flags: seq<string>, absFn: AbsFunc)
    requires forall i, j :: 0 <= i < j < |names| ==> names[i] != names[j]
    ensures var r := AbsEnvSpec(vars, names, flags, absFn);
      && (r.err.None? <==> forall i :: 0 <= i < |names| ==> SettableEnv(names[i], RewriteEnvValue(Getenv(vars, names[i]), flags, absFn)))
      && (r.err.None? ==> forall i :: 0 <= i < |names| ==>
            names[i] in r.vars && r.vars[names[i]] == RewriteEnvValue(Getenv(vars, names[i]), flags, absFn))
  {
    SetEachRewrites(vars, names, value => RewriteEnvValue(value, flags, absFn));
  }

  method AbsEnv(env: ProcessEnv, envNames: seq<string>, flags: seq<string>, absFn: AbsFunc) returns (err: Option<SetenvError>)
    modifies env
    ensures EnvOutcome(env.vars, err) == AbsEnvSpec(old(env.vars), envNames, flags, absFn)
  {
    ghost var vars := env.vars;
    for i := 0 to |envNames|
      invariant AbsEnvSpec(env.vars, envNames[i..], flags, absFn) == AbsEnvSpec(vars, envNames, flags, absFn)
    {
      var name := envNames[i];
      assert envNames[i..][1..] == envNames[i + 1..];
      var fields := Fields(env.GetenvAt(name));
      var splitEnv := new string[|fields|](j requires 0 <= j < |fields| => fields[j]);
      assert splitEnv[..] == fields;
      AbsArgs(splitEnv, flags, absFn);
      err := env.Setenv(name, Join(splitEnv[..], " "));
      if err.Some? {
        return;
      }
    }
    return None;
  }
}
