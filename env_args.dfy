/**
 * The argument helpers of the builders' environment layer (env.go):
 * splitting builder arguments from tool arguments, expanding parameter
 * files, absolutising the paths that follow path-valued flags, and the two
 * quoting rules used when a command line is shown to the user.
 */
module EnvArgs {
  import opened Wrappers
  import opened GoStrings

  /** `filepath.Abs`, left uninterpreted: None when it fails. */
  type AbsFunc = string -> Option<string>

  /** `strconv.Quote`, left uninterpreted. */
  type QuoteFunc = string -> string

  const PARAM_PREFIX := "-param="

  /** Paths with this prefix are resolved later by the compiler wrapper. */
  const BAZEL_SENTINEL := "__BAZEL_"

  // ---------------------------------------------------------------------
  // splitArgs

  /** Splits `args` at the first "--": what comes before is for the builder,
      what comes after is passed through to the tool. */
  method SplitArgs(args: seq<string>) returns (builderArgs: seq<string>, toolArgs: seq<string>)
    ensures "--" in args ==> builderArgs + ["--"] + toolArgs == args && "--" !in builderArgs
    ensures "--" !in args ==> builderArgs == args && toolArgs == []
  {
    for i := 0 to |args|
      invariant "--" !in args[..i]
    {
      if args[i] == "--" {
        assert args == args[..i] + ["--"] + args[i + 1..];
        return args[..i], args[i + 1..];
      }
      assert args[..i + 1] == args[..i] + [args[i]];
    }
    assert args[..|args|] == args;
    return args, [];
  }

  // ---------------------------------------------------------------------
  // readParamsFiles

  datatype ParamsError = ReadFailed(fileName: string)

  predicate IsParam(arg: string) {
    HasPrefix(arg, PARAM_PREFIX)
  }

  /** The file named by a `-param=` token. */
  function ParamFile(arg: string): string
    requires IsParam(arg)
  {
    arg[|PARAM_PREFIX|..]
  }

  predicate EndsWithNewline(s: string) {
    |s| > 0 && s[|s| - 1] == '\n'
  }

  /** The arguments a parameter file holds: its content split on "\n", with
      a final empty element dropped. */
  function FileArgs(content: string): (lines: seq<string>)
    ensures forall i :: 0 <= i < |lines| ==> '\n' !in lines[i]
  {
    var parts := Split(content, '\n');
    if parts[|parts| - 1] == "" then parts[..|parts| - 1] else parts
  }

  lemma {:induction false} JoinEndsWithLast(parts: seq<string>, sep: string)
    requires |parts| >= 1
    ensures |Join(parts, sep)| >= |parts[|parts| - 1]|
    ensures Join(parts, sep)[|Join(parts, sep)| - |parts[|parts| - 1]|..] == parts[|parts| - 1]
  {
    if |parts| > 1 {
      var init := parts[..|parts| - 1];
      assert parts == init + [parts[|parts| - 1]];
      JoinAppend(init, parts[|parts| - 1], sep);
    }
  }

  /** Only the final empty line is dropped: joining the arguments back with
      newlines, plus the newline that ended the file if there was one, gives
      the file's content; blank lines inside the file are kept. */
  lemma FileArgsRoundTrip(content: string)
    ensures content == Join(FileArgs(content), "\n") + (if EndsWithNewline(content) then "\n" else "")
  {
    SplitJoin(content, '\n');
    RoundTripFromParts(content, Split(content, '\n'), FileArgs(content));
  }

  lemma RoundTripFromParts(content: string, parts: seq<string>, lines: seq<string>)
    requires |parts| >= 1 && Join(parts, "\n") == content
    requires '\n' !in parts[|parts| - 1]
    requires lines == if parts[|parts| - 1] == "" then parts[..|parts| - 1] else parts
    ensures content == Join(lines, "\n") + (if EndsWithNewline(content) then "\n" else "")
  {
    var n := |parts|;
    var last := parts[n - 1];
    if last == "" {
      if n == 1 {
        assert content == "";
      } else {
        var init := parts[..n - 1];
        assert parts == init + [""];
        JoinAppend(init, "", "\n");
        assert Join(init, "\n") + "\n" + "" == Join(init, "\n") + "\n";
      }
    } else {
      JoinEndsWithLast(parts, "\n");
      assert content[|content| - 1] == last[|last| - 1];
      assert content + "" == content;
    }
  }

  /** `xs` in front of a successful result; errors pass through. */
  function Prepend(xs: seq<string>, r: Result<seq<string>, ParamsError>): Result<seq<string>, ParamsError> {
    match r
    case Ok(tail) => Ok(xs + tail)
    case Err(e) => Err(e)
  }

  /** The argument list readParamsFiles produces: each `-param=F` token is
      replaced where it stands by the arguments F holds, and the spliced
      lines are not scanned again. `files` maps each readable file to its
      content; the first unreadable file from the left is the error. */
  function Expand(args: seq<string>, files: map<string, string>): Result<seq<string>, ParamsError> {
    if args == [] then Ok([])
    else if IsParam(args[0]) && ParamFile(args[0]) !in files then Err(ReadFailed(ParamFile(args[0])))
    else
      var head := if IsParam(args[0]) then FileArgs(files[ParamFile(args[0])]) else [args[0]];
      Prepend(head, Expand(args[1..], files))
  }

  lemma PrependPrepend(xs: seq<string>, ys: seq<string>, r: Result<seq<string>, ParamsError>)
    ensures Prepend(xs, Prepend(ys, r)) == Prepend(xs + ys, r)
  {
    if r.Ok? {
      assert xs + (ys + r.value) == (xs + ys) + r.value;
    }
  }

  /** A run of ordinary tokens is copied unchanged. */
  lemma {:induction false} ExpandPlainRun(args: seq<string>, m: nat, files: map<string, string>)
    requires m <= |args|
    requires forall j :: 0 <= j < m ==> !IsParam(args[j])
    ensures Expand(args, files) == Prepend(args[..m], Expand(args[m..], files))
  {
    if m == 0 {
      assert args[..0] == [] && args[0..] == args;
      var r := Expand(args, files);
      assert Prepend([], r) == r by {
        if r.Ok? {
          assert [] + r.value == r.value;
        }
      }
    } else {
      var tail := args[1..];
      assert Expand(args, files) == Prepend([args[0]], Expand(tail, files));
      ExpandPlainRun(tail, m - 1, files);
      assert tail[m - 1..] == args[m..];
      assert args[..m] == [args[0]] + tail[..m - 1];
      PrependPrepend([args[0]], tail[..m - 1], Expand(args[m..], files));
    }
  }

  /** With no `-param=` token the arguments come back unchanged. */
  lemma {:induction false} ExpandNoParams(args: seq<string>, files: map<string, string>)
    requires forall j :: 0 <= j < |args| ==> !IsParam(args[j])
    ensures Expand(args, files) == Ok(args)
  {
    ExpandPlainRun(args, |args|, files);
    assert args[..|args|] == args;
    assert args[|args|..] == [];
    assert args + [] == args;
  }

  /** One `-param=` token among ordinary ones: its file's arguments take its
      place, or the read error is the result and no list is returned. */
  lemma ExpandSplice(before: seq<string>, param: string, after: seq<string>, files: map<string, string>)
    requires IsParam(param)
    requires forall j :: 0 <= j < |before| ==> !IsParam(before[j])
    requires forall j :: 0 <= j < |after| ==> !IsParam(after[j])
    ensures ParamFile(param) in files ==>
      Expand(before + [param] + after, files) == Ok(before + FileArgs(files[ParamFile(param)]) + after)
    ensures ParamFile(param) !in files ==>
      Expand(before + [param] + after, files) == Err(ReadFailed(ParamFile(param)))
  {
    var args := before + [param] + after;
    var rest := [param] + after;
    assert args == before + rest;
    ExpandPlainRun(args, |before|, files);
    assert args[..|before|] == before;
    assert args[|before|..] == rest;
    assert rest[0] == param && rest[1..] == after;
    ExpandNoParams(after, files);
    if ParamFile(param) in files {
      var lines := FileArgs(files[ParamFile(param)]);
      assert Expand(rest, files) == Prepend(lines, Ok(after));
      assert before + (lines + after) == before + lines + after;
    } else {
      assert Expand(rest, files) == Err(ReadFailed(ParamFile(param)));
    }
  }

  /** A file of newline-terminated lines holds exactly those lines. */
  lemma FileArgsOfLines(lines: seq<string>)
    requires |lines| >= 1
    requires forall i :: 0 <= i < |lines| ==> '\n' !in lines[i]
    ensures FileArgs(Join(lines, "\n") + "\n") == lines
  {
    var parts := lines + [""];
    JoinAppend(lines, "", "\n");
    assert Join(lines, "\n") + "\n" + "" == Join(lines, "\n") + "\n";
    assert forall i :: 0 <= i < |parts| ==> '\n' !in parts[i];
    JoinSplit(parts, '\n');
    assert parts[..|lines|] == lines;
  }

  /** A `-param=` token naming such a file is replaced, in place, by the
      file's lines. */
  lemma ExpandLinesFile(before: seq<string>, name: string, lines: seq<string>, after: seq<string>, files: map<string, string>)
    requires forall j :: 0 <= j < |before| ==> !IsParam(before[j])
    requires forall j :: 0 <= j < |after| ==> !IsParam(after[j])
    requires |lines| >= 1 && forall i :: 0 <= i < |lines| ==> '\n' !in lines[i]
    requires name in files && files[name] == Join(lines, "\n") + "\n"
    ensures Expand(before + [PARAM_PREFIX + name] + after, files) == Ok(before + lines + after)
  {
    FileArgsOfLines(lines);
    var param := PARAM_PREFIX + name;
    assert param[..|PARAM_PREFIX|] == PARAM_PREFIX;
    assert ParamFile(param) == name;
    ExpandSplice(before, param, after, files);
  }

  /** One step of readParamsFiles' second pass: the stretch up to the next
      `-param=` token is copied, then that token's file is spliced in. */
  lemma ExpandStep(args: seq<string>, last: nat, pi: nat, files: map<string, string>)
    requires last <= pi < |args| && IsParam(args[pi]) && NoParams(args, last, pi)
    ensures ParamFile(args[pi]) !in files ==>
      Expand(args[last..], files) == Err(ReadFailed(ParamFile(args[pi])))
    ensures ParamFile(args[pi]) in files ==>
      Expand(args[last..], files)
      == Prepend(args[last..pi] + FileArgs(files[ParamFile(args[pi])]), Expand(args[pi + 1..], files))
  {
    var rest := args[last..];
    ExpandPlainRun(rest, pi - last, files);
    assert rest[..pi - last] == args[last..pi];
    assert rest[pi - last..] == args[pi..];
    assert args[pi..][0] == args[pi] && args[pi..][1..] == args[pi + 1..];
    if ParamFile(args[pi]) in files {
      PrependPrepend(args[last..pi], FileArgs(files[ParamFile(args[pi])]), Expand(args[pi + 1..], files));
    } else {
      assert Expand(args[pi..], files) == Err(ReadFailed(ParamFile(args[pi])));
    }
  }

  /** No `-param=` token among `args[lo..hi]`. */
  ghost predicate NoParams(args: seq<string>, lo: nat, hi: nat)
    requires hi <= |args|
  {
    forall j :: lo <= j < hi ==> !IsParam(args[j])
  }

  /** The stretch of arguments before the `m`-th recorded `-param=` token
      and after the one before it; the last stretch runs to `n`. */
  function GapStart(indices: seq<nat>, m: nat): nat
    requires m <= |indices|
  {
    if m == 0 then 0 else indices[m - 1] + 1
  }

  function GapEnd(indices: seq<nat>, m: nat, n: nat): nat
    requires m <= |indices|
  {
    if m == |indices| then n else indices[m]
  }

  /** The positions of the `-param=` tokens among the first `n` arguments,
      in increasing order. */
  ghost function ParamPositions(args: seq<string>, n: nat): (p: seq<nat>)
    requires n <= |args|
  {
    if n == 0 then []
    else ParamPositions(args, n - 1) + if IsParam(args[n - 1]) then [n - 1] else []
  }

  /** Every recorded position holds a `-param=` token, and the stretches
      around them hold none. */
  lemma {:induction false} PositionGaps(args: seq<string>, n: nat, m: nat)
    requires n <= |args| && m <= |ParamPositions(args, n)|
    ensures var p := ParamPositions(args, n);
      GapStart(p, m) <= GapEnd(p, m, n) <= n && NoParams(args, GapStart(p, m), GapEnd(p, m, n))
    ensures var p := ParamPositions(args, n);
      m < |p| ==> p[m] < n && IsParam(args[p[m]])
  {
    if n > 0 {
      var q := ParamPositions(args, n - 1);
      var p := ParamPositions(args, n);
      if m <= |q| {
        PositionGaps(args, n - 1, m);
      }
      if m > 0 && m - 1 < |q| {
        assert p[m - 1] == q[m - 1];
      }
      if m < |q| {
        assert p[m] == q[m];
      }
    }
  }

  /** The stretch after the last `-param=` token is copied unchanged. */
  lemma ExpandTail(args: seq<string>, last: nat, files: map<string, string>)
    requires last <= |args| && NoParams(args, last, |args|)
    ensures Expand(args[last..], files) == Ok(args[last..])
  {
    ExpandNoParams(args[last..], files);
  }

  /** readParamsFiles: first collects the positions of the `-param=` tokens,
      then copies the stretches between them and splices in each file's
      lines, tracking the end of the last copied stretch in `last`. */
  method ReadParamsFiles(args: seq<string>, files: map<string, string>) returns (r: Result<seq<string>, ParamsError>)
    ensures r == Expand(args, files)
  {
    var paramsIndices: seq<nat> := [];
    for i := 0 to |args|
      invariant paramsIndices == ParamPositions(args, i)
    {
      if IsParam(args[i]) {
        paramsIndices := paramsIndices + [i];
      }
    }
    if |paramsIndices| == 0 {
      PositionGaps(args, |args|, 0);
      ExpandTail(args, 0, files);
      assert args[0..] == args;
      return Ok(args);
    }

    var expandedArgs: seq<string> := [];
    var last := 0;
    assert args[last..] == args;
    assert Prepend([], Expand(args, files)) == Expand(args, files) by {
      if Expand(args, files).Ok? {
        assert [] + Expand(args, files).value == Expand(args, files).value;
      }
    }
    for k := 0 to |paramsIndices|
      invariant last == GapStart(paramsIndices, k) && last <= |args|
      invariant Expand(args, files) == Prepend(expandedArgs, Expand(args[last..], files))
    {
      var pi := paramsIndices[k];
      PositionGaps(args, |args|, k);
      ExpandStep(args, last, pi, files);
      var fileName := args[pi][|PARAM_PREFIX|..];
      if fileName !in files {
        return Err(ReadFailed(fileName));
      }
      // FileArgs splits on "\n" and ignores the final empty line;
      // `readParamsFiles` also tests len(fileArgs) >= 0, which always holds.
      var fileArgs := FileArgs(files[fileName]);
      PrependPrepend(expandedArgs, args[last..pi] + fileArgs, Expand(args[pi + 1..], files));
      expandedArgs := expandedArgs + (args[last..pi] + fileArgs);
      last := pi + 1;
    }
    PositionGaps(args, |args|, |paramsIndices|);
    ExpandTail(args, last, files);
    expandedArgs := expandedArgs + args[last..];
    return Ok(expandedArgs);
  }

  // ---------------------------------------------------------------------
  // abs and absArgs

  /** `abs`: the absolute form of `path`, except that sentinel paths, and
      paths that `filepath.Abs` cannot resolve, are returned unchanged. */
  function Abs(path: string, absFn: AbsFunc): (r: string)
    ensures HasPrefix(path, BAZEL_SENTINEL) || absFn(path).None? ==> r == path
    ensures !HasPrefix(path, BAZEL_SENTINEL) && absFn(path).Some? ==> r == absFn(path).value
  {
    if HasPrefix(path, BAZEL_SENTINEL) then path
    else match absFn(path)
      case None => path
      case Some(a) => a
  }

  /** When `filepath.Abs` maps absolute paths to themselves, abs never
      re-absolutises its own output. */
  lemma AbsIdempotent(path: string, absFn: AbsFunc)
    requires forall p :: absFn(p).Some? ==> absFn(absFn(p).value) == absFn(p)
    ensures Abs(Abs(path, absFn), absFn) == Abs(path, absFn)
  {
  }

  /** The position in `flags` of the first flag that prefixes `arg`. */
  function FirstFlag(arg: string, flags: seq<string>): (r: Option<nat>)
    ensures r.Some? ==> r.value < |flags| && HasPrefix(arg, flags[r.value])
    ensures r.Some? ==> forall k :: 0 <= k < r.value ==> !HasPrefix(arg, flags[k])
    ensures r.None? ==> forall k :: 0 <= k < |flags| ==> !HasPrefix(arg, flags[k])
  {
    if flags == [] then None
    else if HasPrefix(arg, flags[0]) then Some(0)
    else match FirstFlag(arg, flags[1..])
      case None => None
      case Some(k) => Some(k + 1)
  }

  /** The token absArgs leaves in place of a token that does not follow a
      bare flag, and whether the token after it is a path to absolutise. */
  datatype Rewrite = Rewrite(token: string, absNext: bool)

  function RewriteArg(arg: string, flags: seq<string>, absFn: AbsFunc): Rewrite {
    match FirstFlag(arg, flags)
    case None => Rewrite(arg, false)
    case Some(k) =>
      var f := flags[k];
      var value := arg[|f|..];
      if |value| == 0 then Rewrite(arg, true)
      else if value[0] == '=' then Rewrite(f + "=" + Abs(value[1..], absFn), false)
      else Rewrite(f + Abs(value, absFn), false)
  }

  /** What absArgs leaves in place of one token, given whether the token
      before it was a bare flag. */
  function Step(arg: string, flags: seq<string>, absFn: AbsFunc, absNext: bool): Rewrite {
    if absNext then Rewrite(Abs(arg, absFn), false) else RewriteArg(arg, flags, absFn)
  }

  /** The tokens absArgs leaves in place of `args`, given whether the token
      before them was a bare flag. */
  function AbsArgsFrom(args: seq<string>, flags: seq<string>, absFn: AbsFunc, absNext: bool): (r: seq<string>)
    ensures |r| == |args|
  {
    if args == [] then []
    else
      var w := Step(args[0], flags, absFn, absNext);
      [w.token] + AbsArgsFrom(args[1..], flags, absFn, w.absNext)
  }

  /** The tokens absArgs has written over the first `n` arguments, and
      whether the next argument is to be absolutised. */
  datatype Scan = Scan(tokens: seq<string>, absNext: bool)

  function ScanPrefix(args: seq<string>, n: nat, flags: seq<string>, absFn: AbsFunc): (s: Scan)
    requires n <= |args|
    ensures |s.tokens| == n
  {
    if n == 0 then Scan([], false)
    else
      var s := ScanPrefix(args, n - 1, flags, absFn);
      var w := Step(args[n - 1], flags, absFn, s.absNext);
      Scan(s.tokens + [w.token], w.absNext)
  }

  /** Scanning a prefix from the left and rewriting the rest from there gives
      the whole rewrite. */
  lemma {:induction false} ScanThenRest(args: seq<string>, n: nat, flags: seq<string>, absFn: AbsFunc)
    requires n <= |args|
    ensures var s := ScanPrefix(args, n, flags, absFn);
      s.tokens + AbsArgsFrom(args[n..], flags, absFn, s.absNext) == AbsArgsFrom(args, flags, absFn, false)
  {
    if n == 0 {
      assert args[0..] == args;
    } else {
      ScanThenRest(args, n - 1, flags, absFn);
      var s := ScanPrefix(args, n - 1, flags, absFn);
      var w := Step(args[n - 1], flags, absFn, s.absNext);
      assert s.tokens + [w.token] + AbsArgsFrom(args[n..], flags, absFn, w.absNext)
        == s.tokens + ([w.token] + AbsArgsFrom(args[n..], flags, absFn, w.absNext));
      assert args[n - 1..] == [args[n - 1]] + args[n..];
    }
  }

  /** Each token is rewritten on its own, knowing only whether the token
      before it was a bare flag. */
  lemma AbsArgsAt(args: seq<string>, flags: seq<string>, absFn: AbsFunc, i: nat)
    requires i < |args|
    ensures AbsArgsFrom(args, flags, absFn, false)[i]
         == Step(args[i], flags, absFn, ScanPrefix(args, i, flags, absFn).absNext).token
  {
    ScanThenRest(args, i, flags, absFn);
    var s := ScanPrefix(args, i, flags, absFn);
    var rest := args[i..];
    assert rest[0] == args[i];
    assert AbsArgsFrom(args, flags, absFn, false)[i] == AbsArgsFrom(rest, flags, absFn, s.absNext)[0];
  }

  /** A token equal to a flag stays, and only the token after it is passed
      through abs, without being checked against the flags itself. */
  lemma BareFlag(flag: string, next: string, rest: seq<string>, flags: seq<string>, absFn: AbsFunc)
    requires FirstFlag(flag, flags).Some? && flags[FirstFlag(flag, flags).value] == flag
    ensures AbsArgsFrom([flag, next] + rest, flags, absFn, false)
         == [flag, Abs(next, absFn)] + AbsArgsFrom(rest, flags, absFn, false)
  {
    assert ([flag, next] + rest)[1..] == [next] + rest;
    assert ([next] + rest)[1..] == rest;
  }

  /** A token that no flag prefixes, and that does not follow a bare flag,
      is left as it is. */
  lemma NoFlag(arg: string, rest: seq<string>, flags: seq<string>, absFn: AbsFunc)
    requires forall k :: 0 <= k < |flags| ==> !HasPrefix(arg, flags[k])
    ensures AbsArgsFrom([arg] + rest, flags, absFn, false) == [arg] + AbsArgsFrom(rest, flags, absFn, false)
  {
    assert ([arg] + rest)[1..] == rest;
  }

  /** `f=value` becomes `f=` + abs(value) and `fvalue` becomes `f` +
      abs(value), where f is the first flag, in list order, that prefixes
      the token. */
  lemma FlagWithValue(arg: string, k: nat, rest: seq<string>, flags: seq<string>, absFn: AbsFunc)
    requires k < |flags| && HasPrefix(arg, flags[k]) && |arg| > |flags[k]|
    requires forall j :: 0 <= j < k ==> !HasPrefix(arg, flags[j])
    ensures var f := flags[k];
      AbsArgsFrom([arg] + rest, flags, absFn, false)
      == [if arg[|f|] == '=' then f + "=" + Abs(arg[|f| + 1..], absFn) else f + Abs(arg[|f|..], absFn)]
         + AbsArgsFrom(rest, flags, absFn, false)
  {
    assert ([arg] + rest)[1..] == rest;
    assert FirstFlag(arg, flags) == Some(k);
    assert arg[|flags[k]|..][1..] == arg[|flags[k]| + 1..];
  }

  /** The flag found by absArgs' inner scan is the one RewriteArg uses. */
  lemma FirstFlagFound(arg: string, flags: seq<string>, j: nat)
    requires j < |flags| && HasPrefix(arg, flags[j])
    requires forall k :: 0 <= k < j ==> !HasPrefix(arg, flags[k])
    ensures FirstFlag(arg, flags) == Some(j)
  {
  }

  /** The inner scan of absArgs over one token: the first flag that prefixes
      it decides the rewrite. */
  method RewriteToken(arg: string, flags: seq<string>, absFn: AbsFunc) returns (token: string, absNext: bool)
    ensures token == RewriteArg(arg, flags, absFn).token && absNext == RewriteArg(arg, flags, absFn).absNext
  {
    token, absNext := arg, false;
    var j := 0;
    while j < |flags|
      invariant j <= |flags|
      invariant forall k :: 0 <= k < j ==> !HasPrefix(arg, flags[k])
    {
      var f := flags[j];
      if !HasPrefix(arg, f) {
        j := j + 1;
        continue;
      }
      FirstFlagFound(arg, flags, j);
      var possibleValue := arg[|f|..];
      if |possibleValue| == 0 {
        absNext := true;
        return;
      }
      var separator := "";
      if possibleValue[0] == '=' {
        possibleValue := possibleValue[1..];
        separator := "=";
      }
      token := f + separator + Abs(possibleValue, absFn);
      return;
    }
  }

  /** absArgs: rewrites, in place, the path values that follow the flags in
      `flags`, either as the rest of the same token or as the next token. */
  method AbsArgs(args: array<string>, flags: seq<string>, absFn: AbsFunc)
    modifies args
    ensures args[..] == AbsArgsFrom(old(args[..]), flags, absFn, false)
  {
    ghost var orig := args[..];
    var absNext := false;
    for i := 0 to args.Length
      invariant forall j :: i <= j < args.Length ==> args[j] == orig[j]
      invariant args[..i] == ScanPrefix(orig, i, flags, absFn).tokens
      invariant absNext == ScanPrefix(orig, i, flags, absFn).absNext
    {
      ghost var done := args[..i];
      var arg := args[i];
      var token: string;
      if absNext {
        token, absNext := Abs(arg, absFn), false;
      } else {
        token, absNext := RewriteToken(arg, flags, absFn);
      }
      args[i] := token;
      assert args[..i + 1] == done + [token];
    }
    ScanThenRest(orig, |orig|, flags, absFn);
    assert orig[|orig|..] == [];
    assert args[..args.Length] == args[..];
  }

  // ---------------------------------------------------------------------
  // formatCommand's quoting helpers

  /** quoteIfNeeded: an argument with a space is quoted as a whole. */
  function QuoteIfNeeded(s: string, quote: QuoteFunc): (r: string)
    ensures ' ' !in s ==> r == s
    ensures ' ' in s ==> r == quote(s)
  {
    if IndexOf(s, ' ') < 0 then s else quote(s)
  }

  /** quoteEnvIfNeeded: in a `key=value` entry whose value has a space, only
      the value (after the first '=') is quoted. */
  function QuoteEnvIfNeeded(s: string, quote: QuoteFunc): (r: string)
    ensures '=' !in s ==> r == s
    ensures '=' in s && ' ' !in s[IndexOf(s, '=') + 1..] ==> r == s
    ensures '=' in s && ' ' in s[IndexOf(s, '=') + 1..] ==>
      r == s[..IndexOf(s, '=')] + "=" + quote(s[IndexOf(s, '=') + 1..])
  {
    var eq := IndexOf(s, '=');
    if eq < 0 then s
    else
      var key, value := s[..eq], s[eq + 1..];
      if IndexOf(value, ' ') < 0 then s
      else key + "=" + quote(value)
  }

  /** Quoting never changes an entry's key: the first '=' stays where it
      was, and everything up to it is unchanged. */
  lemma QuoteEnvKeepsKey(s: string, quote: QuoteFunc)
    requires '=' in s
    ensures var eq := IndexOf(s, '=');
      var r := QuoteEnvIfNeeded(s, quote);
      IndexOf(r, '=') == eq && r[..eq + 1] == s[..eq + 1]
  {
    var eq := IndexOf(s, '=');
    var key := s[..eq];
    assert s == key + "=" + s[eq + 1..];
    FirstEquals(key, s[eq + 1..]);
    FirstEquals(key, quote(s[eq + 1..]));
  }

  lemma FirstEquals(key: string, rest: string)
    requires '=' !in key
    ensures IndexOf(key + "=" + rest, '=') == |key|
    ensures (key + "=" + rest)[..|key| + 1] == key + "="
  {
    var t := key + "=" + rest;
    assert t[..|key|] == key;
    IndexOfUnique(t, '=', |key|);
  }
}
