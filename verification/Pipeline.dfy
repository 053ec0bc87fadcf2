/** What a pipeline does, on values: its stages run one after the other, each on the first
    4096 bytes of what the one before it wrote. */
module Pipeline {
  import opened Bytes
  import opened ShellLexer
  import opened ShellStages
  import opened RamFiles
  import opened StreamIo
  import opened StreamPrograms

  const MAX_BIN_PATH: nat := 63
  const MAX_FILE_PATH: nat := 128
  const BIN_PREFIX := Str("/bin/")
  /** What a pipeline depends on: the built-in files, the working directory, and the meaning
      of every program as a function of path, arguments, redirected input and RAM files. */
  datatype World = World(statics: seq<FileEntry>, cwd: seq<Byte>,
                         program: (seq<Byte>, seq<Byte>, Option<seq<Byte>>, Ram) -> ExecResult)

  datatype State = State(pipe: seq<Byte>, ram: Ram, console: seq<Byte>)

  datatype End = Finished | SplitFailed(error: StageError) | BadStage | BuiltinStage | PathTooLong | CannotRead
               | UnknownCommand | CannotWrite | Crashed

  // Paths.

  /** The shell's path of a redirection file. Crash: the element before the first one of an
      empty working directory is asked for. */
  datatype PathResult = Resolved(path: seq<Byte>) | TooLong | Crash

  function Directory(cwd: seq<Byte>): seq<Byte>
    requires cwd != []
  {
    if cwd[|cwd| - 1] == SLASH then cwd else cwd + [SLASH]
  }

  function ResolvePath(cwd: seq<Byte>, path: seq<Byte>): PathResult {
    if IsAbsolute(path) then
      if |path| > MAX_FILE_PATH then TooLong else Resolved(path)
    else if cwd != [SLASH] && |cwd| + 1 > MAX_FILE_PATH then TooLong
    else if cwd == [] then Crash
    else
      if |Directory(cwd)| + |path| > MAX_FILE_PATH then TooLong else Resolved(Directory(cwd) + path)
  }

  /** Where a file name leads: an absolute one to itself, a relative one into the working
      directory. */
  function FullPath(cwd: seq<Byte>, file: seq<Byte>): seq<Byte> {
    if [SLASH] <= file then file
    else if |cwd| > 0 && cwd[|cwd| - 1] == SLASH then cwd + file
    else cwd + [SLASH] + file
  }

  /** A name is resolved to its full path exactly when that has at most 128 bytes; a relative
      one under an empty working directory crashes. */
  lemma ResolvePathMeans(cwd: seq<Byte>, file: seq<Byte>)
    ensures ResolvePath(cwd, file).Resolved? ==> ResolvePath(cwd, file).path == FullPath(cwd, file)
    ensures ResolvePath(cwd, file).Crash? <==> cwd == [] && !([SLASH] <= file)
    ensures ResolvePath(cwd, file).Resolved?
        <==> |FullPath(cwd, file)| <= 128 && (cwd != [] || [SLASH] <= file)
             && ([SLASH] <= file || cwd == [SLASH] || |cwd| < 128)
    ensures IsAbsolute(cwd) || IsAbsolute(file) ==> IsAbsolute(FullPath(cwd, file))
  {
  }

  function BinPath(cmd: seq<Byte>): Option<seq<Byte>> {
    if IsAbsolute(cmd) then Some(cmd)
    else if |BIN_PREFIX| + |cmd| > MAX_BIN_PATH then None
    else Some(BIN_PREFIX + cmd)
  }

  predicate IsBuiltin(cmd: seq<Byte>) {
    cmd in {Str("help"), Str("clear"), Str("exit"), Str("cd"), Str("env"), Str("export")}
  }

  // One exec call.

  /** The library and the kernel in between: over-long paths and arguments fail, empty input counts as no
      redirected input, and no more than 4096 bytes of it are staged. */
  function Exec(w: World, cmd: seq<Byte>, args: seq<Byte>, stdin: Option<seq<Byte>>, ram: Ram): ExecResult {
    match BinPath(cmd)
    case None => ExecResult(U64_MAX, RunResult([], ram))
    case Some(path) =>
      if |path| > MAX_BIN_PATH || |args| > MAX_ARGS then ExecResult(U64_MAX, RunResult([], ram))
      else w.program(CString(path), CString(args), Redirection(stdin), ram)
  }

  function Redirection(stdin: Option<seq<Byte>>): Option<seq<Byte>> {
    if stdin.None? || stdin.value == [] then None else Some(Take(stdin.value, MAX_IO))
  }

  // One stage, and all of them.

  /** The input a stage starts with. */
  datatype Input = Input(stdin: Option<seq<Byte>>, pipe: seq<Byte>) | NoInput(end: End)

  function StageInput(w: World, stage: Stage, first: bool, st: State): Input {
    if !first then Input(Some(st.pipe), st.pipe)
    else if stage.inFile.None? then Input(None, st.pipe)
    else
      match ResolvePath(w.cwd, stage.inFile.value)
      case TooLong => NoInput(PathTooLong)
      case Crash => NoInput(Crashed)
      case Resolved(path) =>
        var data := ReadFile(w.statics, st.ram, CString(path));
        if |path| >= LIB_PATH || data.None? then NoInput(CannotRead)
        else var got := Take(data.value, MAX_IO); Input(Some(got), got)
  }

  /** The output file of the last stage. */
  function StageOutput(w: World, file: seq<Byte>, data: seq<Byte>, st: State): (State, End) {
    match ResolvePath(w.cwd, file)
    case TooLong => (st, PathTooLong)
    case Crash => (st, Crashed)
    case Resolved(path) =>
      if WriteAccepted(st.ram, path) then (st.(ram := WriteFile(st.ram, CString(path), data)), Finished)
      else (st, CannotWrite)
  }

  function RunStage(w: World, tokens: seq<Lexeme>, first: bool, last: bool, st: State): (State, End) {
    match ParseStage(tokens, first, last)
    case None => (st, BadStage)
    case Some(stage) =>
      if IsBuiltin(stage.cmd) then (st, BuiltinStage)
      else
        match StageInput(w, stage, first, st)
        case NoInput(end) => (st, end)
        case Input(stdin, pipe) => RunProgram(w, stage, last, stdin, st.(pipe := pipe))
  }

  /** The exec call of a stage and what becomes of its output: into the pipe, into the output
      file, or already on the console. */
  function RunProgram(w: World, stage: Stage, last: bool, stdin: Option<seq<Byte>>, st: State): (State, End) {
    var r := Exec(w, stage.cmd, stage.args, stdin, st.ram);
    var capture := !last || stage.outFile.Some?;
    var sink := EmitAll(Sink(capture, [], st.console), r.result.writes);
    var after := State(st.pipe, r.result.ram, sink.console);
    if r.status == U64_MAX then (after, UnknownCommand)
    else if !last then (after.(pipe := sink.captured), Finished)
    else if stage.outFile.Some? then StageOutput(w, stage.outFile.value, sink.captured, after)
    else (after, Finished)
  }

  /** The stages in order; the first one that does not finish ends the pipeline, with the
      effects of the stages before it. */
  function RunStages(w: World, pieces: seq<seq<Lexeme>>, first: bool, st: State): (State, End) {
    if pieces == [] then (st, Finished)
    else
      var r := RunStage(w, pieces[0], first, |pieces| == 1, st);
      if r.1 == Finished then RunStages(w, pieces[1..], false, r.0) else r
  }

  /** Stages that are all followed by another one. */
  function RunInner(w: World, pieces: seq<seq<Lexeme>>, first: bool, st: State): (State, End) {
    if pieces == [] then (st, Finished)
    else
      var r := RunStage(w, pieces[0], first, false, st);
      if r.1 == Finished then RunInner(w, pieces[1..], false, r.0) else r
  }

  function Dispatch(w: World, ls: seq<Lexeme>, st: State): (State, End) {
    match SplitVerdict(SplitOn(ls, Pipe))
    case Err(e) => (st, SplitFailed(e))
    case Ok(_) => RunStages(w, SplitOn(ls, Pipe), true, st.(pipe := []))
  }

  lemma {:induction false} RunConcat(w: World, a: seq<seq<Lexeme>>, b: seq<seq<Lexeme>>, first: bool, st: State)
    requires b != []
    ensures RunStages(w, a + b, first, st)
         == var r := RunInner(w, a, first, st);
            if r.1 == Finished then RunStages(w, b, first && a == [], r.0) else r
    decreases |a|
  {
    if a == [] {
      assert a + b == b;
    } else {
      assert (a + b)[1..] == a[1..] + b;
      var r := RunStage(w, a[0], first, false, st);
      if r.1 == Finished { RunConcat(w, a[1..], b, false, r.0); }
    }
  }

  /** Stages that would hand the state on as they found it can be put in between any two
      stages: the pipeline does the same with and without them. */
  lemma InsertTransparent(w: World, a: seq<seq<Lexeme>>, mid: seq<seq<Lexeme>>, b: seq<seq<Lexeme>>, st: State)
    requires a != [] && b != []
    requires var r := RunInner(w, a, true, st);
             r.1 == Finished ==> RunInner(w, mid, false, r.0) == (r.0, Finished)
    ensures RunStages(w, a + mid + b, true, st) == RunStages(w, a + b, true, st)
  {
    var r := RunInner(w, a, true, st);
    ConcatAssoc(a, mid, b);
    RunConcat(w, a, mid + b, true, st);
    RunConcat(w, a, b, true, st);
    if r.1 == Finished { RunConcat(w, mid, b, false, r.0); }
  }

  // Pipelines keep the file table in order.

  ghost predicate KeepsGood(w: World) {
    forall path, args, stdin, ram | GoodRam(ram) :: GoodRam(w.program(path, args, stdin, ram).result.ram)
  }

  lemma StageKeepsGood(w: World, tokens: seq<Lexeme>, first: bool, last: bool, st: State)
    requires KeepsGood(w) && GoodRam(st.ram)
    ensures GoodRam(RunStage(w, tokens, first, last, st).0.ram)
  {
    if ParseStage(tokens, first, last).Some? {
      var stage := ParseStage(tokens, first, last).value;
      var input := StageInput(w, stage, first, st);
      if !IsBuiltin(stage.cmd) && input.Input? {
        ProgramKeepsGood(w, stage, last, input.stdin, st.(pipe := input.pipe));
      }
    }
  }

  lemma ProgramKeepsGood(w: World, stage: Stage, last: bool, stdin: Option<seq<Byte>>, st: State)
    requires KeepsGood(w) && GoodRam(st.ram)
    ensures GoodRam(RunProgram(w, stage, last, stdin, st).0.ram)
  {
    var r := Exec(w, stage.cmd, stage.args, stdin, st.ram);
    assert GoodRam(r.result.ram);
    if last && stage.outFile.Some? && ResolvePath(w.cwd, stage.outFile.value).Resolved? {
      var path := ResolvePath(w.cwd, stage.outFile.value).path;
      var capture := EmitAll(Sink(true, [], st.console), r.result.writes).captured;
      WriteKeepsGood(r.result.ram, path, capture);
    }
  }

  lemma {:induction false} StagesKeepGood(w: World, pieces: seq<seq<Lexeme>>, first: bool, st: State)
    requires KeepsGood(w) && GoodRam(st.ram)
    ensures GoodRam(RunStages(w, pieces, first, st).0.ram)
    decreases |pieces|
  {
    if pieces != [] {
      StageKeepsGood(w, pieces[0], first, |pieces| == 1, st);
      var r := RunStage(w, pieces[0], first, |pieces| == 1, st);
      if r.1 == Finished { StagesKeepGood(w, pieces[1..], false, r.0); }
    }
  }
}
