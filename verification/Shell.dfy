/** The shell from typed line to typed line: each one is read, then run as a builtin, a simple
    command or a pipeline, and leaves environment, files and console to the next one. */
module Shell {
  import opened Bytes
  import opened ShellLexer
  import opened ShellStages
  import opened CommandLine
  import opened Builtins
  import opened Pipeline
  import opened Filters
  import opened LineEnds
  import opened Machines
  import opened PipelineRunner
  import opened RamFiles
  import opened StreamIo
  import opened StreamPrograms
  import AsciiText
  import Sed
  import ShellEnv

  datatype LineOutcome =
    | Ignored
    | ParseFailed(error: LexError)
    | ArgsTooLong
    | Builtin(cmd: seq<Byte>)
    | Ran(end: End)

  /** What one line leaves to the next. */
  datatype Session = Session(env: ShellEnv.Env, ram: Ram, console: seq<Byte>)

  function RunBuiltinCommand(s: Session, cmd: seq<Byte>, args: seq<Byte>): Session {
    s.(env := AfterBuiltin(s.env, cmd, args),
       console := if cmd == ENV then s.console + ShellEnv.EnvText(s.env, 0) else s.console)
  }

  function RunSimple(m: Machine, s: Session, cmd: seq<Byte>, args: seq<Byte>): (Session, LineOutcome) {
    if IsBuiltin(cmd) then (RunBuiltinCommand(s, cmd, args), Builtin(cmd))
    else
      var r := Exec(WorldOf(m, s.env), cmd, args, None, s.ram);
      (s.(ram := r.result.ram, console := EmitAll(Sink(false, [], s.console), r.result.writes).console),
       Ran(if r.status == U64_MAX then UnknownCommand else Finished))
  }

  function RunTokens(m: Machine, s: Session, ls: seq<Lexeme>): (Session, LineOutcome)
    requires ls != []
  {
    if !AllWords(ls) then
      var r := Dispatch(WorldOf(m, s.env), ls, State([], s.ram, s.console));
      (s.(ram := r.0.ram, console := r.0.console), Ran(r.1))
    else if |Args(Texts(ls[1..]))| > MAX_ARGS then (s, ArgsTooLong)
    else RunSimple(m, s, ls[0].text, Args(Texts(ls[1..])))
  }

  function RunLine(m: Machine, s: Session, line: seq<Byte>): (Session, LineOutcome) {
    match ReadCommand(s.env, line)
    case Nothing => (s, Ignored)
    case Failed(e) => (s, ParseFailed(e))
    case Tokens(ls) => RunTokens(m, s, ls)
  }

  method HasOperators(ts: seq<Token>) returns (hasOps: bool)
    ensures hasOps <==> exists k :: 0 <= k < |ts| && ts[k].kind != WordKind
  {
    hasOps := false;
    var i := 0;
    while i < |ts|
      invariant i <= |ts| && !hasOps && forall k | 0 <= k < i :: ts[k].kind == WordKind
    {
      if ts[i].kind != WordKind {
        hasOps := true;
        break;
      }
      i := i + 1;
    }
  }

  method DispatchSimple(m: Machine, env: ShellEnv.EnvTable, io: IoState, fs: FileSystem,
                        cmd: seq<Byte>, args: seq<Byte>)
    returns (r: LineOutcome)
    requires env.Valid() && io.Valid() && io.Quiet() && fs.Valid() && m.statics == fs.statics
    modifies env.vars, io, io.stdinBuf, io.stdoutBuf, fs.files
    ensures env.Valid() && io.Valid() && io.Quiet() && fs.Valid()
    ensures (Session(env.Bindings(), fs.Table(), io.console), r)
         == RunSimple(m, Session(old(env.Bindings()), old(fs.Table()), old(io.console)), cmd, args)
  {
    if IsBuiltin(cmd) {
      if cmd == ENV {
        var buf, len := env.BuildEnvStr();
        assert io.console + [] == io.console;
        io.Write(buf[..len]);
      }
      RunBuiltin(env, cmd, args);
      return Builtin(cmd);
    }
    var status, _ := ExecFromBinIo(m, env, io, fs, cmd, args, None, None);
    return Ran(if status == U64_MAX then UnknownCommand else Finished);
  }

  /** The second half of the shell's dispatch. */
  method DispatchTokens(m: Machine, env: ShellEnv.EnvTable, io: IoState, fs: FileSystem,
                        ts: seq<Token>, parsed: seq<Byte>)
    returns (r: LineOutcome)
    requires env.Valid() && io.Valid() && io.Quiet() && fs.Valid() && m.statics == fs.statics
    requires ts != [] && Sliced(ts, parsed)
    modifies env.vars, io, io.stdinBuf, io.stdoutBuf, fs.files
    ensures env.Valid() && io.Valid() && io.Quiet() && fs.Valid()
    ensures (Session(env.Bindings(), fs.Table(), io.console), r)
         == RunTokens(m, Session(old(env.Bindings()), old(fs.Table()), old(io.console)), DenoteAll(ts, parsed))
  {
    ghost var ls := DenoteAll(ts, parsed);
    assert forall k | 0 <= k < |ts| :: ls[k] == Denote(ts[k], parsed);
    var hasOps := HasOperators(ts);
    if hasOps {
      assert !AllWords(ls);
      var _, end := DispatchCompoundTokens(m, env, io, fs, ts, parsed);
      return Ran(end);
    }
    var argsBuf := new Byte[MAX_ARGS](_ => NUL);
    DenoteSlice(ts, parsed, 1, |ts|);
    assert ts[1..|ts|] == ts[1..] && ls[1..|ts|] == ls[1..];
    var argsLen := JoinWordTokens(ts[1..], parsed, argsBuf);
    if argsLen == None { return ArgsTooLong; }
    var cmd := parsed[ts[0].start..ts[0].start + ts[0].len];
    r := DispatchSimple(m, env, io, fs, cmd, argsBuf[..argsLen.value]);
  }

  /** The shell's dispatch of one line. */
  method DispatchLine(m: Machine, env: ShellEnv.EnvTable, io: IoState, fs: FileSystem, line: seq<Byte>)
    returns (r: LineOutcome)
    requires env.Valid() && io.Valid() && io.Quiet() && fs.Valid() && m.statics == fs.statics
    modifies env.vars, io, io.stdinBuf, io.stdoutBuf, fs.files
    ensures env.Valid() && io.Valid() && io.Quiet() && fs.Valid()
    ensures (Session(env.Bindings(), fs.Table(), io.console), r)
         == RunLine(m, Session(old(env.Bindings()), old(fs.Table()), old(io.console)), line)
  {
    var parsedStorage := new Byte[MAX_PARSED_LINE](_ => NUL);
    var tokens := new Token[MAX_TOKENS](_ => Token(WordKind, 0, 0));
    var count, command := ParseLine(env, line, parsedStorage, tokens);
    match command {
      case Nothing => return Ignored;
      case Failed(e) => return ParseFailed(e);
      case Tokens(_) => r := DispatchTokens(m, env, io, fs, tokens[..count], parsedStorage[..]);
    }
  }

  // Whole sessions.

  /** The shell stops after "exit" and when an index misses. */
  predicate Stops(r: LineOutcome) { r == Builtin(EXIT) || r == Ran(Crashed) }

  function RunSession(m: Machine, s: Session, lines: seq<seq<Byte>>): Session
    decreases |lines|
  {
    if lines == [] then s
    else
      var r := RunLine(m, s, lines[0]);
      if Stops(r.1) then r.0 else RunSession(m, r.0, lines[1..])
  }

  /** The session the shell starts with: CWD is "/" and there is no RAM file. */
  function Booted(console: seq<Byte>): Session {
    Session(ShellEnv.Started(), seq(MAX_RAM_FILES, _ => Free), console)
  }

  lemma SessionStep(m: Machine, s: Session, lines: seq<seq<Byte>>, i: nat)
    requires i < |lines|
    ensures var r := RunLine(m, s, lines[i]);
            RunSession(m, s, lines[i..]) == if Stops(r.1) then r.0 else RunSession(m, r.0, lines[i + 1..])
  {
    assert lines[i..][0] == lines[i] && lines[i..][1..] == lines[i + 1..];
  }

  /** The shell's main loop on the lines that are typed. */
  method RunShell(m: Machine, io: IoState, fs: FileSystem, lines: seq<seq<Byte>>) returns (env: ShellEnv.EnvTable)
    requires io.Valid() && io.Quiet() && fs.Valid() && m.statics == fs.statics
    modifies io, io.stdinBuf, io.stdoutBuf, fs.files
    ensures env.Valid() && io.Valid() && io.Quiet() && fs.Valid()
    ensures Session(env.Bindings(), fs.Table(), io.console)
         == RunSession(m, Session(ShellEnv.Started(), old(fs.Table()), old(io.console)), lines)
  {
    env := new ShellEnv.EnvTable();
    var _ := env.SetEnv(ShellEnv.CWD, [SLASH]);
    ghost var cur := Session(env.Bindings(), fs.Table(), io.console);
    ghost var all := RunSession(m, cur, lines);
    var i := 0;
    assert lines[0..] == lines;
    while i < |lines|
      invariant i <= |lines| && env.Valid() && io.Valid() && io.Quiet() && fs.Valid() && fresh(env.vars)
      invariant cur == Session(env.Bindings(), fs.Table(), io.console)
      invariant all == RunSession(m, cur, lines[i..])
    {
      SessionStep(m, cur, lines, i);
      var r := DispatchLine(m, env, io, fs, lines[i]);
      cur := Session(env.Bindings(), fs.Table(), io.console);
      if Stops(r) { return; }
      i := i + 1;
    }
    assert lines[i..] == [];
  }

  /** Unique variable names with CWD in front, clean values, and a file table in order. */
  ghost predicate GoodSession(s: Session) {
    ShellEnv.EnvInv(s.env) && CleanEnv(s.env) && GoodRam(s.ram)
  }

  lemma {:induction false} JoinClean(words: seq<seq<Byte>>)
    requires words != [] && forall k | 0 <= k < |words| :: Clean(words[k])
    ensures Clean(JoinWith(words, SPACE))
  {
    if |words| > 1 { JoinClean(words[1..]); }
  }

  lemma {:induction false} ArgsClean(words: seq<seq<Byte>>)
    requires forall k | 0 <= k < |words| :: Clean(words[k])
    ensures Clean(Args(words))
  {
    if words != [] {
      if words[0] == [] { ArgsClean(words[1..]); } else { JoinClean(words); }
    }
  }

  lemma BuiltinKeepsInv(s: Session, cmd: seq<Byte>, args: seq<Byte>)
    requires GoodSession(s) && Clean(args)
    ensures GoodSession(RunBuiltinCommand(s, cmd, args))
  {
    BuiltinKeepsClean(s.env, cmd, args);
    if AssignmentOf(s.env, cmd, args).Some? {
      var a := AssignmentOf(s.env, cmd, args).value;
      ShellEnv.SetKeepsInv(s.env, a.name, a.value);
    }
  }

  lemma TokensKeepInv(m: Machine, s: Session, ls: seq<Lexeme>)
    requires GoodSession(s) && ls != [] && CleanWords(ls)
    ensures GoodSession(RunTokens(m, s, ls).0)
  {
    MachineKeepsGood(m, s.env);
    if !AllWords(ls) {
      StagesKeepGood(WorldOf(m, s.env), SplitOn(ls, Pipe), true, State([], s.ram, s.console));
    } else {
      var words := Texts(ls[1..]);
      assert forall k | 0 <= k < |words| :: words[k] == TextOf(ls[k + 1]);
      ArgsClean(words);
      BuiltinKeepsInv(s, ls[0].text, Args(words));
    }
  }

  lemma LineKeepsInv(m: Machine, s: Session, line: seq<Byte>)
    requires GoodSession(s) && Clean(line)
    ensures GoodSession(RunLine(m, s, line).0)
  {
    if ReadCommand(s.env, line).Tokens? {
      CommandClean(s.env, line);
      TokensKeepInv(m, s, ReadCommand(s.env, line).ls);
    }
  }

  lemma BootedIsGood(console: seq<Byte>)
    ensures GoodSession(Booted(console))
  {
    ShellEnv.RunKeepsInv([]);
  }

  /** Over every session, whatever is typed and whatever the programs do: variable names stay
      unique with CWD in front, no value ends a line or a string, and no path is in the file
      table twice or with a NUL. */
  lemma {:induction false} SessionKeepsInv(m: Machine, s: Session, lines: seq<seq<Byte>>)
    requires GoodSession(s) && forall k | 0 <= k < |lines| :: Clean(lines[k])
    ensures GoodSession(RunSession(m, s, lines))
    decreases |lines|
  {
    if lines != [] {
      var r := RunLine(m, s, lines[0]);
      LineKeepsInv(m, s, lines[0]);
      if !Stops(r.1) { SessionKeepsInv(m, r.0, lines[1..]); }
    }
  }

  /** After any typed lines a child finds the shell's current CWD in its environment, even when
      the text of later variables is cut off. */
  lemma ChildSeesSessionCwd(m: Machine, console: seq<Byte>, lines: seq<seq<Byte>>)
    requires forall k | 0 <= k < |lines| :: Clean(lines[k])
    ensures var env := RunSession(m, Booted(console), lines).env;
            ShellEnv.CwdOfLines(SplitOn(ShellEnv.ChildText(env), NEWLINE)) == ShellEnv.CwdOf(env)
  {
    var env := RunSession(m, Booted(console), lines).env;
    BootedIsGood(console);
    SessionKeepsInv(m, Booted(console), lines);
    ShellEnv.CwdIsFirst(env);
    ShellEnv.ChildFindsCwd(env, []);
    assert ShellEnv.EnvText(env, 0) + [] == ShellEnv.EnvText(env, 0);
  }

  // What can be typed.

  /** A token list whose printed form the shell reads back. */
  predicate Typable(ls: seq<Lexeme>) {
    ls != [] && |ls| <= MAX_TOKENS && WordsRefFree(ls) && |Print(ls)| <= MAX_PARSED_LINE
  }

  /** Typing a printed list runs it. */
  lemma TypedLineRuns(m: Machine, s: Session, ls: seq<Lexeme>)
    requires Typable(ls)
    ensures RunLine(m, s, Print(ls)) == RunTokens(m, s, ls)
  {
    PrintedCommandReads(s.env, ls);
  }

  /** cat and tee, as long as the machine launches them. */
  predicate RunsFilter(m: Machine, filter: seq<Byte>) {
    (filter == CAT || filter == TEE) && m.launches(BIN_PREFIX + filter)
  }

  function StartOf(s: Session): State { State([], s.ram, s.console) }

  /** Two typed pipelines, one with "| cat" or "| tee" inside, have the same effect, provided
      the part before it, if it gets that far, has some output. */
  lemma TypedFilterInside(m: Machine, s: Session, a: seq<Lexeme>, b: seq<Lexeme>, filter: seq<Byte>)
    requires RunsFilter(m, filter) && |SplitOn(a, Pipe)| + |SplitOn(b, Pipe)| < MAX_PIPE_STAGES
    requires var r := Behind(WorldOf(m, s.env), a, StartOf(s)); r.1 == Finished ==> r.0.pipe != []
    requires Typable(a + [Pipe] + b) && Typable(a + [Pipe] + ([Word(filter)] + [Pipe] + b))
    ensures RunLine(m, s, Print(a + [Pipe] + ([Word(filter)] + [Pipe] + b))) == RunLine(m, s, Print(a + [Pipe] + b))
  {
    var short, long := a + [Pipe] + b, a + [Pipe] + ([Word(filter)] + [Pipe] + b);
    TypedLineRuns(m, s, short);
    TypedLineRuns(m, s, long);
    assert short[|a|] == Pipe && long[|a|] == Pipe;
    MachineHasFilters(m, s.env);
    InsertFilter(WorldOf(m, s.env), a, b, filter, StartOf(s));
  }

  /** The same environment and files, the same way to end, and the same console unless a
      program is missing. */
  predicate SameLineEffect(a: (Session, LineOutcome), b: (Session, LineOutcome)) {
    && a.0.env == b.0.env && a.0.ram == b.0.ram && a.1 == b.1
    && (a.1 != Ran(UnknownCommand) ==> a.0.console == b.0.console)
  }

  lemma {:induction false} WordsAreParts(ls: seq<Lexeme>)
    requires AllWords(ls)
    ensures PartsOf(ls) == Some(Parts(Texts(ls), [], []))
  {
    if ls == [] {
      assert Texts(ls) == [];
    } else {
      var rest := Texts(ls[1..]);
      WordsAreParts(ls[1..]);
      assert Texts(ls) == [ls[0].text] + rest;
      assert Parts([ls[0].text], [], []).Plus(Parts(rest, [], [])) == Parts([ls[0].text] + rest, [], []);
    }
  }

  /** A line of words that a stage can hold. */
  predicate SimpleCommand(ls: seq<Lexeme>) {
    && ls != [] && AllWords(ls) && !IsBuiltin(ls[0].text)
    && |ls| <= MAX_STAGE_TOKENS && |Args(Texts(ls[1..]))| <= MAX_ARGS
  }

  lemma SimpleParse(ls: seq<Lexeme>, first: bool, last: bool)
    requires SimpleCommand(ls)
    ensures ParseStage(ls, first, last) == Some(Stage(ls[0].text, Args(Texts(ls[1..])), None, None))
  {
    WordsAreParts(ls);
    assert Texts(ls)[1..] == Texts(ls[1..]);
  }

  /** A simple command that is no builtin does what it does as a pipeline of one stage. */
  lemma SimpleIsOneStage(m: Machine, s: Session, ls: seq<Lexeme>)
    requires SimpleCommand(ls)
    ensures var r := Dispatch(WorldOf(m, s.env), ls, StartOf(s));
            RunTokens(m, s, ls) == (s.(ram := r.0.ram, console := r.0.console), Ran(r.1))
  {
    SimpleParse(ls, true, true);
    var stage := Stage(ls[0].text, Args(Texts(ls[1..])), None, None);
    SplitWhole(ls, Pipe);
    OneStage(WorldOf(m, s.env), ls, true, StartOf(s));
    StageRuns(WorldOf(m, s.env), ls, true, true, StartOf(s), stage);
    assert SplitVerdict([ls]) == Ok(1);
  }

  /** A pipeline, or a simple command that a stage can hold. */
  predicate RunsAsPipeline(ls: seq<Lexeme>) { ls != [] && (AllWords(ls) ==> SimpleCommand(ls)) }

  lemma TypedAsPipeline(m: Machine, s: Session, ls: seq<Lexeme>)
    requires Typable(ls) && RunsAsPipeline(ls)
    ensures var r := Dispatch(WorldOf(m, s.env), ls, StartOf(s));
            RunLine(m, s, Print(ls)) == (s.(ram := r.0.ram, console := r.0.console), Ran(r.1))
  {
    TypedLineRuns(m, s, ls);
    if AllWords(ls) { SimpleIsOneStage(m, s, ls); }
  }

  /** Typed behind a simple command, or a pipeline that ends without an output file, "| cat"
      and "| tee" change nothing exactly when the writes of the last program, if it runs, pass
      a pipe whole; they have to be some. */
  lemma TypedFilterAtEnd(m: Machine, s: Session, ls: seq<Lexeme>, filter: seq<Byte>)
    requires RunsFilter(m, filter) && |SplitOn(ls, Pipe)| < MAX_PIPE_STAGES
    requires RedirectOut !in LastStage(ls) && RunsAsPipeline(ls)
    requires var r := Behind(WorldOf(m, s.env), ls, StartOf(s)); r.1 == Finished ==> r.0.pipe != []
    requires Typable(ls) && Typable(ls + [Pipe] + [Word(filter)])
    ensures SameLineEffect(RunLine(m, s, Print(ls)), RunLine(m, s, Print(ls + [Pipe] + [Word(filter)])))
        <==> (Behind(WorldOf(m, s.env), ls, StartOf(s)).1 == Finished ==>
                PassesWhole(LastWrites(WorldOf(m, s.env), ls, StartOf(s))))
  {
    var long := ls + [Pipe] + [Word(filter)];
    assert long[|ls|] == Pipe;
    TypedAsPipeline(m, s, ls);
    TypedAsPipeline(m, s, long);
    MachineHasFilters(m, s.env);
    AppendFilter(WorldOf(m, s.env), ls, filter, StartOf(s));
  }

  /** Typing "> f" or "| cat > f" behind anything leaves the same files and console. */
  lemma TypedRedirectThroughFilter(m: Machine, s: Session, ls: seq<Lexeme>, file: seq<Byte>, filter: seq<Byte>)
    requires RunsFilter(m, filter) && |SplitOn(ls, Pipe)| < MAX_PIPE_STAGES && LastStage(ls) != []
    requires var r := Behind(WorldOf(m, s.env), ls, StartOf(s)); r.1 == Finished ==> r.0.pipe != []
    requires Typable(ls + Into(file)) && Typable(ls + [Pipe] + [Word(filter)] + Into(file))
    ensures SameLineEffect(RunLine(m, s, Print(ls + Into(file))),
                           RunLine(m, s, Print(ls + [Pipe] + [Word(filter)] + Into(file))))
  {
    var short, long := ls + Into(file), ls + [Pipe] + [Word(filter)] + Into(file);
    assert short[|ls|] == RedirectOut && long[|ls|] == Pipe;
    TypedAsPipeline(m, s, short);
    TypedAsPipeline(m, s, long);
    MachineHasFilters(m, s.env);
    RedirectThroughFilter(WorldOf(m, s.env), ls, file, filter, StartOf(s));
  }

  // Lines with which the shell falls short.

  /** A built-in or RAM file of at least 4096 bytes, of which the first is no line end and the
      4096th is none. */
  predicate LongFile(m: Machine, s: Session, path: seq<Byte>) {
    var data := ReadFile(m.statics, s.ram, path);
    data.Some? && |data.value| >= MAX_IO && data.value[0] != NEWLINE && data.value[MAX_IO - 1] != NEWLINE
  }

  function CatWords(path: seq<Byte>): seq<Lexeme> { [Word(CAT), Word(path)] }

  lemma CatWrites(m: Machine, s: Session, path: seq<Byte>)
    requires m.launches(BIN_PREFIX + CAT) && LongFile(m, s, path)
    requires AsciiText.IsField(path) && IsAbsolute(path) && NUL !in path && |path| < LIB_PATH
    ensures SimpleCommand(CatWords(path)) && Args(Texts(CatWords(path)[1..])) == path
    ensures Exec(WorldOf(m, s.env), CAT, path, None, s.ram)
         == ExecResult(0, RunResult([ReadFile(m.statics, s.ram, path).value[..MAX_IO], [NEWLINE]], s.ram))
  {
    ProgramsArePlain();
    OneArg(path);
    assert CatWords(path)[1..] == [Word(path)];
    assert NUL !in BIN_PREFIX + CAT;
    CStringWhole(BIN_PREFIX + CAT);
    CStringWhole(path);
    FieldStays(path);
    var call := Call(BIN_PREFIX + CAT, path, ShellEnv.ChildText(s.env), None);
    assert AppFor(call) == Some(CatFileApp(call.env, path));
    CatShows(ShellEnv.CwdOfLines(SplitOn(call.env, NEWLINE)), m, s, path);
    assert BinPath(CAT) == Some(BIN_PREFIX + CAT);
    assert Exec(WorldOf(m, s.env), CAT, path, None, s.ram) == Program(m, call, s.ram);
  }

  lemma CatShows(cwd: seq<Byte>, m: Machine, s: Session, path: seq<Byte>)
    requires LongFile(m, s, path) && IsAbsolute(path) && NUL !in path && |path| < LIB_PATH
    ensures CatFileRun(cwd, path, m.statics, s.ram)
         == RunResult([ReadFile(m.statics, s.ram, path).value[..MAX_IO], [NEWLINE]], s.ram)
  {
    CStringWhole(path);
    var data := ReadFile(m.statics, s.ram, path).value;
    assert Take(data, MAX_IO) == data[..MAX_IO];
  }

  lemma FieldStays(path: seq<Byte>)
    requires AsciiText.IsField(path)
    ensures AsciiText.Trim(path) == path
  {
    TrimKeeps(path);
  }

  /** "cat f" shows a long file and then a line end; "cat f | cat" shows the line end first. */
  lemma CatThroughCatReorders(m: Machine, s: Session, path: seq<Byte>)
    requires m.launches(BIN_PREFIX + CAT) && LongFile(m, s, path)
    requires AsciiText.IsField(path) && IsAbsolute(path) && NUL !in path && |path| < LIB_PATH
    requires Typable(CatWords(path)) && Typable(CatWords(path) + [Pipe] + [Word(CAT)])
    ensures var data := ReadFile(m.statics, s.ram, path).value[..MAX_IO];
            var plain := RunLine(m, s, Print(CatWords(path)));
            var piped := RunLine(m, s, Print(CatWords(path) + [Pipe] + [Word(CAT)]));
            && plain == (s.(console := s.console + (data + [NEWLINE])), Ran(Finished))
            && piped.1 == Ran(Finished) && piped.0.console == s.console + [NEWLINE] + data
            && !SameLineEffect(plain, piped)
  {
    var ls, w, st := CatWords(path), WorldOf(m, s.env), StartOf(s);
    var data := ReadFile(m.statics, s.ram, path).value[..MAX_IO];
    CatWrites(m, s, path);
    CatLineWrites(m, s, path);
    MachineHasFilters(m, s.env);
    LineEndIsEarly(w, ls, CAT, st, data);
    assert (ls + [Pipe] + [Word(CAT)])[2] == Pipe;
    TypedAsPipeline(m, s, ls);
    TypedAsPipeline(m, s, ls + [Pipe] + [Word(CAT)]);
  }

  lemma CatLineWrites(m: Machine, s: Session, path: seq<Byte>)
    requires m.launches(BIN_PREFIX + CAT) && LongFile(m, s, path)
    requires AsciiText.IsField(path) && IsAbsolute(path) && NUL !in path && |path| < LIB_PATH
    ensures var ls, w, st := CatWords(path), WorldOf(m, s.env), StartOf(s);
            var data := ReadFile(m.statics, s.ram, path).value[..MAX_IO];
            && SplitOn(ls, Pipe) == [ls] && SplitVerdict([ls]).Ok? && LastStage(ls) == ls && InnerStages(ls) == []
            && BeforeLast(w, ls, st) == (st, Finished) && Behind(w, ls, st).1 == Finished
            && LastWrites(w, ls, st) == [data, [NEWLINE]] && Dispatch(w, ls, st).0.ram == s.ram
  {
    var ls, w, st := CatWords(path), WorldOf(m, s.env), StartOf(s);
    var stage := Stage(CAT, path, None, None);
    CatWrites(m, s, path);
    SimpleParse(ls, true, false);
    SimpleParse(ls, true, true);
    SplitWhole(ls, Pipe);
    InnerOne(w, ls, true, st);
    OneStage(w, ls, true, st);
    StageRuns(w, ls, true, false, st, stage);
    StageRuns(w, ls, true, true, st, stage);
  }

  /** Typing "export CWD=" and then a command with a relative input file ends in the missed
      index. */
  lemma EmptyCwdCrashes(m: Machine, s: Session, cmd: seq<Byte>, path: seq<Byte>)
    requires ShellEnv.EnvInv(s.env)
    requires !IsAbsolute(path) && !IsBuiltin(cmd) && Typable([Word(cmd), RedirectIn, Word(path)])
    ensures var exported := RunLine(m, s, Print([Word(EXPORT), Word(ShellEnv.CWD + [EQUALS])]));
            && exported == (s.(env := ShellEnv.Set(s.env, ShellEnv.CWD, [])), Builtin(EXPORT))
            && RunLine(m, exported.0, Print([Word(cmd), RedirectIn, Word(path)])) == (exported.0, Ran(Crashed))
  {
    ExportNothing(m, s);
    var empty := s.(env := ShellEnv.Set(s.env, ShellEnv.CWD, []));
    var ls := [Word(cmd), RedirectIn, Word(path)];
    ShellEnv.CwdIsFirst(s.env);
    ShellEnv.GetAfterSet(s.env, ShellEnv.CWD, [], ShellEnv.CWD);
    TypedLineRuns(m, empty, ls);
    assert ls[1] == RedirectIn;
    InputCrashes(WorldOf(m, empty.env), cmd, path, StartOf(empty));
  }

  lemma ExportNothing(m: Machine, s: Session)
    ensures RunLine(m, s, Print([Word(EXPORT), Word(ShellEnv.CWD + [EQUALS])]))
         == (s.(env := ShellEnv.Set(s.env, ShellEnv.CWD, [])), Builtin(EXPORT))
  {
    var arg := ShellEnv.CWD + [EQUALS];
    var ls := [Word(EXPORT), Word(arg)];
    assert |EXPORT| == 6 && |arg| == 4;
    ShortTypable(EXPORT, arg);
    TypedLineRuns(m, s, ls);
    assert ls[1..] == [Word(arg)];
    OneArg(arg);
    ExportEmpty(s.env);
    assert EXPORT != ENV;
  }

  lemma OneArg(arg: seq<Byte>)
    ensures Texts([Word(arg)]) == [arg] && Args([arg]) == arg
  {
    ArgsAppend([], arg);
    assert [] + [arg] == [arg];
  }

  lemma ExportEmpty(env: ShellEnv.Env)
    ensures AfterBuiltin(env, EXPORT, ShellEnv.CWD + [EQUALS]) == ShellEnv.Set(env, ShellEnv.CWD, [])
  {
    var arg := ShellEnv.CWD + [EQUALS];
    FirstIs(arg, EQUALS, 3);
    assert arg[..3] == ShellEnv.CWD && arg[4..] == [] && arg[3] == EQUALS;
    TrimKeeps(ShellEnv.CWD);
    assert AsciiText.Trim([]) == [];
    assert |EXPORT| == 6 && |CD| == 2;
  }

  lemma {:induction false} QuotedLength(text: seq<Byte>)
    ensures |Quoted(text)| <= 4 * |text|
  {
    if text != [] { QuotedLength(text[1..]); }
  }

  lemma ShortTypable(a: seq<Byte>, b: seq<Byte>)
    requires |a| + |b| <= 100 && DOLLAR !in a && DOLLAR !in b
    ensures Typable([Word(a), Word(b)])
  {
    var ls := [Word(a), Word(b)];
    assert ls[1..] == [Word(b)];
    QuotedLength(a);
    QuotedLength(b);
    assert Print(ls) == PrintOne(Word(a)) + [SPACE] + PrintOne(Word(b));
  }

  lemma InputCrashes(w: World, cmd: seq<Byte>, path: seq<Byte>, st: State)
    requires w.cwd == [] && !IsAbsolute(path) && !IsBuiltin(cmd) && st.pipe == []
    ensures Dispatch(w, [Word(cmd), RedirectIn, Word(path)], st) == (st, Crashed)
  {
    var ls := [Word(cmd), RedirectIn, Word(path)];
    SplitWhole(ls, Pipe);
    InputParts(cmd, path);
    assert [ls][1..] == [];
  }

  lemma InputParts(cmd: seq<Byte>, path: seq<Byte>)
    ensures ParseStage([Word(cmd), RedirectIn, Word(path)], true, true) == Some(Stage(cmd, [], Some(path), None))
  {
    var ls := [Word(cmd), RedirectIn, Word(path)];
    PlusNone(Parts([], [path], []));
    assert ls[1..] == [RedirectIn, Word(path)] && ls[1..][2..] == [];
    assert PartsOf(ls[1..]) == Some(Parts([], [path], []));
    assert Parts([cmd], [], []).Plus(Parts([], [path], [])) == Parts([cmd], [path], []);
    assert [cmd][1..] == [] && Args([]) == [];
  }
}
