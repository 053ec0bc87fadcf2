/** The stream programs cat, tee and sed, run on the redirected buffers of one exec call. */
module StreamPrograms {
  import opened Bytes
  import opened StreamIo
  import opened RamFiles
  import AsciiText
  import Sed
  import ShellEnv

  const MAX_TEE_FILES: nat := 16
  const LIB_PATH: nat := 128

  // What the programs compute, on values.

  /** The write calls of a program, in order, and the RAM files it leaves. */
  datatype RunResult = RunResult(writes: seq<seq<Byte>>, ram: Ram)

  const TEE_TOO_MANY := Str("tee: too many output files\n")
  const TEE_CANNOT := Str("tee: cannot write ")
  const LINE_END: seq<Byte> := [NEWLINE]

  /** Whether the library and the kernel accept a file write. */
  predicate WriteAccepted(ram: Ram, path: seq<Byte>) {
    |path| < LIB_PATH && CanWrite(ram, CString(path))
  }

  /** The file loop of tee: a refused write is reported on the output. */
  function TeeFiles(files: seq<seq<Byte>>, stream: seq<Byte>, ram: Ram): RunResult {
    if files == [] then RunResult([], ram)
    else if WriteAccepted(ram, files[0]) then
      TeeFiles(files[1..], stream, WriteFile(ram, CString(files[0]), stream))
    else
      var rest := TeeFiles(files[1..], stream, ram);
      RunResult([TEE_CANNOT, files[0], LINE_END] + rest.writes, rest.ram)
  }

  function TeeRun(args: seq<Byte>, stdin: seq<Byte>, ram: Ram): RunResult {
    var files := AsciiText.Fields(args);
    if |files| > MAX_TEE_FILES then RunResult([TEE_TOO_MANY], ram)
    else
      var r := TeeFiles(files, Take(stdin, MAX_IO), ram);
      RunResult(Chunks(stdin, CHUNK) + r.writes, r.ram)
  }

  function CatRun(stdin: seq<Byte>, ram: Ram): RunResult { RunResult(Chunks(stdin, CHUNK), ram) }

  function Substituted(script: Sed.Script, s: seq<Byte>): seq<Byte> {
    Take(Sed.Replace(s, script.pattern, script.replacement, script.global), MAX_IO)
  }

  function SedWrites(script: Sed.Script, chunks: seq<seq<Byte>>): seq<seq<Byte>> {
    if chunks == [] then [] else [Substituted(script, chunks[0])] + SedWrites(script, chunks[1..])
  }

  function SedRun(script: Sed.Script, stdin: seq<Byte>, ram: Ram): RunResult {
    RunResult(SedWrites(script, Chunks(stdin, MAX_IO)), ram)
  }

  /** cat without arguments. */
  method Cat(io: IoState)
    requires io.Valid() && io.Redirected()
    modifies io`stdinPos, io`stdoutLen, io`console, io.stdoutBuf
    ensures io.Valid() && io.Redirected() && io.Pending() == []
    ensures io.Out() == EmitAll(old(io.Out()), Chunks(old(io.Pending()), CHUNK))
  {
    var buf := new Byte[CHUNK](_ => NUL);
    ghost var sink, all := io.Out(), Chunks(io.Pending(), CHUNK);
    ghost var done: seq<seq<Byte>> := [];
    while true
      invariant io.Valid() && io.Redirected() && fresh(buf)
      invariant all == done + Chunks(io.Pending(), CHUNK)
      invariant io.Out() == EmitAll(sink, done)
      decreases |io.Pending()|
    {
      ghost var pending := io.Pending();
      var n := io.Read(buf);
      if n == 0 { break; }
      io.Write(buf[..n]);
      EmitAllAppend(sink, done, [buf[..n]]);
      ConcatAssoc(done, [buf[..n]], Chunks(io.Pending(), CHUNK));
      done := done + [buf[..n]];
    }
    assert done + [] == done;
  }

  /** The chunk loop of tee: everything is passed on, the first 4096 bytes are kept. */
  method TeeStream(io: IoState, stream: array<Byte>) returns (streamLen: nat)
    requires io.Valid() && io.Redirected()
    requires stream.Length == MAX_IO && stream != io.stdinBuf && stream != io.stdoutBuf
    modifies io`stdinPos, io`stdoutLen, io`console, io.stdoutBuf, stream
    ensures io.Valid() && io.Redirected() && io.Pending() == []
    ensures io.Out() == EmitAll(old(io.Out()), Chunks(old(io.Pending()), CHUNK))
    ensures streamLen <= MAX_IO && stream[..streamLen] == Take(old(io.Pending()), MAX_IO)
  {
    var chunk := new Byte[CHUNK](_ => NUL);
    ghost var sink, input := io.Out(), io.Pending();
    ghost var done: seq<seq<Byte>>, passed: seq<Byte> := [], [];
    streamLen := 0;
    while true
      invariant io.Valid() && io.Redirected() && fresh(chunk)
      invariant Chunks(input, CHUNK) == done + Chunks(io.Pending(), CHUNK)
      invariant io.Out() == EmitAll(sink, done)
      invariant input == passed + io.Pending() && Holds(stream[..], streamLen, passed)
      decreases |io.Pending()|
    {
      ghost var pending := io.Pending();
      var n := io.Read(chunk);
      if n == 0 { break; }
      ghost var piece := chunk[..n];
      io.Write(chunk[..n]);
      EmitMore(sink, done, piece, Chunks(io.Pending(), CHUNK));
      done := done + [piece];
      streamLen := KeepChunk(stream, streamLen, chunk[..n], passed);
      assert piece + io.Pending() == pending;
      ConcatAssoc(passed, piece, io.Pending());
      passed := passed + piece;
    }
    assert done + [] == done && passed + [] == passed;
  }

  method KeepChunk(stream: array<Byte>, at: nat, chunk: seq<Byte>, ghost passed: seq<Byte>) returns (streamLen: nat)
    requires Holds(stream[..], at, passed)
    modifies stream
    ensures Holds(stream[..], streamLen, passed + chunk)
  {
    streamLen := at;
    if streamLen < stream.Length {
      var copyLen := Min(|chunk|, stream.Length - streamLen);
      CopyInto(stream, streamLen, chunk[..copyLen]);
      streamLen := streamLen + copyLen;
      assert stream[..streamLen] == passed + chunk[..copyLen];
    } else {
      FullHolds(stream[..], at, passed, chunk);
    }
  }

  /** The library's file write: paths of 128 bytes and more are refused before the call. */
  method LibWriteFile(fs: FileSystem, path: seq<Byte>, data: seq<Byte>) returns (ok: bool)
    requires fs.Valid()
    modifies fs.files
    ensures fs.Valid() && ok == WriteAccepted(old(fs.Table()), path)
    ensures fs.Table() == if ok then WriteFile(old(fs.Table()), CString(path), data) else old(fs.Table())
  {
    if |path| >= LIB_PATH { return false; }
    ok := fs.WriteFileData(CString(path), data);
  }

  method TeeWriteFiles(io: IoState, fs: FileSystem, files: seq<seq<Byte>>, stream: seq<Byte>)
    requires io.Valid() && fs.Valid()
    modifies io`stdoutLen, io`console, io.stdoutBuf, fs.files
    ensures io.Valid() && fs.Valid()
    ensures io.stdinPos == old(io.stdinPos)
    ensures var r := TeeFiles(files, stream, old(fs.Table()));
            io.Out() == EmitAll(old(io.Out()), r.writes) && fs.Table() == r.ram
  {
    var i := 0;
    ghost var sink, ram := io.Out(), fs.Table();
    ghost var done: seq<seq<Byte>> := [];
    assert files[0..] == files && EmitAll(sink, []) == sink;
    ghost var all := TeeFiles(files, stream, ram);
    assert done + all.writes == all.writes;
    while i < |files|
      invariant i <= |files| && io.Valid() && fs.Valid()
      invariant io.Out() == EmitAll(sink, done)
      invariant var rest := TeeFiles(files[i..], stream, fs.Table());
                all == RunResult(done + rest.writes, rest.ram)
    {
      ghost var rest := TeeFiles(files[i..], stream, fs.Table());
      assert files[i..][0] == files[i] && files[i..][1..] == files[i + 1..];
      var ok := LibWriteFile(fs, files[i], stream);
      if !ok {
        io.Write(TEE_CANNOT);
        io.Write(files[i]);
        io.Write(LINE_END);
        ghost var message := [TEE_CANNOT, files[i], LINE_END];
        EmitThree(EmitAll(sink, done), TEE_CANNOT, files[i], LINE_END);
        EmitAllAppend(sink, done, message);
        ConcatAssoc(done, message, TeeFiles(files[i + 1..], stream, fs.Table()).writes);
        done := done + message;
      }
      i := i + 1;
    }
    assert done + [] == done;
  }

  lemma EmitThree(sink: Sink, a: seq<Byte>, b: seq<Byte>, c: seq<Byte>)
    ensures EmitAll(sink, [a, b, c]) == Emit(Emit(Emit(sink, a), b), c)
  {
    assert [a, b, c][1..] == [b, c] && [b, c][1..] == [c];
    EmitOne(Emit(Emit(sink, a), b), c);
    assert EmitAll(Emit(sink, a), [b, c]) == EmitAll(Emit(Emit(sink, a), b), [c]);
  }

  /** tee: the writes and the files are those of the specification. */
  method Tee(io: IoState, fs: FileSystem, args: seq<Byte>)
    requires io.Valid() && io.Redirected() && fs.Valid()
    modifies io`stdinPos, io`stdoutLen, io`console, io.stdoutBuf, fs.files
    ensures io.Valid() && fs.Valid()
    ensures var r := TeeRun(args, old(io.Pending()), old(fs.Table()));
            io.Out() == EmitAll(old(io.Out()), r.writes) && fs.Table() == r.ram
  {
    var files := AsciiText.Fields(args);
    if |files| > MAX_TEE_FILES {
      io.Write(TEE_TOO_MANY);
      EmitOne(old(io.Out()), TEE_TOO_MANY);
      return;
    }
    var stream := new Byte[MAX_IO](_ => NUL);
    var streamLen := TeeStream(io, stream);
    TeeWriteFiles(io, fs, files, stream[..streamLen]);
    EmitAllAppend(old(io.Out()), Chunks(old(io.Pending()), CHUNK),
                  TeeFiles(files, Take(old(io.Pending()), MAX_IO), old(fs.Table())).writes);
  }

  lemma EmitOne(sink: Sink, a: seq<Byte>)
    ensures EmitAll(sink, [a]) == Emit(sink, a)
  {
  }

  /** sed on its input: one substitution for every read of up to 4096 bytes. */
  method SedStdin(io: IoState, script: Sed.Script)
    requires io.Valid() && io.Redirected()
    modifies io`stdinPos, io`stdoutLen, io`console, io.stdoutBuf
    ensures io.Valid() && io.Redirected() && io.Pending() == []
    ensures io.Out() == EmitAll(old(io.Out()), SedWrites(script, Chunks(old(io.Pending()), MAX_IO)))
  {
    var inBuf := new Byte[MAX_IO](_ => NUL);
    var outBuf := new Byte[MAX_IO](_ => NUL);
    ghost var sink, all := io.Out(), SedWrites(script, Chunks(io.Pending(), MAX_IO));
    ghost var done: seq<seq<Byte>> := [];
    while true
      invariant io.Valid() && io.Redirected() && fresh(inBuf) && fresh(outBuf) && inBuf != outBuf
      invariant all == done + SedWrites(script, Chunks(io.Pending(), MAX_IO))
      invariant io.Out() == EmitAll(sink, done)
      decreases |io.Pending()|
    {
      ghost var pending := io.Pending();
      var n := io.Read(inBuf);
      if n == 0 { break; }
      ghost var chunks := Chunks(pending, MAX_IO);
      assert chunks[0] == inBuf[..n] && chunks[1..] == Chunks(io.Pending(), MAX_IO);
      var len := Sed.Substitute(inBuf[..n], outBuf, script.pattern, script.replacement, script.global);
      ghost var piece := outBuf[..len];
      assert piece == Substituted(script, inBuf[..n]);
      io.Write(outBuf[..len]);
      EmitAllAppend(sink, done, [piece]);
      ConcatAssoc(done, [piece], SedWrites(script, Chunks(io.Pending(), MAX_IO)));
      done := done + [piece];
    }
    assert done + [] == done;
  }

  // cat with a file.

  const CAT_TOO_LONG := Str("cat: path too long\n")
  const CAT_CANNOT := Str("cat: cannot read ")
  const MAX_CAT_PATH: nat := 128

  predicate IsAbsolute(path: seq<Byte>) { path != [] && path[0] == SLASH }

  /** The path cat reads: as given, or behind the working directory if that fits. */
  function CatPath(cwd: seq<Byte>, path: seq<Byte>): Option<seq<Byte>> {
    if IsAbsolute(path) then Some(path)
    else if cwd != [SLASH] && |cwd| + 1 > MAX_CAT_PATH then None
    else
      if |CatDirectory(cwd)| + |path| > MAX_CAT_PATH then None else Some(CatDirectory(cwd) + path)
  }

  function CatDirectory(cwd: seq<Byte>): seq<Byte> {
    if cwd != [] && cwd[|cwd| - 1] == SLASH then cwd else cwd + [SLASH]
  }

  /** The file as far as 4096 bytes go, with a line end behind it if it has none. */
  function Shown(data: seq<Byte>): seq<seq<Byte>> {
    var got := Take(data, MAX_IO);
    if got == [] then [] else if got[|got| - 1] == NEWLINE then [got] else [got, LINE_END]
  }

  function CatFileRun(cwd: seq<Byte>, path: seq<Byte>, statics: seq<FileEntry>, ram: Ram): RunResult {
    match CatPath(cwd, path)
    case None => RunResult([CAT_TOO_LONG], ram)
    case Some(p) =>
      var data := ReadFile(statics, ram, CString(p));
      if |p| >= LIB_PATH || data.None? then RunResult([CAT_CANNOT, p, LINE_END], ram)
      else RunResult(Shown(data.value), ram)
  }

  method CatDirectoryInto(cwd: seq<Byte>, out: array<Byte>) returns (len: nat)
    requires |cwd| < out.Length
    modifies out
    ensures len <= out.Length && out[..len] == CatDirectory(cwd)
  {
    CopyInto(out, 0, cwd);
    len := |cwd|;
    assert out[..len] == out[..0] + cwd == cwd;
    if len == 0 || cwd[|cwd| - 1] != SLASH {
      CopyInto(out, len, [SLASH]);
      len := len + 1;
    }
  }

  method CatPathInto(cwd: seq<Byte>, path: seq<Byte>, out: array<Byte>) returns (r: Option<seq<Byte>>)
    requires out.Length == MAX_CAT_PATH
    modifies out
    ensures r == CatPath(cwd, path)
  {
    if IsAbsolute(path) { return Some(path); }
    var len := 0;
    if cwd == [SLASH] {
      out[len] := SLASH;
      len := len + 1;
    } else {
      if |cwd| + 1 > out.Length { return None; }
      len := CatDirectoryInto(cwd, out);
    }
    assert out[..len] == CatDirectory(cwd);
    if len + |path| > out.Length { return None; }
    CopyInto(out, len, path);
    return Some(out[..len + |path|]);
  }

  /** cat with a file argument, in a working directory found in its environment. */
  method CatFile(io: IoState, fs: FileSystem, env: seq<Byte>, pathArg: seq<Byte>)
    requires io.Valid() && fs.Valid()
    modifies io`stdoutLen, io`console, io.stdoutBuf
    ensures io.Valid() && fs.Valid() && fs.Table() == old(fs.Table())
    ensures var cwd := ShellEnv.CwdOfLines(SplitOn(env, NEWLINE));
            io.Out() == EmitAll(old(io.Out()), CatFileRun(cwd, pathArg, fs.statics, fs.Table()).writes)
  {
    var cwd := ShellEnv.ChildCwd(env);
    var resolved := new Byte[MAX_CAT_PATH](_ => NUL);
    var path := CatPathInto(cwd, pathArg, resolved);
    ghost var sink := io.Out();
    if path == None {
      io.Write(CAT_TOO_LONG);
      EmitOne(sink, CAT_TOO_LONG);
      return;
    }
    var p := path.value;
    var buf := new Byte[MAX_IO](_ => NUL);
    var len: Option<nat> := None;
    if |p| < LIB_PATH { len := fs.ReadFileBytes(CString(p), buf); }
    if len == None {
      io.Write(CAT_CANNOT);
      io.Write(p);
      io.Write(LINE_END);
      EmitThree(sink, CAT_CANNOT, p, LINE_END);
      return;
    }
    WriteShown(io, buf[..len.value]);
  }

  method WriteShown(io: IoState, got: seq<Byte>)
    requires io.Valid() && |got| <= MAX_IO
    modifies io`stdoutLen, io`console, io.stdoutBuf
    ensures io.Valid() && io.Out() == EmitAll(old(io.Out()), Shown(got))
  {
    if got == [] { return; }
    ghost var sink := io.Out();
    io.Write(got);
    EmitOne(sink, got);
    if got[|got| - 1] != NEWLINE {
      io.Write(LINE_END);
      EmitTwo(sink, got, LINE_END);
    }
  }

  lemma EmitTwo(sink: Sink, a: seq<Byte>, b: seq<Byte>)
    ensures EmitAll(sink, [a, b]) == Emit(Emit(sink, a), b)
  {
    assert [a, b][1..] == [b];
    EmitOne(Emit(sink, a), b);
  }

  // One exec call.

  /** What a program that is not modelled itself does: the write calls and file writes it
      makes, in order. */
  datatype Effect = Output(data: seq<Byte>) | FileOutput(path: seq<Byte>, data: seq<Byte>)

  function Performed(effects: seq<Effect>, ram: Ram): RunResult
    decreases |effects|
  {
    if effects == [] then RunResult([], ram)
    else
      match effects[0]
      case Output(data) =>
        var rest := Performed(effects[1..], ram);
        RunResult([data] + rest.writes, rest.ram)
      case FileOutput(path, data) => Performed(effects[1..], AfterWrite(ram, path, data))
  }

  /** The files after a write by the library, accepted or not. */
  function AfterWrite(ram: Ram, path: seq<Byte>, data: seq<Byte>): Ram {
    if WriteAccepted(ram, path) then WriteFile(ram, CString(path), data) else ram
  }

  method PerformEffects(io: IoState, fs: FileSystem, effects: seq<Effect>)
    requires io.Valid() && fs.Valid()
    modifies io`stdoutLen, io`console, io.stdoutBuf, fs.files
    ensures io.Valid() && fs.Valid()
    ensures var r := Performed(effects, old(fs.Table()));
            io.Out() == EmitAll(old(io.Out()), r.writes) && fs.Table() == r.ram
  {
    var i := 0;
    ghost var sink, all := io.Out(), Performed(effects, fs.Table());
    ghost var done: seq<seq<Byte>>, rest := [], all;
    assert effects[0..] == effects && done + all.writes == all.writes;
    while i < |effects|
      invariant i <= |effects| && io.Valid() && fs.Valid()
      invariant io.Out() == EmitAll(sink, done)
      invariant rest == Performed(effects[i..], fs.Table()) && all == RunResult(done + rest.writes, rest.ram)
    {
      PerformedStep(effects, i, fs.Table());
      match effects[i] {
        case Output(data) =>
          rest := Performed(effects[i + 1..], fs.Table());
          io.Write(data);
          EmitMore(sink, done, data, rest.writes);
          done := done + [data];
        case FileOutput(path, data) =>
          var _ := LibWriteFile(fs, path, data);
      }
      i := i + 1;
    }
    assert done + [] == done;
  }

  lemma PerformedStep(effects: seq<Effect>, i: nat, ram: Ram)
    requires i < |effects|
    ensures effects[i].Output? ==>
              var rest := Performed(effects[i + 1..], ram);
              Performed(effects[i..], ram) == RunResult([effects[i].data] + rest.writes, rest.ram)
    ensures effects[i].FileOutput? ==>
              Performed(effects[i..], ram)
                == Performed(effects[i + 1..], AfterWrite(ram, effects[i].path, effects[i].data))
  {
    assert effects[i..][0] == effects[i] && effects[i..][1..] == effects[i + 1..];
  }

  /** One write more. */
  lemma EmitMore(sink: Sink, done: seq<seq<Byte>>, data: seq<Byte>, rest: seq<seq<Byte>>)
    ensures EmitAll(sink, done + [data]) == Emit(EmitAll(sink, done), data)
    ensures done + ([data] + rest) == done + [data] + rest
  {
    EmitOne(EmitAll(sink, done), data);
    EmitAllAppend(sink, done, [data]);
  }

  datatype App =
    | CatApp
    | CatFileApp(env: seq<Byte>, path: seq<Byte>)
    | TeeApp(args: seq<Byte>)
    | SedApp(script: Sed.Script)
    | OtherApp(effects: seq<Effect>)
  {
    /** Reads its input, which has to be redirected. */
    predicate NeedsInput() { CatApp? || TeeApp? || SedApp? }
  }

  function AppRun(app: App, statics: seq<FileEntry>, stdin: seq<Byte>, ram: Ram): RunResult {
    match app
    case CatApp => CatRun(stdin, ram)
    case CatFileApp(env, path) => CatFileRun(ShellEnv.CwdOfLines(SplitOn(env, NEWLINE)), path, statics, ram)
    case TeeApp(args) => TeeRun(args, stdin, ram)
    case SedApp(script) => SedRun(script, stdin, ram)
    case OtherApp(effects) => Performed(effects, ram)
  }

  method RunApp(io: IoState, fs: FileSystem, app: App)
    requires io.Valid() && fs.Valid() && (app.NeedsInput() ==> io.Redirected())
    modifies io`stdinPos, io`stdoutLen, io`console, io.stdoutBuf, fs.files
    ensures io.Valid() && fs.Valid()
    ensures var r := AppRun(app, fs.statics, old(io.Pending()), old(fs.Table()));
            io.Out() == EmitAll(old(io.Out()), r.writes) && fs.Table() == r.ram
  {
    match app
    case CatApp => Cat(io);
    case CatFileApp(env, path) => CatFile(io, fs, env, path);
    case TeeApp(args) => Tee(io, fs, args);
    case SedApp(script) => SedStdin(io, script);
    case OtherApp(effects) => PerformEffects(io, fs, effects);
  }

  /** What the process table and the loader make of an exec call: no program, or one that
      runs and returns a status. */
  datatype Launch = Refused | Launched(app: App, status: nat)

  /** A status of u64::MAX stands for no program. */
  datatype ExecResult = ExecResult(status: nat, result: RunResult)

  /** The input as the kernel stages it. */
  function Staged(stdin: Option<seq<Byte>>): seq<Byte> {
    if stdin.None? then [] else Take(stdin.value, MAX_IO)
  }

  function LaunchResult(launch: Launch, statics: seq<FileEntry>, stdin: Option<seq<Byte>>, ram: Ram): ExecResult {
    match launch
    case Refused => ExecResult(U64_MAX, RunResult([], ram))
    case Launched(app, status) => ExecResult(status, AppRun(app, statics, Staged(stdin), ram))
  }

  /** Input, if there is some, is staged, the program runs, its capture, if it is wanted, is
      copied out, and the redirection is over. */
  method ExecWithIo(io: IoState, fs: FileSystem, launch: Launch, stdin: Option<seq<Byte>>, out: Option<array<Byte>>)
    returns (status: nat, captured: nat)
    requires io.Valid() && fs.Valid()
    requires out.Some? ==> out.value != io.stdinBuf && out.value != io.stdoutBuf
    requires launch.Launched? && launch.app.NeedsInput() ==> stdin.Some?
    modifies io, io.stdinBuf, io.stdoutBuf, fs.files, if out.Some? then {out.value} else {}
    ensures io.Valid() && !io.active && fs.Valid()
    ensures var r := LaunchResult(launch, fs.statics, stdin, old(fs.Table()));
            var sink := EmitAll(Sink(out.Some?, [], old(io.console)), r.result.writes);
            && status == r.status && fs.Table() == r.result.ram && io.console == sink.console
            && (out.Some? ==> && captured <= out.value.Length
                              && out.value[..captured] == Take(sink.captured, out.value.Length))
            && (out.None? ==> captured == 0)
  {
    io.Begin(stdin, out.Some?);
    match launch {
      case Refused => status := U64_MAX;
      case Launched(app, code) =>
        RunApp(io, fs, app);
        status := code;
    }
    captured := io.End(out);
  }

  // Programs keep the file table in order.

  lemma {:induction false} TeeFilesKeepGood(files: seq<seq<Byte>>, stream: seq<Byte>, ram: Ram)
    requires GoodRam(ram)
    ensures GoodRam(TeeFiles(files, stream, ram).ram)
    decreases |files|
  {
    if files != [] {
      if WriteAccepted(ram, files[0]) {
        WriteKeepsGood(ram, files[0], stream);
        TeeFilesKeepGood(files[1..], stream, WriteFile(ram, CString(files[0]), stream));
      } else {
        TeeFilesKeepGood(files[1..], stream, ram);
      }
    }
  }

  lemma {:induction false} EffectsKeepGood(effects: seq<Effect>, ram: Ram)
    requires GoodRam(ram)
    ensures GoodRam(Performed(effects, ram).ram)
    decreases |effects|
  {
    if effects != [] {
      match effects[0] {
        case Output(_) => EffectsKeepGood(effects[1..], ram);
        case FileOutput(path, data) =>
          WriteKeepsGood(ram, path, data);
          EffectsKeepGood(effects[1..], AfterWrite(ram, path, data));
      }
    }
  }

  lemma LaunchKeepsGood(launch: Launch, statics: seq<FileEntry>, stdin: Option<seq<Byte>>, ram: Ram)
    requires GoodRam(ram)
    ensures GoodRam(LaunchResult(launch, statics, stdin, ram).result.ram)
  {
    match launch {
      case Refused =>
      case Launched(app, _) =>
        match app {
          case TeeApp(args) => TeeFilesKeepGood(AsciiText.Fields(args), Take(Staged(stdin), MAX_IO), ram);
          case OtherApp(effects) => EffectsKeepGood(effects, ram);
          case _ =>
        }
    }
  }

  // What a stage of a pipeline does to its input.

  /** What an exec call hands back of the writes: the first 4096 bytes. */
  function Captured(r: RunResult): seq<Byte> { Take(Flatten(r.writes), MAX_IO) }

  lemma BareTeeIsCat(args: seq<Byte>, d: seq<Byte>, ram: Ram)
    requires AsciiText.Fields(args) == []
    ensures TeeRun(args, d, ram) == CatRun(d, ram)
  {
  }

  /** tee f passes its input on and leaves f holding exactly that input, for a file name
      that is no built-in file and finds room in the table. */
  lemma TeeKeepsStream(args: seq<Byte>, f: seq<Byte>, d: seq<Byte>, statics: seq<FileEntry>, ram: Ram)
    requires AsciiText.Fields(args) == [f] && |d| <= MAX_IO
    requires WriteAccepted(ram, f) && CString(f) !in StaticPaths(statics) && UniquePaths(ram)
    ensures var r := TeeRun(args, d, ram);
            && r.writes == Chunks(d, CHUNK) && Captured(r) == d
            && ReadFile(statics, r.ram, CString(f)) == Some(d)
            && r.ram == WriteFile(ram, CString(f), d)
  {
    var next := WriteFile(ram, CString(f), d);
    assert [f][1..] == [] && TeeFiles([], d, next) == RunResult([], next);
    assert TeeFiles([f], d, ram) == RunResult([], next);
    assert Chunks(d, CHUNK) + [] == Chunks(d, CHUNK);
    ChunksConserve(d, CHUNK);
    var op := WriteOp(CString(f), d);
    assert [op][..0] == [] && RunWrites(ram, [op]) == next;
    assert RunCapped(AsMap(ram), [op], |ram|) == Capped(AsMap(ram), CString(f), d, |ram|);
    WriteRefines(ram, CString(f), d);
    ReadAfterWrites(statics, ram, [op], CString(f));
  }

  /** A pipe holds at most 4096 bytes, so sed reads it in one piece. */
  lemma SedIsOneSubstitution(script: Sed.Script, d: seq<Byte>, ram: Ram)
    requires 0 < |d| <= MAX_IO
    ensures SedRun(script, d, ram) == RunResult([Substituted(script, d)], ram)
    ensures Captured(SedRun(script, d, ram)) == Substituted(script, d)
  {
    assert d[|d|..] == [] && Chunks(d[|d|..], MAX_IO) == [];
    assert Chunks(d, MAX_IO) == [d] + [] && [d][1..] == [];
    assert SedWrites(script, [d]) == [Substituted(script, d)];
    assert Flatten([Substituted(script, d)]) == Substituted(script, d) + [];
  }

  /** sed s/p/x/g followed by sed s/x/p/g, for a byte x the input does not hold. */
  lemma SedUndone(pattern: seq<Byte>, mark: Byte, d: seq<Byte>)
    requires pattern != [] && mark !in d && |d| <= MAX_IO
    ensures var there, back := Sed.Script(pattern, [mark], true), Sed.Script([mark], pattern, true);
            && Substituted(back, Substituted(there, d)) == d
            && (d != [] ==> Substituted(there, d) != [])
  {
    Sed.MarkRoundTripBounded(d, pattern, mark, MAX_IO);
    assert Sed.Replace([], [mark], pattern, true) == [];
  }

  /** What cat shows of a file of any length. */
  lemma ShownMeans(data: seq<Byte>)
    ensures var got := if |data| <= 4096 then data else data[..4096];
            Flatten(Shown(data)) == got + if got != [] && got[|got| - 1] != 10 then [10] else []
  {
    var got := if |data| <= 4096 then data else data[..4096];
    if got != [] && got[|got| - 1] != 10 {
      FlattenTwo(got, LINE_END);
    } else if got != [] {
      assert [got][1..] == [];
      assert Flatten([got]) == got + [];
    } else {
      assert got + [] == got;
    }
  }

  lemma FlattenTwo(a: seq<Byte>, b: seq<Byte>)
    ensures Flatten([a, b]) == a + b
  {
    assert [a, b][1..] == [b] && [b][1..] == [] && Flatten([b]) == b + [];
  }

  // tee with any number of files.

  /** The library takes the name as far as its first NUL, and only names below 128 bytes. */
  predicate NamesFile(f: seq<Byte>, p: seq<Byte>) { |f| < 128 && CString(f) == p }

  lemma WriteRead(ram: Ram, f: seq<Byte>, data: seq<Byte>, p: seq<Byte>)
    requires WriteAccepted(ram, f)
    ensures RamRead(WriteFile(ram, CString(f), data), p)
         == if NamesFile(f, p) then Some(Take(data, MAX_RAM_FILE_LEN)) else RamRead(ram, p)
  {
    ReadAfterWrite(ram, CString(f), data, p);
  }

  /** A file reads as before or as the stream, and as before if tee was not given it. */
  lemma {:induction false} TeeFilesWrite(files: seq<seq<Byte>>, stream: seq<Byte>, ram: Ram, p: seq<Byte>)
    ensures var r := RamRead(TeeFiles(files, stream, ram).ram, p);
            && (r == RamRead(ram, p) || r == Some(Take(stream, MAX_RAM_FILE_LEN)))
            && ((forall f | f in files :: !NamesFile(f, p)) ==> r == RamRead(ram, p))
    decreases |files|
  {
    if files != [] {
      var next := if WriteAccepted(ram, files[0]) then WriteFile(ram, CString(files[0]), stream) else ram;
      if WriteAccepted(ram, files[0]) { WriteRead(ram, files[0], stream, p); }
      TeeFilesWrite(files[1..], stream, next, p);
      assert forall f | f in files[1..] :: f in files;
      assert files[0] in files;
    }
  }

  /** Of several files each one either reads as the stream afterwards or is reported on the
      output; when nothing is reported all of them read as the stream. */
  lemma {:induction false} TeeFilesMean(files: seq<seq<Byte>>, stream: seq<Byte>, ram: Ram, f: seq<Byte>)
    requires f in files
    ensures var r := TeeFiles(files, stream, ram);
            (|f| < 128 && RamRead(r.ram, CString(f)) == Some(Take(stream, MAX_RAM_FILE_LEN))) || f in r.writes
    ensures TeeFiles(files, stream, ram).writes == [] ==>
              |f| < 128 && RamRead(TeeFiles(files, stream, ram).ram, CString(f)) == Some(Take(stream, MAX_RAM_FILE_LEN))
    decreases |files|
  {
    var accepted := WriteAccepted(ram, files[0]);
    var next := if accepted then WriteFile(ram, CString(files[0]), stream) else ram;
    var rest := TeeFiles(files[1..], stream, next);
    if f == files[0] && accepted {
      WriteRead(ram, f, stream, CString(f));
      TeeFilesWrite(files[1..], stream, next, CString(f));
    } else if f == files[0] {
      assert ([TEE_CANNOT, f, LINE_END] + rest.writes)[1] == f;
    } else {
      assert f in files[1..];
      TeeFilesMean(files[1..], stream, next, f);
      assert !accepted ==> forall x | x in rest.writes :: x in [TEE_CANNOT, files[0], LINE_END] + rest.writes;
    }
  }

  /** Nothing is reported when every name is valid and the table has room for all of them. */
  lemma {:induction false} TeeFilesFit(files: seq<seq<Byte>>, stream: seq<Byte>, ram: Ram)
    requires HasRoom(files, ram)
    ensures TeeFiles(files, stream, ram).writes == []
    decreases |files|
  {
    if files != [] {
      var f := files[0];
      assert f in files;
      CStringShortens(f);
      WriteRefines(ram, CString(f), stream);
      WriteKeepsUnique(ram, CString(f), stream);
      var next := WriteFile(ram, CString(f), stream);
      assert |AsMap(next)| <= |AsMap(ram)| + 1;
      TeeFilesFit(files[1..], stream, next);
    }
  }

  lemma CStringShortens(s: seq<Byte>)
    ensures |CString(s)| <= |s|
  {
  }

  /** tee with up to sixteen files and any white space around their names. */
  lemma TeeWritesAll(before: seq<Byte>, files: seq<seq<Byte>>, gaps: seq<seq<Byte>>, d: seq<Byte>, ram: Ram)
    requires |files| == |gaps| <= 16 && AsciiText.AllWhite(before)
    requires forall k | 0 <= k < |files| :: files[k] != [] && AsciiText.NoWhite(files[k]) && AsciiText.AllWhite(gaps[k])
    requires forall k | 0 <= k < |files| - 1 :: gaps[k] != []
    ensures exists reports :: TeeOutcome(files, d, ram, TeeRun(before + AsciiText.Spaced(files, gaps), d, ram), reports)
  {
    var args, kept := before + AsciiText.Spaced(files, gaps), Take(d, MAX_IO);
    AsciiText.FieldsOfSpaced(before, files, gaps);
    TeeFilesTogether(files, kept, ram);
    assert Take(kept, MAX_RAM_FILE_LEN) == Take(d, 4096);
    assert TeeOutcome(files, d, ram, TeeRun(args, d, ram), TeeFiles(files, kept, ram).writes);
  }

  /** The input is passed on, then come the reports; a file that is not reported reads as the
      first 4096 bytes of the input, a file not given to tee as before, and nothing is
      reported when all files have room. */
  ghost predicate TeeOutcome(files: seq<seq<Byte>>, d: seq<Byte>, ram: Ram, r: RunResult, reports: seq<seq<Byte>>) {
    && r.writes == Chunks(d, CHUNK) + reports
    && (forall f | f in files :: f in reports || RamRead(r.ram, CString(f)) == Some(Take(d, 4096)))
    && (forall p | (forall f | f in files :: !NamesFile(f, p)) :: RamRead(r.ram, p) == RamRead(ram, p))
    && (HasRoom(files, ram) ==> reports == [])
  }

  lemma TeeFilesTogether(files: seq<seq<Byte>>, stream: seq<Byte>, ram: Ram)
    ensures var r, kept := TeeFiles(files, stream, ram), Take(stream, MAX_RAM_FILE_LEN);
            && (forall f | f in files :: f in r.writes || RamRead(r.ram, CString(f)) == Some(kept))
            && (forall p | (forall f | f in files :: !NamesFile(f, p)) :: RamRead(r.ram, p) == RamRead(ram, p))
            && (HasRoom(files, ram) ==> r.writes == [])
  {
    var r := TeeFiles(files, stream, ram);
    forall f | f in files
      ensures f in r.writes || RamRead(r.ram, CString(f)) == Some(Take(stream, MAX_RAM_FILE_LEN))
    {
      TeeFilesMean(files, stream, ram, f);
    }
    forall p | forall f | f in files :: !NamesFile(f, p)
      ensures RamRead(r.ram, p) == RamRead(ram, p)
    {
      TeeFilesWrite(files, stream, ram, p);
    }
    if HasRoom(files, ram) { TeeFilesFit(files, stream, ram); }
  }

  /** Every name is valid and there is an entry left for each of them. */
  ghost predicate HasRoom(files: seq<seq<Byte>>, ram: Ram) {
    && UniquePaths(ram) && |AsMap(ram)| + |files| <= |ram|
    && forall f | f in files :: |f| < 128 && CString(f) != []
  }
}
