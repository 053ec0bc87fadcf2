/** The shell's pipeline loop over its shared buffers, the kernel's redirection buffers and
    the file table, with the outcome that Pipeline gives on values. */
module PipelineRunner {
  import opened Bytes
  import opened ShellLexer
  import opened ShellStages
  import opened RamFiles
  import opened StreamIo
  import opened StreamPrograms
  import opened Pipeline
  import opened Machines
  import ShellEnv

  /** The indexing of the source: outside the slice there is no element. */
  function ByteAt(s: seq<Byte>, i: int): Option<Byte> {
    if 0 <= i < |s| then Some(s[i]) else None
  }

  /** The working directory with a slash behind it. The one index that can miss is that of
      its last byte. */
  method DirectoryInto(cwd: seq<Byte>, out: array<Byte>) returns (len: Option<nat>)
    requires |cwd| < out.Length
    modifies out
    ensures len == None <==> cwd == []
    ensures len.Some? ==> len.value <= out.Length && out[..len.value] == Directory(cwd)
  {
    CopyInto(out, 0, cwd);
    assert out[..|cwd|] == out[..0] + cwd == cwd;
    var last := ByteAt(cwd, |cwd| - 1);
    if last == None { return None; }
    if last.value == SLASH { return Some(|cwd|); }
    CopyInto(out, |cwd|, [SLASH]);
    return Some(|cwd| + 1);
  }

  /** The shell's path resolution over its 128-byte buffer. */
  method ResolvePathInto(env: ShellEnv.EnvTable, path: seq<Byte>, out: array<Byte>) returns (r: PathResult)
    requires env.Valid() && out.Length == MAX_FILE_PATH
    modifies out
    ensures env.Valid() && r == ResolvePath(ShellEnv.CwdOf(env.Bindings()), path)
    ensures r == Crash <==> ShellEnv.CwdOf(env.Bindings()) == [] && !IsAbsolute(path)
    ensures r.Resolved? ==> |r.path| <= out.Length && out[..|r.path|] == r.path
  {
    if IsAbsolute(path) {
      if |path| > out.Length { return TooLong; }
      CopyInto(out, 0, path);
      assert out[..|path|] == out[..0] + path;
      return Resolved(out[..|path|]);
    }
    var cwd := env.GetCwd();
    var len := 0;
    if cwd == [SLASH] {
      out[len] := SLASH;
      len := len + 1;
    } else {
      if |cwd| + 1 > out.Length { return TooLong; }
      var end := DirectoryInto(cwd, out);
      if end == None { return Crash; }
      len := end.value;
    }
    ghost var dir := out[..len];
    assert dir == Directory(cwd);
    if len + |path| > out.Length { return TooLong; }
    CopyInto(out, len, path);
    len := len + |path|;
    assert out[..len] == dir + path;
    return Resolved(out[..len]);
  }

  /** Buffers of the shell are not those of the kernel. */
  ghost predicate Apart(io: IoState, a: array<Byte>) { a != io.stdinBuf && a != io.stdoutBuf }

  /** The exec call of the shell, through the redirection buffers of the kernel: what the
      program writes ends up in out, if one is given, and otherwise on the console. */
  method ExecFromBinIo(m: Machine, env: ShellEnv.EnvTable, io: IoState, fs: FileSystem, cmd: seq<Byte>, args: seq<Byte>,
                       stdin: Option<seq<Byte>>, out: Option<array<Byte>>)
    returns (status: nat, outLen: nat)
    requires env.Valid() && io.Valid() && io.Quiet() && fs.Valid() && m.statics == fs.statics
    requires out.Some? ==> Apart(io, out.value) && out.value.Length == MAX_IO
    modifies io, io.stdinBuf, io.stdoutBuf, fs.files, if out.Some? then {out.value} else {}
    ensures io.Valid() && io.Quiet() && fs.Valid()
    ensures var r := Exec(WorldOf(m, env.Bindings()), cmd, args, stdin, old(fs.Table()));
            var sink := EmitAll(Sink(out.Some?, [], old(io.console)), r.result.writes);
            && status == r.status && fs.Table() == r.result.ram && io.console == sink.console
            && (out.Some? ==> outLen <= MAX_IO && out.value[..outLen] == sink.captured)
  {
    var envBuf, envLen := env.BuildEnvStr();
    var path := BinPath(cmd);
    if path == None { return U64_MAX, 0; }
    if |path.value| > MAX_BIN_PATH || |args| > MAX_ARGS { return U64_MAX, 0; }
    var call := Call(CString(path.value), CString(args), CString(envBuf[..envLen]), Redirection(stdin));
    status, outLen := ExecCall(m, io, fs, call, out);
  }

  /** The exec call of the library, as the kernel carries it out. */
  method ExecCall(m: Machine, io: IoState, fs: FileSystem, call: Call, out: Option<array<Byte>>)
    returns (status: nat, outLen: nat)
    requires io.Valid() && fs.Valid() && m.statics == fs.statics
    requires out.Some? ==> Apart(io, out.value) && out.value.Length == MAX_IO
    modifies io, io.stdinBuf, io.stdoutBuf, fs.files, if out.Some? then {out.value} else {}
    ensures io.Valid() && io.Quiet() && fs.Valid()
    ensures var r := Program(m, call, old(fs.Table()));
            var sink := EmitAll(Sink(out.Some?, [], old(io.console)), r.result.writes);
            && status == r.status && fs.Table() == r.result.ram && io.console == sink.console
            && (out.Some? ==> outLen <= MAX_IO && out.value[..outLen] == sink.captured)
  {
    var launch := LaunchOf(m, call, fs.Table());
    ghost var r := LaunchResult(launch, fs.statics, call.stdin, fs.Table());
    status, outLen := ExecWithIo(io, fs, launch, call.stdin, out);
    if out.Some? { CaptureIsPrefix(Sink(true, [], old(io.console)), r.result.writes); }
  }

  /** Reads the input file of the first stage into the pipe buffer. */
  method LoadInput(env: ShellEnv.EnvTable, fs: FileSystem, file: seq<Byte>, pipeData: array<Byte>, oldLen: nat,
                   ghost w: World, ghost stage: Stage, ghost st: State)
    returns (pipeLen: nat, end: End)
    requires env.Valid() && fs.Valid() && pipeData.Length == MAX_IO && oldLen <= MAX_IO
    requires w.cwd == ShellEnv.CwdOf(env.Bindings()) && w.statics == fs.statics
    requires stage.inFile == Some(file) && st.ram == fs.Table()
    modifies pipeData
    ensures pipeLen <= MAX_IO && fs.Valid()
    ensures end == Finished ==> StageInput(w, stage, true, st) == Input(Some(pipeData[..pipeLen]), pipeData[..pipeLen])
    ensures end != Finished ==> StageInput(w, stage, true, st) == NoInput(end)
                                && pipeLen == oldLen && pipeData[..] == old(pipeData[..])
  {
    var storage := new Byte[MAX_FILE_PATH](_ => NUL);
    pipeLen := oldLen;
    var path := ResolvePathInto(env, file, storage);
    match path
    case TooLong => return pipeLen, PathTooLong;
    case Crash => return pipeLen, Crashed;
    case Resolved(p) =>
      if |p| >= LIB_PATH { return pipeLen, CannotRead; }
      var len := fs.ReadFileBytes(CString(p), pipeData);
      if len == None { return pipeLen, CannotRead; }
      return len.value, Finished;
  }

  /** Writes the capture of the last stage to its output file. */
  method StoreOutput(env: ShellEnv.EnvTable, fs: FileSystem, file: seq<Byte>, data: seq<Byte>,
                     ghost w: World, ghost st: State)
    returns (end: End)
    requires env.Valid() && fs.Valid() && w.cwd == ShellEnv.CwdOf(env.Bindings()) && st.ram == fs.Table()
    modifies fs.files
    ensures fs.Valid() && (st.(ram := fs.Table()), end) == StageOutput(w, file, data, st)
  {
    var storage := new Byte[MAX_FILE_PATH](_ => NUL);
    var path := ResolvePathInto(env, file, storage);
    match path
    case TooLong => return PathTooLong;
    case Crash => return Crashed;
    case Resolved(p) =>
      var ok := LibWriteFile(fs, p, data);
      return if ok then Finished else CannotWrite;
  }

  /** The loop body: one stage, from its tokens to the pipe buffer for the next one. */
  method RunOneStage(m: Machine, env: ShellEnv.EnvTable, io: IoState, fs: FileSystem, ts: seq<Token>, parsed: seq<Byte>,
                     first: bool, last: bool, pipeData: array<Byte>, oldLen: nat, captureBuf: array<Byte>)
    returns (pipeLen: nat, end: End)
    requires env.Valid() && io.Valid() && io.Quiet() && fs.Valid() && m.statics == fs.statics && Sliced(ts, parsed)
    requires pipeData.Length == MAX_IO && captureBuf.Length == MAX_IO && oldLen <= MAX_IO
    requires pipeData != captureBuf && Apart(io, pipeData) && Apart(io, captureBuf)
    modifies io, io.stdinBuf, io.stdoutBuf, fs.files, pipeData, captureBuf
    ensures io.Valid() && io.Quiet() && fs.Valid() && pipeLen <= MAX_IO
    ensures (State(pipeData[..pipeLen], fs.Table(), io.console), end)
         == RunStage(WorldOf(m, env.Bindings()), DenoteAll(ts, parsed), first, last,
                     State(old(pipeData[..oldLen]), old(fs.Table()), old(io.console)))
  {
    pipeLen := oldLen;
    ghost var w, st := WorldOf(m, env.Bindings()), State(pipeData[..oldLen], fs.Table(), io.console);
    var argsBuf := new Byte[MAX_ARGS](_ => NUL);
    var parse := ReadStage(ts, parsed, first, last, argsBuf);
    if parse == None { return pipeLen, BadStage; }
    var p := parse.value;
    var args := argsBuf[..p.argsLen];
    ghost var stage := Stage(p.cmd, args, p.inFile, p.outFile);
    if IsBuiltin(p.cmd) { return pipeLen, BuiltinStage; }
    if first && p.inFile.Some? {
      pipeLen, end := LoadInput(env, fs, p.inFile.value, pipeData, pipeLen, w, stage, st);
      if end != Finished {
        assert pipeData[..oldLen] == st.pipe;
        return pipeLen, end;
      }
    }
    var stdin := if first && p.inFile.None? then None else Some(pipeData[..pipeLen]);
    assert StageInput(w, stage, first, st) == Input(stdin, pipeData[..pipeLen]);
    pipeLen, end := RunLoaded(m, env, io, fs, p.cmd, args, p.outFile, last, stdin,
                              pipeData, pipeLen, captureBuf, w, stage);
  }

  /** The second half of the loop body, once the input is in place. */
  method RunLoaded(m: Machine, env: ShellEnv.EnvTable, io: IoState, fs: FileSystem, cmd: seq<Byte>, args: seq<Byte>,
                   outFile: Option<seq<Byte>>, last: bool, stdin: Option<seq<Byte>>,
                   pipeData: array<Byte>, oldLen: nat, captureBuf: array<Byte>, ghost w: World, ghost stage: Stage)
    returns (pipeLen: nat, end: End)
    requires env.Valid() && io.Valid() && io.Quiet() && fs.Valid() && m.statics == fs.statics
    requires w == WorldOf(m, env.Bindings())
    requires pipeData.Length == MAX_IO && captureBuf.Length == MAX_IO && oldLen <= MAX_IO
    requires pipeData != captureBuf && Apart(io, pipeData) && Apart(io, captureBuf)
    requires stage.cmd == cmd && stage.args == args && stage.outFile == outFile
    modifies io, io.stdinBuf, io.stdoutBuf, fs.files, pipeData, captureBuf
    ensures io.Valid() && io.Quiet() && fs.Valid() && pipeLen <= MAX_IO
    ensures (State(pipeData[..pipeLen], fs.Table(), io.console), end)
         == RunProgram(w, stage, last, stdin, State(old(pipeData[..oldLen]), old(fs.Table()), old(io.console)))
  {
    var capture := !last || outFile.Some?;
    var status, outLen := ExecFromBinIo(m, env, io, fs, cmd, args, stdin, if capture then Some(captureBuf) else None);
    pipeLen := oldLen;
    assert pipeData[..pipeLen] == old(pipeData[..oldLen]);
    if status == U64_MAX { return pipeLen, UnknownCommand; }
    if !last {
      var data := captureBuf[..outLen];
      CopyInto(pipeData, 0, data);
      assert pipeData[..outLen] == pipeData[..0] + data == data;
      return outLen, Finished;
    }
    if outFile.Some? {
      end := StoreOutput(env, fs, outFile.value, captureBuf[..outLen], w,
                         State(pipeData[..pipeLen], fs.Table(), io.console));
      return pipeLen, end;
    }
    return pipeLen, Finished;
  }

  /** The outcome of the stages from idx on. */
  ghost function Outcome(w: World, pieces: seq<seq<Lexeme>>, idx: nat, st: State): (State, End)
    requires idx <= |pieces|
  {
    RunStages(w, pieces[idx..], idx == 0, st)
  }

  lemma OutcomeAt(w: World, pieces: seq<seq<Lexeme>>, idx: nat, st: State)
    requires idx < |pieces|
    ensures Outcome(w, pieces, idx, st)
         == var r := RunStage(w, pieces[idx], idx == 0, idx + 1 == |pieces|, st);
            if r.1 == Finished then Outcome(w, pieces, idx + 1, r.0) else r
  {
    var rest := pieces[idx..];
    assert rest[0] == pieces[idx] && rest[1..] == pieces[idx + 1..];
  }

  /** The loop sees the outcome only as a function of the position and the state. */
  ghost predicate IsOutcome(outcome: (nat, State) -> (State, End), w: World, pieces: seq<seq<Lexeme>>) {
    forall idx: nat, st {:trigger Outcome(w, pieces, idx, st)} | idx <= |pieces| ::
      outcome(idx, st) == Outcome(w, pieces, idx, st)
  }

  lemma OutcomeEnds(outcome: (nat, State) -> (State, End), w: World, pieces: seq<seq<Lexeme>>, st: State)
    requires IsOutcome(outcome, w, pieces)
    ensures outcome(|pieces|, st) == (st, Finished)
  {
    assert pieces[|pieces|..] == [];
    assert Outcome(w, pieces, |pieces|, st) == (st, Finished);
  }

  lemma DenoteSlice(ts: seq<Token>, parsed: seq<Byte>, a: nat, b: nat)
    requires Sliced(ts, parsed) && a <= b <= |ts|
    ensures Sliced(ts[a..b], parsed) && DenoteAll(ts[a..b], parsed) == DenoteAll(ts, parsed)[a..b]
  {
  }

  /** The stage in one recorded range, and what the pipeline comes to from there on. */
  method RunRange(m: Machine, env: ShellEnv.EnvTable, io: IoState, fs: FileSystem, ts: seq<Token>, parsed: seq<Byte>,
                  starts: seq<nat>, ends: seq<nat>, idx: nat, count: nat,
                  pipeData: array<Byte>, oldLen: nat, captureBuf: array<Byte>,
                  ghost w: World, ghost pieces: seq<seq<Lexeme>>,
                  ghost outcome: (nat, State) -> (State, End), ghost st: State)
    returns (pipeLen: nat, end: End, ghost next: State)
    requires env.Valid() && io.Valid() && io.Quiet() && fs.Valid() && m.statics == fs.statics && Sliced(ts, parsed)
    requires pipeData.Length == MAX_IO && captureBuf.Length == MAX_IO && oldLen <= MAX_IO
    requires pipeData != captureBuf && Apart(io, pipeData) && Apart(io, captureBuf)
    requires idx < count == |pieces| && Ranges(starts, ends, DenoteAll(ts, parsed), pieces)
    requires w == WorldOf(m, env.Bindings()) && IsOutcome(outcome, w, pieces)
    requires st == State(pipeData[..oldLen], fs.Table(), io.console)
    modifies io, io.stdinBuf, io.stdoutBuf, fs.files, pipeData, captureBuf
    ensures io.Valid() && io.Quiet() && fs.Valid() && pipeLen <= MAX_IO
    ensures next == State(pipeData[..pipeLen], fs.Table(), io.console)
    ensures outcome(idx, st) == if end == Finished then outcome(idx + 1, next) else (next, end)
  {
    var start, stop := starts[idx], ends[idx];
    DenoteSlice(ts, parsed, start, stop);
    OutcomeAt(w, pieces, idx, st);
    pipeLen, end := RunOneStage(m, env, io, fs, ts[start..stop], parsed, idx == 0, idx + 1 == count,
                                pipeData, oldLen, captureBuf);
    next := State(pipeData[..pipeLen], fs.Table(), io.console);
    assert outcome(idx, st) == Outcome(w, pieces, idx, st);
    assert outcome(idx + 1, next) == Outcome(w, pieces, idx + 1, next);
  }

  /** The loop of the runner over the recorded ranges. */
  method RunRanges(m: Machine, env: ShellEnv.EnvTable, io: IoState, fs: FileSystem, ts: seq<Token>, parsed: seq<Byte>,
                   starts: seq<nat>, ends: seq<nat>, count: nat,
                   ghost w: World, ghost pieces: seq<seq<Lexeme>>, ghost outcome: (nat, State) -> (State, End))
    returns (pipe: seq<Byte>, end: End)
    requires env.Valid() && io.Valid() && io.Quiet() && fs.Valid() && m.statics == fs.statics
    requires Sliced(ts, parsed) && count == |pieces| && Ranges(starts, ends, DenoteAll(ts, parsed), pieces)
    requires w == WorldOf(m, env.Bindings()) && IsOutcome(outcome, w, pieces)
    modifies io, io.stdinBuf, io.stdoutBuf, fs.files
    ensures io.Valid() && io.Quiet() && fs.Valid()
    ensures (State(pipe, fs.Table(), io.console), end) == outcome(0, State([], old(fs.Table()), old(io.console)))
  {
    var pipeData := new Byte[MAX_IO](_ => NUL);
    var captureBuf := new Byte[MAX_IO](_ => NUL);
    var pipeLen: nat := 0;
    ghost var bindings, cur := env.Bindings(), State([], fs.Table(), io.console);
    ghost var all := outcome(0, cur);
    var idx := 0;
    assert pipeData[..0] == [];
    while idx < count
      invariant idx <= count && pipeLen <= MAX_IO && io.Valid() && io.Quiet() && fs.Valid()
      invariant env.Bindings() == bindings
      invariant cur == State(pipeData[..pipeLen], fs.Table(), io.console)
      invariant all == outcome(idx, cur)
    {
      pipeLen, end, cur := RunRange(m, env, io, fs, ts, parsed, starts, ends, idx, count,
                                    pipeData, pipeLen, captureBuf, w, pieces, outcome, cur);
      if end != Finished { return pipeData[..pipeLen], end; }
      idx := idx + 1;
    }
    OutcomeEnds(outcome, w, pieces, cur);
    return pipeData[..pipeLen], Finished;
  }

  /** The whole runner agrees with Dispatch on the tokens its records denote. */
  method DispatchCompoundTokens(m: Machine, env: ShellEnv.EnvTable, io: IoState, fs: FileSystem,
                                ts: seq<Token>, parsed: seq<Byte>)
    returns (pipe: seq<Byte>, end: End)
    requires env.Valid() && io.Valid() && io.Quiet() && fs.Valid() && m.statics == fs.statics && Sliced(ts, parsed)
    modifies io, io.stdinBuf, io.stdoutBuf, fs.files
    ensures io.Valid() && io.Quiet() && fs.Valid()
    ensures (State(pipe, fs.Table(), io.console), end)
         == Dispatch(WorldOf(m, env.Bindings()), DenoteAll(ts, parsed), State([], old(fs.Table()), old(io.console)))
  {
    var starts := new nat[MAX_PIPE_STAGES](_ => 0);
    var ends := new nat[MAX_PIPE_STAGES](_ => 0);
    ghost var w, ls := WorldOf(m, env.Bindings()), DenoteAll(ts, parsed);
    ghost var pieces := SplitOn(ls, Pipe);
    var count := SplitStages(ts, starts, ends, ls);
    if count.Err? { return [], SplitFailed(count.error); }
    ghost var outcome :=
      (idx: nat, st: State) => if idx <= |pieces| then Outcome(w, pieces, idx, st) else (st, Finished);
    assert pieces[0..] == pieces;
    pipe, end := RunRanges(m, env, io, fs, ts, parsed, starts[..], ends[..], count.value, w, pieces, outcome);
  }
}
