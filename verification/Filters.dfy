/** Stages that only pass their input on: cat, tee and pairs of sed can be put between any
    two stages of a pipeline without changing what it does. */
module Filters {
  import opened Bytes
  import opened ShellLexer
  import opened ShellStages
  import opened RamFiles
  import opened StreamIo
  import opened StreamPrograms
  import opened Pipeline
  import AsciiText
  import Sed

  const CAT := Str("cat")
  const TEE := Str("tee")
  const SED := Str("sed")

  // Programs that pass their input on.

  predicate PlainCommand(cmd: seq<Byte>) {
    cmd != [] && !IsAbsolute(cmd) && !IsBuiltin(cmd) && NUL !in cmd && |BIN_PREFIX| + |cmd| <= MAX_BIN_PATH
  }

  lemma CStringWhole(s: seq<Byte>)
    requires NUL !in s
    ensures CString(s) == s
  {
  }

  lemma PlainExec(w: World, cmd: seq<Byte>, args: seq<Byte>, pipe: seq<Byte>, ram: Ram)
    requires PlainCommand(cmd) && NUL !in args && |args| <= MAX_ARGS && 0 < |pipe| <= MAX_IO
    ensures Exec(w, cmd, args, Some(pipe), ram) == w.program(BIN_PREFIX + cmd, args, Some(pipe), ram)
  {
    assert NUL !in BIN_PREFIX + cmd;
    CStringWhole(BIN_PREFIX + cmd);
    CStringWhole(args);
  }

  /** A stage in the middle that is one command and at most one argument word. */
  lemma MiddleStage(w: World, cmd: seq<Byte>, operands: seq<seq<Byte>>, st: State)
    requires PlainCommand(cmd) && |operands| <= 1 && 0 < |st.pipe| <= MAX_IO
    requires |operands| == 1 ==> |operands[0]| <= MAX_ARGS && NUL !in operands[0]
    ensures var tokens := [Word(cmd)] + if operands == [] then [] else [Word(operands[0])];
            var args := if operands == [] then [] else operands[0];
            var r := w.program(BIN_PREFIX + cmd, args, Some(st.pipe), st.ram);
            var sink := EmitAll(Sink(true, [], st.console), r.result.writes);
            RunStage(w, tokens, false, false, st)
              == if r.status == U64_MAX then (State(st.pipe, r.result.ram, sink.console), UnknownCommand)
                 else (State(sink.captured, r.result.ram, sink.console), Finished)
  {
    var args := if operands == [] then [] else operands[0];
    MiddleParse(cmd, operands);
    PlainExec(w, cmd, args, st.pipe, st.ram);
  }

  lemma MiddleParse(cmd: seq<Byte>, operands: seq<seq<Byte>>)
    requires |operands| <= 1 && (|operands| == 1 ==> |operands[0]| <= MAX_ARGS)
    ensures ParseStage([Word(cmd)] + (if operands == [] then [] else [Word(operands[0])]), false, false)
         == Some(Stage(cmd, if operands == [] then [] else operands[0], None, None))
  {
    if operands == [] {
      assert [Word(cmd)] + [] == [Word(cmd)] && [Word(cmd)][1..] == [];
      assert PartsOf([Word(cmd)]) == Some(Parts([cmd], [], []).Plus(NO_PARTS));
      PlusNone(Parts([cmd], [], []));
      assert [cmd][1..] == [] && Args([]) == [];
    } else {
      var a := operands[0];
      var tokens := [Word(cmd), Word(a)];
      assert [Word(cmd)] + [Word(a)] == tokens && tokens[1..] == [Word(a)] && [Word(a)][1..] == [];
      PlusNone(Parts([a], [], []));
      assert PartsOf([Word(a)]) == Some(Parts([a], [], []));
      assert PartsOf(tokens) == Some(Parts([cmd], [], []).Plus(Parts([a], [], [])));
      assert Parts([cmd], [], []).Plus(Parts([a], [], [])) == Parts([cmd, a], [], []);
      assert [cmd, a][1..] == [a];
      ArgsAppend([], a);
      assert [] + [a] == [a];
    }
  }

  /** A program that repeats its input and leaves the files alone leaves the state alone. */
  lemma PassesOn(sink: Sink, r: RunResult, d: seq<Byte>)
    requires sink.capturing && sink.captured == [] && Flatten(r.writes) == d && |d| <= MAX_IO
    ensures EmitAll(sink, r.writes) == sink.(captured := d)
  {
    CaptureIsPrefix(sink, r.writes);
    ConsoleOnlyWhenFull(sink, r.writes);
    assert [] + d == d;
  }

  /** Run without arguments, the program copies its redirected input. */
  ghost predicate IsFilter(w: World, cmd: seq<Byte>) {
    PlainCommand(cmd) && forall d, ram | |d| <= MAX_IO ::
      w.program(BIN_PREFIX + cmd, [], Some(d), ram) == ExecResult(0, CatRun(d, ram))
  }

  ghost predicate HasTee(w: World) {
    forall args, d, ram | |d| <= MAX_IO ::
      w.program(BIN_PREFIX + TEE, args, Some(d), ram) == ExecResult(0, TeeRun(args, d, ram))
  }

  ghost predicate HasSed(w: World) {
    forall args, d, ram | && |d| <= MAX_IO && |AsciiText.Fields(args)| == 1
                          && Sed.ParseScript(AsciiText.Fields(args)[0]).Some? ::
      w.program(BIN_PREFIX + SED, args, Some(d), ram)
        == ExecResult(0, SedRun(Sed.ParseScript(AsciiText.Fields(args)[0]).value, d, ram))
  }

  lemma ProgramsArePlain()
    ensures PlainCommand(CAT) && PlainCommand(TEE) && PlainCommand(SED)
  {
  }

  lemma InnerOne(w: World, tokens: seq<Lexeme>, first: bool, st: State)
    ensures RunInner(w, [tokens], first, st) == RunStage(w, tokens, first, false, st)
  {
    assert [tokens][1..] == [];
  }

  /** A filter on a non-empty pipe leaves pipe, files and console as they are. */
  lemma FilterIsTransparent(w: World, filter: seq<Byte>, st: State)
    requires IsFilter(w, filter) && 0 < |st.pipe| <= MAX_IO
    ensures RunInner(w, [[Word(filter)]], false, st) == (st, Finished)
  {
    MiddleStage(w, filter, [], st);
    InnerOne(w, [Word(filter)], false, st);
    assert [Word(filter)] + [] == [Word(filter)];
    ChunksConserve(st.pipe, CHUNK);
    PassesOn(Sink(true, [], st.console), CatRun(st.pipe, st.ram), st.pipe);
  }

  /** tee f in the middle also leaves f holding exactly what passed. */
  lemma TeeFileKeepsPipe(w: World, f: seq<Byte>, st: State)
    requires HasTee(w) && 0 < |st.pipe| <= MAX_IO && UniquePaths(st.ram)
    requires AsciiText.IsField(f) && NUL !in f && |f| <= MAX_ARGS
    requires WriteAccepted(st.ram, f) && f !in StaticPaths(w.statics)
    ensures var r := RunInner(w, [[Word(TEE), Word(f)]], false, st);
            && r == (st.(ram := r.0.ram), Finished)
            && ReadFile(w.statics, r.0.ram, f) == Some(st.pipe)
            && r.0.ram == WriteFile(st.ram, f, st.pipe)
            && UniquePaths(r.0.ram)
  {
    ProgramsArePlain();
    MiddleStage(w, TEE, [f], st);
    InnerOne(w, [Word(TEE), Word(f)], false, st);
    assert [Word(TEE)] + [Word(f)] == [Word(TEE), Word(f)];
    AsciiText.FirstField(f, []);
    assert f + [] == f;
    CStringWhole(f);
    TeeKeepsStream(f, f, st.pipe, w.statics, st.ram);
    ChunksConserve(st.pipe, CHUNK);
    PassesOn(Sink(true, [], st.console), TeeRun(f, st.pipe, st.ram), st.pipe);
    WriteKeepsUnique(st.ram, f, st.pipe);
  }

  /** A printed script that survives as one shell word and one sed argument. */
  ghost predicate Printable(script: Sed.Script, delim: Byte) {
    var text := Sed.PrintScript(script, delim);
    && delim != NUL && delim != BACKSLASH
    && |script.pattern| <= Sed.MAX_PATTERN && |script.replacement| <= Sed.MAX_REPLACEMENT
    && AsciiText.IsField(text) && NUL !in text && |text| <= MAX_ARGS
  }

  /** A stage of sed with a printed script. */
  function SedWords(script: Sed.Script, delim: Byte): seq<Lexeme> {
    [Word(SED), Word(Sed.PrintScript(script, delim))]
  }

  lemma SedArgument(script: Sed.Script, delim: Byte)
    requires Printable(script, delim)
    ensures var text := Sed.PrintScript(script, delim);
            AsciiText.Fields(text) == [text] && Sed.ParseScript(text) == Some(script)
  {
    var text := Sed.PrintScript(script, delim);
    AsciiText.FirstField(text, []);
    assert text + [] == text && [text] + [] == [text];
    Sed.ScriptRoundTrip(script, delim);
  }

  lemma SedStage(w: World, script: Sed.Script, delim: Byte, st: State)
    requires HasSed(w) && Printable(script, delim) && 0 < |st.pipe| <= MAX_IO
    ensures RunStage(w, SedWords(script, delim), false, false, st)
         == (st.(pipe := Substituted(script, st.pipe)), Finished)
  {
    var text, out := Sed.PrintScript(script, delim), Substituted(script, st.pipe);
    ProgramsArePlain();
    MiddleStage(w, SED, [text], st);
    assert [Word(SED)] + [Word(text)] == SedWords(script, delim);
    SedArgument(script, delim);
    SedIsOneSubstitution(script, st.pipe, st.ram);
    assert Flatten([out]) == out + [];
    PassesOn(Sink(true, [], st.console), RunResult([out], st.ram), out);
  }

  /** The stages "sed s/p/x/g | sed s/x/p/g", with any delimiters. */
  function SedPair(pattern: seq<Byte>, mark: Byte, d1: Byte, d2: Byte): seq<Lexeme> {
    SedWords(Sed.Script(pattern, [mark], true), d1) + [Pipe] + SedWords(Sed.Script([mark], pattern, true), d2)
  }

  lemma SedPairStages(pattern: seq<Byte>, mark: Byte, d1: Byte, d2: Byte)
    ensures SplitOn(SedPair(pattern, mark, d1, d2), Pipe)
         == [SedWords(Sed.Script(pattern, [mark], true), d1), SedWords(Sed.Script([mark], pattern, true), d2)]
  {
    var s1, s2 := SedWords(Sed.Script(pattern, [mark], true), d1), SedWords(Sed.Script([mark], pattern, true), d2);
    SplitHead(s1, Pipe, s2);
    SplitWhole(s2, Pipe);
    assert [s1] + [s2] == [s1, s2];
  }

  /** sed s/p/x/g | sed s/x/p/g, with any printable delimiters, in the middle of a pipeline:
      nothing changes when the byte x does not occur in what passes. */
  lemma SedPairIsTransparent(w: World, pattern: seq<Byte>, mark: Byte, d1: Byte, d2: Byte, st: State)
    requires HasSed(w) && 0 < |st.pipe| <= MAX_IO
    requires pattern != [] && mark !in st.pipe
    requires Printable(Sed.Script(pattern, [mark], true), d1) && Printable(Sed.Script([mark], pattern, true), d2)
    ensures RunInner(w, SplitOn(SedPair(pattern, mark, d1, d2), Pipe), false, st) == (st, Finished)
  {
    var there, back := Sed.Script(pattern, [mark], true), Sed.Script([mark], pattern, true);
    var s1, s2 := SedWords(there, d1), SedWords(back, d2);
    SedPairStages(pattern, mark, d1, d2);
    SedUndone(pattern, mark, st.pipe);
    SedStage(w, there, d1, st);
    var next := st.(pipe := Substituted(there, st.pipe));
    SedStage(w, back, d2, next);
    assert [s1, s2][1..] == [s2];
    InnerOne(w, s2, false, next);
  }

  /** The pipe never holds more than 4096 bytes behind a stage. */
  lemma {:induction false} PipeIsBounded(w: World, a: seq<seq<Lexeme>>, first: bool, st: State)
    requires a != []
    ensures var r := RunInner(w, a, first, st); r.1 == Finished ==> |r.0.pipe| <= MAX_IO
    decreases |a|
  {
    var r := RunStage(w, a[0], first, false, st);
    if r.1 == Finished {
      PipeAfterStage(w, a[0], first, st);
      if |a| > 1 { PipeIsBounded(w, a[1..], false, r.0); }
    }
  }

  lemma PipeAfterStage(w: World, tokens: seq<Lexeme>, first: bool, st: State)
    ensures var r := RunStage(w, tokens, first, false, st); r.1 == Finished ==> |r.0.pipe| <= MAX_IO
  {
    var r := RunStage(w, tokens, first, false, st);
    if r.1 == Finished {
      var stage := ParseStage(tokens, first, false).value;
      var input := StageInput(w, stage, first, st);
      var x := Exec(w, stage.cmd, stage.args, input.stdin, st.ram);
      CaptureIsPrefix(Sink(true, [], st.console), x.result.writes);
    }
  }

  lemma {:induction false} SplitConcat(a: seq<Lexeme>, b: seq<Lexeme>)
    ensures SplitOn(a + [Pipe] + b, Pipe) == SplitOn(a, Pipe) + SplitOn(b, Pipe)
    decreases |a|
  {
    var i := IndexOf(a, Pipe);
    if i == |a| {
      SplitHead(a, Pipe, b);
    } else {
      var rest := a[i + 1..];
      assert a + [Pipe] + b == a[..i] + [Pipe] + (rest + [Pipe] + b);
      SplitHead(a[..i], Pipe, rest + [Pipe] + b);
      SplitConcat(rest, b);
      ConcatAssoc([a[..i]], SplitOn(rest, Pipe), SplitOn(b, Pipe));
    }
  }

  /** More non-empty stages, within the limit. */
  lemma SameVerdict(pa: seq<seq<Lexeme>>, mid: seq<seq<Lexeme>>, pb: seq<seq<Lexeme>>)
    requires [] !in mid && |pa| + |mid| + |pb| <= MAX_PIPE_STAGES
    ensures SplitVerdict(pa + mid + pb).Ok? <==> SplitVerdict(pa + pb).Ok?
    ensures SplitVerdict(pa + pb).Err? ==> SplitVerdict(pa + mid + pb) == SplitVerdict(pa + pb)
  {
  }

  /** The state in which a pipeline that starts with a would go on behind it. */
  function Behind(w: World, a: seq<Lexeme>, st: State): (State, End) {
    RunInner(w, SplitOn(a, Pipe), true, st.(pipe := []))
  }

  /** On the command line: stages that together leave the state reached there as it is can
      be put between two parts of a pipeline that stays within four stages. */
  lemma InsertStages(w: World, a: seq<Lexeme>, mid: seq<Lexeme>, b: seq<Lexeme>, st: State)
    requires [] !in SplitOn(mid, Pipe)
    requires |SplitOn(a, Pipe)| + |SplitOn(mid, Pipe)| + |SplitOn(b, Pipe)| <= MAX_PIPE_STAGES
    requires var r := Behind(w, a, st);
             r.1 == Finished ==> RunInner(w, SplitOn(mid, Pipe), false, r.0) == (r.0, Finished)
    ensures Dispatch(w, a + [Pipe] + (mid + [Pipe] + b), st) == Dispatch(w, a + [Pipe] + b, st)
  {
    var pa, pm, pb := SplitOn(a, Pipe), SplitOn(mid, Pipe), SplitOn(b, Pipe);
    SplitConcat(a, b);
    SplitConcat(a, mid + [Pipe] + b);
    SplitConcat(mid, b);
    ConcatAssoc(pa, pm, pb);
    SameVerdict(pa, pm, pb);
    InsertTransparent(w, pa, pm, pb, st.(pipe := []));
  }

  /** "| cat" or "| tee" changes nothing wherever the stages before it, if they get that far,
      have some output. */
  lemma InsertFilter(w: World, a: seq<Lexeme>, b: seq<Lexeme>, filter: seq<Byte>, st: State)
    requires IsFilter(w, filter) && |SplitOn(a, Pipe)| + |SplitOn(b, Pipe)| < MAX_PIPE_STAGES
    requires var r := Behind(w, a, st); r.1 == Finished ==> r.0.pipe != []
    ensures Dispatch(w, a + [Pipe] + ([Word(filter)] + [Pipe] + b), st) == Dispatch(w, a + [Pipe] + b, st)
  {
    var r := Behind(w, a, st);
    if r.1 == Finished {
      PipeIsBounded(w, SplitOn(a, Pipe), true, st.(pipe := []));
      FilterIsTransparent(w, filter, r.0);
    }
    SplitWhole([Word(filter)], Pipe);
    InsertStages(w, a, [Word(filter)], b, st);
  }

  /** "| tee f |" between two parts of a line: the second part runs on what the first one
      hands on, with f holding exactly that. */
  lemma TeeFileInside(w: World, a: seq<Lexeme>, f: seq<Byte>, b: seq<Lexeme>, st: State)
    requires HasTee(w) && |SplitOn(a, Pipe)| + |SplitOn(b, Pipe)| < MAX_PIPE_STAGES
    requires [] !in SplitOn(a, Pipe) && [] !in SplitOn(b, Pipe)
    requires AsciiText.IsField(f) && NUL !in f && |f| <= MAX_ARGS && f !in StaticPaths(w.statics)
    requires var r := Behind(w, a, st);
             r.1 == Finished && r.0.pipe != [] && WriteAccepted(r.0.ram, f) && UniquePaths(r.0.ram)
    ensures var r := Behind(w, a, st).0;
            var written := WriteFile(r.ram, f, r.pipe);
            && Dispatch(w, a + [Pipe] + ([Word(TEE), Word(f)] + [Pipe] + b), st)
                 == RunStages(w, SplitOn(b, Pipe), false, r.(ram := written))
            && ReadFile(w.statics, written, f) == Some(r.pipe)
  {
    var pa, tee, pb := SplitOn(a, Pipe), [Word(TEE), Word(f)], SplitOn(b, Pipe);
    var r := Behind(w, a, st).0;
    SplitConcat(a, tee + [Pipe] + b);
    SplitConcat(tee, b);
    SplitWhole(tee, Pipe);
    NoEmptyStage(pa, [tee] + pb);
    RunConcat(w, pa, [tee] + pb, true, st.(pipe := []));
    PipeIsBounded(w, pa, true, st.(pipe := []));
    TeeFileKeepsPipe(w, f, r);
    RunConcat(w, [tee], pb, false, r);
  }

  lemma NoEmptyStage(pa: seq<seq<Lexeme>>, pb: seq<seq<Lexeme>>)
    requires [] !in pa && [] !in pb && |pa| + |pb| <= MAX_PIPE_STAGES
    ensures SplitVerdict(pa + pb) == Ok(|pa| + |pb|)
  {
  }

  /** "| sed s/p/x/g | sed s/x/p/g" changes nothing between two stages when the first one has
      some output and the byte x does not occur in it. */
  lemma InsertSedPair(w: World, a: seq<Lexeme>, b: seq<Lexeme>, pattern: seq<Byte>, mark: Byte,
                      d1: Byte, d2: Byte, st: State)
    requires HasSed(w) && |SplitOn(a, Pipe)| == |SplitOn(b, Pipe)| == 1
    requires var r := Behind(w, a, st); r.1 == Finished ==> r.0.pipe != [] && mark !in r.0.pipe
    requires pattern != []
    requires Printable(Sed.Script(pattern, [mark], true), d1) && Printable(Sed.Script([mark], pattern, true), d2)
    ensures Dispatch(w, a + [Pipe] + (SedPair(pattern, mark, d1, d2) + [Pipe] + b), st)
         == Dispatch(w, a + [Pipe] + b, st)
  {
    var r := Behind(w, a, st);
    SedPairStages(pattern, mark, d1, d2);
    if r.1 == Finished {
      PipeIsBounded(w, SplitOn(a, Pipe), true, st.(pipe := []));
      SedPairIsTransparent(w, pattern, mark, d1, d2, r.0);
    }
    InsertStages(w, a, SedPair(pattern, mark, d1, d2), b, st);
  }
}
