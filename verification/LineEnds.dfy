/** The ends of lines: what changes, and what does not, when a line goes on into cat, tee or a
    pair of sed, with and without an output file. */
module LineEnds {
  import opened Bytes
  import opened ShellLexer
  import opened ShellStages
  import opened RamFiles
  import opened StreamIo
  import opened StreamPrograms
  import opened Pipeline
  import opened Filters
  import AsciiText
  import Sed

  lemma {:induction false} PlainHasNoOuts(tokens: seq<Lexeme>)
    requires RedirectOut !in tokens && PartsOf(tokens).Some?
    ensures PartsOf(tokens).value.outs == []
    decreases |tokens|
  {
    if tokens != [] { PlainHasNoOuts(tokens[if tokens[0].Word? then 1 else 2..]); }
  }

  /** Without an output file a stage is parsed the same in the middle and at the end. */
  lemma SameWhenLast(tokens: seq<Lexeme>, first: bool)
    requires RedirectOut !in tokens
    ensures ParseStage(tokens, first, true) == ParseStage(tokens, first, false)
    ensures ParseStage(tokens, first, true).Some? ==> ParseStage(tokens, first, true).value.outFile == None
  {
    if PartsOf(tokens).Some? { PlainHasNoOuts(tokens); }
  }

  /** The write calls of the program of a stage. */
  function Writes(w: World, tokens: seq<Lexeme>, first: bool, st: State): seq<seq<Byte>> {
    match ParseStage(tokens, first, false)
    case None => []
    case Some(stage) =>
      if IsBuiltin(stage.cmd) then []
      else
        match StageInput(w, stage, first, st)
        case NoInput(_) => []
        case Input(stdin, _) => Exec(w, stage.cmd, stage.args, stdin, st.ram).result.writes
  }

  lemma StageRuns(w: World, tokens: seq<Lexeme>, first: bool, last: bool, st: State, stage: Stage)
    requires ParseStage(tokens, first, last) == Some(stage) && !IsBuiltin(stage.cmd)
    requires StageInput(w, stage, first, st).Input?
    ensures var input := StageInput(w, stage, first, st);
            RunStage(w, tokens, first, last, st) == RunProgram(w, stage, last, input.stdin, st.(pipe := input.pipe))
  {
  }

  lemma StageStops(w: World, tokens: seq<Lexeme>, first: bool, last: bool, st: State, stage: Stage)
    requires ParseStage(tokens, first, last) == Some(stage)
    requires IsBuiltin(stage.cmd) || StageInput(w, stage, first, st).NoInput?
    ensures RunStage(w, tokens, first, last, st)
         == (st, if IsBuiltin(stage.cmd) then BuiltinStage else StageInput(w, stage, first, st).end)
  {
  }

  /** A program at the end shows what it would have put into the pipe, and what then came too
      late for it. */
  lemma ProgramShows(w: World, stage: Stage, stdin: Option<seq<Byte>>, st: State)
    requires stage.outFile == None
    ensures var mid, end := RunProgram(w, stage, false, stdin, st), RunProgram(w, stage, true, stdin, st);
            var writes := Exec(w, stage.cmd, stage.args, stdin, st.ram).result.writes;
            && end.1 == mid.1 && end.0.ram == mid.0.ram && (end.1 == Finished || end.1 == UnknownCommand)
            && (end.1 == Finished ==>
                  && mid.0.pipe == Take(Flatten(writes), MAX_IO)
                  && mid.0.console == st.console + Late(MAX_IO, writes)
                  && end.0.console == st.console + Flatten(writes))
  {
    var writes := Exec(w, stage.cmd, stage.args, stdin, st.ram).result.writes;
    CaptureIsPrefix(Sink(true, [], st.console), writes);
    LateIsShown(Sink(true, [], st.console), writes);
    UncapturedIsShown(Sink(false, [], st.console), writes);
    assert [] + Flatten(writes) == Flatten(writes);
  }

  lemma LastShowsPipe(w: World, tokens: seq<Lexeme>, first: bool, st: State)
    requires RedirectOut !in tokens
    ensures var mid, end := RunStage(w, tokens, first, false, st), RunStage(w, tokens, first, true, st);
            && end.1 == mid.1 && end.0.ram == mid.0.ram
            && (end.1 == Finished ==>
                  var writes := Writes(w, tokens, first, st);
                  && mid.0.pipe == Take(Flatten(writes), MAX_IO)
                  && mid.0.console == st.console + Late(MAX_IO, writes)
                  && end.0.console == st.console + Flatten(writes))
            && (end.1 != Finished && end.1 != UnknownCommand ==> end.0.console == mid.0.console)
  {
    SameWhenLast(tokens, first);
    if ParseStage(tokens, first, false).Some? {
      var stage := ParseStage(tokens, first, false).value;
      var input := StageInput(w, stage, first, st);
      if !IsBuiltin(stage.cmd) && input.Input? {
        StageRuns(w, tokens, first, false, st, stage);
        StageRuns(w, tokens, first, true, st, stage);
        ProgramShows(w, stage, input.stdin, st.(pipe := input.pipe));
      } else {
        StageStops(w, tokens, first, false, st, stage);
        StageStops(w, tokens, first, true, st, stage);
      }
    }
  }

  /** Two outcomes with the same reason to stop, the same files, and the same console, unless
      both stop because a program was not found. */
  predicate SameEffect(a: (State, End), b: (State, End)) {
    a.1 == b.1 && a.0.ram == b.0.ram && (a.1 != UnknownCommand ==> a.0.console == b.0.console)
  }

  lemma {:induction false} InnerConcat(w: World, a: seq<seq<Lexeme>>, b: seq<seq<Lexeme>>, first: bool, st: State)
    ensures RunInner(w, a + b, first, st)
         == var r := RunInner(w, a, first, st);
            if r.1 == Finished then RunInner(w, b, first && a == [], r.0) else r
    decreases |a|
  {
    if a == [] {
      assert a + b == b;
    } else {
      assert (a + b)[1..] == a[1..] + b;
      var r := RunStage(w, a[0], first, false, st);
      if r.1 == Finished { InnerConcat(w, a[1..], b, false, r.0); }
    }
  }

  /** The last stage of a line, and the state in which it starts. */
  function LastStage(ls: seq<Lexeme>): seq<Lexeme> {
    SplitOn(ls, Pipe)[|SplitOn(ls, Pipe)| - 1]
  }

  function InnerStages(ls: seq<Lexeme>): seq<seq<Lexeme>> {
    SplitOn(ls, Pipe)[..|SplitOn(ls, Pipe)| - 1]
  }

  function BeforeLast(w: World, ls: seq<Lexeme>, st: State): (State, End) {
    RunInner(w, InnerStages(ls), true, st.(pipe := []))
  }

  /** The write calls of the last stage of a line, if the stages before it get that far. */
  function LastWrites(w: World, ls: seq<Lexeme>, st: State): seq<seq<Byte>> {
    var r := BeforeLast(w, ls, st);
    if r.1 == Finished then Writes(w, LastStage(ls), InnerStages(ls) == [], r.0) else []
  }

  lemma {:induction false} EmptyStageStops(w: World, pieces: seq<seq<Lexeme>>, first: bool, st: State)
    requires [] in pieces
    ensures RunInner(w, pieces, first, st).1 != Finished
    decreases |pieces|
  {
    if pieces[0] != [] {
      var r := RunStage(w, pieces[0], first, false, st);
      if r.1 == Finished { EmptyStageStops(w, pieces[1..], false, r.0); }
    }
  }

  /** Two ways to end a line have the same effect exactly when they have it on the state in
      front of them. */
  lemma LastDecides(w: World, ls: seq<Lexeme>, x: seq<Lexeme>, y: seq<Lexeme>,
                    one: seq<seq<Lexeme>>, two: seq<seq<Lexeme>>, st: State)
    requires one != [] && two != []
    requires SplitOn(x, Pipe) == InnerStages(ls) + one && SplitOn(y, Pipe) == InnerStages(ls) + two
    requires SplitVerdict(SplitOn(x, Pipe)).Ok? && SplitVerdict(SplitOn(y, Pipe)).Ok?
    ensures var r := BeforeLast(w, ls, st);
            (SameEffect(Dispatch(w, x, st), Dispatch(w, y, st)))
              <==> (r.1 == Finished ==> SameEffect(RunStages(w, one, InnerStages(ls) == [], r.0),
                                                   RunStages(w, two, InnerStages(ls) == [], r.0)))
  {
    RunConcat(w, InnerStages(ls), one, true, st.(pipe := []));
    RunConcat(w, InnerStages(ls), two, true, st.(pipe := []));
  }

  /** What the line hands on is what its last stage hands on. */
  lemma BehindLast(w: World, ls: seq<Lexeme>, st: State)
    ensures Behind(w, ls, st)
         == var r := BeforeLast(w, ls, st);
            if r.1 == Finished then RunStage(w, LastStage(ls), InnerStages(ls) == [], false, r.0) else r
  {
    StagesOf(ls);
    InnerConcat(w, InnerStages(ls), [LastStage(ls)], true, st.(pipe := []));
    var r := BeforeLast(w, ls, st);
    if r.1 == Finished { InnerOne(w, LastStage(ls), InnerStages(ls) == [], r.0); }
  }

  lemma StagesOf(ls: seq<Lexeme>)
    ensures InnerStages(ls) + [LastStage(ls)] == SplitOn(ls, Pipe)
  {
  }

  // Stages that copy.

  /** At the end of a line these stages show what they are given and leave the files alone. */
  ghost predicate Copies(w: World, mid: seq<seq<Lexeme>>, st: State) {
    var r := RunStages(w, mid, false, st);
    r.1 == Finished && r.0.ram == st.ram && r.0.console == st.console + st.pipe
  }

  lemma CancelFront(c: seq<Byte>, a: seq<Byte>, b: seq<Byte>)
    ensures c + a == c + b <==> a == b
  {
    assert (c + a)[|c|..] == a && (c + b)[|c|..] == b;
  }

  lemma OneStage(w: World, tokens: seq<Lexeme>, first: bool, st: State)
    ensures RunStages(w, [tokens], first, st) == RunStage(w, tokens, first, true, st)
  {
    assert [tokens][1..] == [];
  }

  /** Behind one stage: the writes of its program decide. */
  lemma AppendToStage(w: World, tokens: seq<Lexeme>, first: bool, mid: seq<seq<Lexeme>>, st: State)
    requires RedirectOut !in tokens && mid != []
    requires var r := RunStage(w, tokens, first, false, st); r.1 == Finished ==> Copies(w, mid, r.0)
    ensures SameEffect(RunStages(w, [tokens], first, st), RunStages(w, [tokens] + mid, first, st))
        <==> (RunStage(w, tokens, first, false, st).1 == Finished ==> PassesWhole(Writes(w, tokens, first, st)))
  {
    var writes := Writes(w, tokens, first, st);
    OneStage(w, tokens, first, st);
    RunConcat(w, [tokens], mid, first, st);
    InnerOne(w, tokens, first, st);
    LastShowsPipe(w, tokens, first, st);
    LateThenCapture(writes);
    CancelFront(st.console, Late(MAX_IO, writes) + Take(Flatten(writes), MAX_IO), Flatten(writes));
    ConcatAssoc(st.console, Late(MAX_IO, writes), Take(Flatten(writes), MAX_IO));
  }

  lemma LongerLine(ls: seq<Lexeme>, m: seq<Lexeme>)
    ensures SplitOn(ls + [Pipe] + m, Pipe) == InnerStages(ls) + ([LastStage(ls)] + SplitOn(m, Pipe))
  {
    SplitConcat(ls, m);
    StagesOf(ls);
    ConcatAssoc(InnerStages(ls), [LastStage(ls)], SplitOn(m, Pipe));
  }

  /** Copying stages behind any line that ends without an output file change nothing exactly
      when the output of its last stage, if it gets that far, passes a pipe whole. */
  lemma AppendStages(w: World, ls: seq<Lexeme>, m: seq<Lexeme>, st: State)
    requires [] !in SplitOn(m, Pipe) && |SplitOn(ls, Pipe)| + |SplitOn(m, Pipe)| <= MAX_PIPE_STAGES
    requires RedirectOut !in LastStage(ls)
    requires var r := Behind(w, ls, st); r.1 == Finished ==> Copies(w, SplitOn(m, Pipe), r.0)
    ensures SameEffect(Dispatch(w, ls, st), Dispatch(w, ls + [Pipe] + m, st))
        <==> (Behind(w, ls, st).1 == Finished ==> PassesWhole(LastWrites(w, ls, st)))
  {
    var pieces, mid := SplitOn(ls, Pipe), SplitOn(m, Pipe);
    SplitConcat(ls, m);
    assert pieces + mid + [] == pieces + mid && pieces + [] == pieces;
    SameVerdict(pieces, mid, []);
    if SplitVerdict(pieces).Err? {
      EmptyStageStops(w, pieces, true, st.(pipe := []));
    } else {
      AppendGood(w, ls, m, st);
    }
  }

  lemma AppendGood(w: World, ls: seq<Lexeme>, m: seq<Lexeme>, st: State)
    requires SplitVerdict(SplitOn(ls, Pipe)).Ok? && SplitVerdict(SplitOn(ls + [Pipe] + m, Pipe)).Ok?
    requires RedirectOut !in LastStage(ls)
    requires var r := Behind(w, ls, st); r.1 == Finished ==> Copies(w, SplitOn(m, Pipe), r.0)
    ensures SameEffect(Dispatch(w, ls, st), Dispatch(w, ls + [Pipe] + m, st))
        <==> (Behind(w, ls, st).1 == Finished ==> PassesWhole(LastWrites(w, ls, st)))
  {
    var mid := SplitOn(m, Pipe);
    BehindLast(w, ls, st);
    StagesOf(ls);
    LongerLine(ls, m);
    LastDecides(w, ls, ls, ls + [Pipe] + m, [LastStage(ls)], [LastStage(ls)] + mid, st);
    var r := BeforeLast(w, ls, st);
    if r.1 == Finished { AppendToStage(w, LastStage(ls), InnerStages(ls) == [], mid, r.0); }
  }

  lemma LastFilter(w: World, filter: seq<Byte>, st: State)
    requires IsFilter(w, filter) && 0 < |st.pipe| <= MAX_IO
    ensures RunStage(w, [Word(filter)], false, true, st) == (st.(console := st.console + st.pipe), Finished)
  {
    FilterParse(filter);
    PlainExec(w, filter, [], st.pipe, st.ram);
    UncapturedIsShown(Sink(false, [], st.console), CatRun(st.pipe, st.ram).writes);
    ChunksConserve(st.pipe, CHUNK);
  }

  lemma FilterParse(filter: seq<Byte>)
    ensures ParseStage([Word(filter)], false, true) == Some(Stage(filter, [], None, None))
  {
    MiddleParse(filter, []);
    assert [Word(filter)] + [] == [Word(filter)];
    SameWhenLast([Word(filter)], false);
  }

  /** "| cat" and "| tee" behind any line whose last stage, if it gets that far, writes
      something: they change nothing exactly when that passes a pipe whole. */
  lemma AppendFilter(w: World, ls: seq<Lexeme>, filter: seq<Byte>, st: State)
    requires IsFilter(w, filter) && |SplitOn(ls, Pipe)| < MAX_PIPE_STAGES && RedirectOut !in LastStage(ls)
    requires var r := Behind(w, ls, st); r.1 == Finished ==> r.0.pipe != []
    ensures SameEffect(Dispatch(w, ls, st), Dispatch(w, ls + [Pipe] + [Word(filter)], st))
        <==> (Behind(w, ls, st).1 == Finished ==> PassesWhole(LastWrites(w, ls, st)))
  {
    var r := Behind(w, ls, st);
    SplitWhole([Word(filter)], Pipe);
    if r.1 == Finished {
      PipeIsBounded(w, SplitOn(ls, Pipe), true, st.(pipe := []));
      OneStage(w, [Word(filter)], false, r.0);
      LastFilter(w, filter, r.0);
    }
    AppendStages(w, ls, [Word(filter)], st);
  }

  /** A line whose last program fills the pipe and then writes a line end: behind "| cat" or
      "| tee" the line end is shown first. */
  lemma LineEndIsEarly(w: World, ls: seq<Lexeme>, filter: seq<Byte>, st: State, data: seq<Byte>)
    requires IsFilter(w, filter) && |SplitOn(ls, Pipe)| < MAX_PIPE_STAGES && RedirectOut !in LastStage(ls)
    requires SplitVerdict(SplitOn(ls, Pipe)).Ok? && Behind(w, ls, st).1 == Finished
    requires LastWrites(w, ls, st) == [data, [NEWLINE]] && |data| == MAX_IO && data[0] != NEWLINE
    ensures var shown := BeforeLast(w, ls, st).0.console;
            var plain, piped := Dispatch(w, ls, st), Dispatch(w, ls + [Pipe] + [Word(filter)], st);
            && plain.1 == piped.1 == Finished
            && plain.0.console == shown + (data + [NEWLINE]) && piped.0.console == shown + [NEWLINE] + data
            && !SameEffect(plain, piped)
  {
    var pieces, last, r := SplitOn(ls, Pipe), LastStage(ls), BeforeLast(w, ls, st);
    var start := st.(pipe := []);
    BehindLast(w, ls, st);
    StagesOf(ls);
    LineEndComesFirst(data);
    LastShowsPipe(w, last, InnerStages(ls) == [], r.0);
    assert Take(data + [NEWLINE], MAX_IO) == data;
    OneMoreStage(ls, [Word(filter)]);
    NoEmptyStage(pieces, [[Word(filter)]]);
    LastFilter(w, filter, Behind(w, ls, st).0);
    RunConcat(w, InnerStages(ls), [last], true, start);
    RunConcat(w, pieces, [[Word(filter)]], true, start);
    OneStage(w, last, InnerStages(ls) == [], r.0);
    OneStage(w, [Word(filter)], false, Behind(w, ls, st).0);
    AppendFilter(w, ls, filter, st);
  }

  /** The pair of sed at the end of a line of at most two stages. */
  lemma AppendSedPair(w: World, ls: seq<Lexeme>, pattern: seq<Byte>, mark: Byte, d1: Byte, d2: Byte, st: State)
    requires HasSed(w) && |SplitOn(ls, Pipe)| + 2 <= MAX_PIPE_STAGES && RedirectOut !in LastStage(ls)
    requires var r := Behind(w, ls, st); r.1 == Finished ==> r.0.pipe != [] && mark !in r.0.pipe
    requires pattern != []
    requires Printable(Sed.Script(pattern, [mark], true), d1) && Printable(Sed.Script([mark], pattern, true), d2)
    ensures var pair := SedPair(pattern, mark, d1, d2);
            (SameEffect(Dispatch(w, ls, st), Dispatch(w, ls + [Pipe] + pair, st)))
              <==> (Behind(w, ls, st).1 == Finished ==> PassesWhole(LastWrites(w, ls, st)))
  {
    var r := Behind(w, ls, st);
    SedPairStages(pattern, mark, d1, d2);
    if r.1 == Finished {
      PipeIsBounded(w, SplitOn(ls, Pipe), true, st.(pipe := []));
      SedPairCopies(w, pattern, mark, d1, d2, r.0);
    }
    AppendStages(w, ls, SedPair(pattern, mark, d1, d2), st);
  }

  lemma SedPairCopies(w: World, pattern: seq<Byte>, mark: Byte, d1: Byte, d2: Byte, st: State)
    requires HasSed(w) && 0 < |st.pipe| <= MAX_IO && pattern != [] && mark !in st.pipe
    requires Printable(Sed.Script(pattern, [mark], true), d1) && Printable(Sed.Script([mark], pattern, true), d2)
    ensures Copies(w, SplitOn(SedPair(pattern, mark, d1, d2), Pipe), st)
  {
    var there, back := Sed.Script(pattern, [mark], true), Sed.Script([mark], pattern, true);
    var s1, s2 := SedWords(there, d1), SedWords(back, d2);
    SedPairStages(pattern, mark, d1, d2);
    SedUndone(pattern, mark, st.pipe);
    SedStage(w, there, d1, st);
    var next := st.(pipe := Substituted(there, st.pipe));
    SedStage(w, back, d2, next);
    assert [s1] + [s2] == [s1, s2];
    RunConcat(w, [s1], [s2], false, st);
    InnerOne(w, s1, false, st);
    OneStage(w, s2, false, next);
    LastSed(w, back, d2, next);
  }

  lemma LastSed(w: World, script: Sed.Script, delim: Byte, st: State)
    requires HasSed(w) && Printable(script, delim) && 0 < |st.pipe| <= MAX_IO
    ensures RunStage(w, SedWords(script, delim), false, true, st)
         == (st.(console := st.console + Substituted(script, st.pipe)), Finished)
  {
    var text, out := Sed.PrintScript(script, delim), Substituted(script, st.pipe);
    ProgramsArePlain();
    MiddleParse(SED, [text]);
    assert [Word(SED)] + [Word(text)] == SedWords(script, delim);
    SameWhenLast(SedWords(script, delim), false);
    PlainExec(w, SED, text, st.pipe, st.ram);
    SedArgument(script, delim);
    SedIsOneSubstitution(script, st.pipe, st.ram);
    UncapturedIsShown(Sink(false, [], st.console), [out]);
    assert Flatten([out]) == out + [];
  }

  // tee with a file.

  lemma OneMoreStage(ls: seq<Lexeme>, more: seq<Lexeme>)
    requires Pipe !in more
    ensures SplitOn(ls + [Pipe] + more, Pipe) == SplitOn(ls, Pipe) + [more] == InnerStages(ls) + [LastStage(ls), more]
  {
    SplitConcat(ls, more);
    SplitWhole(more, Pipe);
    StagesOf(ls);
    ConcatAssoc(InnerStages(ls), [LastStage(ls)], [more]);
    assert [LastStage(ls)] + [more] == [LastStage(ls), more];
  }

  /** "| tee f" behind any line shows what the line hands on and leaves f holding exactly
      that. */
  lemma TeeFileAtEnd(w: World, ls: seq<Lexeme>, f: seq<Byte>, st: State)
    requires HasTee(w) && |SplitOn(ls, Pipe)| < MAX_PIPE_STAGES && [] !in SplitOn(ls, Pipe)
    requires AsciiText.IsField(f) && NUL !in f && |f| <= MAX_ARGS && f !in StaticPaths(w.statics)
    requires var r := Behind(w, ls, st);
             r.1 == Finished && r.0.pipe != [] && WriteAccepted(r.0.ram, f) && UniquePaths(r.0.ram)
    ensures var r, end := Behind(w, ls, st).0, Dispatch(w, ls + [Pipe] + [Word(TEE), Word(f)], st);
            && end.1 == Finished && end.0.console == r.console + r.pipe
            && ReadFile(w.statics, end.0.ram, f) == Some(r.pipe)
            && end.0.ram == WriteFile(r.ram, f, r.pipe)
  {
    var pieces, tee := SplitOn(ls, Pipe), [Word(TEE), Word(f)];
    OneMoreStage(ls, tee);
    RunConcat(w, pieces, [tee], true, st.(pipe := []));
    PipeIsBounded(w, pieces, true, st.(pipe := []));
    var r := Behind(w, ls, st).0;
    LastTee(w, f, r);
    assert [tee][1..] == [];
  }

  lemma LastTee(w: World, f: seq<Byte>, st: State)
    requires HasTee(w) && 0 < |st.pipe| <= MAX_IO && UniquePaths(st.ram)
    requires AsciiText.IsField(f) && NUL !in f && |f| <= MAX_ARGS
    requires WriteAccepted(st.ram, f) && f !in StaticPaths(w.statics)
    ensures var ram := WriteFile(st.ram, f, st.pipe);
            && RunStage(w, [Word(TEE), Word(f)], false, true, st)
                 == (State(st.pipe, ram, st.console + st.pipe), Finished)
            && ReadFile(w.statics, ram, f) == Some(st.pipe)
  {
    ProgramsArePlain();
    TeeParse(f);
    PlainExec(w, TEE, f, st.pipe, st.ram);
    AsciiText.FirstField(f, []);
    assert f + [] == f;
    CStringWhole(f);
    TeeKeepsStream(f, f, st.pipe, w.statics, st.ram);
    ShownByTee(f, st);
  }

  lemma TeeParse(f: seq<Byte>)
    requires |f| <= MAX_ARGS
    ensures ParseStage([Word(TEE), Word(f)], false, true) == Some(Stage(TEE, f, None, None))
  {
    MiddleParse(TEE, [f]);
    assert [Word(TEE)] + [Word(f)] == [Word(TEE), Word(f)];
    SameWhenLast([Word(TEE), Word(f)], false);
  }

  lemma ShownByTee(f: seq<Byte>, st: State)
    requires TeeRun(f, st.pipe, st.ram).writes == Chunks(st.pipe, CHUNK)
    ensures EmitAll(Sink(false, [], st.console), TeeRun(f, st.pipe, st.ram).writes).console == st.console + st.pipe
  {
    UncapturedIsShown(Sink(false, [], st.console), TeeRun(f, st.pipe, st.ram).writes);
    ChunksConserve(st.pipe, CHUNK);
  }

  // Output files.

  function Into(file: seq<Byte>): seq<Lexeme> { [RedirectOut, Word(file)] }

  lemma IntoParts(file: seq<Byte>)
    ensures PartsOf(Into(file)) == Some(Parts([], [], [file]))
  {
    PlusNone(Parts([], [], [file]));
    assert Into(file)[2..] == [];
  }

  lemma {:induction false} BrokenStays(a: seq<Lexeme>, file: seq<Byte>)
    requires PartsOf(a).None?
    ensures PartsOf(a + Into(file)).None?
    decreases |a|
  {
    var s := a + Into(file);
    if a[0].Word? {
      assert s[1..] == a[1..] + Into(file);
      BrokenStays(a[1..], file);
    } else if |a| > 1 && a[1].Word? && !a[0].Pipe? {
      assert s[2..] == a[2..] + Into(file);
      BrokenStays(a[2..], file);
    }
  }

  /** An output file behind a stage is the only new thing in it. */
  lemma ParseInto(tokens: seq<Lexeme>, file: seq<Byte>, first: bool)
    ensures ParseStage(tokens + Into(file), first, true)
         == match ParseStage(tokens, first, false)
            case None => None
            case Some(stage) => Some(stage.(outFile := Some(file)))
    ensures ParseStage(tokens, first, false).Some? ==> ParseStage(tokens, first, false).value.outFile == None
  {
    if PartsOf(tokens).None? {
      BrokenStays(tokens, file);
    } else {
      var p := PartsOf(tokens).value;
      PartsConcat(tokens, Into(file));
      IntoParts(file);
      assert p.Plus(Parts([], [], [file])) == Parts(p.words, p.ins, p.outs + [file]);
      if p.outs == [] { assert [] + [file] == [file]; }
    }
  }

  /** The output file of a stage gets what the pipe would have got. */
  lemma IntoFile(w: World, tokens: seq<Lexeme>, file: seq<Byte>, first: bool, st: State)
    ensures var mid, end := RunStage(w, tokens, first, false, st), RunStage(w, tokens + Into(file), first, true, st);
            SameEffect(end, if mid.1 == Finished then StageOutput(w, file, mid.0.pipe, mid.0) else mid)
  {
    ParseInto(tokens, file, first);
    if ParseStage(tokens, first, false).Some? {
      var stage := ParseStage(tokens, first, false).value;
      var input := StageInput(w, stage, first, st);
      assert StageInput(w, stage.(outFile := Some(file)), first, st) == input;
      if !IsBuiltin(stage.cmd) && input.Input? {
        StageRuns(w, tokens, first, false, st, stage);
        StageRuns(w, tokens + Into(file), first, true, st, stage.(outFile := Some(file)));
        ProgramIntoFile(w, stage, file, input.stdin, st.(pipe := input.pipe));
      } else {
        StageStops(w, tokens, first, false, st, stage);
        StageStops(w, tokens + Into(file), first, true, st, stage.(outFile := Some(file)));
      }
    }
  }

  lemma ProgramIntoFile(w: World, stage: Stage, file: seq<Byte>, stdin: Option<seq<Byte>>, st: State)
    ensures var mid := RunProgram(w, stage, false, stdin, st);
            SameEffect(RunProgram(w, stage.(outFile := Some(file)), true, stdin, st),
                       if mid.1 == Finished then StageOutput(w, file, mid.0.pipe, mid.0) else mid)
  {
    var mid := RunProgram(w, stage, false, stdin, st);
    OutputIgnoresPipe(w, file, mid.0.pipe, mid.0, st.pipe);
  }

  lemma OutputIgnoresPipe(w: World, file: seq<Byte>, data: seq<Byte>, st: State, pipe: seq<Byte>)
    ensures SameEffect(StageOutput(w, file, data, st), StageOutput(w, file, data, st.(pipe := pipe)))
  {
  }

  lemma {:induction false} JoinLonger(inner: seq<seq<Lexeme>>, last: seq<Lexeme>, tail: seq<Lexeme>)
    ensures JoinWith(inner + [last + tail], Pipe) == JoinWith(inner + [last], Pipe) + tail
    decreases |inner|
  {
    if inner == [] {
      assert inner + [last] == [last] && inner + [last + tail] == [last + tail];
    } else {
      assert (inner + [last])[1..] == inner[1..] + [last] && (inner + [last + tail])[1..] == inner[1..] + [last + tail];
      JoinLonger(inner[1..], last, tail);
      ConcatAssoc(inner[0] + [Pipe], JoinWith(inner[1..] + [last], Pipe), tail);
    }
  }

  lemma SplitLonger(ls: seq<Lexeme>, tail: seq<Lexeme>)
    requires Pipe !in tail
    ensures SplitOn(ls + tail, Pipe) == InnerStages(ls) + [LastStage(ls) + tail]
  {
    var longer := InnerStages(ls) + [LastStage(ls) + tail];
    StagesOf(ls);
    JoinSplit(ls, Pipe);
    SplitIsFree(ls, Pipe);
    JoinLonger(InnerStages(ls), LastStage(ls), tail);
    forall k | 0 <= k < |longer| ensures Pipe !in longer[k] {
      if k < |longer| - 1 { assert longer[k] == SplitOn(ls, Pipe)[k]; }
    }
    SplitJoin(longer, Pipe);
  }

  /** What a line with an output file behind it comes to: the file gets what the line would
      have handed on. */
  function IntoOutcome(w: World, ls: seq<Lexeme>, file: seq<Byte>, st: State): (State, End) {
    match SplitVerdict(SplitOn(ls, Pipe))
    case Err(e) => (st, SplitFailed(e))
    case Ok(_) =>
      var r := Behind(w, ls, st);
      if r.1 == Finished then StageOutput(w, file, r.0.pipe, r.0) else r
  }

  lemma IntoLine(w: World, ls: seq<Lexeme>, file: seq<Byte>, st: State)
    requires LastStage(ls) != []
    ensures SameEffect(Dispatch(w, ls + Into(file), st), IntoOutcome(w, ls, file, st))
  {
    var inner, last := InnerStages(ls), LastStage(ls);
    SplitLonger(ls, Into(file));
    StagesOf(ls);
    VerdictIgnoresTail(inner, last, Into(file));
    RunConcat(w, inner, [last + Into(file)], true, st.(pipe := []));
    BehindLast(w, ls, st);
    var r := BeforeLast(w, ls, st);
    if r.1 == Finished {
      OneStage(w, last + Into(file), inner == [], r.0);
      IntoFile(w, last, file, inner == [], r.0);
    }
  }

  // What the output file holds afterwards, in terms of reads.

  lemma PipeHolds(w: World, tokens: seq<Lexeme>, first: bool, st: State)
    requires RunStage(w, tokens, first, false, st).1 == Finished
    ensures RunStage(w, tokens, first, false, st).0.pipe == Take(Flatten(Writes(w, tokens, first, st)), MAX_IO)
  {
    var stage := ParseStage(tokens, first, false).value;
    var input := StageInput(w, stage, first, st);
    StageRuns(w, tokens, first, false, st, stage);
    CaptureIsPrefix(Sink(true, [], st.console), Writes(w, tokens, first, st));
    assert [] + Flatten(Writes(w, tokens, first, st)) == Flatten(Writes(w, tokens, first, st));
  }

  /** What a line hands on are the first bytes of what its last program writes. */
  lemma HandedOn(w: World, ls: seq<Lexeme>, st: State)
    requires Behind(w, ls, st).1 == Finished
    ensures Behind(w, ls, st).0.pipe == Take(Flatten(LastWrites(w, ls, st)), MAX_IO)
  {
    BehindLast(w, ls, st);
    PipeHolds(w, LastStage(ls), InnerStages(ls) == [], BeforeLast(w, ls, st).0);
  }

  /** A file name that can be written: its full path is not too long, and the table has an
      entry for it. */
  predicate Writable(w: World, file: seq<Byte>, ram: Ram) {
    && ResolvePath(w.cwd, file).Resolved? && |FullPath(w.cwd, file)| < LIB_PATH
    && CanWrite(ram, CString(FullPath(w.cwd, file)))
  }

  lemma WrittenFile(w: World, file: seq<Byte>, data: seq<Byte>, st: State, p: seq<Byte>)
    ensures var r := StageOutput(w, file, data, st);
            && (r.1 == Finished <==> Writable(w, file, st.ram))
            && (r.1 != Finished ==> r.0.ram == st.ram)
            && (r.1 == Finished ==>
                  ReadFile(w.statics, r.0.ram, p)
                    == if p == CString(FullPath(w.cwd, file)) && p !in StaticPaths(w.statics)
                       then Some(Take(data, MAX_RAM_FILE_LEN)) else ReadFile(w.statics, st.ram, p))
  {
    ResolvePathMeans(w.cwd, file);
    var q := CString(FullPath(w.cwd, file));
    if Writable(w, file, st.ram) { ReadAfterWrite(st.ram, q, data, p); }
    var i := IndexOf(StaticPaths(w.statics), p);
    assert StaticRead(w.statics, p).Some? <==> p in StaticPaths(w.statics);
  }

  /** "> f" behind any line: the line with it finishes exactly when the line itself does and f
      can be written then. In that case f, if it is no built-in file, reads as the first 4096
      bytes of what the last program writes, and every other file as the programs left it;
      otherwise nothing is written. */
  lemma FileHoldsOutput(w: World, ls: seq<Lexeme>, file: seq<Byte>, st: State, p: seq<Byte>)
    requires LastStage(ls) != [] && SplitVerdict(SplitOn(ls, Pipe)).Ok?
    ensures var before, end := Behind(w, ls, st), Dispatch(w, ls + Into(file), st);
            && (end.1 == Finished <==> before.1 == Finished && Writable(w, file, before.0.ram))
            && (end.1 != Finished ==> end.0.ram == before.0.ram)
            && (end.1 == Finished ==>
                  ReadFile(w.statics, end.0.ram, p)
                    == if p == CString(FullPath(w.cwd, file)) && p !in StaticPaths(w.statics)
                       then Some(Take(Flatten(LastWrites(w, ls, st)), 4096))
                       else ReadFile(w.statics, before.0.ram, p))
  {
    IntoLine(w, ls, file, st);
    var r := Behind(w, ls, st);
    if r.1 == Finished {
      HandedOn(w, ls, st);
      WrittenFile(w, file, r.0.pipe, r.0, p);
    }
  }

  lemma VerdictIgnoresTail(inner: seq<seq<Lexeme>>, last: seq<Lexeme>, tail: seq<Lexeme>)
    requires last != []
    ensures SplitVerdict(inner + [last + tail]) == SplitVerdict(inner + [last])
  {
    var a, b := Take(inner + [last + tail], MAX_PIPE_STAGES), Take(inner + [last], MAX_PIPE_STAGES);
    assert |a| == |b| && forall k | 0 <= k < |a| :: a[k] == [] <==> b[k] == [];
    if [] in a {
      var k :| 0 <= k < |a| && a[k] == [];
      assert b[k] == [];
    }
    if [] in b {
      var k :| 0 <= k < |b| && b[k] == [];
      assert a[k] == [];
    }
  }

  lemma BehindLonger(w: World, ls: seq<Lexeme>, m: seq<Lexeme>, st: State)
    requires var r := Behind(w, ls, st);
             r.1 == Finished ==> RunInner(w, SplitOn(m, Pipe), false, r.0) == (r.0, Finished)
    ensures Behind(w, ls + [Pipe] + m, st) == Behind(w, ls, st)
  {
    var pieces, mid, start := SplitOn(ls, Pipe), SplitOn(m, Pipe), st.(pipe := []);
    var r := RunInner(w, pieces, true, start);
    assert Behind(w, ls, st) == r;
    SplitConcat(ls, m);
    HandsOn(w, pieces, mid, start);
  }

  lemma HandsOn(w: World, pieces: seq<seq<Lexeme>>, mid: seq<seq<Lexeme>>, st: State)
    requires pieces != []
    requires var r := RunInner(w, pieces, true, st); r.1 == Finished ==> RunInner(w, mid, false, r.0) == (r.0, Finished)
    ensures RunInner(w, pieces + mid, true, st) == RunInner(w, pieces, true, st)
  {
    InnerConcat(w, pieces, mid, true, st);
  }

  lemma LastOfLonger(ls: seq<Lexeme>, m: seq<Lexeme>)
    ensures LastStage(ls + [Pipe] + m) == LastStage(m)
  {
    SplitConcat(ls, m);
  }

  /** Stages that hand on what they get change nothing in front of an output file. */
  lemma RedirectThrough(w: World, ls: seq<Lexeme>, m: seq<Lexeme>, file: seq<Byte>, st: State)
    requires [] !in SplitOn(m, Pipe) && |SplitOn(ls, Pipe)| + |SplitOn(m, Pipe)| <= MAX_PIPE_STAGES
    requires LastStage(ls) != []
    requires var r := Behind(w, ls, st);
             r.1 == Finished ==> RunInner(w, SplitOn(m, Pipe), false, r.0) == (r.0, Finished)
    ensures SameEffect(Dispatch(w, ls + Into(file), st), Dispatch(w, ls + [Pipe] + m + Into(file), st))
  {
    var pieces, mid := SplitOn(ls, Pipe), SplitOn(m, Pipe);
    SplitConcat(ls, m);
    assert pieces + mid + [] == pieces + mid && pieces + [] == pieces;
    SameVerdict(pieces, mid, []);
    BehindLonger(w, ls, m, st);
    LastOfLonger(ls, m);
    IntoLine(w, ls, file, st);
    IntoLine(w, ls + [Pipe] + m, file, st);
  }

  /** "> f" and "| cat > f", or "| tee > f", behind any line leave the same files and console
      and end the same way, provided the line, if it gets that far, has some output. */
  lemma RedirectThroughFilter(w: World, ls: seq<Lexeme>, file: seq<Byte>, filter: seq<Byte>, st: State)
    requires IsFilter(w, filter) && |SplitOn(ls, Pipe)| < MAX_PIPE_STAGES && LastStage(ls) != []
    requires var r := Behind(w, ls, st); r.1 == Finished ==> r.0.pipe != []
    ensures SameEffect(Dispatch(w, ls + Into(file), st), Dispatch(w, ls + [Pipe] + [Word(filter)] + Into(file), st))
  {
    var r := Behind(w, ls, st);
    SplitWhole([Word(filter)], Pipe);
    if r.1 == Finished {
      PipeIsBounded(w, SplitOn(ls, Pipe), true, st.(pipe := []));
      FilterIsTransparent(w, filter, r.0);
    }
    RedirectThrough(w, ls, [Word(filter)], file, st);
  }

  /** The same for a pair of sed behind at most two stages. */
  lemma RedirectThroughSedPair(w: World, ls: seq<Lexeme>, file: seq<Byte>, pattern: seq<Byte>, mark: Byte,
                               d1: Byte, d2: Byte, st: State)
    requires HasSed(w) && |SplitOn(ls, Pipe)| + 2 <= MAX_PIPE_STAGES && LastStage(ls) != []
    requires var r := Behind(w, ls, st); r.1 == Finished ==> r.0.pipe != [] && mark !in r.0.pipe
    requires pattern != []
    requires Printable(Sed.Script(pattern, [mark], true), d1) && Printable(Sed.Script([mark], pattern, true), d2)
    ensures SameEffect(Dispatch(w, ls + Into(file), st),
                       Dispatch(w, ls + [Pipe] + SedPair(pattern, mark, d1, d2) + Into(file), st))
  {
    var r := Behind(w, ls, st);
    SedPairStages(pattern, mark, d1, d2);
    if r.1 == Finished {
      PipeIsBounded(w, SplitOn(ls, Pipe), true, st.(pipe := []));
      SedPairIsTransparent(w, pattern, mark, d1, d2, r.0);
    }
    RedirectThrough(w, ls, SedPair(pattern, mark, d1, d2), file, st);
  }
}
