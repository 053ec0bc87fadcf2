/** Cutting a token list into pipeline stages and reading one stage: command, argument
    string and redirections. */
module ShellStages {
  import opened Bytes
  import opened ShellLexer

  const MAX_PIPE_STAGES: nat := 4
  const MAX_STAGE_TOKENS: nat := 32
  const MAX_ARGS: nat := 191

  datatype StageError = TooManyStages | EmptyStage

  /** The ranges are found left to right, so an empty range among the first four is
      reported before a fifth range is. */
  function SplitVerdict(pieces: seq<seq<Lexeme>>): Result<nat, StageError> {
    if [] in Take(pieces, MAX_PIPE_STAGES) then Err(EmptyStage)
    else if |pieces| > MAX_PIPE_STAGES then Err(TooManyStages)
    else Ok(|pieces|)
  }

  /** The pieces of what is left from start on; none behind the last token's end. */
  ghost function PiecesFrom(ls: seq<Lexeme>, start: nat): seq<seq<Lexeme>> {
    if start <= |ls| then SplitOn(ls[start..], Pipe) else []
  }

  lemma SplitAt(ls: seq<Lexeme>, start: nat, i: nat)
    requires start <= i <= |ls|
    requires forall k | start <= k < i :: ls[k] != Pipe
    requires i < |ls| ==> ls[i] == Pipe
    ensures PiecesFrom(ls, start) == [ls[start..i]] + PiecesFrom(ls, i + 1)
  {
    var s := ls[start..];
    if i < |ls| {
      FirstIs(s, Pipe, i - start);
      assert s[..i - start] == ls[start..i] && s[i - start + 1..] == ls[i + 1..];
    } else {
      assert IndexOf(s, Pipe) == |s|;
      assert ls[start..i] == s && [s] + [] == [s];
    }
  }

  /** The first n recorded ranges select the pieces in found. */
  ghost predicate Ranges(starts: seq<nat>, ends: seq<nat>, ls: seq<Lexeme>, found: seq<seq<Lexeme>>) {
    && |found| <= |starts| == |ends|
    && forall k | 0 <= k < |found| :: starts[k] <= ends[k] <= |ls| && ls[starts[k]..ends[k]] == found[k]
  }

  method Record(starts: array<nat>, ends: array<nat>, n: nat, start: nat, end: nat,
                ghost ls: seq<Lexeme>, ghost found: seq<seq<Lexeme>>)
    requires n == |found| < starts.Length == ends.Length && starts != ends && start <= end <= |ls|
    requires Ranges(starts[..], ends[..], ls, found)
    modifies starts, ends
    ensures Ranges(starts[..], ends[..], ls, found + [ls[start..end]])
  {
    starts[n] := start;
    ends[n] := end;
  }

  /** The verdict once the stages in found were recorded and the next one is known. */
  lemma VerdictAt(found: seq<seq<Lexeme>>, next: seq<Lexeme>, more: seq<seq<Lexeme>>)
    requires [] !in found && |found| <= MAX_PIPE_STAGES
    ensures |found| == MAX_PIPE_STAGES ==> SplitVerdict(found + ([next] + more)) == Err(TooManyStages)
    ensures |found| < MAX_PIPE_STAGES && next == [] ==> SplitVerdict(found + ([next] + more)) == Err(EmptyStage)
    ensures SplitVerdict(found) == Ok(|found|)
  {
    var pieces := found + ([next] + more);
    if |found| == MAX_PIPE_STAGES {
      assert Take(pieces, MAX_PIPE_STAGES) == found;
    } else {
      assert Take(pieces, MAX_PIPE_STAGES)[|found|] == next;
    }
  }

  /** The stages in found end in front of start, and the others are still to come. */
  ghost predicate Splitting(ls: seq<Lexeme>, start: nat, found: seq<seq<Lexeme>>) {
    SplitOn(ls, Pipe) == found + PiecesFrom(ls, start) && SplitVerdict(found).Ok?
  }

  ghost predicate PipeFree(ls: seq<Lexeme>, start: nat, i: nat) {
    start <= i <= |ls| && forall k | start <= k < i :: ls[k] != Pipe
  }

  lemma PipeFreeGrows(ls: seq<Lexeme>, start: nat, i: nat)
    requires PipeFree(ls, start, i) && i < |ls| && ls[i] != Pipe
    ensures PipeFree(ls, start, i + 1)
  {
  }

  lemma NothingIsPipeFree(ls: seq<Lexeme>, i: nat)
    requires i <= |ls|
    ensures PipeFree(ls, i, i)
  {
  }

  /** A stage ends at i. */
  lemma StageEnds(ls: seq<Lexeme>, start: nat, i: nat, found: seq<seq<Lexeme>>)
    requires PipeFree(ls, start, i) && (i < |ls| ==> ls[i] == Pipe) && Splitting(ls, start, found)
    ensures |found| == MAX_PIPE_STAGES ==> SplitVerdict(SplitOn(ls, Pipe)) == Err(TooManyStages)
    ensures |found| < MAX_PIPE_STAGES && start == i ==> SplitVerdict(SplitOn(ls, Pipe)) == Err(EmptyStage)
    ensures |found| < MAX_PIPE_STAGES && start < i ==> Splitting(ls, i + 1, found + [ls[start..i]])
  {
    SplitAt(ls, start, i);
    VerdictAt(found, ls[start..i], PiecesFrom(ls, i + 1));
    ConcatAssoc(found, [ls[start..i]], PiecesFrom(ls, i + 1));
  }

  lemma SplitStarts(ls: seq<Lexeme>)
    ensures Splitting(ls, 0, [])
  {
    assert ls[0..] == ls && [] + SplitOn(ls, Pipe) == SplitOn(ls, Pipe);
  }

  lemma SplitDone(ls: seq<Lexeme>, start: nat, found: seq<seq<Lexeme>>)
    requires Splitting(ls, start, found) && start > |ls|
    ensures SplitOn(ls, Pipe) == found && SplitVerdict(found) == Ok(|found|)
  {
    assert found + [] == found;
    VerdictAt(found, [], []);
  }

  ghost predicate SameKinds(ts: seq<Token>, ls: seq<Lexeme>) {
    |ls| == |ts| && forall k | 0 <= k < |ts| :: ts[k].kind == KindOf(ls[k])
  }

  lemma PipeAt(ts: seq<Token>, ls: seq<Lexeme>, i: nat)
    requires SameKinds(ts, ls) && i < |ts|
    ensures ts[i].kind == PipeKind <==> ls[i] == Pipe
  {
  }

  /** The token range of one stage, unless there is no room for it or it is empty. */
  method RecordStage(starts: array<nat>, ends: array<nat>, count: nat, start: nat, end: nat,
                     ghost ls: seq<Lexeme>, ghost found: seq<seq<Lexeme>>)
    returns (r: Result<nat, StageError>, ghost next: seq<seq<Lexeme>>)
    requires starts.Length == MAX_PIPE_STAGES && ends.Length == MAX_PIPE_STAGES && starts != ends
    requires count == |found| && Splitting(ls, start, found) && Ranges(starts[..], ends[..], ls, found)
    requires PipeFree(ls, start, end) && (end < |ls| ==> ls[end] == Pipe)
    modifies starts, ends
    ensures r.Err? ==> SplitVerdict(SplitOn(ls, Pipe)) == r
    ensures r.Ok? ==> r.value == |next| && Splitting(ls, end + 1, next) && Ranges(starts[..], ends[..], ls, next)
  {
    StageEnds(ls, start, end, found);
    next := found;
    if count >= MAX_PIPE_STAGES { return Err(TooManyStages), next; }
    if start == end { return Err(EmptyStage), next; }
    Record(starts, ends, count, start, end, ls, found);
    next := found + [ls[start..end]];
    return Ok(count + 1), next;
  }

  /** Records the token range of every stage. The ranges are exactly the maximal pipe-free
      pieces of the token list, in order. */
  method SplitStages(ts: seq<Token>, starts: array<nat>, ends: array<nat>, ghost ls: seq<Lexeme>)
    returns (r: Result<nat, StageError>)
    requires starts.Length == MAX_PIPE_STAGES && ends.Length == MAX_PIPE_STAGES && starts != ends
    requires SameKinds(ts, ls)
    modifies starts, ends
    ensures r == SplitVerdict(SplitOn(ls, Pipe))
    ensures r.Ok? ==> Ranges(starts[..], ends[..], ls, SplitOn(ls, Pipe))
  {
    var stageCount, start, i := 0, 0, 0;
    ghost var found: seq<seq<Lexeme>> := [];
    SplitStarts(ls);
    NothingIsPipeFree(ls, 0);
    while i <= |ts|
      invariant i <= |ts| + 1 && stageCount == |found| && Splitting(ls, start, found)
      invariant if i <= |ts| then PipeFree(ls, start, i) else start == i
      invariant Ranges(starts[..], ends[..], ls, found)
    {
      if i < |ts| { PipeAt(ts, ls, i); }
      var isEnd := i == |ts|;
      var isPipe := !isEnd && ts[i].kind == PipeKind;
      if isEnd || isPipe {
        stageCount, found :- RecordStage(starts, ends, stageCount, start, i, ls, found);
        start := i + 1;
        if !isEnd { NothingIsPipeFree(ls, start); }
      } else {
        PipeFreeGrows(ls, start, i);
      }
      i := i + 1;
    }
    SplitDone(ls, start, found);
    return Ok(stageCount);
  }

  // The argument string.

  function DropEmpty(words: seq<seq<Byte>>): seq<seq<Byte>> {
    if words != [] && words[0] == [] then DropEmpty(words[1..]) else words
  }

  /** The words separated by single spaces; empty words in front leave no space. */
  function Args(words: seq<seq<Byte>>): seq<Byte> {
    if DropEmpty(words) == [] then [] else JoinWith(DropEmpty(words), SPACE)
  }

  lemma {:induction false} JoinAppend(words: seq<seq<Byte>>, w: seq<Byte>)
    requires words != []
    ensures JoinWith(words + [w], SPACE) == JoinWith(words, SPACE) + [SPACE] + w
  {
    if |words| == 1 {
      assert (words + [w])[1..] == [w];
    } else {
      assert (words + [w])[1..] == words[1..] + [w];
      JoinAppend(words[1..], w);
      ConcatAssoc(words[0] + [SPACE], JoinWith(words[1..], SPACE) + [SPACE], w);
      ConcatAssoc(words[0] + [SPACE], JoinWith(words[1..], SPACE), [SPACE]);
    }
  }

  lemma {:induction false} DropEmptyAppend(words: seq<seq<Byte>>, w: seq<Byte>)
    ensures DropEmpty(words + [w]) == if DropEmpty(words) == [] then DropEmpty([w]) else DropEmpty(words) + [w]
    ensures DropEmpty(words) != [] ==> Args(words) != []
  {
    if words == [] {
      assert words + [w] == [w];
    } else if words[0] == [] {
      assert (words + [w])[1..] == words[1..] + [w];
      DropEmptyAppend(words[1..], w);
    }
  }

  /** One more word, as the loop adds it. */
  lemma ArgsAppend(words: seq<seq<Byte>>, w: seq<Byte>)
    ensures Args(words + [w]) == if Args(words) == [] then w else Args(words) + [SPACE] + w
  {
    DropEmptyAppend(words, w);
    if DropEmpty(words) != [] {
      JoinAppend(DropEmpty(words), w);
    }
  }

  lemma {:induction false} ArgsGrow(words: seq<seq<Byte>>, more: seq<seq<Byte>>)
    ensures |Args(words)| <= |Args(words + more)|
    decreases |more|
  {
    if more == [] {
      assert words + more == words;
    } else {
      ArgsAppend(words, more[0]);
      assert words + more == words + [more[0]] + more[1..];
      ArgsGrow(words + [more[0]], more[1..]);
    }
  }

  /** One step of the argument loops: a space if something is there already, then part. */
  method AppendArg(out: array<Byte>, len: nat, part: seq<Byte>, ghost words: seq<seq<Byte>>) returns (r: Option<nat>)
    requires len <= out.Length && out[..len] == Args(words)
    modifies out
    ensures r.Some? <==> |Args(words + [part])| <= out.Length
    ensures r.Some? ==> r.value <= out.Length && out[..r.value] == Args(words + [part])
  {
    ArgsAppend(words, part);
    var outLen := len;
    if outLen > 0 {
      if outLen >= out.Length { return None; }
      CopyInto(out, outLen, [SPACE]);
      outLen := outLen + 1;
    }
    if outLen + |part| > out.Length { return None; }
    CopyInto(out, outLen, part);
    assert len == 0 ==> out[..|part|] == part;
    return Some(outLen + |part|);
  }

  function Texts(ls: seq<Lexeme>): seq<seq<Byte>> {
    seq(|ls|, k requires 0 <= k < |ls| => TextOf(ls[k]))
  }

  predicate AllWords(ls: seq<Lexeme>) {
    forall k | 0 <= k < |ls| :: ls[k].Word?
  }

  lemma TextsAppend(ls: seq<Lexeme>, i: nat)
    requires i < |ls|
    ensures Texts(ls)[..i + 1] == Texts(ls)[..i] + [TextOf(ls[i])]
    ensures |Args(Texts(ls)[..i + 1])| <= |Args(Texts(ls))|
  {
    var texts := Texts(ls);
    ArgsGrow(texts[..i + 1], texts[i + 1..]);
    assert texts[..i + 1] + texts[i + 1..] == texts;
  }

  /** The argument string of a simple command; it exists exactly when every token is a word
      and the joined words fit. */
  method JoinWordTokens(ts: seq<Token>, parsed: seq<Byte>, out: array<Byte>) returns (r: Option<nat>)
    requires Sliced(ts, parsed) && out.Length == MAX_ARGS
    modifies out
    ensures var ls := DenoteAll(ts, parsed);
            && (r.Some? <==> AllWords(ls) && |Args(Texts(ls))| <= MAX_ARGS)
            && (r.Some? ==> r.value <= MAX_ARGS && out[..r.value] == Args(Texts(ls)))
  {
    ghost var ls := DenoteAll(ts, parsed);
    ghost var texts := Texts(ls);
    var outLen: nat := 0;
    var i := 0;
    while i < |ts|
      invariant i <= |ts| && outLen <= out.Length
      invariant forall k | 0 <= k < i :: ls[k].Word?
      invariant out[..outLen] == Args(texts[..i])
    {
      assert ls[i] == Denote(ts[i], parsed);
      if ts[i].kind != WordKind { return None; }
      TextsAppend(ls, i);
      var next := AppendArg(out, outLen, parsed[ts[i].start..ts[i].start + ts[i].len], texts[..i]);
      if next == None { return None; }
      outLen := next.value;
      i := i + 1;
    }
    assert texts[..i] == texts;
    return Some(outLen);
  }

  // One stage.

  /** The words of a stage that are not file operands, and the operands of '<' and '>'. */
  datatype Parts = Parts(words: seq<seq<Byte>>, ins: seq<seq<Byte>>, outs: seq<seq<Byte>>) {
    function Plus(other: Parts): Parts {
      Parts(words + other.words, ins + other.ins, outs + other.outs)
    }
  }

  const NO_PARTS := Parts([], [], [])

  /** stage ::= { word | '<' word | '>' word }; None for anything else. */
  function PartsOf(ls: seq<Lexeme>): Option<Parts> {
    if ls == [] then Some(NO_PARTS)
    else if ls[0].Word? then AddTo(Parts([ls[0].text], [], []), PartsOf(ls[1..]))
    else if ls[0].Pipe? || |ls| == 1 || !ls[1].Word? then None
    else if ls[0].RedirectIn? then AddTo(Parts([], [ls[1].text], []), PartsOf(ls[2..]))
    else AddTo(Parts([], [], [ls[1].text]), PartsOf(ls[2..]))
  }

  function AddTo(p: Parts, rest: Option<Parts>): Option<Parts> {
    if rest.None? then None else Some(p.Plus(rest.value))
  }

  datatype Stage = Stage(cmd: seq<Byte>, args: seq<Byte>, inFile: Option<seq<Byte>>, outFile: Option<seq<Byte>>)

  function AtMostOne(files: seq<seq<Byte>>): Option<seq<Byte>> {
    if files == [] then None else Some(files[0])
  }

  predicate StageFits(p: Parts, allowIn: bool, allowOut: bool) {
    && |p.ins| <= (if allowIn then 1 else 0)
    && |p.outs| <= (if allowOut then 1 else 0)
    && 1 <= |p.words| <= MAX_STAGE_TOKENS
    && |Args(p.words[1..])| <= MAX_ARGS
  }

  /** What a stage means depends only on its words and on its file operands. */
  function ParseStage(ls: seq<Lexeme>, allowIn: bool, allowOut: bool): Option<Stage> {
    match PartsOf(ls)
    case None => None
    case Some(p) =>
      if StageFits(p, allowIn, allowOut)
      then Some(Stage(p.words[0], Args(p.words[1..]), AtMostOne(p.ins), AtMostOne(p.outs)))
      else None
  }

  lemma PlusAssoc(a: Parts, b: Parts, c: Parts)
    ensures a.Plus(b).Plus(c) == a.Plus(b.Plus(c))
  {
  }

  lemma PlusNone(a: Parts)
    ensures NO_PARTS.Plus(a) == a == a.Plus(NO_PARTS)
  {
  }

  lemma {:induction false} PartsConcat(a: seq<Lexeme>, b: seq<Lexeme>)
    requires PartsOf(a).Some?
    ensures PartsOf(a + b) == AddTo(PartsOf(a).value, PartsOf(b))
    decreases |a|
  {
    if a == [] {
      assert a + b == b;
      if PartsOf(b).Some? { PlusNone(PartsOf(b).value); }
    } else {
      var n := if a[0].Word? then 1 else 2;
      assert (a + b)[n..] == a[n..] + b;
      PartsConcat(a[n..], b);
      if PartsOf(b).Some? {
        var first := if n == 1 then Parts([a[0].text], [], [])
                     else if a[0].RedirectIn? then Parts([], [a[1].text], []) else Parts([], [], [a[1].text]);
        PlusAssoc(first, PartsOf(a[n..]).value, PartsOf(b).value);
      }
    }
  }

  lemma SwapGroups(arrow: Lexeme, file: seq<Byte>, word: seq<Byte>, post: seq<Lexeme>)
    requires arrow == RedirectIn || arrow == RedirectOut
    ensures PartsOf([arrow, Word(file), Word(word)] + post) == PartsOf([Word(word), arrow, Word(file)] + post)
  {
    var a, b := [arrow, Word(file), Word(word)] + post, [Word(word), arrow, Word(file)] + post;
    var w := Parts([word], [], []);
    var f := if arrow == RedirectIn then Parts([], [file], []) else Parts([], [], [file]);
    assert a[2..] == [Word(word)] + post && a[2..][1..] == post;
    assert b[1..] == [arrow, Word(file)] + post && b[1..][2..] == post;
    assert PartsOf(a) == AddTo(f, AddTo(w, PartsOf(post)));
    assert PartsOf(b) == AddTo(w, AddTo(f, PartsOf(post)));
    if PartsOf(post).Some? {
      PlusAssoc(f, w, PartsOf(post).value);
      PlusAssoc(w, f, PartsOf(post).value);
      assert f.Plus(w) == w.Plus(f);
    }
  }

  /** In a stage that is well formed up to there, moving a redirection and its file past a
      word changes nothing: neither command, arguments, files, nor whether it is accepted. */
  lemma MoveRedirect(pre: seq<Lexeme>, arrow: Lexeme, file: seq<Byte>, word: seq<Byte>, post: seq<Lexeme>,
                     allowIn: bool, allowOut: bool)
    requires PartsOf(pre).Some? && (arrow == RedirectIn || arrow == RedirectOut)
    ensures ParseStage(pre + ([arrow, Word(file), Word(word)] + post), allowIn, allowOut)
         == ParseStage(pre + ([Word(word), arrow, Word(file)] + post), allowIn, allowOut)
  {
    PartsConcat(pre, [arrow, Word(file), Word(word)] + post);
    PartsConcat(pre, [Word(word), arrow, Word(file)] + post);
    SwapGroups(arrow, file, word, post);
  }

  // Stages as a grammar.

  datatype Group = Argument(word: seq<Byte>) | From(file: seq<Byte>) | To(file: seq<Byte>)

  function GroupForm(g: Group): seq<Lexeme> {
    match g
    case Argument(word) => [Word(word)]
    case From(file) => [RedirectIn, Word(file)]
    case To(file) => [RedirectOut, Word(file)]
  }

  function GroupsForm(gs: seq<Group>): seq<Lexeme> {
    if gs == [] then [] else GroupForm(gs[0]) + GroupsForm(gs[1..])
  }

  function Arguments(gs: seq<Group>): seq<seq<Byte>> {
    if gs == [] then [] else (if gs[0].Argument? then [gs[0].word] else []) + Arguments(gs[1..])
  }

  function Froms(gs: seq<Group>): seq<seq<Byte>> {
    if gs == [] then [] else (if gs[0].From? then [gs[0].file] else []) + Froms(gs[1..])
  }

  function Tos(gs: seq<Group>): seq<seq<Byte>> {
    if gs == [] then [] else (if gs[0].To? then [gs[0].file] else []) + Tos(gs[1..])
  }

  lemma {:induction false} GroupParts(gs: seq<Group>)
    ensures PartsOf(GroupsForm(gs)) == Some(Parts(Arguments(gs), Froms(gs), Tos(gs)))
    decreases |gs|
  {
    if gs != [] {
      var form, rest := GroupsForm(gs), GroupsForm(gs[1..]);
      GroupParts(gs[1..]);
      assert form[|GroupForm(gs[0])|..] == rest;
      OneGroup(gs[0], rest);
    }
  }

  lemma OneGroup(g: Group, rest: seq<Lexeme>)
    ensures PartsOf(GroupForm(g) + rest)
         == AddTo(Parts(if g.Argument? then [g.word] else [], if g.From? then [g.file] else [],
                        if g.To? then [g.file] else []), PartsOf(rest))
  {
    assert (GroupForm(g) + rest)[|GroupForm(g)|..] == rest;
  }

  lemma {:induction false} PartsAreGroups(ls: seq<Lexeme>) returns (gs: seq<Group>)
    requires PartsOf(ls).Some?
    ensures GroupsForm(gs) == ls
    decreases |ls|
  {
    if ls == [] { return []; }
    var g := if ls[0].Word? then Argument(ls[0].text)
             else if ls[0].RedirectIn? then From(ls[1].text) else To(ls[1].text);
    var more := PartsAreGroups(ls[|GroupForm(g)|..]);
    gs := [g] + more;
    assert gs[1..] == more && ls == GroupForm(g) + ls[|GroupForm(g)|..];
  }

  /** A stage is a sequence of words and of files behind '<' and '>', in any order: the first
      word is the command, the others are its arguments, and there is at most one file of each
      kind, and none where it is not allowed. */
  lemma StageMeans(gs: seq<Group>, allowIn: bool, allowOut: bool)
    ensures var words, ins, outs := Arguments(gs), Froms(gs), Tos(gs);
            ParseStage(GroupsForm(gs), allowIn, allowOut)
              == if && 1 <= |words| <= 32 && |Args(words[1..])| <= 191
                    && |ins| <= 1 && |outs| <= 1 && (ins == [] || allowIn) && (outs == [] || allowOut)
                 then Some(Stage(words[0], Args(words[1..]), if ins == [] then None else Some(ins[0]),
                                 if outs == [] then None else Some(outs[0])))
                 else None
  {
    GroupParts(gs);
  }

  /** Nothing else is a stage. */
  lemma NotAStage(ls: seq<Lexeme>, allowIn: bool, allowOut: bool)
    requires forall gs :: GroupsForm(gs) != ls
    ensures ParseStage(ls, allowIn, allowOut) == None
  {
    if PartsOf(ls).Some? { var gs := PartsAreGroups(ls); }
  }

  /** A stage that comes from splitting holds no pipe, so the pipe case of the parser is
      never reached. */
  lemma SplitStagesHoldNoPipe(ls: seq<Lexeme>, k: nat)
    requires k < |SplitOn(ls, Pipe)|
    ensures Pipe !in SplitOn(ls, Pipe)[k]
    ensures JoinWith(SplitOn(ls, Pipe), Pipe) == ls
  {
    SplitIsFree(ls, Pipe);
    JoinSplit(ls, Pipe);
  }

  // The imperative parser of one stage.

  datatype StageParse = StageParse(cmd: seq<Byte>, argsLen: nat, inFile: Option<seq<Byte>>, outFile: Option<seq<Byte>>)

  function Listed(file: Option<seq<Byte>>): seq<seq<Byte>> {
    if file.None? then [] else [file.value]
  }

  /** The first loop after reading the part pre of the stage. */
  ghost predicate Collected(pre: seq<Lexeme>, words: seq<seq<Byte>>,
                            inFile: Option<seq<Byte>>, outFile: Option<seq<Byte>>,
                            allowIn: bool, allowOut: bool)
  {
    && PartsOf(pre) == Some(Parts(words, Listed(inFile), Listed(outFile)))
    && (inFile.Some? ==> allowIn) && (outFile.Some? ==> allowOut) && |words| <= MAX_STAGE_TOKENS
  }

  lemma TakesWord(pre: seq<Lexeme>, words: seq<seq<Byte>>, inFile: Option<seq<Byte>>, outFile: Option<seq<Byte>>,
                  allowIn: bool, allowOut: bool, text: seq<Byte>)
    requires Collected(pre, words, inFile, outFile, allowIn, allowOut) && |words| < MAX_STAGE_TOKENS
    ensures Collected(pre + [Word(text)], words + [text], inFile, outFile, allowIn, allowOut)
  {
    var group := [Word(text)];
    var p := Parts([text], [], []);
    PlusNone(p);
    assert group[1..] == [] && PartsOf(group) == Some(p);
    PartsConcat(pre, group);
    assert Listed(inFile) + [] == Listed(inFile) && Listed(outFile) + [] == Listed(outFile);
  }

  lemma TakesFile(pre: seq<Lexeme>, words: seq<seq<Byte>>, inFile: Option<seq<Byte>>, outFile: Option<seq<Byte>>,
                  allowIn: bool, allowOut: bool, arrow: Lexeme, file: seq<Byte>)
    requires Collected(pre, words, inFile, outFile, allowIn, allowOut)
    ensures arrow == RedirectIn && allowIn && inFile.None? ==>
              Collected(pre + [arrow, Word(file)], words, Some(file), outFile, allowIn, allowOut)
    ensures arrow == RedirectOut && allowOut && outFile.None? ==>
              Collected(pre + [arrow, Word(file)], words, inFile, Some(file), allowIn, allowOut)
  {
    var group := [arrow, Word(file)];
    var p := if arrow == RedirectIn then Parts([], [file], []) else Parts([], [], [file]);
    PlusNone(p);
    assert group[2..] == [];
    if arrow == RedirectIn || arrow == RedirectOut {
      assert PartsOf(group) == Some(p);
      PartsConcat(pre, group);
    }
    assert words + [] == words;
    assert Listed(inFile) + [] == Listed(inFile) && Listed(outFile) + [] == Listed(outFile);
  }

  /** Why the first loop may stop at the tokens in rest. */
  lemma Rejects(pre: seq<Lexeme>, rest: seq<Lexeme>, words: seq<seq<Byte>>,
                inFile: Option<seq<Byte>>, outFile: Option<seq<Byte>>, allowIn: bool, allowOut: bool)
    requires Collected(pre, words, inFile, outFile, allowIn, allowOut) && rest != []
    requires || rest[0] == Pipe
             || (!rest[0].Word? && (|rest| == 1 || !rest[1].Word?))
             || (rest[0] == RedirectIn && (!allowIn || inFile.Some?))
             || (rest[0] == RedirectOut && (!allowOut || outFile.Some?))
             || (rest[0].Word? && |words| == MAX_STAGE_TOKENS)
    ensures ParseStage(pre + rest, allowIn, allowOut) == None
  {
    PartsConcat(pre, rest);
  }

  /** The word behind the operator at i, if there is one. */
  method OperandAt(ts: seq<Token>, i: nat, parsed: seq<Byte>) returns (file: Option<seq<Byte>>)
    requires Sliced(ts, parsed) && i < |ts|
    ensures var rest := DenoteAll(ts, parsed)[i..];
            file == if |rest| > 1 && rest[1].Word? then Some(rest[1].text) else None
  {
    var k := i + 1;
    if k >= |ts| || ts[k].kind != WordKind { return None; }
    return Some(parsed[ts[k].start..ts[k].start + ts[k].len]);
  }

  /** The first loop: sorts the tokens of the stage into words and file operands. */
  method CollectParts(ts: seq<Token>, parsed: seq<Byte>, allowIn: bool, allowOut: bool, words: array<seq<Byte>>)
    returns (ok: bool, wordCount: nat, inFile: Option<seq<Byte>>, outFile: Option<seq<Byte>>)
    requires Sliced(ts, parsed) && words.Length == MAX_STAGE_TOKENS
    modifies words
    ensures ok ==> wordCount <= words.Length
                   && Collected(DenoteAll(ts, parsed), words[..wordCount], inFile, outFile, allowIn, allowOut)
    ensures !ok ==> ParseStage(DenoteAll(ts, parsed), allowIn, allowOut) == None
  {
    ghost var ls := DenoteAll(ts, parsed);
    wordCount, inFile, outFile := 0, None, None;
    var i := 0;
    while i < |ts|
      invariant i <= |ts| && wordCount <= words.Length
      invariant Collected(ls[..i], words[..wordCount], inFile, outFile, allowIn, allowOut)
    {
      ghost var pre, rest, before := ls[..i], ls[i..], words[..wordCount];
      assert rest[0] == Denote(ts[i], parsed) && pre + rest == ls;
      match ts[i].kind {
        case RedirectInKind =>
          var file := OperandAt(ts, i, parsed);
          if !allowIn || inFile.Some? || file.None? {
            Rejects(pre, rest, before, inFile, outFile, allowIn, allowOut);
            return false, wordCount, inFile, outFile;
          }
          TakesFile(pre, before, inFile, outFile, allowIn, allowOut, RedirectIn, file.value);
          assert ls[..i + 2] == pre + [RedirectIn, Word(file.value)];
          inFile := file;
          i := i + 2;
        case RedirectOutKind =>
          var file := OperandAt(ts, i, parsed);
          if !allowOut || outFile.Some? || file.None? {
            Rejects(pre, rest, before, inFile, outFile, allowIn, allowOut);
            return false, wordCount, inFile, outFile;
          }
          TakesFile(pre, before, inFile, outFile, allowIn, allowOut, RedirectOut, file.value);
          assert ls[..i + 2] == pre + [RedirectOut, Word(file.value)];
          outFile := file;
          i := i + 2;
        case PipeKind =>
          Rejects(pre, rest, before, inFile, outFile, allowIn, allowOut);
          return false, wordCount, inFile, outFile;
        case WordKind =>
          if wordCount >= MAX_STAGE_TOKENS {
            Rejects(pre, rest, before, inFile, outFile, allowIn, allowOut);
            return false, wordCount, inFile, outFile;
          }
          TakesWord(pre, before, inFile, outFile, allowIn, allowOut, rest[0].text);
          assert ls[..i + 1] == pre + [Word(rest[0].text)];
          words[wordCount] := parsed[ts[i].start..ts[i].start + ts[i].len];
          wordCount := wordCount + 1;
          assert words[..wordCount] == before + [rest[0].text];
          i := i + 1;
      }
    }
    assert ls[..i] == ls;
    return true, wordCount, inFile, outFile;
  }

  lemma OneMore(words: seq<seq<Byte>>, j: nat)
    requires 1 <= j <= |words|
    ensures words[..j] == words[..j - 1] + [words[j - 1]]
    ensures |Args(words[..j])| <= |Args(words)|
  {
    ArgsGrow(words[..j], words[j..]);
    assert words[..j] + words[j..] == words;
  }

  /** The second loop: joins all words but the first. */
  method JoinArguments(words: seq<seq<Byte>>, argsBuf: array<Byte>) returns (r: Option<nat>)
    requires words != [] && argsBuf.Length == MAX_ARGS
    modifies argsBuf
    ensures r.Some? <==> |Args(words[1..])| <= MAX_ARGS
    ensures r.Some? ==> r.value <= MAX_ARGS && argsBuf[..r.value] == Args(words[1..])
  {
    ghost var all := words[1..];
    var argsLen: nat := 0;
    var j := 1;
    while j < |words|
      invariant 1 <= j <= |words| && argsLen <= MAX_ARGS
      invariant argsBuf[..argsLen] == Args(all[..j - 1])
    {
      OneMore(all, j);
      var next := AppendArg(argsBuf, argsLen, words[j], all[..j - 1]);
      if next == None { return None; }
      argsLen := next.value;
      j := j + 1;
    }
    assert all[..j - 1] == all;
    return Some(argsLen);
  }

  /** The meaning of a stage whose parts are known. */
  lemma CollectedMeans(ls: seq<Lexeme>, words: seq<seq<Byte>>, inFile: Option<seq<Byte>>, outFile: Option<seq<Byte>>,
                       allowIn: bool, allowOut: bool)
    requires Collected(ls, words, inFile, outFile, allowIn, allowOut)
    ensures ParseStage(ls, allowIn, allowOut)
         == if words == [] || |Args(words[1..])| > MAX_ARGS then None
            else Some(Stage(words[0], Args(words[1..]), inFile, outFile))
  {
  }

  /** Reads one stage: it is accepted exactly when the specification accepts it, with the
      same command, the same files and the argument string in argsBuf. */
  method ReadStage(ts: seq<Token>, parsed: seq<Byte>, allowIn: bool, allowOut: bool, argsBuf: array<Byte>)
    returns (r: Option<StageParse>)
    requires Sliced(ts, parsed) && argsBuf.Length == MAX_ARGS
    modifies argsBuf
    ensures var spec := ParseStage(DenoteAll(ts, parsed), allowIn, allowOut);
            && (r.Some? <==> spec.Some?)
            && (r.Some? ==> r.value.argsLen <= MAX_ARGS
                            && spec == Some(Stage(r.value.cmd, argsBuf[..r.value.argsLen],
                                                  r.value.inFile, r.value.outFile)))
  {
    var words := new seq<Byte>[MAX_STAGE_TOKENS](_ => []);
    var ok, wordCount, inFile, outFile := CollectParts(ts, parsed, allowIn, allowOut, words);
    if !ok { return None; }
    CollectedMeans(DenoteAll(ts, parsed), words[..wordCount], inFile, outFile, allowIn, allowOut);
    if wordCount == 0 { return None; }
    var argsLen := JoinArguments(words[..wordCount], argsBuf);
    if argsLen == None { return None; }
    return Some(StageParse(words[0], argsLen.value, inFile, outFile));
  }
}
