/** What typing a line comes to, told without the shell's own functions: which tokens it is,
    where cd leads, what export sets, what cat shows, and that nothing follows an exit. */
module TypedLines {
  import opened Bytes
  import opened AsciiText
  import opened ShellLexer
  import opened ShellGrammar
  import opened ShellStages
  import opened ShellExpand
  import opened CommandLine
  import opened Builtins
  import opened Pipeline
  import opened Filters
  import opened LineEnds
  import opened Machines
  import opened Shell
  import opened RamFiles
  import opened StreamIo
  import opened StreamPrograms
  import ShellEnv

  // From the typed line to its tokens.

  lemma GapFirst(items: seq<Item>)
    requires items != [] && items[0].Gap? && ValidItem(items[0])
    ensures ItemsForm(items) != [] && ItemsForm(items)[0] in WHITE
  {
  }

  lemma FirstItem(l: Line)
    requires ValidLine(l) && l.Whole? && LineForm(l) != [] && Trimmed(LineForm(l))
    ensures ItemsTokens(l.items) != []
  {
    assert LineForm(l) == ItemsForm(l.items) && l.items[0] in l.items;
    if l.items[0].Gap? { GapFirst(l.items); }
  }

  /** What the shell makes of a line of the grammar. */
  function Meaning(l: Line): Command {
    var ls := ItemsTokens(l.items);
    if |ls| > 64 then Failed(TooManyTokens)
    else if l.Whole? then Tokens(ls)
    else Failed(if BrokenEnd(l.broken) == DanglingEscape then TrailingEscape else UnclosedQuote)
  }

  /** A typed line is read as what its expansion means, if that needs no trimming. */
  lemma ExpandedLine(env: ShellEnv.Env, line: seq<Byte>, l: Line)
    requires ValidLine(l) && LineForm(l) != [] && Trimmed(LineForm(l)) && |LineForm(l)| <= 512
    requires Trim(line) != [] && Expand(ValuesOf(env), Trim(line)) == LineForm(l)
    ensures ReadCommand(env, line) == Meaning(l)
  {
    var form := LineForm(l);
    TrimTrimmed(form);
    assert Expanded(env, line) == form;
    TokenizeMeans(l);
    if l.Whole? { FirstItem(l); }
  }

  /** A typed line without references, with any white space around it, is read as the grammar
      means it. */
  lemma TypedLine(env: ShellEnv.Env, before: seq<Byte>, l: Line, behind: seq<Byte>)
    requires ValidLine(l) && LineForm(l) != [] && Trimmed(LineForm(l)) && AllWhite(before) && AllWhite(behind)
    requires RefFree(LineForm(l)) && |LineForm(l)| <= 512
    ensures ReadCommand(env, before + LineForm(l) + behind) == Meaning(l)
  {
    TrimSpaces(before, LineForm(l), behind);
    ExpandIdentity(ValuesOf(env), LineForm(l));
    ExpandedLine(env, before + LineForm(l) + behind, l);
  }

  // Lines of plain words.

  /** Nothing in the word has a meaning of its own. */
  predicate PlainWord(w: seq<Byte>) {
    w != [] && forall k | 0 <= k < |w| :: w[k] !in SPECIAL && w[k] !in WHITE && w[k] != DOLLAR
  }

  function BarePieces(w: seq<Byte>): seq<Piece> { seq(|w|, k requires 0 <= k < |w| => Bare(w[k])) }

  function WordItems(words: seq<seq<Byte>>): seq<Item>
    requires words != []
  {
    if |words| == 1 then [WordOf(BarePieces(words[0]))]
    else [WordOf(BarePieces(words[0])), Gap(SPACE)] + WordItems(words[1..])
  }

  function Words(words: seq<seq<Byte>>): seq<Lexeme> {
    seq(|words|, k requires 0 <= k < |words| => Word(words[k]))
  }

  lemma {:induction false} BarePiecesMean(w: seq<Byte>)
    ensures PiecesForm(BarePieces(w)) == w && PiecesText(BarePieces(w)) == w
    decreases |w|
  {
    if w != [] {
      BarePiecesMean(w[1..]);
      assert BarePieces(w)[1..] == BarePieces(w[1..]);
    }
  }

  lemma {:induction false} WordItemsMean(words: seq<seq<Byte>>)
    requires words != []
    ensures ItemsForm(WordItems(words)) == JoinWith(words, SPACE) && ItemsTokens(WordItems(words)) == Words(words)
    decreases |words|
  {
    var items := WordItems(words);
    BarePiecesMean(words[0]);
    if |words| == 1 {
      assert items[1..] == [];
    } else {
      var more := WordItems(words[1..]);
      WordItemsMean(words[1..]);
      assert items[1..] == [Gap(SPACE)] + more && items[1..][1..] == more;
      assert Words(words) == [Word(words[0])] + Words(words[1..]);
      ConcatAssoc(words[0], [SPACE], JoinWith(words[1..], SPACE));
    }
  }

  predicate PlainWords(words: seq<seq<Byte>>) {
    words != [] && forall k | 0 <= k < |words| :: PlainWord(words[k])
  }

  lemma {:induction false} WordItemsValid(words: seq<seq<Byte>>)
    requires PlainWords(words)
    ensures ValidItems(WordItems(words)) && WordItems(words)[0].WordOf?
    decreases |words|
  {
    if |words| > 1 {
      WordItemsValid(words[1..]);
      var first, more := WordOf(BarePieces(words[0])), WordItems(words[1..]);
      OneMoreItem(Gap(SPACE), more);
      OneMoreItem(first, [Gap(SPACE)] + more);
      assert [first] + ([Gap(SPACE)] + more) == [first, Gap(SPACE)] + more;
    }
  }

  /** No byte of the joined words is one that a line is read specially for. */
  lemma {:induction false} JoinedBytes(words: seq<seq<Byte>>)
    requires PlainWords(words)
    ensures var s := JoinWith(words, SPACE); s != [] && Trimmed(s) && DOLLAR !in s
    decreases |words|
  {
    if |words| > 1 {
      JoinedBytes(words[1..]);
      var rest := JoinWith(words[1..], SPACE);
      var s := words[0] + [SPACE] + rest;
      assert s[0] == words[0][0] && s[|s| - 1] == rest[|rest| - 1];
    }
  }

  lemma PlainLine(words: seq<seq<Byte>>)
    requires PlainWords(words)
    ensures var l := Whole(WordItems(words));
            ValidLine(l) && LineForm(l) == JoinWith(words, SPACE) && LineMeans(l) == Lexed(Words(words), [], Complete)
  {
    WordItemsMean(words);
    WordItemsValid(words);
    assert JoinWith(words, SPACE) + [] == JoinWith(words, SPACE);
  }

  /** Plain words with single spaces between them are typed as they are, and a line that
      expands to them is read as them. */
  lemma TypedWords(env: ShellEnv.Env, line: seq<Byte>, words: seq<seq<Byte>>)
    requires PlainWords(words) && |words| <= 64 && |JoinWith(words, SPACE)| <= 512
    requires line == JoinWith(words, SPACE)
             || (line != [] && Trimmed(line) && Expand(ValuesOf(env), line) == JoinWith(words, SPACE))
    ensures ReadCommand(env, line) == Tokens(Words(words))
  {
    PlainLine(words);
    JoinedBytes(words);
    TrimTrimmed(line);
    if line == JoinWith(words, SPACE) { ExpandIdentity(ValuesOf(env), line); }
    ExpandedLine(env, line, Whole(WordItems(words)));
  }

  // Nothing follows an exit.

  lemma {:induction false} SessionConcat(m: Machine, s: Session, pre: seq<seq<Byte>>, stop: seq<Byte>,
                                         post: seq<seq<Byte>>)
    requires forall t: Session :: RunLine(m, t, stop).1 == Builtin(EXIT)
    ensures RunSession(m, s, pre + ([stop] + post)) == RunSession(m, s, pre + [stop])
    decreases |pre|
  {
    var long, short := pre + ([stop] + post), pre + [stop];
    if pre == [] {
      assert long[0] == stop && short[0] == stop;
    } else {
      assert long[1..] == pre[1..] + ([stop] + post) && short[1..] == pre[1..] + [stop];
      SessionConcat(m, RunLine(m, s, pre[0]).0, pre[1..], stop, post);
    }
  }

  lemma ExitIsTyped(m: Machine, s: Session)
    ensures RunLine(m, s, Str("exit")) == (s, Builtin(EXIT))
  {
    var words := [EXIT];
    assert |EXIT| == 4 && EXIT[0] == 101 && EXIT[1] == 120 && EXIT[2] == 105 && EXIT[3] == 116;
    assert PlainWord(EXIT);
    assert JoinWith(words, SPACE) == Str("exit");
    TypedWords(s.env, Str("exit"), words);
    assert Words(words) == [Word(EXIT)] && [Word(EXIT)][1..] == [] && Texts([]) == [] && Args([]) == [];
    assert CD[0] == 99 && EXPORT[1] == 120 && EXPORT[2] == 112 && |ENV| == 3;
  }

  /** Whatever is typed behind "exit" is not run. */
  lemma NothingAfterExit(m: Machine, s: Session, pre: seq<seq<Byte>>, post: seq<seq<Byte>>)
    ensures RunSession(m, s, pre + ([Str("exit")] + post)) == RunSession(m, s, pre + [Str("exit")])
  {
    forall t: Session ensures RunLine(m, t, Str("exit")).1 == Builtin(EXIT) { ExitIsTyped(m, t); }
    SessionConcat(m, s, pre, Str("exit"), post);
  }

  /** A command and one argument. */
  lemma SimpleRuns(m: Machine, s: Session, cmd: seq<Byte>, arg: seq<Byte>)
    requires |arg| <= 191
    ensures RunTokens(m, s, [Word(cmd), Word(arg)]) == RunSimple(m, s, cmd, arg)
  {
    OneArg(arg);
    assert [Word(cmd), Word(arg)][1..] == [Word(arg)];
  }

  // Where cd leads.

  function Unslashed(path: seq<Byte>): seq<Byte> {
    if |path| > 1 && path[|path| - 1] == SLASH then path[..|path| - 1] else path
  }

  /** The directory d, seen from directory c; nothing is the root. */
  function Target(c: seq<Byte>, d: seq<Byte>): seq<Byte> {
    Unslashed(if d == [] then [SLASH] else if c == [] then d else FullPath(c, d))
  }

  lemma JoinedMeans(env: ShellEnv.Env, path: seq<Byte>)
    requires path != [] && ShellEnv.Get(env, ShellEnv.CWD).Some? && |ShellEnv.CwdOf(env)| <= 64
    ensures var c := ShellEnv.CwdOf(env);
            Joined(env, path) == Take(if c == [] then path else FullPath(c, path), MAX_NEW_CWD)
  {
    var c := ShellEnv.CwdOf(env);
    if path[0] != SLASH {
      var base := WithSlash(c);
      assert CwdBase(env) == base by { assert Take(c, MAX_NEW_CWD) == c; }
      TakeBehind(base, path, MAX_NEW_CWD);
      BaseAndPath(c, path);
    }
  }

  lemma BaseAndPath(c: seq<Byte>, path: seq<Byte>)
    requires !([SLASH] <= path)
    ensures WithSlash(c) + path == if c == [] then path else FullPath(c, path)
  {
    assert [] + path == path;
  }

  lemma TakeBehind(a: seq<Byte>, b: seq<Byte>, n: nat)
    requires |a| <= n
    ensures a + Take(b, n - |a|) == Take(a + b, n)
  {
  }

  lemma UnslashedCut(path: seq<Byte>)
    ensures var n := NoTrailingSlash(Take(path, MAX_NEW_CWD));
            n == Unslashed(path) || (|Unslashed(path)| > 64 && |n| > 64)
  {
  }

  /** The 128-byte buffer of cd cuts nothing that a variable could hold. */
  lemma NewCwdMeans(env: ShellEnv.Env, d: seq<Byte>)
    requires Trimmed(d) && ShellEnv.Get(env, ShellEnv.CWD).Some? && |ShellEnv.CwdOf(env)| <= 64
    ensures var n := Target(ShellEnv.CwdOf(env), d);
            NewCwd(env, d) == n || (|n| > 64 && |NewCwd(env, d)| > 64)
  {
    var c := ShellEnv.CwdOf(env);
    TrimTrimmed(d);
    var path := if d == [] then [SLASH] else d;
    JoinedMeans(env, path);
    UnslashedCut(if c == [] then path else FullPath(c, path));
  }

  /** "cd d", with d trimmed: CWD becomes the directory, or stays when that has more than 64
      bytes; every other variable keeps its value. */
  lemma CdLeads(m: Machine, s: Session, d: seq<Byte>)
    requires ShellEnv.EnvInv(s.env) && CleanEnv(s.env) && Trimmed(d) && |d| <= 191
    ensures var r := RunTokens(m, s, [Word(CD), Word(d)]);
            var c := ShellEnv.CwdOf(s.env);
            && r.1 == Builtin(CD) && r.0 == s.(env := r.0.env)
            && ShellEnv.CwdOf(r.0.env) == (if |Target(c, d)| <= 64 then Target(c, d) else c)
            && forall x | x != [] && x != ShellEnv.CWD :: ShellEnv.Get(r.0.env, x) == ShellEnv.Get(s.env, x)
  {
    ShellEnv.CwdIsFirst(s.env);
    NewCwdMeans(s.env, d);
    SimpleRuns(m, s, CD, d);
    assert CD != ENV && IsBuiltin(CD);
    var n := NewCwd(s.env, d);
    forall x | x != [] && |n| <= 64
      ensures ShellEnv.Get(ShellEnv.Set(s.env, ShellEnv.CWD, n), ShellEnv.CWD) == Some(n)
      ensures x != ShellEnv.CWD ==>
                ShellEnv.Get(ShellEnv.Set(s.env, ShellEnv.CWD, n), x) == ShellEnv.Get(s.env, x)
    {
      ShellEnv.GetAfterSet(s.env, ShellEnv.CWD, n, x);
    }
    assert ShellEnv.CWD != [];
    assert RunTokens(m, s, [Word(CD), Word(d)]) == (s.(env := ShellEnv.Set(s.env, ShellEnv.CWD, n)), Builtin(CD));
  }

  lemma FullPathTwice(c: seq<Byte>, d: seq<Byte>, f: seq<Byte>)
    requires d != [] && d[|d| - 1] != SLASH && !([SLASH] <= f)
    ensures FullPath(FullPath(c, d), f) == FullPath(c, d + [SLASH] + f)
  {
    var p := FullPath(c, d);
    assert p[|p| - 1] == d[|d| - 1];
    assert FullPath(p, f) == p + [SLASH] + f;
    var base := if [SLASH] <= d then [] else if |c| > 0 && c[|c| - 1] == SLASH then c else c + [SLASH];
    assert p == base + d;
    assert base + d + [SLASH] + f == base + (d + [SLASH] + f);
  }

  /** Behind "cd d" a relative name f means what d/f meant before. */
  lemma CdThenFile(m: Machine, s: Session, d: seq<Byte>, f: seq<Byte>)
    requires ShellEnv.EnvInv(s.env) && CleanEnv(s.env) && Trimmed(d) && |d| <= 191
    requires d != [] && d[|d| - 1] != SLASH && !([SLASH] <= f)
    requires ShellEnv.CwdOf(s.env) != [] && |FullPath(ShellEnv.CwdOf(s.env), d)| <= 64
    ensures var there := RunTokens(m, s, [Word(CD), Word(d)]).0;
            FullPath(ShellEnv.CwdOf(there.env), f) == FullPath(ShellEnv.CwdOf(s.env), d + [SLASH] + f)
  {
    CdLeads(m, s, d);
    FullPathTwice(ShellEnv.CwdOf(s.env), d, f);
    TargetIsFullPath(ShellEnv.CwdOf(s.env), d);
  }

  lemma TargetIsFullPath(c: seq<Byte>, d: seq<Byte>)
    requires c != [] && d != [] && d[|d| - 1] != SLASH
    ensures Target(c, d) == FullPath(c, d)
  {
    assert FullPath(c, d)[|FullPath(c, d)| - 1] == d[|d| - 1];
  }

  // What export sets.


  lemma SplitAtEquals(env: ShellEnv.Env, k: seq<Byte>, v: seq<Byte>)
    requires EQUALS !in k && Trimmed(k) && Trimmed(v)
    ensures AssignmentOf(env, EXPORT, k + [EQUALS] + v) == Some(ShellEnv.Assignment(k, v))
  {
    var args := k + [EQUALS] + v;
    FirstIs(args, EQUALS, |k|);
    assert args[..|k|] == k && args[|k| + 1..] == v;
    TrimTrimmed(k);
    TrimTrimmed(v);
    assert EXPORT != CD;
  }

  /** A variable can be set: name and value are not too long, and it is there or an entry is
      free. */
  ghost predicate Settable(env: ShellEnv.Env, k: seq<Byte>, v: seq<Byte>) {
    |k| <= 32 && |v| <= 64 && exists i | 0 <= i < |env| :: env[i].name == k || env[i].name == []
  }

  lemma SettableMeans(env: ShellEnv.Env, k: seq<Byte>, v: seq<Byte>)
    ensures Settable(env, k, v) <==> ShellEnv.Accepts(env, k, v)
  {
    var names := ShellEnv.Names(env);
    if i :| 0 <= i < |env| && (env[i].name == k || env[i].name == []) { assert names[i] == env[i].name; }
    if k in names { var i :| 0 <= i < |names| && names[i] == k; assert env[i].name == k; }
    if [] in names { var i :| 0 <= i < |names| && names[i] == []; assert env[i].name == []; }
  }

  /** "export k=v": the variable then reads as v and all others as before, or, when it cannot
      be set, nothing changes. */
  lemma ExportSets(m: Machine, s: Session, k: seq<Byte>, v: seq<Byte>, x: seq<Byte>)
    requires k != [] && EQUALS !in k && Trimmed(k) && Trimmed(v) && |k| + |v| < 191 && x != []
    ensures var r := RunTokens(m, s, [Word(EXPORT), Word(k + [EQUALS] + v)]);
            && r.1 == Builtin(EXPORT) && r.0 == s.(env := r.0.env)
            && (!Settable(s.env, k, v) ==> r.0 == s)
            && (Settable(s.env, k, v) ==>
                  ShellEnv.Get(r.0.env, x) == if x == k then Some(v) else ShellEnv.Get(s.env, x))
  {
    var arg := k + [EQUALS] + v;
    SplitAtEquals(s.env, k, v);
    SettableMeans(s.env, k, v);
    SimpleRuns(m, s, EXPORT, arg);
    assert EXPORT != ENV && IsBuiltin(EXPORT);
    assert RunTokens(m, s, [Word(EXPORT), Word(arg)]) == (s.(env := ShellEnv.Set(s.env, k, v)), Builtin(EXPORT));
    if Settable(s.env, k, v) { ShellEnv.GetAfterSet(s.env, k, v, x); }
  }

  lemma NameIsPlain(k: seq<Byte>)
    requires k != [] && forall i | 0 <= i < |k| :: IsNameByte(k[i])
    ensures EQUALS !in k && Trimmed(k)
  {
  }

  lemma JoinTwo(a: seq<Byte>, b: seq<Byte>)
    ensures JoinWith([a, b], SPACE) == a + [SPACE] + b
  {
    assert [a, b][1..] == [b];
  }

  /** A reference behind a command is read as the value of its variable. */
  lemma ReferenceIsRead(env: ShellEnv.Env, k: seq<Byte>, v: seq<Byte>, cmd: seq<Byte>)
    requires k != [] && (forall i | 0 <= i < |k| :: IsNameByte(k[i])) && ShellEnv.Get(env, k) == Some(v)
    requires PlainWord(v) && PlainWord(cmd) && |cmd| + |v| < 512
    ensures ReadCommand(env, cmd + [SPACE, DOLLAR] + k) == Tokens([Word(cmd), Word(v)])
  {
    var line, values := cmd + [SPACE, DOLLAR] + k, ValuesOf(env);
    assert line == (cmd + [SPACE]) + ([DOLLAR] + (k + []));
    ExpandReference(values, cmd + [SPACE], k, []);
    assert v + [] == v;
    JoinTwo(cmd, v);
    assert Expand(values, line) == JoinWith([cmd, v], SPACE);
    NameIsPlain(k);
    ReferenceTrimmed(cmd, k);
    TypedWords(env, line, [cmd, v]);
    assert Words([cmd, v]) == [Word(cmd), Word(v)];
  }

  lemma ReferenceTrimmed(cmd: seq<Byte>, k: seq<Byte>)
    requires PlainWord(cmd) && k != [] && Trimmed(k)
    ensures var line := cmd + [SPACE, DOLLAR] + k; line != [] && Trimmed(line)
  {
    var line := cmd + [SPACE, DOLLAR] + k;
    assert line[0] == cmd[0] && line[|line| - 1] == k[|k| - 1];
  }

  /** Behind "export k=v" the line "cmd $k" is read as "cmd v". */
  lemma ExportThenUse(m: Machine, s: Session, k: seq<Byte>, v: seq<Byte>, cmd: seq<Byte>)
    requires k != [] && (forall i | 0 <= i < |k| :: IsNameByte(k[i])) && Settable(s.env, k, v)
    requires PlainWord(v) && PlainWord(cmd) && |cmd| + |v| < 512
    ensures var there := RunTokens(m, s, [Word(EXPORT), Word(k + [EQUALS] + v)]).0;
            ReadCommand(there.env, cmd + [SPACE, DOLLAR] + k) == Tokens([Word(cmd), Word(v)])
  {
    NameIsPlain(k);
    ExportSets(m, s, k, v, k);
    ReferenceIsRead(RunTokens(m, s, [Word(EXPORT), Word(k + [EQUALS] + v)]).0.env, k, v, cmd);
  }

  /** "env" shows the variables, as many lines as 511 bytes hold. */
  lemma EnvShows(m: Machine, s: Session) returns (n: nat)
    ensures n <= |ShellEnv.EnvLines(s.env)|
    ensures RunTokens(m, s, [Word(ENV)])
         == (s.(console := s.console + Flatten(ShellEnv.EnvLines(s.env)[..n])), Builtin(ENV))
    ensures n == |ShellEnv.EnvLines(s.env)| <==> |Flatten(ShellEnv.EnvLines(s.env))| <= 511
  {
    n := ShellEnv.EnvTextMeans(s.env, 0);
    var lines := ShellEnv.EnvLines(s.env);
    assert lines[..|lines|] == lines;
    if n < |lines| {
      FlattenPrefix(lines, n + 1);
      assert lines[..n + 1] == lines[..n] + [lines[n]];
      FlattenAppend(lines[..n], lines[n]);
    }
    assert [Word(ENV)][1..] == [] && Texts([]) == [] && Args([]) == [];
    assert ENV != CD && ENV != EXPORT && IsBuiltin(ENV);
  }

  lemma {:induction false} FlattenAppend(parts: seq<seq<Byte>>, last: seq<Byte>)
    ensures Flatten(parts + [last]) == Flatten(parts) + last
    decreases |parts|
  {
    if parts == [] {
      assert [] + [last] == [last] && [last][1..] == [] && Flatten([last]) == last + [];
    } else {
      assert (parts + [last])[1..] == parts[1..] + [last];
      FlattenAppend(parts[1..], last);
      ConcatAssoc(parts[0], Flatten(parts[1..]), last);
    }
  }

  lemma {:induction false} FlattenPrefix(parts: seq<seq<Byte>>, n: nat)
    requires n <= |parts|
    ensures |Flatten(parts[..n])| <= |Flatten(parts)|
    decreases |parts| - n
  {
    if n == |parts| {
      assert parts[..n] == parts;
    } else {
      assert parts[..n + 1] == parts[..n] + [parts[n]];
      FlattenAppend(parts[..n], parts[n]);
      FlattenPrefix(parts, n + 1);
    }
  }

  // Which program a command is, and what it is handed.

  /** A command without a slash in front is looked for in /bin, and one that no program is
      launched for leaves everything as it was. */
  lemma CommandIsInBin(m: Machine, s: Session, cmd: seq<Byte>, args: seq<Byte>)
    requires PlainCommand(cmd) && NUL !in args
    ensures RunSimple(m, s, BIN_PREFIX + cmd, args) == RunSimple(m, s, cmd, args)
    ensures !m.launches(BIN_PREFIX + cmd) ==> RunSimple(m, s, cmd, args) == (s, Ran(UnknownCommand))
  {
    var path := BIN_PREFIX + cmd;
    assert path[0] == SLASH && IsAbsolute(path) && NUL !in path;
    CStringWhole(path);
    SlashIsNoBuiltin(path);
  }

  lemma SlashIsNoBuiltin(path: seq<Byte>)
    requires path != [] && path[0] == SLASH
    ensures !IsBuiltin(path)
  {
    assert Str("help")[0] == 104 && Str("clear")[0] == 99 && Str("exit")[0] == 101;
    assert Str("cd")[0] == 99 && Str("env")[0] == 101 && Str("export")[0] == 101;
  }

  predicate Readable(w: World, file: seq<Byte>, ram: Ram) {
    && ResolvePath(w.cwd, file).Resolved? && |FullPath(w.cwd, file)| < 128
    && ReadFile(w.statics, ram, CString(FullPath(w.cwd, file))).Some?
  }

  /** "cmd < f": the program is handed the first 4096 bytes of f, or no input when it is
      empty; a file that cannot be read stops the line with nothing changed. */
  lemma InputFromFile(w: World, cmd: seq<Byte>, f: seq<Byte>, st: State)
    requires PlainCommand(cmd)
    ensures var r := Dispatch(w, [Word(cmd), RedirectIn, Word(f)], st);
            if !Readable(w, f, st.ram) then
              && r.0.ram == st.ram && r.0.console == st.console
              && r.1 == if w.cwd == [] && !([SLASH] <= f) then Crashed
                        else if ResolvePath(w.cwd, f).Resolved? then CannotRead else PathTooLong
            else
              var data := ReadFile(w.statics, st.ram, CString(FullPath(w.cwd, f))).value;
              var run := w.program(BIN_PREFIX + cmd, [], if data == [] then None else Some(Take(data, 4096)), st.ram);
              && r.0.ram == run.result.ram && r.0.console == st.console + Flatten(run.result.writes)
              && r.1 == if run.status == U64_MAX then UnknownCommand else Finished
  {
    var ls, start := [Word(cmd), RedirectIn, Word(f)], st.(pipe := []);
    ResolvePathMeans(w.cwd, f);
    InputParts(cmd, f);
    SplitWhole(ls, Pipe);
    OneStage(w, ls, true, start);
    assert Dispatch(w, ls, st) == RunStage(w, ls, true, true, start);
    var stage := Stage(cmd, [], Some(f), None);
    if Readable(w, f, st.ram) {
      var got := Take(ReadFile(w.statics, st.ram, CString(FullPath(w.cwd, f))).value, MAX_IO);
      StageRuns(w, ls, true, true, start, stage);
      ExecOfPlain(w, cmd, got, st.ram);
      var writes := Exec(w, cmd, [], Some(got), st.ram).result.writes;
      UncapturedIsShown(Sink(false, [], st.console), writes);
    } else {
      StageStops(w, ls, true, true, start, stage);
    }
  }

  lemma ExecOfPlain(w: World, cmd: seq<Byte>, input: seq<Byte>, ram: Ram)
    requires PlainCommand(cmd) && |input| <= MAX_IO
    ensures Exec(w, cmd, [], Some(input), ram)
         == w.program(BIN_PREFIX + cmd, [], if input == [] then None else Some(input), ram)
  {
    assert NUL !in BIN_PREFIX + cmd;
    CStringWhole(BIN_PREFIX + cmd);
    CStringWhole([]);
  }

  lemma LongerLineRuns(w: World, ls: seq<Lexeme>, last: seq<Lexeme>, st: State)
    requires [] !in SplitOn(ls, Pipe) && |SplitOn(ls, Pipe)| < 4 && last != [] && Pipe !in last
    requires Behind(w, ls, st).1 == Finished
    ensures Dispatch(w, ls + [Pipe] + last, st) == RunStage(w, last, false, true, Behind(w, ls, st).0)
  {
    OneMoreStage(ls, last);
    NoEmptyStage(SplitOn(ls, Pipe), [last]);
    RunConcat(w, SplitOn(ls, Pipe), [last], true, st.(pipe := []));
    OneStage(w, last, false, Behind(w, ls, st).0);
  }

  /** "| cmd" behind any line that gets that far: the program is handed the first 4096 bytes of
      what the last program before it writes, or no input when that is nothing, and what it
      writes itself is on the console. */
  lemma PipeFeedsNext(w: World, ls: seq<Lexeme>, cmd: seq<Byte>, st: State)
    requires PlainCommand(cmd) && [] !in SplitOn(ls, Pipe) && |SplitOn(ls, Pipe)| < 4
    requires Behind(w, ls, st).1 == Finished
    ensures var out, before := Take(Flatten(LastWrites(w, ls, st)), 4096), Behind(w, ls, st).0;
            var run := w.program(BIN_PREFIX + cmd, [], if out == [] then None else Some(out), before.ram);
            var r := Dispatch(w, ls + [Pipe] + [Word(cmd)], st);
            && r.0.ram == run.result.ram && r.0.console == before.console + Flatten(run.result.writes)
            && r.1 == if run.status == U64_MAX then UnknownCommand else Finished
  {
    var before := Behind(w, ls, st).0;
    LongerLineRuns(w, ls, [Word(cmd)], st);
    HandedOn(w, ls, st);
    FilterParse(cmd);
    StageRuns(w, [Word(cmd)], false, true, before, Stage(cmd, [], None, None));
    ExecOfPlain(w, cmd, before.pipe, before.ram);
    UncapturedIsShown(Sink(false, [], before.console), Exec(w, cmd, [], Some(before.pipe), before.ram).result.writes);
  }

  /** A builtin is not run in a pipeline: the line stops in front of it. */
  lemma BuiltinStopsLine(w: World, ls: seq<Lexeme>, gs: seq<Group>, st: State)
    requires [] !in SplitOn(ls, Pipe) && |SplitOn(ls, Pipe)| < 4 && Behind(w, ls, st).1 == Finished
    requires ParseStage(GroupsForm(gs), false, true).Some?
    requires Arguments(gs) != [] && Arguments(gs)[0] in {Str("help"), Str("clear"), Str("exit"), CD, ENV, EXPORT}
    ensures Dispatch(w, ls + [Pipe] + GroupsForm(gs), st) == (Behind(w, ls, st).0, BuiltinStage)
  {
    GroupsHoldNoPipe(gs);
    StageMeans(gs, false, true);
    LongerLineRuns(w, ls, GroupsForm(gs), st);
    StageStops(w, GroupsForm(gs), false, true, Behind(w, ls, st).0, ParseStage(GroupsForm(gs), false, true).value);
  }

  lemma {:induction false} GroupsHoldNoPipe(gs: seq<Group>)
    ensures Pipe !in GroupsForm(gs) && (gs != [] ==> GroupsForm(gs) != [])
    decreases |gs|
  {
    if gs != [] { GroupsHoldNoPipe(gs[1..]); }
  }

  /** "cat < f" shows the first 4096 bytes of f as they are. */
  lemma CatShowsInput(m: Machine, s: Session, f: seq<Byte>)
    requires m.launches(BIN_PREFIX + CAT) && Readable(WorldOf(m, s.env), f, s.ram)
    requires ReadFile(m.statics, s.ram, CString(FullPath(ShellEnv.CwdOf(s.env), f))).value != []
    ensures var data := ReadFile(m.statics, s.ram, CString(FullPath(ShellEnv.CwdOf(s.env), f))).value;
            RunTokens(m, s, [Word(CAT), RedirectIn, Word(f)])
              == (s.(console := s.console + Take(data, 4096)), Ran(Finished))
  {
    var data := ReadFile(m.statics, s.ram, CString(FullPath(ShellEnv.CwdOf(s.env), f))).value;
    var ls, got := [Word(CAT), RedirectIn, Word(f)], Take(data, 4096);
    assert ls[1] == RedirectIn && !AllWords(ls);
    ProgramsArePlain();
    MachineHasFilters(m, s.env);
    InputFromFile(WorldOf(m, s.env), CAT, f, State([], s.ram, s.console));
    ChunksConserve(got, CHUNK);
  }

  // What cat shows of a file.

  /** A file as far as 4096 bytes go, and a line end if there is none. */
  function Content(data: seq<Byte>): seq<Byte> {
    var got := Take(data, 4096);
    got + if got != [] && got[|got| - 1] != 10 then [10] else []
  }

  function CatText(statics: seq<FileEntry>, ram: Ram, c: seq<Byte>, f: seq<Byte>): seq<Byte> {
    var p := FullPath(c, f);
    if |p| < 128 && ReadFile(statics, ram, p).Some? then Content(ReadFile(statics, ram, p).value)
    else if |p| > 128 && !([SLASH] <= f) then Str("cat: path too long") + [10]
    else Str("cat: cannot read ") + p + [10]
  }

  lemma CatPathMeans(c: seq<Byte>, f: seq<Byte>)
    requires |c| <= 64
    ensures CatPath(c, f) == if |FullPath(c, f)| > 128 && !([SLASH] <= f) then None else Some(FullPath(c, f))
  {
  }

  lemma CatFileShows(c: seq<Byte>, f: seq<Byte>, statics: seq<FileEntry>, ram: Ram)
    requires |c| <= 64 && NUL !in c && NUL !in f
    ensures CatFileRun(c, f, statics, ram).ram == ram
    ensures Flatten(CatFileRun(c, f, statics, ram).writes) == CatText(statics, ram, c, f)
  {
    var p := FullPath(c, f);
    CatPathMeans(c, f);
    assert NUL !in p;
    CStringWhole(p);
    if CatPath(c, f).None? {
      assert [CAT_TOO_LONG][1..] == [] && CAT_TOO_LONG + [] == CAT_TOO_LONG;
      TooLongText();
    } else if |p| < 128 && ReadFile(statics, ram, p).Some? {
      ShownMeans(ReadFile(statics, ram, p).value);
    } else {
      FlattenThree(CAT_CANNOT, p, LINE_END);
    }
  }

  lemma TooLongText()
    ensures CAT_TOO_LONG == Str("cat: path too long") + [10]
  {
  }

  lemma FlattenThree(a: seq<Byte>, b: seq<Byte>, c: seq<Byte>)
    ensures Flatten([a, b, c]) == a + b + c
  {
    assert [a, b, c][1..] == [b, c];
    FlattenTwo(b, c);
    ConcatAssoc(a, b, c);
  }

  /** A program finds the working directory of the shell in its environment. */
  lemma ChildDirectory(s: Session)
    requires GoodSession(s)
    ensures ShellEnv.CwdOfLines(SplitOn(ShellEnv.ChildText(s.env), NEWLINE)) == ShellEnv.CwdOf(s.env)
  {
    ShellEnv.CwdIsFirst(s.env);
    ShellEnv.ChildFindsCwd(s.env, []);
    assert ShellEnv.EnvText(s.env, 0) + [] == ShellEnv.EnvText(s.env, 0);
  }

  lemma ExecWithoutInput(w: World, cmd: seq<Byte>, args: seq<Byte>, ram: Ram)
    requires PlainCommand(cmd) && NUL !in args && |args| <= MAX_ARGS
    ensures Exec(w, cmd, args, None, ram) == w.program(BIN_PREFIX + cmd, args, None, ram)
  {
    assert NUL !in BIN_PREFIX + cmd;
    CStringWhole(BIN_PREFIX + cmd);
    CStringWhole(args);
  }

  lemma CatLaunch(m: Machine, f: seq<Byte>, env: seq<Byte>, ram: Ram)
    requires m.launches(BIN_PREFIX + CAT) && f != [] && NoWhite(f)
    ensures Program(m, Call(BIN_PREFIX + CAT, f, env, None), ram)
         == ExecResult(0, CatFileRun(ShellEnv.CwdOfLines(SplitOn(env, NEWLINE)), f, m.statics, ram))
  {
    TrimTrimmed(f);
  }

  lemma CatRunsFile(m: Machine, s: Session, f: seq<Byte>)
    requires GoodSession(s) && m.launches(BIN_PREFIX + CAT)
    requires f != [] && NoWhite(f) && NUL !in f && |f| <= 191
    ensures Exec(WorldOf(m, s.env), CAT, f, None, s.ram)
         == ExecResult(0, CatFileRun(ShellEnv.CwdOf(s.env), f, m.statics, s.ram))
  {
    ChildDirectory(s);
    ProgramsArePlain();
    ExecWithoutInput(WorldOf(m, s.env), CAT, f, s.ram);
    CatLaunch(m, f, ShellEnv.ChildText(s.env), s.ram);
  }

  /** "cat f" shows f, looked for in the working directory of the shell, or says why it
      cannot. */
  lemma CatShowsFile(m: Machine, s: Session, f: seq<Byte>)
    requires GoodSession(s) && m.launches(BIN_PREFIX + CAT)
    requires f != [] && NoWhite(f) && NUL !in f && |f| <= 191
    ensures var shown := CatText(m.statics, s.ram, ShellEnv.CwdOf(s.env), f);
            RunTokens(m, s, [Word(CAT), Word(f)]) == (s.(console := s.console + shown), Ran(Finished))
  {
    var c := ShellEnv.CwdOf(s.env);
    ShellEnv.CwdIsFirst(s.env);
    CatRunsFile(m, s, f);
    CatFileShows(c, f, m.statics, s.ram);
    UncapturedIsShown(Sink(false, [], s.console), CatFileRun(c, f, m.statics, s.ram).writes);
    ProgramsArePlain();
    SimpleRuns(m, s, CAT, f);
  }

  /** "cd d" and then "cat f" show what "cat d/f" shows. */
  lemma CdThenCat(m: Machine, s: Session, d: seq<Byte>, f: seq<Byte>)
    requires GoodSession(s) && m.launches(BIN_PREFIX + CAT)
    requires NoWhite(d) && NUL !in d && NoWhite(f) && NUL !in f && |d| + |f| < 191
    requires d != [] && d[0] != SLASH && d[|d| - 1] != SLASH && f != [] && f[0] != SLASH
    requires ShellEnv.CwdOf(s.env) != [] && |FullPath(ShellEnv.CwdOf(s.env), d)| <= 64
    ensures var there := RunTokens(m, s, [Word(CD), Word(d)]).0;
            RunTokens(m, there, [Word(CAT), Word(f)]).0.console
              == RunTokens(m, s, [Word(CAT), Word(d + [SLASH] + f)]).0.console
  {
    CdThenFile(m, s, d, f);
    CdLeads(m, s, d);
    var there := RunTokens(m, s, [Word(CD), Word(d)]).0;
    assert there.ram == s.ram && there.console == s.console;
    CleanDirectory(m, s, d);
    JoinedName(d, f);
    SameCatText(m, s.ram, ShellEnv.CwdOf(there.env), f, ShellEnv.CwdOf(s.env), d + [SLASH] + f);
    CatShowsFile(m, there, f);
    CatShowsFile(m, s, d + [SLASH] + f);
  }

  lemma JoinedName(d: seq<Byte>, f: seq<Byte>)
    requires NoWhite(d) && NUL !in d && NoWhite(f) && NUL !in f && d != [] && d[0] != SLASH
    ensures var name := d + [SLASH] + f; NoWhite(name) && NUL !in name && name != [] && !([SLASH] <= name)
  {
    assert (d + [SLASH] + f)[0] == d[0];
  }

  lemma SameCatText(m: Machine, ram: Ram, c: seq<Byte>, f: seq<Byte>, c2: seq<Byte>, f2: seq<Byte>)
    requires FullPath(c, f) == FullPath(c2, f2) && !([SLASH] <= f) && !([SLASH] <= f2)
    ensures CatText(m.statics, ram, c, f) == CatText(m.statics, ram, c2, f2)
  {
  }

  lemma CleanDirectory(m: Machine, s: Session, d: seq<Byte>)
    requires GoodSession(s) && NoWhite(d) && NUL !in d
    ensures GoodSession(RunTokens(m, s, [Word(CD), Word(d)]).0)
  {
    var ls := [Word(CD), Word(d)];
    assert Clean(d) && Clean(CD);
    TokensKeepInv(m, s, ls);
  }
}
