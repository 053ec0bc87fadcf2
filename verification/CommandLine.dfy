/** A typed line on its way to tokens: trimmed, expanded, trimmed again, tokenized. */
module CommandLine {
  import opened Bytes
  import opened AsciiText
  import opened ShellLexer
  import opened ShellExpand
  import opened Builtins
  import ShellEnv

  datatype Command = Nothing | Failed(error: LexError) | Tokens(ls: seq<Lexeme>)

  /** The line after trimming and expansion, cut at 512 bytes. */
  function Expanded(env: ShellEnv.Env, line: seq<Byte>): seq<Byte> {
    Trim(Take(Expand(ValuesOf(env), Trim(line)), MAX_PARSED_LINE))
  }

  function ReadCommand(env: ShellEnv.Env, line: seq<Byte>): (r: Command)
    ensures r.Tokens? ==> 1 <= |r.ls| <= MAX_TOKENS
  {
    if Trim(line) == [] || Expanded(env, line) == [] then Nothing
    else
      match Tokenize(Expanded(env, line))
      case Ok(ls) => if ls == [] then Nothing else Tokens(ls)
      case Err(e) => Failed(e)
  }

  /** The first half of the shell's dispatch. The line-too-long error cannot happen here. */
  method ParseLine(env: ShellEnv.EnvTable, line: seq<Byte>, parsedStorage: array<Byte>, tokens: array<Token>)
    returns (count: nat, command: Command)
    requires env.Valid() && parsedStorage.Length == MAX_PARSED_LINE && tokens.Length == MAX_TOKENS
    modifies parsedStorage, tokens
    ensures env.Valid() && env.Bindings() == old(env.Bindings())
    ensures command == ReadCommand(env.Bindings(), line)
    ensures command.Failed? ==> command.error != LineTooLong
    ensures command.Tokens? ==>
              count <= tokens.Length && Sliced(tokens[..count], parsedStorage[..])
              && DenoteAll(tokens[..count], parsedStorage[..]) == command.ls
  {
    count := 0;
    var trimmed := Trim(line);
    if trimmed == [] { return count, Nothing; }
    var expandedBuf := new Byte[MAX_PARSED_LINE](_ => NUL);
    var expandedLen := ExpandLine(env, trimmed, expandedBuf);
    var expanded := Trim(expandedBuf[..expandedLen]);
    assert expanded == Expanded(env.Bindings(), line);
    if expanded == [] { return count, Nothing; }
    TrimShortens(expandedBuf[..expandedLen]);
    var r := TokenizeCommand(expanded, parsedStorage, tokens);
    AnswerMeansTokenize(expanded, r, parsedStorage[..], tokens[..]);
    ShortLineFits(expanded);
    match r {
      case Err(e) => return count, Failed(e);
      case Ok(n) =>
        assert tokens[..][..n] == tokens[..n];
        if n == 0 { return count, Nothing; }
        return n, Tokens(DenoteAll(tokens[..n], parsedStorage[..]));
    }
  }

  lemma {:induction false} TrimEndShortens(s: seq<Byte>)
    ensures |TrimEnd(s)| <= |s|
  {
    if s != [] && IsSpace(s[|s| - 1]) { TrimEndShortens(s[..|s| - 1]); }
  }

  lemma {:induction false} TrimStartShortens(s: seq<Byte>)
    ensures |TrimStart(s)| <= |s|
  {
    if s != [] && IsSpace(s[0]) { TrimStartShortens(s[1..]); }
  }

  lemma TrimShortens(s: seq<Byte>)
    ensures |Trim(s)| <= |s|
  {
    TrimStartShortens(s);
    TrimEndShortens(TrimStart(s));
  }

  // A printed token list survives the whole way.

  /** Neither end of a printed list is white space. */
  lemma {:induction false} PrintedEnds(ls: seq<Lexeme>)
    requires ls != []
    ensures var s := Print(ls); s != [] && !IsSpace(s[0]) && !IsSpace(s[|s| - 1])
  {
    var one := PrintOne(ls[0]);
    assert one != [] && !IsSpace(one[0]) && !IsSpace(one[|one| - 1]);
    if |ls| > 1 { PrintedEnds(ls[1..]); }
  }

  lemma TrimKeeps(s: seq<Byte>)
    requires s != [] && !IsSpace(s[0]) && !IsSpace(s[|s| - 1])
    ensures Trim(s) == s
  {
  }

  predicate WordsRefFree(ls: seq<Lexeme>) {
    forall k | 0 <= k < |ls| :: RefFree(TextOf(ls[k]))
  }

  /** The words with their references replaced. */
  function ExpandWord(values: seq<Byte> -> seq<Byte>, l: Lexeme): Lexeme {
    if l.Word? then Word(Expand(values, l.text)) else l
  }

  function ExpandWords(values: seq<Byte> -> seq<Byte>, ls: seq<Lexeme>): seq<Lexeme> {
    seq(|ls|, k requires 0 <= k < |ls| => ExpandWord(values, ls[k]))
  }

  /** No value that the text refers to holds a single quote. */
  ghost predicate QuoteFree(values: seq<Byte> -> seq<Byte>, text: seq<Byte>)
    decreases |text|
  {
    text == [] ||
    if text[0] != DOLLAR then QuoteFree(values, text[1..])
    else
      var n := NameLength(text[1..]);
      && (n > 0 ==> SINGLE_QUOTE !in values(text[1..n + 1]))
      && QuoteFree(values, text[n + 1..])
  }

  ghost predicate WordsQuoteFree(values: seq<Byte> -> seq<Byte>, ls: seq<Lexeme>) {
    forall k | 0 <= k < |ls| :: QuoteFree(values, TextOf(ls[k]))
  }

  lemma {:induction false} AllQuoteFree(values: seq<Byte> -> seq<Byte>, text: seq<Byte>)
    requires forall name :: SINGLE_QUOTE !in values(name)
    ensures QuoteFree(values, text)
    decreases |text|
  {
    if text != [] {
      var n := if text[0] == DOLLAR then NameLength(text[1..]) else 0;
      AllQuoteFree(values, text[n + 1..]);
    }
  }

  lemma {:induction false} QuotedPlain(plain: seq<Byte>, rest: seq<Byte>)
    requires SINGLE_QUOTE !in plain
    ensures Quoted(plain + rest) == plain + Quoted(rest)
  {
    if plain == [] {
      assert plain + rest == rest;
    } else {
      assert (plain + rest)[1..] == plain[1..] + rest;
      QuotedPlain(plain[1..], rest);
    }
  }

  lemma CutReference(text: seq<Byte>, name: seq<Byte>, rest: seq<Byte>)
    requires text != [] && text[0] == DOLLAR
    requires var n := NameLength(text[1..]); name == text[1..n + 1] && rest == text[n + 1..]
    ensures text == [DOLLAR] + (name + rest)
    ensures forall k | 0 <= k < |name| :: IsNameByte(name[k])
    ensures rest == [] || !IsNameByte(rest[0])
  {
    var behind := text[1..];
    assert forall k | 0 <= k < |name| :: name[k] == behind[k];
    assert rest != [] ==> rest[0] == behind[|name|];
  }

  /** A byte that is no dollar: it stays, a quote in its printed form. */
  lemma QuotedByte(values: seq<Byte> -> seq<Byte>, b: Byte, rest: seq<Byte>)
    requires b != DOLLAR && Expand(values, Quoted(rest)) == Quoted(Expand(values, rest))
    ensures Expand(values, Quoted([b] + rest)) == Quoted(Expand(values, [b] + rest))
  {
    var text, printed := [b] + rest, if b == SINGLE_QUOTE then REOPENED else [b];
    assert text[1..] == rest && Quoted(text) == printed + Quoted(rest);
    ExpandPlain(values, printed, Quoted(rest));
    assert ([b] + Expand(values, rest))[1..] == Expand(values, rest);
  }

  const REOPENED: seq<Byte> := [SINGLE_QUOTE, BACKSLASH, SINGLE_QUOTE, SINGLE_QUOTE]

  /** Single quotes do not stop the expansion: it reaches the text between them. */
  lemma {:induction false} ExpandQuoted(values: seq<Byte> -> seq<Byte>, text: seq<Byte>)
    requires QuoteFree(values, text)
    ensures Expand(values, Quoted(text)) == Quoted(Expand(values, text))
    decreases |text|
  {
    if text == [] {
    } else if text[0] != DOLLAR {
      ExpandQuoted(values, text[1..]);
      QuotedByte(values, text[0], text[1..]);
      assert [text[0]] + text[1..] == text;
    } else {
      var n := NameLength(text[1..]);
      CutReference(text, text[1..n + 1], text[n + 1..]);
      ExpandQuoted(values, text[n + 1..]);
      QuotedReference(values, text[1..n + 1], text[n + 1..]);
    }
  }

  lemma QuotedReference(values: seq<Byte> -> seq<Byte>, name: seq<Byte>, rest: seq<Byte>)
    requires (name != [] ==> SINGLE_QUOTE !in values(name)) && (forall k | 0 <= k < |name| :: IsNameByte(name[k]))
    requires rest == [] || !IsNameByte(rest[0])
    requires Expand(values, Quoted(rest)) == Quoted(Expand(values, rest))
    ensures var text := [DOLLAR] + (name + rest);
            Expand(values, Quoted(text)) == Quoted(Expand(values, text))
  {
    ConcatAssoc([DOLLAR], name, rest);
    QuotedPlain([DOLLAR] + name, rest);
    ConcatAssoc([DOLLAR], name, Quoted(rest));
    ExpandName(values, name, Quoted(rest));
    ExpandName(values, name, rest);
    QuotedPlain(Reference(values, name), Expand(values, rest));
  }

  lemma ExpandPrintOne(values: seq<Byte> -> seq<Byte>, l: Lexeme)
    requires QuoteFree(values, TextOf(l))
    ensures Expand(values, PrintOne(l)) == PrintOne(ExpandWord(values, l))
  {
    if l.Word? {
      var quote := [SINGLE_QUOTE];
      ExpandConcat(values, quote + Quoted(l.text), quote);
      ExpandPlain(values, quote, Quoted(l.text));
      ExpandQuoted(values, l.text);
      ExpandPlain(values, quote, []);
      assert quote + [] == quote;
    } else {
      ExpandPlain(values, PrintOne(l), []);
      assert PrintOne(l) + [] == PrintOne(l);
    }
  }

  lemma ExpandWordsTail(values: seq<Byte> -> seq<Byte>, ls: seq<Lexeme>)
    requires ls != []
    ensures ExpandWords(values, ls)[0] == ExpandWord(values, ls[0])
    ensures ExpandWords(values, ls)[1..] == ExpandWords(values, ls[1..])
  {
    var all, rest := ExpandWords(values, ls), ExpandWords(values, ls[1..]);
    assert forall k | 0 <= k < |rest| :: all[k + 1] == ExpandWord(values, ls[k + 1]) == rest[k];
  }

  lemma {:induction false} ExpandPrinted(values: seq<Byte> -> seq<Byte>, ls: seq<Lexeme>)
    requires WordsQuoteFree(values, ls)
    ensures Expand(values, Print(ls)) == Print(ExpandWords(values, ls))
  {
    if ls != [] {
      ExpandPrintOne(values, ls[0]);
      if |ls| > 1 {
        var one, rest := PrintOne(ls[0]), Print(ls[1..]);
        ExpandPrinted(values, ls[1..]);
        ExpandWordsTail(values, ls);
        ConcatAssoc(one, [SPACE], rest);
        ExpandConcat(values, one, [SPACE] + rest);
        ExpandPlain(values, [SPACE], rest);
        ConcatAssoc(PrintOne(ExpandWords(values, ls)[0]), [SPACE], Print(ExpandWords(values, ls[1..])));
      }
    }
  }

  lemma ExpandedIs(env: ShellEnv.Env, line: seq<Byte>, text: seq<Byte>)
    requires Trim(line) == line && Trim(text) == text && |text| <= MAX_PARSED_LINE
    requires Expand(ValuesOf(env), line) == text
    ensures Expanded(env, line) == text
  {
    assert Take(text, MAX_PARSED_LINE) == text;
  }

  lemma PrintedTrims(ls: seq<Lexeme>)
    requires ls != []
    ensures Print(ls) != [] && Trim(Print(ls)) == Print(ls)
  {
    PrintedEnds(ls);
    TrimKeeps(Print(ls));
  }

  lemma ReadsExpanded(env: ShellEnv.Env, ls: seq<Lexeme>, result: seq<Lexeme>)
    requires ls != [] && result != [] && |result| <= MAX_TOKENS && |Print(result)| <= MAX_PARSED_LINE
    requires Expand(ValuesOf(env), Print(ls)) == Print(result)
    ensures ReadCommand(env, Print(ls)) == Tokens(result)
  {
    PrintedTrims(ls);
    PrintedTrims(result);
    ExpandedIs(env, Print(ls), Print(result));
    TokenizePrinted(result);
    ShortLineFits(Print(result));
  }

  /** Typing a printed token list gives the shell these tokens with every reference replaced,
      inside single quotes too, and blanks or operators in a value stay in their word. */
  lemma PrintedCommandExpands(env: ShellEnv.Env, ls: seq<Lexeme>)
    requires ls != [] && |ls| <= MAX_TOKENS && WordsQuoteFree(ValuesOf(env), ls)
    requires |Print(ExpandWords(ValuesOf(env), ls))| <= MAX_PARSED_LINE
    ensures ReadCommand(env, Print(ls)) == Tokens(ExpandWords(ValuesOf(env), ls))
  {
    ExpandPrinted(ValuesOf(env), ls);
    ReadsExpanded(env, ls, ExpandWords(ValuesOf(env), ls));
  }

  lemma PrintInjective(a: seq<Lexeme>, b: seq<Lexeme>)
    requires Print(a) == Print(b)
    ensures a == b
  {
    PrintedReads(a);
    PrintedReads(b);
  }

  /** Under values no longer than their names only words without references stay the same. */
  lemma WordsStay(values: seq<Byte> -> seq<Byte>, ls: seq<Lexeme>)
    requires forall name | name != [] :: |values(name)| <= |name|
    ensures ExpandWords(values, ls) == ls <==> WordsRefFree(ls)
  {
    forall k | 0 <= k < |ls|
      ensures ExpandWords(values, ls)[k] == ls[k] <==> RefFree(TextOf(ls[k]))
    {
      if RefFree(TextOf(ls[k])) {
        ExpandIdentity(values, TextOf(ls[k]));
      } else {
        ExpandShrinks(values, TextOf(ls[k]));
      }
    }
  }

  /** Printing neither makes nor hides a reference. */
  lemma PrintedRefFree(ls: seq<Lexeme>)
    ensures RefFree(Print(ls)) <==> WordsRefFree(ls)
  {
    var unset: seq<Byte> -> seq<Byte> := _ => [];
    forall k | 0 <= k < |ls| ensures QuoteFree(unset, TextOf(ls[k])) { AllQuoteFree(unset, TextOf(ls[k])); }
    ExpandPrinted(unset, ls);
    WordsStay(unset, ls);
    if RefFree(Print(ls)) {
      ExpandIdentity(unset, Print(ls));
      PrintInjective(ExpandWords(unset, ls), ls);
    } else {
      ExpandShrinks(unset, Print(ls));
    }
  }

  /** Typing a printed token list without references gives the shell exactly these tokens
      back, whatever the variables are: quoting shields everything else. */
  lemma PrintedCommandReads(env: ShellEnv.Env, ls: seq<Lexeme>)
    requires ls != [] && |ls| <= MAX_TOKENS && WordsRefFree(ls) && |Print(ls)| <= MAX_PARSED_LINE
    ensures ReadCommand(env, Print(ls)) == Tokens(ls)
  {
    PrintedRefFree(ls);
    ExpandIdentity(ValuesOf(env), Print(ls));
    ReadsExpanded(env, ls, ls);
  }

  lemma StartedValues()
    ensures var values := ValuesOf(ShellEnv.Started());
            (forall name :: SINGLE_QUOTE !in values(name)) && forall name | name != [] :: |values(name)| <= |name|
  {
    var env := ShellEnv.Started();
    ShellEnv.RunKeepsInv([]);
    forall name
      ensures SINGLE_QUOTE !in ValuesOf(env)(name)
      ensures name != [] ==> |ValuesOf(env)(name)| <= |name|
    {
      var i := IndexOf(ShellEnv.Names(env), name);
      if 0 < i < |env| { assert env[i].value == []; }
    }
  }

  /** The condition is exact: with a reference in some word the shell reads other tokens,
      already in the environment it starts with. */
  lemma PrintedCommandReadsExactly(ls: seq<Lexeme>)
    requires ls != [] && |ls| <= MAX_TOKENS && |Print(ls)| <= MAX_PARSED_LINE
    ensures WordsRefFree(ls) <==> forall env :: ReadCommand(env, Print(ls)) == Tokens(ls)
    ensures WordsRefFree(ls) <==> ReadCommand(ShellEnv.Started(), Print(ls)) == Tokens(ls)
  {
    var env := ShellEnv.Started();
    if WordsRefFree(ls) {
      forall e ensures ReadCommand(e, Print(ls)) == Tokens(ls) { PrintedCommandReads(e, ls); }
    } else {
      StartedValues();
      forall k | 0 <= k < |ls| ensures QuoteFree(ValuesOf(env), TextOf(ls[k])) {
        AllQuoteFree(ValuesOf(env), TextOf(ls[k]));
      }
      ExpandPrinted(ValuesOf(env), ls);
      ExpandShrinks(ValuesOf(env), Print(ls));
      WordsStay(ValuesOf(env), ls);
      PrintedCommandExpands(env, ls);
    }
  }

  // The words the shell reads hold no bytes but those of the line and of the values.

  ghost predicate CleanWords(ls: seq<Lexeme>) {
    forall k | 0 <= k < |ls| :: Clean(TextOf(ls[k]))
  }

  lemma PrependClean(tokens: seq<Lexeme>, l: Lexed)
    requires CleanWords(tokens) && CleanWords(l.tokens)
    ensures CleanWords(Prepend(tokens, l).tokens)
  {
  }

  lemma {:induction false} BlankClean(s: seq<Byte>)
    requires Clean(s)
    ensures CleanWords(LexBlank(s).tokens)
    decreases |s|, if s != [] && (IsBlank(s[0]) || IsOperator(s[0])) then 0 else 2
  {
    if s != [] {
      if IsBlank(s[0]) {
        BlankClean(s[1..]);
      } else if IsOperator(s[0]) {
        BlankClean(s[1..]);
        PrependClean([OperatorOf(s[0])], LexBlank(s[1..]));
      } else {
        BareClean(s, []);
      }
    }
  }

  lemma {:induction false} BareClean(s: seq<Byte>, word: seq<Byte>)
    requires Clean(s) && Clean(word)
    ensures CleanWords(LexBare(s, word).tokens)
    decreases |s|, 1
  {
    if s != [] {
      if IsBlank(s[0]) || IsOperator(s[0]) {
        BlankClean(s);
        PrependClean([Word(word)], LexBlank(s));
      } else if s[0] == SINGLE_QUOTE {
        SingleClean(s[1..], word);
      } else if s[0] == DOUBLE_QUOTE {
        DoubleClean(s[1..], word);
      } else if s[0] != BACKSLASH {
        BareClean(s[1..], word + [s[0]]);
      } else if |s| > 1 {
        BareClean(s[2..], word + [s[1]]);
      }
    }
  }

  lemma {:induction false} SingleClean(s: seq<Byte>, word: seq<Byte>)
    requires Clean(s) && Clean(word)
    ensures CleanWords(LexSingle(s, word).tokens)
    decreases |s|, 1
  {
    if s != [] {
      if s[0] == SINGLE_QUOTE { BareClean(s[1..], word); } else { SingleClean(s[1..], word + [s[0]]); }
    }
  }

  lemma {:induction false} DoubleClean(s: seq<Byte>, word: seq<Byte>)
    requires Clean(s) && Clean(word)
    ensures CleanWords(LexDouble(s, word).tokens)
    decreases |s|, 1
  {
    if s != [] {
      if s[0] == DOUBLE_QUOTE {
        BareClean(s[1..], word);
      } else if s[0] != BACKSLASH {
        DoubleClean(s[1..], word + [s[0]]);
      } else if |s| > 1 {
        DoubleClean(s[2..], word + [s[1]]);
      }
    }
  }

  lemma {:induction false} ExpandClean(values: seq<Byte> -> seq<Byte>, s: seq<Byte>)
    requires Clean(s) && forall name :: Clean(values(name))
    ensures Clean(Expand(values, s))
    decreases |s|
  {
    if s != [] && s[0] != DOLLAR {
      ExpandClean(values, s[1..]);
    } else if s != [] {
      var n := NameLength(s[1..]);
      ExpandClean(values, s[n + 1..]);
      ReferenceClean(values, s[1..n + 1], Expand(values, s[n + 1..]));
    }
  }

  lemma ReferenceClean(values: seq<Byte> -> seq<Byte>, name: seq<Byte>, rest: seq<Byte>)
    requires (forall name :: Clean(values(name))) && Clean(rest)
    ensures Clean(Reference(values, name) + rest)
  {
  }

  lemma CommandClean(env: ShellEnv.Env, line: seq<Byte>)
    requires Clean(line) && CleanEnv(env) && ReadCommand(env, line).Tokens?
    ensures CleanWords(ReadCommand(env, line).ls)
  {
    forall name ensures Clean(ValuesOf(env)(name)) { GetClean(env, name); }
    TrimClean(line);
    var expanded := Expand(ValuesOf(env), Trim(line));
    ExpandClean(ValuesOf(env), Trim(line));
    TrimClean(Take(expanded, MAX_PARSED_LINE));
    BlankClean(Expanded(env, line));
  }
}
