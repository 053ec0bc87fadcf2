/** The shell's tokenizer: a one-pass loop over bounded buffers that agrees with a
    recursive lexer over unbounded lists, and a printer it inverts. */
module ShellLexer {
  import opened Bytes

  const MAX_PARSED_LINE := 512
  const MAX_TOKENS := 64

  datatype TokenKind = WordKind | PipeKind | RedirectInKind | RedirectOutKind

  /** A token as the shell stores it: a word is a slice of the shared byte buffer. */
  datatype Token = Token(kind: TokenKind, start: nat, len: nat)

  /** A token as a value. */
  datatype Lexeme = Word(text: seq<Byte>) | Pipe | RedirectIn | RedirectOut

  datatype LexError = LineTooLong | TooManyTokens | TrailingEscape | UnclosedQuote

  datatype LexEnd = Complete | DanglingEscape | OpenQuote

  /** Every token recognised before the line ended or broke off, the bytes of the word
      that was left unfinished, and how the line ended. */
  datatype Lexed = Lexed(tokens: seq<Lexeme>, pending: seq<Byte>, end: LexEnd)

  predicate IsBlank(b: Byte) { b == SPACE || b == TAB }

  predicate IsOperator(b: Byte) { b == BAR || b == LESS || b == GREATER }

  function OperatorOf(b: Byte): Lexeme
    requires IsOperator(b)
  {
    if b == BAR then Pipe else if b == LESS then RedirectIn else RedirectOut
  }

  function Prepend(tokens: seq<Lexeme>, l: Lexed): Lexed {
    l.(tokens := tokens + l.tokens)
  }

  // The reference lexer: one function per mode, each consuming the line from the front.

  function LexBlank(s: seq<Byte>): Lexed
    decreases |s|, if s != [] && (IsBlank(s[0]) || IsOperator(s[0])) then 0 else 2
  {
    if s == [] then Lexed([], [], Complete)
    else if IsBlank(s[0]) then LexBlank(s[1..])
    else if IsOperator(s[0]) then Prepend([OperatorOf(s[0])], LexBlank(s[1..]))
    else LexBare(s, [])
  }

  function LexBare(s: seq<Byte>, word: seq<Byte>): Lexed
    decreases |s|, 1
  {
    if s == [] then Lexed([Word(word)], [], Complete)
    else if IsBlank(s[0]) || IsOperator(s[0]) then Prepend([Word(word)], LexBlank(s))
    else if s[0] == SINGLE_QUOTE then LexSingle(s[1..], word)
    else if s[0] == DOUBLE_QUOTE then LexDouble(s[1..], word)
    else if s[0] != BACKSLASH then LexBare(s[1..], word + [s[0]])
    else if |s| == 1 then Lexed([], word, DanglingEscape)
    else LexBare(s[2..], word + [s[1]])
  }

  function LexSingle(s: seq<Byte>, word: seq<Byte>): Lexed
    decreases |s|, 1
  {
    if s == [] then Lexed([], word, OpenQuote)
    else if s[0] == SINGLE_QUOTE then LexBare(s[1..], word)
    else LexSingle(s[1..], word + [s[0]])
  }

  function LexDouble(s: seq<Byte>, word: seq<Byte>): Lexed
    decreases |s|, 1
  {
    if s == [] then Lexed([], word, OpenQuote)
    else if s[0] == DOUBLE_QUOTE then LexBare(s[1..], word)
    else if s[0] != BACKSLASH then LexDouble(s[1..], word + [s[0]])
    else if |s| == 1 then Lexed([], word, DanglingEscape)
    else LexDouble(s[2..], word + [s[1]])
  }

  // The limits the bounded tokenizer adds.

  function TextOf(l: Lexeme): seq<Byte> {
    if l.Word? then l.text else []
  }

  /** The bytes of all words in order: what the shared buffer must hold. */
  function WordBytes(ls: seq<Lexeme>): seq<Byte> {
    if ls == [] then [] else WordBytes(ls[..|ls| - 1]) + TextOf(ls[|ls| - 1])
  }

  function KindOf(l: Lexeme): TokenKind {
    match l
    case Word(_) => WordKind
    case Pipe => PipeKind
    case RedirectIn => RedirectInKind
    case RedirectOut => RedirectOutKind
  }

  function TokenAt(l: Lexeme, start: nat): Token {
    if l.Word? then Token(WordKind, start, |l.text|) else Token(KindOf(l), 0, 0)
  }

  /** The token records for ls: each word starts where the previous one ended, so the
      slices partition the used part of the shared buffer. */
  function Layout(ls: seq<Lexeme>): (ts: seq<Token>)
    ensures |ts| == |ls|
  {
    if ls == [] then []
    else Layout(ls[..|ls| - 1]) + [TokenAt(ls[|ls| - 1], |WordBytes(ls[..|ls| - 1])|)]
  }

  function ByteCount(x: Lexed): nat { |WordBytes(x.tokens)| + |x.pending| }

  /** The bytes of the words that are begun before a 65th token is stored: those of the
      first 65 tokens, or of the whole line when it has fewer. */
  function EarlyBytes(x: Lexed): nat {
    if |x.tokens| <= MAX_TOKENS then ByteCount(x) else |WordBytes(x.tokens[..MAX_TOKENS + 1])|
  }

  /** The answer of the bounded tokenizer. A limit is reported when it is passed, so the byte
      limit comes first when it is passed before the 65th token is stored. */
  function Tokenized(x: Lexed): Result<seq<Lexeme>, LexError> {
    if EarlyBytes(x) > MAX_PARSED_LINE then Err(LineTooLong)
    else if |x.tokens| > MAX_TOKENS then Err(TooManyTokens)
    else match x.end
         case Complete => Ok(x.tokens)
         case DanglingEscape => Err(TrailingEscape)
         case OpenQuote => Err(UnclosedQuote)
  }

  function Tokenize(line: seq<Byte>): Result<seq<Lexeme>, LexError> {
    Tokenized(LexBlank(line))
  }

  function Denote(t: Token, parsed: seq<Byte>): Lexeme
    requires t.kind == WordKind ==> t.start + t.len <= |parsed|
  {
    match t.kind
    case WordKind => Word(parsed[t.start..t.start + t.len])
    case PipeKind => Pipe
    case RedirectInKind => RedirectIn
    case RedirectOutKind => RedirectOut
  }

  predicate Sliced(ts: seq<Token>, parsed: seq<Byte>) {
    forall k | 0 <= k < |ts| :: ts[k].kind == WordKind ==> ts[k].start + ts[k].len <= |parsed|
  }

  function DenoteAll(ts: seq<Token>, parsed: seq<Byte>): seq<Lexeme>
    requires Sliced(ts, parsed)
  {
    seq(|ts|, k requires 0 <= k < |ts| => Denote(ts[k], parsed))
  }

  /** The k-th record slices the k-th word out of any buffer that starts with the words:
      no later byte of the buffer matters. */
  lemma {:induction false} LayoutDenotesAt(ls: seq<Lexeme>, parsed: seq<Byte>, k: nat)
    requires WordBytes(ls) <= parsed && k < |ls|
    ensures var t := Layout(ls)[k];
            (t.kind == WordKind ==> t.start + t.len <= |parsed|) && Denote(t, parsed) == ls[k]
  {
    var n := |ls| - 1;
    var before := WordBytes(ls[..n]);
    if k < n {
      assert before <= parsed;
      LayoutDenotesAt(ls[..n], parsed, k);
    } else if ls[n].Word? {
      SliceAfter(before, ls[n].text, parsed);
    }
  }

  lemma SliceAfter(a: seq<Byte>, b: seq<Byte>, whole: seq<Byte>)
    requires a + b <= whole
    ensures whole[|a|..|a| + |b|] == b
  {
  }

  lemma LayoutDenotes(ls: seq<Lexeme>, parsed: seq<Byte>)
    requires WordBytes(ls) <= parsed
    ensures Sliced(Layout(ls), parsed)
    ensures DenoteAll(Layout(ls), parsed) == ls
  {
    forall k | 0 <= k < |ls|
      ensures var t := Layout(ls)[k];
              (t.kind == WordKind ==> t.start + t.len <= |parsed|) && Denote(t, parsed) == ls[k]
    {
      LayoutDenotesAt(ls, parsed, k);
    }
  }

  lemma LayoutAppend(ls: seq<Lexeme>, l: Lexeme)
    ensures WordBytes(ls + [l]) == WordBytes(ls) + TextOf(l)
    ensures Layout(ls + [l]) == Layout(ls) + [TokenAt(l, |WordBytes(ls)|)]
  {
  }

  lemma {:induction false} WordBytesConcat(a: seq<Lexeme>, b: seq<Lexeme>)
    ensures WordBytes(a + b) == WordBytes(a) + WordBytes(b)
  {
    if b == [] {
      assert a + b == a;
    } else {
      var n := |b| - 1;
      assert a + b == (a + b[..n]) + [b[n]];
      LayoutAppend(a + b[..n], b[n]);
      WordBytesConcat(a, b[..n]);
      ConcatAssoc(WordBytes(a), WordBytes(b[..n]), TextOf(b[n]));
    }
  }

  lemma EarlyIsPart(x: Lexed)
    ensures EarlyBytes(x) <= ByteCount(x)
  {
    if |x.tokens| > MAX_TOKENS {
      var n := MAX_TOKENS + 1;
      assert x.tokens[..n] + x.tokens[n..] == x.tokens;
      WordBytesConcat(x.tokens[..n], x.tokens[n..]);
    }
  }

  lemma FirstWordBytes(ls: seq<Lexeme>)
    requires ls != []
    ensures |TextOf(ls[0])| <= |WordBytes(ls)|
  {
    assert ls == [ls[0]] + ls[1..];
    LayoutAppend([], ls[0]);
    assert [] + [ls[0]] == [ls[0]];
    WordBytesConcat([ls[0]], ls[1..]);
  }

  // No byte is lost once it is part of a word, and none is made up: a line of at most 512
  // bytes cannot reach the byte limit.

  /** The word that is being read keeps its bytes, whether it is completed or not. */
  predicate KeepsWord(x: Lexed, word: seq<Byte>) {
    |word| <= if x.tokens == [] then |x.pending| else |TextOf(x.tokens[0])|
  }

  lemma {:induction false} BlankBytes(s: seq<Byte>)
    ensures ByteCount(LexBlank(s)) <= |s|
    decreases |s|, if s != [] && (IsBlank(s[0]) || IsOperator(s[0])) then 0 else 2
  {
    if s == [] {
    } else if IsBlank(s[0]) {
      BlankBytes(s[1..]);
    } else if IsOperator(s[0]) {
      BlankBytes(s[1..]);
      WordBytesConcat([OperatorOf(s[0])], LexBlank(s[1..]).tokens);
    } else {
      BareBytes(s, []);
    }
  }

  lemma {:induction false} BareBytes(s: seq<Byte>, word: seq<Byte>)
    ensures |word| <= ByteCount(LexBare(s, word)) <= |s| + |word|
    ensures KeepsWord(LexBare(s, word), word)
    decreases |s|, 1
  {
    if s == [] {
      LayoutAppend([], Word(word));
    } else if IsBlank(s[0]) || IsOperator(s[0]) {
      BlankBytes(s);
      WordBytesConcat([Word(word)], LexBlank(s).tokens);
      LayoutAppend([], Word(word));
    } else if s[0] == SINGLE_QUOTE {
      SingleBytes(s[1..], word);
    } else if s[0] == DOUBLE_QUOTE {
      DoubleBytes(s[1..], word);
    } else if s[0] != BACKSLASH {
      BareBytes(s[1..], word + [s[0]]);
    } else if |s| > 1 {
      BareBytes(s[2..], word + [s[1]]);
    }
  }

  lemma {:induction false} SingleBytes(s: seq<Byte>, word: seq<Byte>)
    ensures |word| <= ByteCount(LexSingle(s, word)) <= |s| + |word|
    ensures KeepsWord(LexSingle(s, word), word)
    decreases |s|, 1
  {
    if s == [] {
    } else if s[0] == SINGLE_QUOTE {
      BareBytes(s[1..], word);
    } else {
      SingleBytes(s[1..], word + [s[0]]);
    }
  }

  lemma {:induction false} DoubleBytes(s: seq<Byte>, word: seq<Byte>)
    ensures |word| <= ByteCount(LexDouble(s, word)) <= |s| + |word|
    ensures KeepsWord(LexDouble(s, word), word)
    decreases |s|, 1
  {
    if s == [] {
    } else if s[0] == DOUBLE_QUOTE {
      BareBytes(s[1..], word);
    } else if s[0] != BACKSLASH {
      DoubleBytes(s[1..], word + [s[0]]);
    } else if |s| > 1 {
      DoubleBytes(s[2..], word + [s[1]]);
    }
  }

  // The loop. While it runs, the mode flags and the unfinished word select the reference
  // function that reads the rest of the line.

  function Rest(inToken: bool, single: bool, double: bool, escape: bool, word: seq<Byte>, s: seq<Byte>): Lexed {
    if escape then
      if s == [] then Lexed([], word, DanglingEscape)
      else if double then LexDouble(s[1..], word + [s[0]])
      else LexBare(s[1..], word + [s[0]])
    else if single then LexSingle(s, word)
    else if double then LexDouble(s, word)
    else if inToken then LexBare(s, word)
    else LexBlank(s)
  }

  lemma RestBytes(inToken: bool, single: bool, double: bool, escape: bool, word: seq<Byte>, s: seq<Byte>)
    requires single || double || escape ==> inToken
    requires !inToken ==> word == []
    ensures ByteCount(Rest(inToken, single, double, escape, word, s)) >= |word|
    ensures inToken ==> KeepsWord(Rest(inToken, single, double, escape, word, s), word)
  {
    if escape {
      if s != [] {
        if double { DoubleBytes(s[1..], word + [s[0]]); } else { BareBytes(s[1..], word + [s[0]]); }
      }
    } else if single {
      SingleBytes(s, word);
    } else if double {
      DoubleBytes(s, word);
    } else if inToken {
      BareBytes(s, word);
    }
  }

  lemma PrependTwice(a: seq<Lexeme>, b: seq<Lexeme>, l: Lexed)
    ensures Prepend(a, Prepend(b, l)) == Prepend(a + b, l)
  {
  }

  /** Where the loop stands: the lexemes stored so far, the bytes of the unfinished word,
      the used parts of both buffers, and the loop's own variables. */
  ghost predicate Reading(x: Lexed, p: Progress, s: seq<Byte>) {
    && p.tokens == Layout(p.done)
    && p.bytes == WordBytes(p.done) + p.word
    && (p.single || p.double || p.escape ==> p.inToken)
    && !(p.single && (p.double || p.escape))
    && (if p.inToken then p.start == |WordBytes(p.done)| else p.word == [])
    && x == Prepend(p.done, Rest(p.inToken, p.single, p.double, p.escape, p.word, s))
  }

  datatype Progress = Progress(done: seq<Lexeme>, word: seq<Byte>, bytes: seq<Byte>, tokens: seq<Token>, start: nat,
                               inToken: bool, single: bool, double: bool, escape: bool)
  {
    ghost predicate Plain() { !single && !double && !escape }

    /** The next byte b is stored as a byte of a word. */
    ghost predicate Stores(b: Byte) {
      || escape
      || (single && b != SINGLE_QUOTE)
      || (double && b != DOUBLE_QUOTE && b != BACKSLASH)
      || (Plain() && !IsBlank(b) && !IsOperator(b) && b != SINGLE_QUOTE && b != DOUBLE_QUOTE && b != BACKSLASH)
    }

    ghost function Stored(b: Byte): Progress {
      this.(word := word + [b], bytes := bytes + [b], escape := false,
            start := if inToken then start else |bytes|, inToken := true)
    }

    ghost function Ended(l: Lexeme): Progress {
      var t := if l.Word? then Token(WordKind, start, |l.text|) else TokenAt(l, 0);
      this.(done := done + [l], word := [], tokens := tokens + [t], inToken := false)
    }

    /** A quote or backslash outside quotes opens a word, if none is open, and a mode. */
    ghost function Opened(b: Byte): Progress {
      this.(single := b == SINGLE_QUOTE, double := b == DOUBLE_QUOTE, escape := b == BACKSLASH,
            start := if inToken then start else |bytes|, inToken := true)
    }
  }

  lemma ByteIsStored(x: Lexed, p: Progress, s: seq<Byte>)
    requires Reading(x, p, s) && s != [] && p.Stores(s[0])
    ensures Reading(x, p.Stored(s[0]), s[1..])
    ensures |p.done| <= MAX_TOKENS ==> EarlyBytes(x) > |p.bytes|
  {
    var q := p.Stored(s[0]);
    assert q.bytes == WordBytes(q.done) + q.word;
    var rest := Rest(q.inToken, q.single, q.double, q.escape, q.word, s[1..]);
    assert p.Plain() && !p.inToken ==> LexBlank(s) == LexBare(s, p.word);
    assert x == Prepend(q.done, rest);
    RestBytes(q.inToken, q.single, q.double, q.escape, q.word, s[1..]);
    if |p.done| <= MAX_TOKENS { OpenWordIsEarly(q.done, q.word, rest); }
  }

  /** The open word is among the first 65. */
  lemma OpenWordIsEarly(done: seq<Lexeme>, word: seq<Byte>, rest: Lexed)
    requires |done| <= MAX_TOKENS && KeepsWord(rest, word) && ByteCount(rest) >= |word|
    ensures EarlyBytes(Prepend(done, rest)) >= |WordBytes(done)| + |word|
  {
    var tokens := done + rest.tokens;
    if |tokens| <= MAX_TOKENS {
      WordBytesConcat(done, rest.tokens);
    } else {
      var part := rest.tokens[..MAX_TOKENS + 1 - |done|];
      assert tokens[..MAX_TOKENS + 1] == done + part && part[0] == rest.tokens[0];
      WordBytesConcat(done, part);
      FirstWordBytes(part);
    }
  }

  lemma WordEnds(x: Lexed, p: Progress, s: seq<Byte>)
    requires Reading(x, p, s) && p.Plain() && p.inToken
    requires s == [] || IsBlank(s[0]) || IsOperator(s[0])
    ensures Reading(x, p.Ended(Word(p.word)), s)
    ensures |x.tokens| > |p.tokens| == |p.done|
    ensures |p.done| == MAX_TOKENS ==> EarlyBytes(x) == |p.bytes|
  {
    LayoutAppend(p.done, Word(p.word));
    PrependTwice(p.done, [Word(p.word)], LexBlank(s));
    assert s == [] ==> [Word(p.word)] + LexBlank(s).tokens == [Word(p.word)];
    assert |p.done| == MAX_TOKENS ==> x.tokens[..MAX_TOKENS + 1] == p.done + [Word(p.word)];
  }

  lemma OperatorEnds(x: Lexed, p: Progress, s: seq<Byte>)
    requires Reading(x, p, s) && p.Plain() && !p.inToken && s != [] && IsOperator(s[0])
    ensures Reading(x, p.Ended(OperatorOf(s[0])), s[1..])
    ensures |x.tokens| > |p.tokens| == |p.done|
    ensures |p.done| == MAX_TOKENS ==> EarlyBytes(x) == |p.bytes|
  {
    LayoutAppend(p.done, OperatorOf(s[0]));
    PrependTwice(p.done, [OperatorOf(s[0])], LexBlank(s[1..]));
    assert |p.done| == MAX_TOKENS ==> x.tokens[..MAX_TOKENS + 1] == p.done + [OperatorOf(s[0])];
  }

  lemma ModeOpens(x: Lexed, p: Progress, s: seq<Byte>)
    requires Reading(x, p, s) && p.Plain()
    requires s != [] && (s[0] == SINGLE_QUOTE || s[0] == DOUBLE_QUOTE || s[0] == BACKSLASH)
    ensures Reading(x, p.Opened(s[0]), s[1..])
  {
    assert !p.inToken ==> LexBlank(s) == LexBare(s, p.word);
    assert |s| > 1 ==> s[2..] == s[1..][1..];
  }

  lemma ModeChanges(x: Lexed, p: Progress, s: seq<Byte>)
    requires Reading(x, p, s) && s != [] && !p.escape
    ensures p.single && s[0] == SINGLE_QUOTE ==> Reading(x, p.(single := false), s[1..])
    ensures p.double && s[0] == DOUBLE_QUOTE ==> Reading(x, p.(double := false), s[1..])
    ensures p.double && s[0] == BACKSLASH ==> Reading(x, p.(escape := true), s[1..])
    ensures p.Plain() && !p.inToken && IsBlank(s[0]) ==> Reading(x, p, s[1..])
  {
  }

  lemma LineEnds(x: Lexed, p: Progress)
    requires Reading(x, p, [])
    ensures !p.inToken ==> x == Lexed(p.done, [], Complete)
    ensures p.escape ==> x == Lexed(p.done, p.word, DanglingEscape)
    ensures !p.escape && (p.single || p.double) ==> x == Lexed(p.done, p.word, OpenQuote)
    ensures |p.tokens| == |p.done|
    ensures |p.bytes| == |WordBytes(p.done)| + |p.word|
  {
  }

  method PushChar(dst: array<Byte>, len: nat, b: Byte) returns (r: Result<nat, LexError>)
    requires len <= dst.Length
    modifies dst
    ensures len < dst.Length ==> r == Ok(len + 1) && dst[..len + 1] == old(dst[..len]) + [b]
    ensures len == dst.Length ==> r == Err(LineTooLong) && dst[..] == old(dst[..])
  {
    if len >= dst.Length { return Err(LineTooLong); }
    dst[len] := b;
    assert dst[..len] == old(dst[..len]);
    return Ok(len + 1);
  }

  method PushToken(out: array<Token>, count: nat, t: Token) returns (r: Result<nat, LexError>)
    requires count <= out.Length
    modifies out
    ensures count < out.Length ==> r == Ok(count + 1) && out[..count + 1] == old(out[..count]) + [t]
    ensures count == out.Length ==> r == Err(TooManyTokens) && out[..] == old(out[..])
  {
    if count >= out.Length { return Err(TooManyTokens); }
    out[count] := t;
    assert out[..count] == old(out[..count]);
    return Ok(count + 1);
  }

  /** PushChar, seen from the loop: one more byte of the line is read. */
  method StoreByte(dst: array<Byte>, len: nat, b: Byte, ghost x: Lexed, ghost p: Progress, ghost s: seq<Byte>)
    returns (r: Result<nat, LexError>)
    requires len <= dst.Length == MAX_PARSED_LINE && p.bytes == dst[..len] && |p.tokens| <= MAX_TOKENS
    requires Reading(x, p, s) && s != [] && s[0] == b && p.Stores(b)
    modifies dst
    ensures r.Ok? ==> r.value <= dst.Length && dst[..r.value] == p.Stored(b).bytes && Reading(x, p.Stored(b), s[1..])
    ensures r.Err? ==> Tokenized(x) == Err(r.error)
  {
    ByteIsStored(x, p, s);
    r := PushChar(dst, len, b);
  }

  /** PushToken, seen from the loop: the open word is complete. */
  method StoreWord(out: array<Token>, count: nat, start: nat, len: nat,
                   ghost x: Lexed, ghost p: Progress, ghost s: seq<Byte>)
    returns (r: Result<nat, LexError>)
    requires count <= out.Length == MAX_TOKENS && p.tokens == out[..count] && |p.bytes| <= MAX_PARSED_LINE
    requires Reading(x, p, s) && p.Plain() && p.inToken && start == p.start && len == |p.word|
    requires s == [] || IsBlank(s[0]) || IsOperator(s[0])
    modifies out
    ensures var q := p.Ended(Word(p.word));
            r.Ok? ==> r.value <= out.Length && out[..r.value] == q.tokens && Reading(x, q, s)
    ensures r.Err? ==> Tokenized(x) == Err(r.error)
  {
    WordEnds(x, p, s);
    r := PushToken(out, count, Token(WordKind, start, len));
  }

  method StoreOperator(out: array<Token>, count: nat, b: Byte, ghost x: Lexed, ghost p: Progress, ghost s: seq<Byte>)
    returns (r: Result<nat, LexError>)
    requires count <= out.Length == MAX_TOKENS && p.tokens == out[..count] && |p.bytes| <= MAX_PARSED_LINE
    requires Reading(x, p, s) && p.Plain() && !p.inToken && s != [] && s[0] == b && IsOperator(b)
    modifies out
    ensures var q := p.Ended(OperatorOf(b));
            r.Ok? ==> r.value <= out.Length && out[..r.value] == q.tokens && Reading(x, q, s[1..])
    ensures r.Err? ==> Tokenized(x) == Err(r.error)
  {
    OperatorEnds(x, p, s);
    var kind := if b == BAR then PipeKind else if b == LESS then RedirectInKind else RedirectOutKind;
    r := PushToken(out, count, Token(kind, 0, 0));
  }

  /** A blank or an operator outside quotes: the open word, if any, is stored first. */
  method StoreSeparator(out: array<Token>, count: nat, b: Byte, inToken: bool, start: nat, parsedLen: nat,
                        ghost x: Lexed, ghost p: Progress, ghost s: seq<Byte>)
    returns (r: Result<nat, LexError>, ghost q: Progress)
    requires count <= out.Length == MAX_TOKENS && p.tokens == out[..count] && |p.bytes| <= MAX_PARSED_LINE
    requires Reading(x, p, s) && p.Plain() && inToken == p.inToken && start == p.start
    requires parsedLen == |p.bytes|
    requires s != [] && s[0] == b && (IsBlank(b) || IsOperator(b))
    modifies out
    ensures r.Ok? ==> r.value <= out.Length && Reading(x, q, s[1..])
                      && q == Progress(q.done, q.word, p.bytes, out[..r.value], start, false, false, false, false)
    ensures r.Err? ==> Tokenized(x) == Err(r.error)
  {
    q := p;
    var tokenCount := count;
    if inToken {
      tokenCount :- StoreWord(out, tokenCount, start, parsedLen - start, x, p, s);
      q := p.Ended(Word(p.word));
    }
    if IsOperator(b) {
      tokenCount :- StoreOperator(out, tokenCount, b, x, q, s);
      q := q.Ended(OperatorOf(b));
    } else {
      ModeChanges(x, q, s);
    }
    return Ok(tokenCount), q;
  }

  /** What the two buffers and the answer hold when the line x was read. */
  ghost predicate Answers(r: Result<nat, LexError>, x: Lexed, parsed: seq<Byte>, tokens: seq<Token>) {
    match r
    case Ok(count) =>
      && Tokenized(x) == Ok(x.tokens) && count == |x.tokens|
      && Layout(x.tokens) <= tokens && WordBytes(x.tokens) <= parsed
    case Err(e) => Tokenized(x) == Err(e)
  }

  lemma PrefixOfArray<T>(a: array<T>, n: nat)
    requires n <= a.Length
    ensures a[..n] <= a[..]
  {
  }

  /** The three tests behind the loop. */
  method FinishLine(parsedOut: array<Byte>, parsedLen: nat, tokensOut: array<Token>, count: nat, start: nat,
                    inToken: bool, inSingle: bool, inDouble: bool, escape: bool, ghost x: Lexed, ghost p: Progress)
    returns (r: Result<nat, LexError>)
    requires parsedLen <= parsedOut.Length == MAX_PARSED_LINE && count <= tokensOut.Length == MAX_TOKENS
    requires p == Progress(p.done, p.word, parsedOut[..parsedLen], tokensOut[..count], start,
                           inToken, inSingle, inDouble, escape)
    requires Reading(x, p, [])
    modifies tokensOut
    ensures Answers(r, x, parsedOut[..], tokensOut[..])
  {
    LineEnds(x, p);
    if escape { return Err(TrailingEscape); }
    if inSingle || inDouble { return Err(UnclosedQuote); }
    var tokenCount := count;
    if inToken {
      WordEnds(x, p, []);
      LineEnds(x, p.Ended(Word(p.word)));
      tokenCount :- StoreWord(tokensOut, tokenCount, start, parsedLen - start, x, p, []);
    }
    PrefixOfArray(tokensOut, tokenCount);
    PrefixOfArray(parsedOut, parsedLen);
    return Ok(tokenCount);
  }

  /** The tokenizer refines the reference lexer: same tokens and same verdict whenever the
      limits hold, and a limit error exactly when one is passed. */
  method TokenizeCommand(line: seq<Byte>, parsedOut: array<Byte>, tokensOut: array<Token>)
    returns (r: Result<nat, LexError>)
    requires parsedOut.Length == MAX_PARSED_LINE && tokensOut.Length == MAX_TOKENS
    modifies parsedOut, tokensOut
    ensures Answers(r, LexBlank(line), parsedOut[..], tokensOut[..])
  {
    var parsedLen: nat, tokenCount: nat, currentStart: nat := 0, 0, 0;
    var inToken, inSingle, inDouble, escape := false, false, false, false;
    var i := 0;
    ghost var x := LexBlank(line);
    ghost var p := Progress([], [], [], [], 0, false, false, false, false);
    assert line[0..] == line && [] + x.tokens == x.tokens;
    while i < |line|
      invariant i <= |line|
      invariant parsedLen <= MAX_PARSED_LINE && tokenCount <= MAX_TOKENS
      invariant p == Progress(p.done, p.word, parsedOut[..parsedLen], tokensOut[..tokenCount], currentStart,
                              inToken, inSingle, inDouble, escape)
      invariant Reading(x, p, line[i..])
    {
      var b := line[i];
      ghost var s := line[i..];
      assert s[0] == b && s[1..] == line[i + 1..];
      if escape {
        parsedLen :- StoreByte(parsedOut, parsedLen, b, x, p, s);
        inToken, escape := true, false;
        p := p.Stored(b);
      } else if inSingle {
        if b == SINGLE_QUOTE {
          ModeChanges(x, p, s);
          inSingle := false;
          p := p.(single := false);
        } else {
          parsedLen :- StoreByte(parsedOut, parsedLen, b, x, p, s);
          inToken := true;
          p := p.Stored(b);
        }
      } else if inDouble {
        if b == DOUBLE_QUOTE {
          ModeChanges(x, p, s);
          inDouble := false;
          p := p.(double := false);
        } else if b == BACKSLASH {
          ModeChanges(x, p, s);
          escape := true;
          p := p.(escape := true);
        } else {
          parsedLen :- StoreByte(parsedOut, parsedLen, b, x, p, s);
          inToken := true;
          p := p.Stored(b);
        }
      } else if b == SPACE || b == TAB || b == BAR || b == LESS || b == GREATER {
        tokenCount, p :- StoreSeparator(tokensOut, tokenCount, b, inToken, currentStart, parsedLen, x, p, s);
        inToken := false;
      } else if b == SINGLE_QUOTE || b == DOUBLE_QUOTE || b == BACKSLASH {
        ModeOpens(x, p, s);
        if !inToken {
          currentStart := parsedLen;
          inToken := true;
        }
        inSingle, inDouble, escape := b == SINGLE_QUOTE, b == DOUBLE_QUOTE, b == BACKSLASH;
        p := p.Opened(b);
      } else {
        ghost var q := p.Stored(b);
        if !inToken {
          currentStart := parsedLen;
          inToken := true;
        }
        parsedLen :- StoreByte(parsedOut, parsedLen, b, x, p, s);
        p := q;
      }
      i := i + 1;
    }
    assert line[i..] == [];
    r := FinishLine(parsedOut, parsedLen, tokensOut, tokenCount, currentStart,
                    inToken, inSingle, inDouble, escape, x, p);
  }

  /** On every line the loop and the reference give the same verdict, the error included, and
      the stored records read back as the tokens. */
  lemma AnswerMeansTokenize(line: seq<Byte>, r: Result<nat, LexError>, parsed: seq<Byte>, tokens: seq<Token>)
    requires Answers(r, LexBlank(line), parsed, tokens)
    ensures r.Err? ==> Tokenize(line) == Err(r.error)
    ensures r.Ok? ==> r.value <= |tokens| && Sliced(tokens[..r.value], parsed)
                      && Tokenize(line) == Ok(DenoteAll(tokens[..r.value], parsed))
  {
    if r.Ok? {
      var ls := LexBlank(line).tokens;
      assert tokens[..r.value] == Layout(ls);
      LayoutDenotes(ls, parsed);
    }
  }

  /** The shell passes lines of at most 512 bytes, and these are never too long. */
  lemma ShortLineFits(line: seq<Byte>)
    requires |line| <= MAX_PARSED_LINE
    ensures Tokenize(line) != Err(LineTooLong)
  {
    BlankBytes(line);
    EarlyIsPart(LexBlank(line));
  }

  // Printing a token list so that the tokenizer reads it back.

  /** A word inside single quotes; an embedded quote closes, escapes and reopens. */
  function Quoted(word: seq<Byte>): seq<Byte> {
    if word == [] then []
    else if word[0] == SINGLE_QUOTE
    then [SINGLE_QUOTE, BACKSLASH, SINGLE_QUOTE, SINGLE_QUOTE] + Quoted(word[1..])
    else [word[0]] + Quoted(word[1..])
  }

  function PrintOne(l: Lexeme): seq<Byte> {
    match l
    case Word(text) => [SINGLE_QUOTE] + Quoted(text) + [SINGLE_QUOTE]
    case Pipe => [BAR]
    case RedirectIn => [LESS]
    case RedirectOut => [GREATER]
  }

  function Print(ls: seq<Lexeme>): seq<Byte> {
    if ls == [] then []
    else if |ls| == 1 then PrintOne(ls[0])
    else PrintOne(ls[0]) + [SPACE] + Print(ls[1..])
  }

  lemma {:induction false} SingleReadsQuoted(text: seq<Byte>, word: seq<Byte>, rest: seq<Byte>)
    ensures LexSingle(Quoted(text) + [SINGLE_QUOTE] + rest, word) == LexBare(rest, word + text)
    decreases |text|
  {
    var s := Quoted(text) + [SINGLE_QUOTE] + rest;
    if text == [] {
      assert s[1..] == rest && word + text == word;
    } else {
      var tail := Quoted(text[1..]) + [SINGLE_QUOTE] + rest;
      SingleReadsQuoted(text[1..], word + [text[0]], rest);
      assert word + text == word + [text[0]] + text[1..];
      if text[0] == SINGLE_QUOTE {
        assert s == [SINGLE_QUOTE, BACKSLASH, SINGLE_QUOTE, SINGLE_QUOTE] + tail;
        ReopenQuote(tail, word);
      } else {
        assert s == [text[0]] + tail;
      }
    }
  }

  lemma ReopenQuote(tail: seq<Byte>, word: seq<Byte>)
    ensures LexSingle([SINGLE_QUOTE, BACKSLASH, SINGLE_QUOTE, SINGLE_QUOTE] + tail, word)
         == LexSingle(tail, word + [SINGLE_QUOTE])
  {
    var s := [SINGLE_QUOTE, BACKSLASH, SINGLE_QUOTE, SINGLE_QUOTE] + tail;
    var t := s[1..];
    assert LexSingle(s, word) == LexBare(t, word);
    assert t == [BACKSLASH, SINGLE_QUOTE, SINGLE_QUOTE] + tail;
    assert t[2..] == [SINGLE_QUOTE] + tail;
    assert LexBare(t, word) == LexBare(t[2..], word + [SINGLE_QUOTE]);
    assert t[2..][1..] == tail;
  }

  lemma BareEnds(rest: seq<Byte>, word: seq<Byte>)
    requires rest == [] || rest[0] == SPACE
    ensures LexBare(rest, word) == Prepend([Word(word)], LexBlank(rest))
  {
  }

  lemma PrintedWordReads(text: seq<Byte>, rest: seq<Byte>)
    requires rest == [] || rest[0] == SPACE
    ensures LexBlank([SINGLE_QUOTE] + (Quoted(text) + [SINGLE_QUOTE] + rest)) == Prepend([Word(text)], LexBlank(rest))
  {
    QuoteOpens(Quoted(text) + [SINGLE_QUOTE] + rest);
    SingleReadsQuoted(text, [], rest);
    assert [] + text == text;
    BareEnds(rest, text);
  }

  lemma PrintedWordStarts(text: seq<Byte>, rest: seq<Byte>)
    ensures PrintOne(Word(text)) + rest == [SINGLE_QUOTE] + (Quoted(text) + [SINGLE_QUOTE] + rest)
  {
  }

  /** One printed lexeme followed by the end of the line or by a space. */
  lemma PrintedOneReads(l: Lexeme, rest: seq<Byte>)
    requires rest == [] || rest[0] == SPACE
    ensures LexBlank(PrintOne(l) + rest) == Prepend([l], LexBlank(rest))
  {
    if l.Word? {
      PrintedWordStarts(l.text, rest);
      PrintedWordReads(l.text, rest);
    } else {
      assert (PrintOne(l) + rest)[1..] == rest;
    }
  }

  lemma QuoteOpens(s: seq<Byte>)
    ensures LexBlank([SINGLE_QUOTE] + s) == LexSingle(s, [])
  {
    var line := [SINGLE_QUOTE] + s;
    assert line[1..] == s;
    assert LexBlank(line) == LexBare(line, []);
  }

  /** Printing any list of tokens and lexing the line gives the list back: empty words, and
      words that hold spaces, operators, backslashes or quotes, included. */
  lemma {:induction false} PrintedReads(ls: seq<Lexeme>)
    ensures LexBlank(Print(ls)) == Lexed(ls, [], Complete)
  {
    if ls == [] {
    } else if |ls| == 1 {
      PrintedOneReads(ls[0], []);
      assert PrintOne(ls[0]) + [] == PrintOne(ls[0]) && [ls[0]] + [] == ls;
    } else {
      var rest := [SPACE] + Print(ls[1..]);
      assert Print(ls) == PrintOne(ls[0]) + rest;
      PrintedOneReads(ls[0], rest);
      assert rest[1..] == Print(ls[1..]);
      PrintedReads(ls[1..]);
      assert [ls[0]] + ls[1..] == ls;
    }
  }

  /** The round trip within the limits, and which limit stops it otherwise. */
  lemma TokenizePrinted(ls: seq<Lexeme>)
    ensures Tokenize(Print(ls))
         == if |WordBytes(Take(ls, MAX_TOKENS + 1))| > MAX_PARSED_LINE then Err(LineTooLong)
            else if |ls| > MAX_TOKENS then Err(TooManyTokens)
            else Ok(ls)
  {
    PrintedReads(ls);
    assert |ls| > MAX_TOKENS ==> ls[..MAX_TOKENS + 1] == Take(ls, MAX_TOKENS + 1);
  }

  /** The round trip through the bounded tokenizer: its records denote the printed list
      exactly when that has at most 64 tokens and its words at most 512 bytes. */
  lemma BoundedPrintedReads(ls: seq<Lexeme>, r: Result<nat, LexError>, parsed: seq<Byte>, tokens: seq<Token>)
    requires Answers(r, LexBlank(Print(ls)), parsed, tokens)
    ensures r.Ok? <==> |ls| <= MAX_TOKENS && |WordBytes(ls)| <= MAX_PARSED_LINE
    ensures r.Ok? ==> r.value == |ls| <= |tokens| && Sliced(tokens[..r.value], parsed)
                      && DenoteAll(tokens[..r.value], parsed) == ls
  {
    AnswerMeansTokenize(Print(ls), r, parsed, tokens);
    TokenizePrinted(ls);
  }
}
