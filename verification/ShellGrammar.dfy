/** The language the tokenizer reads, written down without it: which bytes may stand where,
    however each of them is quoted, and which tokens a line means. */
module ShellGrammar {
  import opened Bytes
  import opened Escapes
  import opened ShellLexer

  const SEPARATORS := [SPACE, TAB, BAR, LESS, GREATER]
  const SPECIAL := SEPARATORS + [SINGLE_QUOTE, DOUBLE_QUOTE, BACKSLASH]

  /** A piece of a word; a word is any pieces next to each other. */
  datatype Piece = Bare(byte: Byte) | Escaped(byte: Byte) | Single(text: seq<Byte>) | Double(spelt: seq<Spelt>)

  /** A piece the line breaks off in. */
  datatype Broken = BrokenEscape | BrokenSingle(text: seq<Byte>) | BrokenDouble(spelt: seq<Spelt>, escape: bool)

  datatype Item = Gap(blank: Byte) | Operator(op: Lexeme) | WordOf(pieces: seq<Piece>)

  /** Items, and behind them perhaps the beginning of a word that breaks off. */
  datatype Line = Whole(items: seq<Item>) | Unfinished(items: seq<Item>, pieces: seq<Piece>, broken: Broken)

  predicate ValidPiece(p: Piece) {
    match p
    case Bare(b) => b !in SPECIAL
    case Escaped(_) => true
    case Single(text) => SINGLE_QUOTE !in text
    case Double(spelt) => Enclosed(spelt, DOUBLE_QUOTE)
  }

  predicate ValidPieces(ps: seq<Piece>) {
    forall p | p in ps :: ValidPiece(p)
  }

  predicate ValidBroken(b: Broken) {
    match b
    case BrokenEscape => true
    case BrokenSingle(text) => SINGLE_QUOTE !in text
    case BrokenDouble(spelt, _) => Enclosed(spelt, DOUBLE_QUOTE)
  }

  predicate ValidItem(item: Item) {
    match item
    case Gap(b) => b == SPACE || b == TAB
    case Operator(op) => !op.Word?
    case WordOf(ps) => ps != [] && ValidPieces(ps)
  }

  /** Nothing keeps two words apart but a blank or an operator. */
  predicate ValidItems(items: seq<Item>) {
    && (forall item | item in items :: ValidItem(item))
    && forall k | 1 <= k < |items| :: !(items[k - 1].WordOf? && items[k].WordOf?)
  }

  predicate ValidLine(l: Line) {
    && ValidItems(l.items)
    && (l.Unfinished? ==> ValidPieces(l.pieces) && ValidBroken(l.broken) && !EndsInWord(l.items))
  }

  predicate EndsInWord(items: seq<Item>) { items != [] && items[|items| - 1].WordOf? }

  function PieceForm(p: Piece): seq<Byte> {
    match p
    case Bare(b) => [b]
    case Escaped(b) => [BACKSLASH, b]
    case Single(text) => [SINGLE_QUOTE] + (text + [SINGLE_QUOTE])
    case Double(spelt) => [DOUBLE_QUOTE] + (SpeltForm(spelt) + [DOUBLE_QUOTE])
  }

  function PieceText(p: Piece): seq<Byte> {
    match p
    case Bare(b) => [b]
    case Escaped(b) => [b]
    case Single(text) => text
    case Double(spelt) => SpeltText(spelt)
  }

  function PiecesForm(ps: seq<Piece>): seq<Byte> {
    if ps == [] then [] else PieceForm(ps[0]) + PiecesForm(ps[1..])
  }

  function PiecesText(ps: seq<Piece>): seq<Byte> {
    if ps == [] then [] else PieceText(ps[0]) + PiecesText(ps[1..])
  }

  function BrokenForm(b: Broken): seq<Byte> {
    match b
    case BrokenEscape => [BACKSLASH]
    case BrokenSingle(text) => [SINGLE_QUOTE] + text
    case BrokenDouble(spelt, escape) => [DOUBLE_QUOTE] + (SpeltForm(spelt) + if escape then [BACKSLASH] else [])
  }

  function BrokenText(b: Broken): seq<Byte> {
    match b
    case BrokenEscape => []
    case BrokenSingle(text) => text
    case BrokenDouble(spelt, _) => SpeltText(spelt)
  }

  function BrokenEnd(b: Broken): LexEnd {
    if b.BrokenEscape? || (b.BrokenDouble? && b.escape) then DanglingEscape else OpenQuote
  }

  function ItemForm(item: Item): seq<Byte> {
    match item
    case Gap(b) => [b]
    case Operator(op) => if op.Pipe? then [BAR] else if op.RedirectIn? then [LESS] else [GREATER]
    case WordOf(ps) => PiecesForm(ps)
  }

  function ItemTokens(item: Item): seq<Lexeme> {
    match item
    case Gap(_) => []
    case Operator(op) => [op]
    case WordOf(ps) => [Word(PiecesText(ps))]
  }

  function ItemsForm(items: seq<Item>): seq<Byte> {
    if items == [] then [] else ItemForm(items[0]) + ItemsForm(items[1..])
  }

  function ItemsTokens(items: seq<Item>): seq<Lexeme> {
    if items == [] then [] else ItemTokens(items[0]) + ItemsTokens(items[1..])
  }

  function LineForm(l: Line): seq<Byte> {
    ItemsForm(l.items) + if l.Whole? then [] else PiecesForm(l.pieces) + BrokenForm(l.broken)
  }

  /** What the line means: its tokens, what it breaks off in, and how it ends. */
  function LineMeans(l: Line): Lexed {
    if l.Whole? then Lexed(ItemsTokens(l.items), [], Complete)
    else Lexed(ItemsTokens(l.items), PiecesText(l.pieces) + BrokenText(l.broken), BrokenEnd(l.broken))
  }

  // The lexer reads a line as the grammar means it.

  lemma {:induction false} SingleReads(text: seq<Byte>, word: seq<Byte>, rest: seq<Byte>)
    requires SINGLE_QUOTE !in text
    ensures LexSingle(text + ([SINGLE_QUOTE] + rest), word) == LexBare(rest, word + text)
    decreases |text|
  {
    var s := text + ([SINGLE_QUOTE] + rest);
    if text == [] {
      assert s[1..] == rest && word + text == word;
    } else {
      assert s[1..] == text[1..] + ([SINGLE_QUOTE] + rest);
      SingleReads(text[1..], word + [text[0]], rest);
      assert word + text == word + [text[0]] + text[1..];
    }
  }

  lemma {:induction false} SingleStaysOpen(text: seq<Byte>, word: seq<Byte>)
    requires SINGLE_QUOTE !in text
    ensures LexSingle(text, word) == Lexed([], word + text, OpenQuote)
    decreases |text|
  {
    if text != [] {
      SingleStaysOpen(text[1..], word + [text[0]]);
      assert word + text == word + [text[0]] + text[1..];
    }
  }

  /** Inside double quotes: the closing quote, the end of the line or a last backslash. */
  lemma {:induction false} DoubleReads(spelt: seq<Spelt>, word: seq<Byte>, rest: seq<Byte>)
    requires Enclosed(spelt, DOUBLE_QUOTE)
    ensures LexDouble(SpeltForm(spelt) + rest, word) == LexDouble(rest, word + SpeltText(spelt))
    decreases |spelt|
  {
    if spelt == [] {
      assert [] + rest == rest && word + [] == word;
    } else {
      assert forall k | 0 <= k < |spelt| - 1 :: spelt[1..][k] == spelt[k + 1];
      DoubleReads(spelt[1..], word + [spelt[0].byte], rest);
      assert [spelt[0]] + spelt[1..] == spelt;
      SpeltFirst(spelt[0], spelt[1..], rest);
      OneInDouble(spelt[0], word, SpeltForm(spelt[1..]) + rest);
      ConcatAssoc(word, [spelt[0].byte], SpeltText(spelt[1..]));
    }
  }

  lemma OneInDouble(b: Spelt, word: seq<Byte>, tail: seq<Byte>)
    requires b.escaped || (b.byte != DOUBLE_QUOTE && b.byte != BACKSLASH)
    ensures LexDouble((if b.escaped then [BACKSLASH, b.byte] else [b.byte]) + tail, word)
         == LexDouble(tail, word + [b.byte])
  {
    var front := if b.escaped then [BACKSLASH, b.byte] else [b.byte];
    assert (front + tail)[|front|..] == tail;
  }

  lemma DoublePieceReads(spelt: seq<Spelt>, word: seq<Byte>, rest: seq<Byte>)
    requires Enclosed(spelt, DOUBLE_QUOTE)
    ensures LexBare([DOUBLE_QUOTE] + (SpeltForm(spelt) + ([DOUBLE_QUOTE] + rest)), word)
         == LexBare(rest, word + SpeltText(spelt))
  {
    var tail := [DOUBLE_QUOTE] + rest;
    var s := [DOUBLE_QUOTE] + (SpeltForm(spelt) + tail);
    assert s[1..] == SpeltForm(spelt) + tail && tail[1..] == rest;
    DoubleReads(spelt, word, tail);
  }

  lemma SinglePieceReads(text: seq<Byte>, word: seq<Byte>, rest: seq<Byte>)
    requires SINGLE_QUOTE !in text
    ensures LexBare([SINGLE_QUOTE] + (text + ([SINGLE_QUOTE] + rest)), word) == LexBare(rest, word + text)
  {
    var s := [SINGLE_QUOTE] + (text + ([SINGLE_QUOTE] + rest));
    assert s[1..] == text + ([SINGLE_QUOTE] + rest);
    SingleReads(text, word, rest);
  }

  lemma Surrounded(quote: Byte, text: seq<Byte>, rest: seq<Byte>)
    ensures [quote] + (text + [quote]) + rest == [quote] + (text + ([quote] + rest))
  {
  }

  lemma PieceReads(p: Piece, word: seq<Byte>, rest: seq<Byte>)
    requires ValidPiece(p)
    ensures LexBare(PieceForm(p) + rest, word) == LexBare(rest, word + PieceText(p))
  {
    match p
    case Bare(b) => assert ([b] + rest)[1..] == rest;
    case Escaped(b) => assert ([BACKSLASH, b] + rest)[2..] == rest;
    case Single(text) =>
      Surrounded(SINGLE_QUOTE, text, rest);
      SinglePieceReads(text, word, rest);
    case Double(spelt) =>
      Surrounded(DOUBLE_QUOTE, SpeltForm(spelt), rest);
      DoublePieceReads(spelt, word, rest);
  }

  lemma {:induction false} PiecesRead(ps: seq<Piece>, word: seq<Byte>, rest: seq<Byte>)
    requires ValidPieces(ps)
    ensures LexBare(PiecesForm(ps) + rest, word) == LexBare(rest, word + PiecesText(ps))
    decreases |ps|
  {
    if ps == [] {
      assert [] + rest == rest && word + [] == word;
    } else {
      ConcatAssoc(PieceForm(ps[0]), PiecesForm(ps[1..]), rest);
      PieceReads(ps[0], word, PiecesForm(ps[1..]) + rest);
      PiecesRead(ps[1..], word + PieceText(ps[0]), rest);
      ConcatAssoc(word, PieceText(ps[0]), PiecesText(ps[1..]));
    }
  }

  lemma BrokenReads(b: Broken, word: seq<Byte>)
    requires ValidBroken(b)
    ensures LexBare(BrokenForm(b), word) == Lexed([], word + BrokenText(b), BrokenEnd(b))
  {
    var s := BrokenForm(b);
    match b
    case BrokenEscape => assert word + [] == word;
    case BrokenSingle(text) =>
      assert s[1..] == text;
      SingleStaysOpen(text, word);
    case BrokenDouble(spelt, escape) =>
      var tail := if escape then [BACKSLASH] else [];
      assert s[1..] == SpeltForm(spelt) + tail;
      DoubleReads(spelt, word, tail);
  }

  lemma PieceOpensWord(p: Piece, rest: seq<Byte>)
    requires ValidPiece(p)
    ensures var s := PieceForm(p) + rest; s != [] && s[0] !in SEPARATORS && LexBlank(s) == LexBare(s, [])
  {
  }

  lemma BrokenOpensWord(b: Broken)
    ensures var s := BrokenForm(b); s != [] && s[0] !in SEPARATORS && LexBlank(s) == LexBare(s, [])
  {
  }

  /** A word ends at the end of the line, at a blank or at an operator. */
  predicate WordEnd(rest: seq<Byte>) { rest == [] || rest[0] in SEPARATORS }

  lemma WordReads(ps: seq<Piece>, rest: seq<Byte>)
    requires ps != [] && ValidPieces(ps) && WordEnd(rest)
    ensures LexBlank(PiecesForm(ps) + rest) == Prepend([Word(PiecesText(ps))], LexBlank(rest))
  {
    ConcatAssoc(PieceForm(ps[0]), PiecesForm(ps[1..]), rest);
    PieceOpensWord(ps[0], PiecesForm(ps[1..]) + rest);
    PiecesRead(ps, [], rest);
    assert [] + PiecesText(ps) == PiecesText(ps);
    BareStops(rest, PiecesText(ps));
  }

  lemma BareStops(rest: seq<Byte>, word: seq<Byte>)
    requires WordEnd(rest)
    ensures LexBare(rest, word) == Prepend([Word(word)], LexBlank(rest))
  {
    if rest == [] { assert [Word(word)] + [] == [Word(word)]; }
  }

  lemma ItemReads(item: Item, rest: seq<Byte>)
    requires ValidItem(item) && (item.WordOf? ==> WordEnd(rest))
    ensures LexBlank(ItemForm(item) + rest) == Prepend(ItemTokens(item), LexBlank(rest))
  {
    if item.WordOf? {
      WordReads(item.pieces, rest);
    } else {
      assert (ItemForm(item) + rest)[1..] == rest;
      assert [] + LexBlank(rest).tokens == LexBlank(rest).tokens;
    }
  }

  lemma ItemsStart(items: seq<Item>, rest: seq<Byte>)
    requires ValidItems(items) && (items != [] ==> !items[0].WordOf?) && (items == [] ==> WordEnd(rest))
    ensures WordEnd(ItemsForm(items) + rest)
  {
    if items == [] {
      assert [] + rest == rest;
    } else {
      assert items[0] in items;
    }
  }

  lemma {:induction false} ItemsRead(items: seq<Item>, rest: seq<Byte>)
    requires ValidItems(items) && (EndsInWord(items) ==> WordEnd(rest))
    ensures LexBlank(ItemsForm(items) + rest) == Prepend(ItemsTokens(items), LexBlank(rest))
    decreases |items|
  {
    if items == [] {
      assert [] + rest == rest && [] + LexBlank(rest).tokens == LexBlank(rest).tokens;
    } else {
      var more := items[1..];
      assert items[0] in items;
      assert forall k | 0 <= k < |more| :: more[k] == items[k + 1];
      if items[0].WordOf? { ItemsStart(more, rest); }
      ConcatAssoc(ItemForm(items[0]), ItemsForm(more), rest);
      ItemReads(items[0], ItemsForm(more) + rest);
      ItemsRead(more, rest);
      PrependTwice(ItemTokens(items[0]), ItemsTokens(more), LexBlank(rest));
    }
  }

  lemma BrokenWordReads(ps: seq<Piece>, b: Broken)
    requires ValidPieces(ps) && ValidBroken(b)
    ensures LexBlank(PiecesForm(ps) + BrokenForm(b)) == Lexed([], PiecesText(ps) + BrokenText(b), BrokenEnd(b))
  {
    if ps == [] {
      BrokenOpensWord(b);
      assert [] + BrokenForm(b) == BrokenForm(b);
    } else {
      ConcatAssoc(PieceForm(ps[0]), PiecesForm(ps[1..]), BrokenForm(b));
      PieceOpensWord(ps[0], PiecesForm(ps[1..]) + BrokenForm(b));
    }
    PiecesRead(ps, [], BrokenForm(b));
    assert [] + PiecesText(ps) == PiecesText(ps);
    BrokenReads(b, PiecesText(ps));
  }

  /** However the bytes of a line are quoted, and wherever blanks and operators stand, the
      lexer reads what the line means. */
  lemma LineReads(l: Line)
    requires ValidLine(l)
    ensures LexBlank(LineForm(l)) == LineMeans(l)
  {
    if l.Whole? {
      ItemsRead(l.items, []);
      assert ItemsTokens(l.items) + [] == ItemsTokens(l.items);
    } else {
      ItemsRead(l.items, PiecesForm(l.pieces) + BrokenForm(l.broken));
      BrokenWordReads(l.pieces, l.broken);
      assert ItemsTokens(l.items) + [] == ItemsTokens(l.items);
    }
  }

  // Every line is a line of the grammar.

  /** Up to the next quote, if there is one. */
  lemma {:induction false} SingleSplits(s: seq<Byte>) returns (text: seq<Byte>, closed: bool, rest: seq<Byte>)
    ensures SINGLE_QUOTE !in text && s == text + if closed then [SINGLE_QUOTE] + rest else []
    decreases |s|
  {
    text, closed, rest := [], false, [];
    if s != [] && s[0] == SINGLE_QUOTE {
      closed, rest := true, s[1..];
      assert s == [] + ([SINGLE_QUOTE] + rest);
    } else if s != [] {
      text, closed, rest := SingleSplits(s[1..]);
      assert s == [s[0]] + s[1..];
      ConcatAssoc([s[0]], text, if closed then [SINGLE_QUOTE] + rest else []);
      text := [s[0]] + text;
    }
  }

  /** Up to the quote that closes, the end of the line or a backslash at its end. */
  lemma {:induction false} DoubleSplits(s: seq<Byte>) returns (spelt: seq<Spelt>, tail: seq<Byte>)
    ensures Enclosed(spelt, DOUBLE_QUOTE) && s == SpeltForm(spelt) + tail
    ensures tail == [] || tail == [BACKSLASH] || tail[0] == DOUBLE_QUOTE
    decreases |s|
  {
    spelt, tail := [], s;
    assert [] + s == s;
    if s != [] && s != [BACKSLASH] && s[0] != DOUBLE_QUOTE {
      var b := if s[0] == BACKSLASH then Spelt(s[1], true) else Spelt(s[0], false);
      var front := if b.escaped then [BACKSLASH, b.byte] else [b.byte];
      var more: seq<Spelt>;
      more, tail := DoubleSplits(s[|front|..]);
      SpeltFirst(b, more, tail);
      assert s == front + s[|front|..];
      spelt := [b] + more;
      assert forall k | 1 <= k < |spelt| :: spelt[k] == more[k - 1];
    }
  }

  /** The piece a line starts with, whole or broken off. */
  lemma PieceSplits(s: seq<Byte>) returns (p: Piece, rest: seq<Byte>, broken: Option<Broken>)
    requires !WordEnd(s)
    ensures broken.None? ==> ValidPiece(p) && s == PieceForm(p) + rest && |rest| < |s|
    ensures broken.Some? ==> ValidBroken(broken.value) && s == BrokenForm(broken.value)
  {
    p, rest, broken := Bare(s[0]), s[1..], None;
    assert s == [s[0]] + s[1..];
    if s == [BACKSLASH] {
      broken := Some(BrokenEscape);
    } else if s[0] == BACKSLASH {
      p, rest := Escaped(s[1]), s[2..];
      assert s == [BACKSLASH, s[1]] + s[2..];
    } else if s[0] == SINGLE_QUOTE {
      var text, closed, more := SingleSplits(s[1..]);
      p, rest := Single(text), more;
      if closed { Surrounded(SINGLE_QUOTE, text, rest); } else { broken := Some(BrokenSingle(text)); }
      assert text + [] == text;
    } else if s[0] == DOUBLE_QUOTE {
      var spelt, tail := DoubleSplits(s[1..]);
      if tail == [] || tail == [BACKSLASH] {
        broken := Some(BrokenDouble(spelt, tail != []));
      } else {
        p, rest := Double(spelt), tail[1..];
        assert tail == [DOUBLE_QUOTE] + rest;
        Surrounded(DOUBLE_QUOTE, SpeltForm(spelt), rest);
      }
    }
  }

  lemma {:induction false} PiecesSplit(s: seq<Byte>) returns (ps: seq<Piece>, rest: seq<Byte>, broken: Option<Broken>)
    ensures ValidPieces(ps)
    ensures broken.None? ==> s == PiecesForm(ps) + rest && WordEnd(rest) && (ps == [] <==> WordEnd(s))
    ensures broken.Some? ==> ValidBroken(broken.value) && s == PiecesForm(ps) + BrokenForm(broken.value)
    decreases |s|
  {
    ps, rest, broken := [], s, None;
    assert [] + s == s;
    if !WordEnd(s) {
      var p, more, last := PieceSplits(s);
      broken := last;
      if last.None? {
        var qs: seq<Piece>;
        qs, rest, broken := PiecesSplit(more);
        ps := [p] + qs;
        assert ps[1..] == qs;
        ConcatAssoc(PieceForm(p), PiecesForm(qs), if broken.None? then rest else BrokenForm(broken.value));
      }
    }
  }

  predicate StartsWithWord(l: Line) {
    if l.items == [] then l.Unfinished? else l.items[0].WordOf?
  }

  /** Every line is one of the grammar, so that LineReads says what the lexer does with any
      line. */
  lemma {:induction false} EveryLine(s: seq<Byte>) returns (l: Line)
    ensures ValidLine(l) && LineForm(l) == s
    ensures WordEnd(s) ==> !StartsWithWord(l)
    decreases |s|, if WordEnd(s) then 0 else 1
  {
    if s == [] {
      l := Whole([]);
    } else if WordEnd(s) {
      var more := EveryLine(s[1..]);
      l := ItemInFront(SeparatorItem(s[0]), more);
      assert s == [s[0]] + s[1..];
    } else {
      var ps, rest, broken := PiecesSplit(s);
      if broken.Some? {
        l := Unfinished([], ps, broken.value);
        assert [] + s == s;
      } else {
        FormIsNotEmpty(ps);
        var more := EveryLine(rest);
        l := ItemInFront(WordOf(ps), more);
      }
    }
  }

  function SeparatorItem(b: Byte): (item: Item)
    requires b in SEPARATORS
    ensures ValidItem(item) && !item.WordOf? && ItemForm(item) == [b]
  {
    if b == BAR then Operator(Pipe)
    else if b == LESS then Operator(RedirectIn)
    else if b == GREATER then Operator(RedirectOut)
    else Gap(b)
  }

  lemma FormIsNotEmpty(ps: seq<Piece>)
    requires ps != []
    ensures PiecesForm(ps) != []
  {
    assert PieceForm(ps[0]) != [];
  }

  lemma OneMoreItem(item: Item, items: seq<Item>)
    requires ValidItem(item) && ValidItems(items) && (items == [] || !(item.WordOf? && items[0].WordOf?))
    ensures ValidItems([item] + items)
  {
  }

  lemma FirstItemForm(item: Item, items: seq<Item>)
    ensures ItemsForm([item] + items) == ItemForm(item) + ItemsForm(items)
  {
    assert ([item] + items)[1..] == items;
  }

  lemma ItemInFront(item: Item, l: Line) returns (whole: Line)
    requires ValidLine(l) && ValidItem(item)
    requires !(item.WordOf? && StartsWithWord(l))
    ensures ValidLine(whole) && LineForm(whole) == ItemForm(item) + LineForm(l)
    ensures whole.items == [item] + l.items
  {
    whole := l.(items := [item] + l.items);
    OneMoreItem(item, l.items);
    FirstItemForm(item, l.items);
    ConcatAssoc(ItemForm(item), ItemsForm(l.items),
                if l.Whole? then [] else PiecesForm(l.pieces) + BrokenForm(l.broken));
  }

  /** A line of the grammar has one meaning, and that is the answer of the lexer: no other
      answer is possible for any line. */
  lemma LexMeans(s: seq<Byte>, x: Lexed)
    ensures LexBlank(s) == x <==> exists l :: ValidLine(l) && LineForm(l) == s && LineMeans(l) == x
  {
    var l := EveryLine(s);
    LineReads(l);
    if exists m :: ValidLine(m) && LineForm(m) == s && LineMeans(m) == x {
      var m :| ValidLine(m) && LineForm(m) == s && LineMeans(m) == x;
      LineReads(m);
    }
  }

  /** A line short enough for the shell. */
  lemma TokenizeMeans(l: Line)
    requires ValidLine(l) && |LineForm(l)| <= MAX_PARSED_LINE
    ensures Tokenize(LineForm(l))
         == if |ItemsTokens(l.items)| > MAX_TOKENS then Err(TooManyTokens)
            else if l.Whole? then Ok(ItemsTokens(l.items))
            else Err(if BrokenEnd(l.broken) == DanglingEscape then TrailingEscape else UnclosedQuote)
  {
    LineReads(l);
    ShortLineFits(LineForm(l));
  }

  /** The buffers of the tokenizer hold what the line means, exactly when it is whole and
      within both limits. */
  lemma TokenizerMeans(l: Line, r: Result<nat, LexError>, parsed: seq<Byte>, tokens: seq<Token>)
    requires ValidLine(l) && Answers(r, LexBlank(LineForm(l)), parsed, tokens)
    ensures var ls := ItemsTokens(l.items);
            r.Ok? <==> l.Whole? && |ls| <= MAX_TOKENS && |WordBytes(ls)| <= MAX_PARSED_LINE
    ensures r.Ok? ==> r.value <= |tokens| && Sliced(tokens[..r.value], parsed)
                      && DenoteAll(tokens[..r.value], parsed) == ItemsTokens(l.items)
    ensures r.Err? && |LineForm(l)| <= MAX_PARSED_LINE ==>
              r.error == if |ItemsTokens(l.items)| > MAX_TOKENS then TooManyTokens
                         else if l.Unfinished? && BrokenEnd(l.broken) == DanglingEscape then TrailingEscape
                         else UnclosedQuote
  {
    LineReads(l);
    AnswerMeansTokenize(LineForm(l), r, parsed, tokens);
    if |LineForm(l)| <= MAX_PARSED_LINE { ShortLineFits(LineForm(l)); }
  }
}
