/** The 25 by 80 text screen against an unbounded log of lines. */
module Screen {
  import opened Bytes

  const HEIGHT: nat := 25
  const WIDTH: nat := 80
  const UNPRINTABLE: Byte := 0xfe

  // The log.

  /** All lines since the screen was cleared; the last one is being written. */
  type Log = s: seq<seq<Byte>> | |s| >= 1 witness [[]]

  const EMPTY_LOG: Log := [[]]

  function Current(log: Log): seq<Byte> { log[|log| - 1] }

  function WithCurrent(log: Log, line: seq<Byte>): Log { log[..|log| - 1] + [line] }

  /** Newline starts a line; backspace takes back the last byte, but stays in its line; any
      other byte is appended, on a new line when the current one is full. */
  function Put(log: Log, b: Byte): Log {
    if b == NEWLINE then log + [[]]
    else if b == BACKSPACE then
      if Current(log) == [] then log else WithCurrent(log, Current(log)[..|Current(log)| - 1])
    else if |Current(log)| >= WIDTH then log + [[b]]
    else WithCurrent(log, Current(log) + [b])
  }

  function PutAll(log: Log, bytes: seq<Byte>): Log {
    if bytes == [] then log else Put(PutAll(log, bytes[..|bytes| - 1]), bytes[|bytes| - 1])
  }

  // The picture of a log.

  datatype ScreenChar = ScreenChar(ascii: Byte, color: Byte)

  /** Row r of the screen shows one of the last 25 lines, or nothing yet. */
  function LineAt(log: Log, r: nat): seq<Byte>
    requires r < HEIGHT
  {
    if |log| + r < HEIGHT then [] else log[|log| + r - HEIGHT]
  }

  /** The cell at row r and column c: the line, padded with blanks. */
  function CellOf(log: Log, color: Byte, r: nat, c: nat): ScreenChar
    requires r < HEIGHT
  {
    ScreenChar(Padded(LineAt(log, r), c), color)
  }

  function Padded(line: seq<Byte>, c: nat): Byte {
    if c < |line| then line[c] else SPACE
  }

  predicate Narrow(log: Log) {
    forall k | 0 <= k < |log| :: |log[k]| <= WIDTH
  }

  lemma PutKeepsNarrow(log: Log, b: Byte)
    requires Narrow(log)
    ensures Narrow(Put(log, b))
  {
  }

  lemma LinesAfterNewLine(log: Log, line: seq<Byte>, r: nat)
    requires r < HEIGHT
    ensures LineAt(log + [line], r) == if r == HEIGHT - 1 then line else LineAt(log, r + 1)
  {
  }

  lemma LinesAfterChange(log: Log, line: seq<Byte>, r: nat)
    requires r < HEIGHT
    ensures LineAt(WithCurrent(log, line), r) == if r == HEIGHT - 1 then line else LineAt(log, r)
  {
  }

  lemma LastLine(log: Log)
    ensures LineAt(log, HEIGHT - 1) == Current(log)
  {
  }

  lemma NarrowAfterChange(log: Log, line: seq<Byte>)
    requires Narrow(log) && |line| <= WIDTH
    ensures Narrow(WithCurrent(log, line))
  {
  }

  class Writer {
    var columnPosition: nat
    const colorCode: Byte
    const chars: array2<ScreenChar>

    ghost predicate Valid()
      reads this
    {
      chars.Length0 == HEIGHT && chars.Length1 == WIDTH && columnPosition <= WIDTH
    }

    /** The grid shows the last lines of the log. */
    ghost predicate Grid(log: Log)
      requires Valid()
      reads this, chars
    {
      Narrow(log) && forall r, c | 0 <= r < HEIGHT && 0 <= c < WIDTH :: chars[r, c] == CellOf(log, colorCode, r, c)
    }

    /** In addition the column is the end of the current line. */
    ghost predicate Shows(log: Log)
      requires Valid()
      reads this, chars
    {
      Grid(log) && columnPosition == |Current(log)|
    }

    constructor (color: Byte)
      ensures Valid() && fresh(chars) && colorCode == color
    {
      columnPosition, colorCode := 0, color;
      chars := new ScreenChar[HEIGHT, WIDTH]((r, c) => ScreenChar(NUL, 0));
    }

    method ClearRow(row: nat)
      requires Valid() && row < HEIGHT
      modifies chars
      ensures forall r, c | 0 <= r < HEIGHT && 0 <= c < WIDTH ::
                chars[r, c] == if r == row then ScreenChar(SPACE, colorCode) else old(chars[r, c])
    {
      var blank := ScreenChar(SPACE, colorCode);
      for col := 0 to WIDTH
        invariant forall r, c | 0 <= r < HEIGHT && 0 <= c < WIDTH ::
                    chars[r, c] == if r == row && c < col then blank else old(chars[r, c])
      {
        chars[row, col] := blank;
      }
    }

    /** Moves every row up by one. */
    method ScrollUp()
      requires Valid()
      modifies chars
      ensures forall r, c | 0 <= r < HEIGHT && 0 <= c < WIDTH ::
                chars[r, c] == if r < HEIGHT - 1 then old(chars[r + 1, c]) else old(chars[r, c])
    {
      for row := 1 to HEIGHT
        invariant forall r, c | 0 <= r < HEIGHT && 0 <= c < WIDTH ::
                    chars[r, c] == if r < row - 1 then old(chars[r + 1, c]) else old(chars[r, c])
      {
        for col := 0 to WIDTH
          invariant forall r, c | 0 <= r < HEIGHT && 0 <= c < WIDTH ::
                      chars[r, c] == if r < row - 1 || (r == row - 1 && c < col) then old(chars[r + 1, c])
                                     else old(chars[r, c])
        {
          chars[row - 1, col] := chars[row, col];
        }
      }
    }

    method NewLine(ghost log: Log)
      requires Valid() && Shows(log)
      modifies this`columnPosition, chars
      ensures Valid() && Shows(log + [[]])
    {
      ScrollUp();
      ClearRow(HEIGHT - 1);
      columnPosition := 0;
      forall r | 0 <= r < HEIGHT
        ensures LineAt(log + [[]], r) == if r == HEIGHT - 1 then [] else LineAt(log, r + 1)
      {
        LinesAfterNewLine(log, [], r);
      }
    }

    /** Writes one cell of the last row, which turns the current line into the given one. */
    method WriteCell(col: nat, ascii: Byte, ghost log: Log, ghost line: seq<Byte>)
      requires Valid() && Grid(log) && col < WIDTH && |line| <= WIDTH
      requires forall c | 0 <= c < WIDTH ::
                 Padded(line, c) == if c == col then ascii else Padded(Current(log), c)
      modifies chars
      ensures Grid(WithCurrent(log, line))
    {
      chars[HEIGHT - 1, col] := ScreenChar(ascii, colorCode);
      ghost var next := WithCurrent(log, line);
      LastLine(log);
      forall r, c | 0 <= r < HEIGHT && 0 <= c < WIDTH
        ensures chars[r, c] == CellOf(next, colorCode, r, c)
      {
        LinesAfterChange(log, line, r);
        assert Padded(line, c) == if c == col then ascii else Padded(Current(log), c);
      }
      NarrowAfterChange(log, line);
    }

    /** One byte on the screen is one byte in the log. */
    method WriteByte(byte: Byte, ghost log: Log)
      requires Valid() && Shows(log)
      modifies this`columnPosition, chars
      ensures Valid() && Shows(Put(log, byte))
    {
      if byte == NEWLINE {
        NewLine(log);
      } else if byte == BACKSPACE {
        if columnPosition > 0 {
          columnPosition := columnPosition - 1;
          WriteCell(columnPosition, SPACE, log, Current(log)[..columnPosition]);
        }
      } else {
        ghost var before := log;
        if columnPosition >= WIDTH {
          NewLine(log);
          before := log + [[]];
          assert before[..|log|] == log && [] + [byte] == [byte];
        }
        ghost var line := Current(before) + [byte];
        WriteCell(columnPosition, byte, before, line);
        columnPosition := columnPosition + 1;
        assert WithCurrent(before, line) == Put(log, byte);
      }
    }

    method ClearScreen()
      requires Valid()
      modifies this`columnPosition, chars
      ensures Valid() && Shows(EMPTY_LOG)
    {
      for row := 0 to HEIGHT
        invariant Valid()
        invariant forall r, c | 0 <= r < row && 0 <= c < WIDTH :: chars[r, c] == ScreenChar(SPACE, colorCode)
      {
        ClearRow(row);
      }
      columnPosition := 0;
    }

    /** The byte a text is shown with. */
    static function Shown(b: Byte): Byte {
      if 0x20 <= b <= 0x7e || b == NEWLINE then b else UNPRINTABLE
    }

    static function ShownAll(s: seq<Byte>): seq<Byte> {
      seq(|s|, i requires 0 <= i < |s| => Shown(s[i]))
    }

    method WriteString(s: seq<Byte>, ghost log: Log)
      requires Valid() && Shows(log)
      modifies this`columnPosition, chars
      ensures Valid() && Shows(PutAll(log, ShownAll(s)))
    {
      ghost var shown := ShownAll(s);
      assert shown[..0] == [];
      for i := 0 to |s|
        invariant Valid() && Shows(PutAll(log, shown[..i]))
      {
        assert shown[..i + 1][..i] == shown[..i] && shown[i] == Shown(s[i]);
        if (0x20 <= s[i] && s[i] <= 0x7e) || s[i] == NEWLINE {
          WriteByte(s[i], PutAll(log, shown[..i]));
        } else {
          WriteByte(UNPRINTABLE, PutAll(log, shown[..i]));
        }
      }
      assert shown[..|s|] == shown;
    }

    /** After clearing, any bytes leave the picture of their log on the screen. */
    method ClearAndWrite(bytes: seq<Byte>)
      requires Valid()
      modifies this`columnPosition, chars
      ensures Valid() && Shows(PutAll(EMPTY_LOG, bytes))
    {
      ClearScreen();
      assert bytes[..0] == [];
      for i := 0 to |bytes|
        invariant Valid() && Shows(PutAll(EMPTY_LOG, bytes[..i]))
      {
        assert bytes[..i + 1][..i] == bytes[..i];
        WriteByte(bytes[i], PutAll(EMPTY_LOG, bytes[..i]));
      }
      assert bytes[..|bytes|] == bytes;
    }
  }

  // What the log is worth: facts about the picture that follow for every byte sequence.

  lemma {:induction false} PutAllKeepsNarrow(log: Log, bytes: seq<Byte>)
    requires Narrow(log)
    ensures Narrow(PutAll(log, bytes))
  {
    if bytes != [] {
      PutAllKeepsNarrow(log, bytes[..|bytes| - 1]);
      PutKeepsNarrow(PutAll(log, bytes[..|bytes| - 1]), bytes[|bytes| - 1]);
    }
  }

  lemma {:induction false} PutAllConcat(log: Log, a: seq<Byte>, b: seq<Byte>)
    ensures PutAll(log, a + b) == PutAll(PutAll(log, a), b)
    decreases |b|
  {
    if b == [] {
      assert a + b == a;
    } else {
      var n := |b| - 1;
      assert (a + b)[..|a| + n] == a + b[..n];
      PutAllConcat(log, a, b[..n]);
    }
  }

  /** Text without control bytes that fits the rest of the line is appended to it, and as
      many backspaces take it away again. */
  lemma {:induction false} TextThenErase(log: Log, text: seq<Byte>)
    requires Narrow(log) && |Current(log)| + |text| <= WIDTH
    requires forall k | 0 <= k < |text| :: text[k] != NEWLINE && text[k] != BACKSPACE
    ensures PutAll(log, text) == WithCurrent(log, Current(log) + text)
    ensures PutAll(log, text + seq(|text|, _ => BACKSPACE)) == log
    decreases |text|
  {
    var erase := seq(|text|, _ => BACKSPACE);
    if text == [] {
      assert text + erase == [] && Current(log) + [] == Current(log);
      assert WithCurrent(log, Current(log)) == log;
    } else {
      var n := |text| - 1;
      var init, fewer := text[..n], seq(n, _ => BACKSPACE);
      TextThenErase(log, init);
      assert Current(log) + text == Current(log) + init + [text[n]];
      assert text + erase == text + [BACKSPACE] + fewer;
      PutAllConcat(log, text + [BACKSPACE], fewer);
      PutAllConcat(log, text, [BACKSPACE]);
      assert [BACKSPACE][..0] == [];
      var line := Current(log) + text;
      assert line[..|line| - 1] == Current(log) + init;
      assert PutAll(log, text + [BACKSPACE]) == PutAll(log, init);
      PutAllConcat(log, init, fewer);
    }
  }

  // Text as rows.

  /** A line cut into rows of 80 bytes. */
  function CutLine(line: seq<Byte>): (rows: seq<seq<Byte>>)
    ensures rows != []
  {
    if |line| <= 80 then [line] else [line[..80]] + CutLine(line[80..])
  }

  /** The rows of a text: its lines, each cut at column 80. */
  function Rows(lines: seq<seq<Byte>>): seq<seq<Byte>> {
    if lines == [] then [] else CutLine(lines[0]) + Rows(lines[1..])
  }

  predicate Plain(line: seq<Byte>) {
    forall k | 0 <= k < |line| :: line[k] != NEWLINE && line[k] != BACKSPACE
  }

  /** A full line goes on in the next one. */
  lemma FullLineWraps(log: Log, text: seq<Byte>)
    requires |Current(log)| == WIDTH && text != [] && Plain(text)
    ensures PutAll(log, text) == PutAll(log + [[]], text)
  {
    var first, rest := [text[0]], text[1..];
    assert text == first + rest;
    PutAllConcat(log, first, rest);
    PutAllConcat(log + [[]], first, rest);
    assert first[..0] == [] && [] + first == first;
    assert (log + [[]])[..|log|] == log;
  }

  lemma ShortLine(above: seq<seq<Byte>>, line: seq<Byte>)
    requires Plain(line) && Narrow(above + [[]]) && |line| <= 80
    ensures PutAll(above + [[]], line) == above + [line]
  {
    var log := above + [[]];
    assert log[..|above|] == above && [] + line == line;
    TextThenErase(log, line);
  }

  lemma {:induction false} LineIsCut(above: seq<seq<Byte>>, line: seq<Byte>)
    requires Plain(line) && Narrow(above + [[]])
    ensures PutAll(above + [[]], line) == above + CutLine(line)
    decreases |line|
  {
    if |line| <= 80 {
      ShortLine(above, line);
    } else {
      var row, rest := line[..80], line[80..];
      assert line == row + rest;
      PutAllConcat(above + [[]], row, rest);
      ShortLine(above, row);
      FullLineWraps(above + [row], rest);
      OneMoreNarrow(above, row);
      LineIsCut(above + [row], rest);
      ConcatAssoc(above, [row], CutLine(rest));
    }
  }

  lemma OneMoreNarrow(above: seq<seq<Byte>>, row: seq<Byte>)
    requires Narrow(above + [[]]) && |row| <= WIDTH
    ensures Narrow(above + [row] + [[]])
  {
    assert forall k | 0 <= k < |above| :: (above + [[]])[k] == above[k];
  }

  /** A line end starts an empty line. */
  lemma LineThenEnd(above: seq<seq<Byte>>, line: seq<Byte>, rest: seq<Byte>)
    requires Plain(line) && Narrow(above + [[]])
    ensures PutAll(above + [[]], line + ([NEWLINE] + rest)) == PutAll(above + CutLine(line) + [[]], rest)
    ensures Narrow(above + CutLine(line) + [[]])
  {
    LineIsCut(above, line);
    PutAllConcat(above + [[]], line, [NEWLINE] + rest);
    PutAllConcat(above + CutLine(line), [NEWLINE], rest);
    assert [NEWLINE][..0] == [];
    CutLineNarrow(line);
    var all := above + CutLine(line);
    assert forall k | 0 <= k < |above| :: all[k] == (above + [[]])[k];
  }

  /** A text without backspaces becomes its lines, each cut at column 80, behind what is there
      when it starts on an empty line. */
  lemma {:induction false} TextIsRows(above: seq<seq<Byte>>, text: seq<Byte>)
    requires BACKSPACE !in text && Narrow(above + [[]])
    ensures PutAll(above + [[]], text) == above + Rows(SplitOn(text, NEWLINE))
    decreases |text|
  {
    var i := IndexOf(text, NEWLINE);
    var line := text[..i];
    if i == |text| {
      LineIsCut(above, text);
      OneLine(text);
    } else {
      var rest := text[i + 1..];
      assert text == line + ([NEWLINE] + rest);
      LineThenEnd(above, line, rest);
      TextIsRows(above + CutLine(line), rest);
      MoreLines(line, SplitOn(rest, NEWLINE));
      ConcatAssoc(above, CutLine(line), Rows(SplitOn(rest, NEWLINE)));
    }
  }

  lemma OneLine(line: seq<Byte>)
    ensures Rows([line]) == CutLine(line)
  {
    assert [line][1..] == [] && CutLine(line) + [] == CutLine(line);
  }

  lemma MoreLines(line: seq<Byte>, lines: seq<seq<Byte>>)
    ensures Rows([line] + lines) == CutLine(line) + Rows(lines)
  {
    assert ([line] + lines)[1..] == lines;
  }

  lemma {:induction false} CutLineNarrow(line: seq<Byte>)
    ensures forall k | 0 <= k < |CutLine(line)| :: |CutLine(line)[k]| <= WIDTH
  {
    if |line| > 80 { CutLineNarrow(line[80..]); }
  }

  /** Printable text, written to a cleared screen, is its own lines cut at column 80. */
  lemma PrintableText(text: seq<Byte>)
    requires forall k | 0 <= k < |text| :: 32 <= text[k] <= 126 || text[k] == 10
    ensures PutAll(EMPTY_LOG, Writer.ShownAll(text)) == Rows(SplitOn(text, NEWLINE))
  {
    assert Writer.ShownAll(text) == text && [] + [[]] == EMPTY_LOG;
    TextIsRows([], text);
    assert [] + Rows(SplitOn(text, NEWLINE)) == Rows(SplitOn(text, NEWLINE));
  }
}
