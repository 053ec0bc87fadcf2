/** sed: bounded substitution against an unbounded leftmost replacement, and the escaped
    script syntax with its printer. */
module Sed {
  import opened Bytes
  import opened Escapes

  const MAX_PATTERN: nat := 128
  const MAX_REPLACEMENT: nat := 128
  const LETTER_S: Byte := 115
  const LETTER_G: Byte := 103

  // Substitution.

  predicate OccursAt(s: seq<Byte>, pattern: seq<Byte>, i: nat) {
    i + |pattern| <= |s| && s[i..i + |pattern|] == pattern
  }

  /** The leftmost occurrence of the pattern, or |s|. */
  function FirstMatch(s: seq<Byte>, pattern: seq<Byte>): (i: nat)
    requires pattern != []
    ensures i <= |s| && (i < |s| ==> OccursAt(s, pattern, i))
    ensures forall j | 0 <= j < i :: !OccursAt(s, pattern, j)
  {
    if s == [] || OccursAt(s, pattern, 0) then 0
    else
      var i := 1 + FirstMatch(s[1..], pattern);
      assert forall j | 1 <= j <= |s| && OccursAt(s, pattern, j) :: OccursAt(s[1..], pattern, j - 1);
      i
  }

  /** The unbounded replacement: the leftmost occurrence only, or, when global, every
      occurrence found by going on behind the previous one. */
  function Replace(s: seq<Byte>, pattern: seq<Byte>, replacement: seq<Byte>, global: bool): seq<Byte>
    decreases |s|, 0
  {
    if pattern == [] then s
    else
      var i := FirstMatch(s, pattern);
      if i == |s| then s
      else s[..i] + Replaced(s[i + |pattern|..], pattern, replacement, global)
  }

  /** The replacement of an occurrence and what becomes of the rest behind it. */
  function Replaced(rest: seq<Byte>, pattern: seq<Byte>, replacement: seq<Byte>, global: bool): seq<Byte>
    decreases |rest|, 1
  {
    replacement + if global then Replace(rest, pattern, replacement, true) else rest
  }

  lemma ReplaceAtMatch(s: seq<Byte>, pattern: seq<Byte>, replacement: seq<Byte>, global: bool)
    requires pattern != [] && OccursAt(s, pattern, 0)
    ensures Replace(s, pattern, replacement, global) == Replaced(s[|pattern|..], pattern, replacement, global)
  {
  }

  lemma ReplaceAtMiss(s: seq<Byte>, pattern: seq<Byte>, replacement: seq<Byte>, global: bool)
    requires pattern != [] && s != [] && !OccursAt(s, pattern, 0)
    ensures Replace(s, pattern, replacement, global) == [s[0]] + Replace(s[1..], pattern, replacement, global)
  {
    var t := s[1..];
    var i := FirstMatch(t, pattern);
    assert FirstMatch(s, pattern) == i + 1;
    if i < |t| {
      assert t[i + |pattern|..] == s[i + 1 + |pattern|..];
      assert [s[0]] + t[..i] == s[..i + 1];
      ConcatAssoc([s[0]], t[..i], Replaced(t[i + |pattern|..], pattern, replacement, global));
    }
  }

  /** rests[i] is the replacement of the input from i on, as the loop can compute it from
      what is behind i. */
  ghost predicate Rests(rests: seq<seq<Byte>>, input: seq<Byte>, pattern: seq<Byte>, replacement: seq<Byte>,
                        global: bool)
  {
    && |rests| == |input| + 1 && rests[|input|] == []
    && (forall i | 0 <= i < |input| && OccursAt(input, pattern, i) ::
          rests[i] == replacement + if global then rests[i + |pattern|] else input[i + |pattern|..])
    && (forall i | 0 <= i < |input| && !OccursAt(input, pattern, i) :: rests[i] == [input[i]] + rests[i + 1])
  }

  ghost function RestsOf(input: seq<Byte>, pattern: seq<Byte>, replacement: seq<Byte>, global: bool): seq<seq<Byte>> {
    seq(|input| + 1, i requires 0 <= i <= |input| => Replace(input[i..], pattern, replacement, global))
  }

  lemma RestAtMatch(input: seq<Byte>, i: nat, pattern: seq<Byte>, replacement: seq<Byte>, global: bool)
    requires pattern != [] && OccursAt(input, pattern, i)
    ensures RestsOf(input, pattern, replacement, global)[i]
         == replacement + if global then RestsOf(input, pattern, replacement, global)[i + |pattern|]
                          else input[i + |pattern|..]
  {
    SameMatch(input, i, pattern);
    ReplaceAtMatch(input[i..], pattern, replacement, global);
  }

  lemma RestAtMiss(input: seq<Byte>, i: nat, pattern: seq<Byte>, replacement: seq<Byte>, global: bool)
    requires pattern != [] && i < |input| && !OccursAt(input, pattern, i)
    ensures RestsOf(input, pattern, replacement, global)[i]
         == [input[i]] + RestsOf(input, pattern, replacement, global)[i + 1]
  {
    SameMatch(input, i, pattern);
    ReplaceAtMiss(input[i..], pattern, replacement, global);
  }

  lemma RestsOfAreRests(input: seq<Byte>, pattern: seq<Byte>, replacement: seq<Byte>, global: bool)
    requires pattern != []
    ensures Rests(RestsOf(input, pattern, replacement, global), input, pattern, replacement, global)
  {
    var rests := RestsOf(input, pattern, replacement, global);
    assert input[|input|..] == [];
    forall i | 0 <= i < |input| && OccursAt(input, pattern, i)
      ensures rests[i] == replacement + if global then rests[i + |pattern|] else input[i + |pattern|..]
    {
      RestAtMatch(input, i, pattern, replacement, global);
    }
    forall i | 0 <= i < |input| && !OccursAt(input, pattern, i)
      ensures rests[i] == [input[i]] + rests[i + 1]
    {
      RestAtMiss(input, i, pattern, replacement, global);
    }
  }

  lemma SameMatch(input: seq<Byte>, i: nat, pattern: seq<Byte>)
    requires i <= |input|
    ensures OccursAt(input[i..], pattern, 0) <==> OccursAt(input, pattern, i)
    ensures i + |pattern| <= |input| ==> input[i..][|pattern|..] == input[i + |pattern|..]
    ensures i < |input| ==> input[i..][0] == input[i] && input[i..][1..] == input[i + 1..]
  {
  }

  method CopyWhole(input: seq<Byte>, out: array<Byte>) returns (copyLen: nat)
    modifies out
    ensures Holds(out[..], copyLen, input)
  {
    copyLen := Min(|input|, out.Length);
    CopyInto(out, 0, input[..copyLen]);
    assert out[..copyLen] == out[..0] + input[..copyLen];
  }

  /** The loops of the substitution. */
  method SubstituteLoop(input: seq<Byte>, out: array<Byte>, pattern: seq<Byte>, replacement: seq<Byte>, global: bool,
                        ghost rests: seq<seq<Byte>>) returns (outI: nat)
    requires pattern != [] && Rests(rests, input, pattern, replacement, global)
    modifies out
    ensures Holds(out[..], outI, rests[0])
  {
    ghost var done: seq<Byte> := [];
    var inI := 0;
    outI := 0;
    assert [] + rests[0] == rests[0];
    while inI < |input| && outI < out.Length
      invariant inI <= |input| && Holds(out[..], outI, done)
      invariant rests[0] == done + rests[inI]
    {
      var matched := inI + |pattern| <= |input| && input[inI..inI + |pattern|] == pattern;
      assert matched == OccursAt(input, pattern, inI);
      if matched {
        outI := Append(out, outI, replacement, done);
        inI := inI + |pattern|;
        ConcatAssoc(done, replacement, if global then rests[inI] else input[inI..]);
        done := done + replacement;
        if !global {
          outI := Append(out, outI, input[inI..], done);
          return;
        }
      } else {
        ConcatAssoc(done, [input[inI]], rests[inI + 1]);
        outI := Append(out, outI, [input[inI]], done);
        done := done + [input[inI]];
        inI := inI + 1;
      }
    }
    FullHolds(out[..], outI, done, rests[inI]);
  }

  /** Writes the unbounded replacement, cut to the capacity of out. */
  method Substitute(input: seq<Byte>, out: array<Byte>, pattern: seq<Byte>, replacement: seq<Byte>, global: bool)
    returns (outI: nat)
    modifies out
    ensures Holds(out[..], outI, Replace(input, pattern, replacement, global))
  {
    if pattern == [] {
      outI := CopyWhole(input, out);
    } else {
      RestsOfAreRests(input, pattern, replacement, global);
      assert input[0..] == input;
      outI := SubstituteLoop(input, out, pattern, replacement, global, RestsOf(input, pattern, replacement, global));
    }
  }

  lemma ByteMatch(s: seq<Byte>, mark: Byte)
    ensures FirstMatch(s, [mark]) == IndexOf(s, mark)
  {
  }

  lemma ReplaceFirstMark(a: seq<Byte>, tail: seq<Byte>, mark: Byte, pattern: seq<Byte>)
    requires mark !in a
    ensures Replace(a + ([mark] + tail), [mark], pattern, true) == a + (pattern + Replace(tail, [mark], pattern, true))
  {
    var s := a + ([mark] + tail);
    ByteMatch(s, mark);
    FirstIs(s, mark, |a|);
    assert s[..|a|] == a && s[|a| + 1..] == tail;
  }

  lemma CutAtMatch(s: seq<Byte>, pattern: seq<Byte>, i: nat)
    requires OccursAt(s, pattern, i)
    ensures s[..i] + (pattern + s[i + |pattern|..]) == s
  {
  }

  /** Replacing every occurrence of a pattern by a byte the input does not hold, and then
      that byte by the pattern, gives the input back. */
  lemma {:induction false} MarkRoundTrip(s: seq<Byte>, pattern: seq<Byte>, mark: Byte)
    requires pattern != [] && mark !in s
    ensures Replace(Replace(s, pattern, [mark], true), [mark], pattern, true) == s
    ensures |Replace(s, pattern, [mark], true)| <= |s|
    decreases |s|
  {
    var i := FirstMatch(s, pattern);
    if i == |s| {
      ByteMatch(s, mark);
    } else {
      var rest := s[i + |pattern|..];
      var tail := Replace(rest, pattern, [mark], true);
      MarkRoundTrip(rest, pattern, mark);
      assert Replace(s, pattern, [mark], true) == s[..i] + ([mark] + tail);
      ReplaceFirstMark(s[..i], tail, mark, pattern);
      CutAtMatch(s, pattern, i);
    }
  }

  /** The same for two runs of the program with buffers no smaller than the input. */
  lemma MarkRoundTripBounded(s: seq<Byte>, pattern: seq<Byte>, mark: Byte, capacity: nat)
    requires pattern != [] && mark !in s && |s| <= capacity
    ensures Take(Replace(Take(Replace(s, pattern, [mark], true), capacity), [mark], pattern, true), capacity) == s
  {
    MarkRoundTrip(s, pattern, mark);
  }

  // The script.

  datatype Script = Script(pattern: seq<Byte>, replacement: seq<Byte>, global: bool)

  /** The text up to the first delimiter that is not escaped, with the escapes resolved, and
      what follows; None when the text does not end. */
  function Delimited(s: seq<Byte>, delim: Byte): Option<(seq<Byte>, seq<Byte>)> {
    if s == [] then None
    else if s[0] == BACKSLASH then
      if |s| == 1 then None else ConsText(s[1], Delimited(s[2..], delim))
    else if s[0] == delim then Some(([], s[1..]))
    else ConsText(s[0], Delimited(s[1..], delim))
  }

  function ConsText(b: Byte, r: Option<(seq<Byte>, seq<Byte>)>): Option<(seq<Byte>, seq<Byte>)> {
    if r.None? then None else Some(([b] + r.value.0, r.value.1))
  }

  /** The bounded reader agrees with Delimited and also fails when the text is too long. */
  function BoundedText(s: seq<Byte>, delim: Byte, limit: nat): Option<(seq<Byte>, seq<Byte>)> {
    match Delimited(s, delim)
    case Some(r) => if |r.0| <= limit then Some(r) else None
    case None => None
  }

  function ParseScript(s: seq<Byte>): Option<Script> {
    if |s| < 4 || s[0] != LETTER_S || s[1] == NUL then None
    else
      match BoundedText(s[2..], s[1], MAX_PATTERN)
      case None => None
      case Some((pattern, rest)) =>
        match BoundedText(rest, s[1], MAX_REPLACEMENT)
        case None => None
        case Some((replacement, flags)) =>
          if flags == [] then Some(Script(pattern, replacement, false))
          else if flags == [LETTER_G] then Some(Script(pattern, replacement, true))
          else None
  }

  /** Where the reader stands: text is stored, escaped tells whether a backslash is pending. */
  ghost function Remaining(text: seq<Byte>, escaped: bool, s: seq<Byte>, delim: Byte): Option<(seq<Byte>, seq<Byte>)> {
    var r := if !escaped then Delimited(s, delim)
             else if s == [] then None
             else ConsText(s[0], Delimited(s[1..], delim));
    if r.None? then None else Some((text + r.value.0, r.value.1))
  }

  lemma RemainingStep(text: seq<Byte>, escaped: bool, s: seq<Byte>, delim: Byte)
    requires s != [] && (escaped || s[0] != delim || s[0] == BACKSLASH)
    ensures Remaining(text, escaped, s, delim)
         == if !escaped && s[0] == BACKSLASH then Remaining(text, true, s[1..], delim)
            else Remaining(text + [s[0]], false, s[1..], delim)
  {
    assert |s| > 1 ==> s[2..] == s[1..][1..];
    var r := Delimited(s[1..], delim);
    if r.Some? { ConcatAssoc(text, [s[0]], r.value.0); }
  }

  method ParseDelimited(input: seq<Byte>, start: nat, delim: Byte, out: array<Byte>) returns (r: Option<(nat, nat)>)
    requires start <= |input|
    modifies out
    ensures var spec := BoundedText(input[start..], delim, out.Length);
            && (r.Some? <==> spec.Some?)
            && (r.Some? ==> r.value.0 <= out.Length && r.value.1 <= |input|
                            && spec == Some((out[..r.value.0], input[r.value.1..])))
  {
    var i, len, escaped := start, 0, false;
    ghost var spec := Delimited(input[start..], delim);
    assert out[..0] == [];
    assert spec.Some? ==> [] + spec.value.0 == spec.value.0;
    while i < |input|
      invariant start <= i <= |input| && 0 <= len <= out.Length
      invariant spec == Remaining(out[..len], escaped, input[i..], delim)
    {
      var b := input[i];
      ghost var s, text := input[i..], out[..len];
      assert s[0] == b && s[1..] == input[i + 1..];
      if !escaped && b != BACKSLASH && b == delim {
        assert text + [] == text;
        return Some((len, i + 1));
      }
      RemainingStep(text, escaped, s, delim);
      if !escaped && b == BACKSLASH {
        escaped := true;
      } else {
        if len >= out.Length {
          return None;
        }
        out[len] := b;
        len := len + 1;
        assert out[..len] == text + [b];
        escaped := false;
      }
      i := i + 1;
    }
    assert input[i..] == [];
    return None;
  }

  method ReadScript(script: seq<Byte>) returns (r: Option<Script>)
    ensures r == ParseScript(script)
  {
    if |script| < 4 || script[0] != LETTER_S { return None; }
    var delim := script[1];
    if delim == NUL { return None; }
    var pattern := new Byte[MAX_PATTERN](_ => NUL);
    var replacement := new Byte[MAX_REPLACEMENT](_ => NUL);
    var p := ParseDelimited(script, 2, delim, pattern);
    if p == None { return None; }
    var q := ParseDelimited(script, p.value.1, delim, replacement);
    if q == None { return None; }
    var flags := script[q.value.1..];
    var global := false;
    if flags == [LETTER_G] {
      global := true;
    } else if flags != [] {
      return None;
    }
    return Some(Script(pattern[..p.value.0], replacement[..q.value.0], global));
  }

  /** Puts a backslash before every delimiter and backslash. */
  function Escape(text: seq<Byte>, delim: Byte): seq<Byte> {
    if text == [] then []
    else if text[0] == delim || text[0] == BACKSLASH then [BACKSLASH, text[0]] + Escape(text[1..], delim)
    else [text[0]] + Escape(text[1..], delim)
  }

  function PrintScript(script: Script, delim: Byte): seq<Byte> {
    [LETTER_S, delim] + (Escape(script.pattern, delim)
                         + ([delim] + (Escape(script.replacement, delim)
                                       + ([delim] + if script.global then [LETTER_G] else []))))
  }

  lemma {:induction false} EscapeRoundTrip(text: seq<Byte>, delim: Byte, rest: seq<Byte>)
    requires delim != BACKSLASH
    ensures Delimited(Escape(text, delim) + ([delim] + rest), delim) == Some((text, rest))
  {
    if text == [] {
      var s := [delim] + rest;
      assert [] + s == s && s[1..] == rest;
    } else {
      EscapeRoundTrip(text[1..], delim, rest);
      assert [text[0]] + text[1..] == text;
      EscapedByte(text[0], delim, Escape(text[1..], delim), [delim] + rest);
    }
  }

  /** The reader takes one escaped byte off the front. */
  lemma EscapedByte(b: Byte, delim: Byte, escaped: seq<Byte>, rest: seq<Byte>)
    requires delim != BACKSLASH
    ensures var front := if b == delim || b == BACKSLASH then [BACKSLASH, b] else [b];
            Delimited(front + escaped + rest, delim) == ConsText(b, Delimited(escaped + rest, delim))
  {
    var front := if b == delim || b == BACKSLASH then [BACKSLASH, b] else [b];
    var s := front + escaped + rest;
    assert s == front + (escaped + rest) && s[|front|..] == escaped + rest;
  }

  /** Behind a backslash delimiter nothing ever closes: the escape test comes first. */
  lemma {:induction false} BackslashNeverCloses(s: seq<Byte>)
    ensures Delimited(s, BACKSLASH) == None
    decreases |s|
  {
    if s != [] && s[0] == BACKSLASH {
      if |s| > 1 { BackslashNeverCloses(s[2..]); }
    } else if s != [] {
      BackslashNeverCloses(s[1..]);
    }
  }

  /** No script with a backslash delimiter parses. */
  lemma BackslashNeverParses(s: seq<Byte>)
    requires |s| >= 2 && s[1] == BACKSLASH
    ensures ParseScript(s) == None
  {
    BackslashNeverCloses(s[2..]);
  }

  /** Printing a script and parsing it gives it back for every delimiter but NUL and
      backslash, as long as both texts fit; in every other case parsing fails. */
  lemma ScriptRoundTrip(script: Script, delim: Byte)
    ensures ParseScript(PrintScript(script, delim))
         == if && delim != NUL && delim != BACKSLASH
               && |script.pattern| <= MAX_PATTERN && |script.replacement| <= MAX_REPLACEMENT
            then Some(script) else None
  {
    var flags := if script.global then [LETTER_G] else [];
    var rest := Escape(script.replacement, delim) + ([delim] + flags);
    var s := PrintScript(script, delim);
    assert s[2..] == Escape(script.pattern, delim) + ([delim] + rest);
    if delim == BACKSLASH {
      BackslashNeverCloses(s[2..]);
    } else {
      EscapeRoundTrip(script.pattern, delim, rest);
      EscapeRoundTrip(script.replacement, delim, flags);
    }
  }

  // The grammar of scripts, whichever bytes are escaped.

  lemma {:induction false} DelimitedReads(bs: seq<Spelt>, delim: Byte, rest: seq<Byte>)
    requires delim != BACKSLASH && Enclosed(bs, delim)
    ensures Delimited(SpeltForm(bs) + ([delim] + rest), delim) == Some((SpeltText(bs), rest))
    decreases |bs|
  {
    if bs == [] {
      var s := [delim] + rest;
      assert [] + s == s && s[1..] == rest;
    } else {
      var tail := SpeltForm(bs[1..]) + ([delim] + rest);
      assert forall k | 0 <= k < |bs| - 1 :: bs[1..][k] == bs[k + 1];
      DelimitedReads(bs[1..], delim, rest);
      assert [bs[0]] + bs[1..] == bs;
      SpeltFirst(bs[0], bs[1..], [delim] + rest);
      OneSpelt(bs[0], tail, delim);
    }
  }

  lemma OneSpelt(b: Spelt, tail: seq<Byte>, delim: Byte)
    requires delim != BACKSLASH && (b.escaped || (b.byte != delim && b.byte != BACKSLASH))
    ensures Delimited((if b.escaped then [BACKSLASH, b.byte] else [b.byte]) + tail, delim)
         == ConsText(b.byte, Delimited(tail, delim))
  {
    var front := if b.escaped then [BACKSLASH, b.byte] else [b.byte];
    assert (front + tail)[|front|..] == tail;
  }

  /** s is the form of the text, then the delimiter, then the rest. */
  ghost predicate SpeltAs(bs: seq<Spelt>, s: seq<Byte>, delim: Byte, text: seq<Byte>, rest: seq<Byte>) {
    Enclosed(bs, delim) && SpeltText(bs) == text && s == SpeltForm(bs) + ([delim] + rest)
  }

  lemma SpeltMore(b: Spelt, bs: seq<Spelt>, s: seq<Byte>, delim: Byte, text: seq<Byte>, rest: seq<Byte>)
    requires SpeltAs(bs, s, delim, text, rest) && (b.escaped || (b.byte != delim && b.byte != BACKSLASH))
    ensures SpeltAs([b] + bs, (if b.escaped then [BACKSLASH, b.byte] else [b.byte]) + s, delim, [b.byte] + text, rest)
  {
    SpeltFirst(b, bs, [delim] + rest);
    assert forall k | 1 <= k < |[b] + bs| :: ([b] + bs)[k] == bs[k - 1];
  }

  lemma NothingSpelt(delim: Byte, rest: seq<Byte>)
    ensures SpeltAs([], [delim] + rest, delim, [], rest)
  {
  }

  /** Whatever the reader accepts is the form of the text it returns. */
  lemma {:induction false} DelimitedIsSpelt(s: seq<Byte>, delim: Byte) returns (bs: seq<Spelt>)
    requires Delimited(s, delim).Some?
    ensures SpeltAs(bs, s, delim, Delimited(s, delim).value.0, Delimited(s, delim).value.1)
    decreases |s|
  {
    if s[0] != BACKSLASH && s[0] == delim {
      NothingSpelt(delim, s[1..]);
      assert s == [delim] + s[1..];
      return [];
    }
    var b := if s[0] == BACKSLASH then Spelt(s[1], true) else Spelt(s[0], false);
    var front := if b.escaped then [BACKSLASH, b.byte] else [b.byte];
    var tail := s[|front|..];
    assert s == front + tail;
    var more := DelimitedIsSpelt(tail, delim);
    SpeltMore(b, more, tail, delim, Delimited(tail, delim).value.0, Delimited(tail, delim).value.1);
    bs := [b] + more;
  }

  /** s, the delimiter, two texts that it closes, and perhaps g. */
  ghost predicate Spells(s: seq<Byte>, script: Script, delim: Byte, p: seq<Spelt>, r: seq<Spelt>) {
    && delim != NUL && delim != BACKSLASH && Enclosed(p, delim) && Enclosed(r, delim)
    && SpeltText(p) == script.pattern && SpeltText(r) == script.replacement
    && |script.pattern| <= MAX_PATTERN && |script.replacement| <= MAX_REPLACEMENT
    && s == [LETTER_S, delim]
            + (SpeltForm(p) + ([delim] + (SpeltForm(r) + ([delim] + if script.global then [LETTER_G] else []))))
  }

  lemma SpellingParses(s: seq<Byte>, script: Script, delim: Byte, p: seq<Spelt>, r: seq<Spelt>)
    requires Spells(s, script, delim, p, r)
    ensures ParseScript(s) == Some(script)
  {
    var flags := if script.global then [LETTER_G] else [];
    var rest := SpeltForm(r) + ([delim] + flags);
    assert s[2..] == SpeltForm(p) + ([delim] + rest);
    DelimitedReads(p, delim, rest);
    DelimitedReads(r, delim, flags);
  }

  /** The parser accepts exactly the spellings of a script, and returns that script. */
  lemma ScriptSpellings(s: seq<Byte>, script: Script)
    ensures ParseScript(s) == Some(script) <==> exists delim, p, r :: Spells(s, script, delim, p, r)
  {
    if ParseScript(s) == Some(script) {
      var delim := s[1];
      if delim == BACKSLASH { BackslashNeverParses(s); }
      var p := DelimitedIsSpelt(s[2..], delim);
      var rest := Delimited(s[2..], delim).value.1;
      var r := DelimitedIsSpelt(rest, delim);
      assert s == [LETTER_S, delim] + s[2..];
      assert Spells(s, script, delim, p, r);
    }
    if exists delim, p, r :: Spells(s, script, delim, p, r) {
      var delim, p, r :| Spells(s, script, delim, p, r);
      SpellingParses(s, script, delim, p, r);
    }
  }

  // Replacement as cutting and joining.

  /** The pieces of a text: some with an occurrence of the pattern behind them, and a last one. */
  datatype Pieces = Last(text: seq<Byte>) | Piece(text: seq<Byte>, more: Pieces)

  function JoinBy(pieces: Pieces, sep: seq<Byte>): seq<Byte> {
    if pieces.Last? then pieces.text else pieces.text + (sep + JoinBy(pieces.more, sep))
  }

  /** Joined by the pattern the pieces are s; joined by the replacement they are s with all
      occurrences replaced, and with only the first join replaced s with the first one. */
  ghost predicate Joins(pieces: Pieces, s: seq<Byte>, pattern: seq<Byte>, replacement: seq<Byte>) {
    && s == JoinBy(pieces, pattern)
    && Replace(s, pattern, replacement, true) == JoinBy(pieces, replacement)
    && Replace(s, pattern, replacement, false)
       == if pieces.Last? then s else pieces.text + (replacement + JoinBy(pieces.more, pattern))
  }

  /** No occurrence of the pattern starts in front of n. */
  ghost predicate NoneBefore(text: seq<Byte>, pattern: seq<Byte>, n: nat) {
    forall j | 0 <= j < n :: !OccursAt(text, pattern, j)
  }

  /** No occurrence starts inside a piece, not even one that runs on into the pattern behind
      it: the joins are the leftmost occurrences that do not overlap. */
  ghost predicate LeftmostCuts(pieces: Pieces, pattern: seq<Byte>) {
    if pieces.Last? then NoneBefore(pieces.text, pattern, |pieces.text|)
    else NoneBefore(pieces.text + pattern, pattern, |pieces.text|) && LeftmostCuts(pieces.more, pattern)
  }

  /** Every text is cut at the leftmost occurrences, and replacing joins the same pieces. */
  lemma {:induction false} ReplaceRejoins(s: seq<Byte>, pattern: seq<Byte>, replacement: seq<Byte>)
    returns (pieces: Pieces)
    requires pattern != []
    ensures Joins(pieces, s, pattern, replacement) && LeftmostCuts(pieces, pattern)
    decreases |s|
  {
    var i := FirstMatch(s, pattern);
    if i == |s| {
      NoCut(s, pattern, replacement);
      return Last(s);
    }
    var more := ReplaceRejoins(s[i + |pattern|..], pattern, replacement);
    OnePieceMore(s, pattern, replacement, more);
    FirstPiece(s, pattern);
    pieces := Piece(s[..i], more);
  }

  lemma NoCut(s: seq<Byte>, pattern: seq<Byte>, replacement: seq<Byte>)
    requires pattern != [] && FirstMatch(s, pattern) == |s|
    ensures Joins(Last(s), s, pattern, replacement) && LeftmostCuts(Last(s), pattern)
  {
    NoMatchInFront(s, pattern);
  }

  lemma OnePieceMore(s: seq<Byte>, pattern: seq<Byte>, replacement: seq<Byte>, more: Pieces)
    requires pattern != [] && FirstMatch(s, pattern) < |s|
    requires Joins(more, s[FirstMatch(s, pattern) + |pattern|..], pattern, replacement)
    ensures Joins(Piece(s[..FirstMatch(s, pattern)], more), s, pattern, replacement)
  {
    SplitAround(s, FirstMatch(s, pattern), pattern);
    FirstReplaced(s, pattern, replacement, true);
    FirstReplaced(s, pattern, replacement, false);
  }

  lemma SplitAround(s: seq<Byte>, i: nat, pattern: seq<Byte>)
    requires OccursAt(s, pattern, i)
    ensures s == s[..i] + (pattern + s[i + |pattern|..])
  {
  }

  lemma FirstReplaced(s: seq<Byte>, pattern: seq<Byte>, replacement: seq<Byte>, global: bool)
    requires pattern != [] && FirstMatch(s, pattern) < |s|
    ensures var i := FirstMatch(s, pattern);
            var rest := s[i + |pattern|..];
            Replace(s, pattern, replacement, global)
            == s[..i] + (replacement + if global then Replace(rest, pattern, replacement, true) else rest)
  {
  }

  /** An empty pattern replaces nothing. */
  lemma EmptyPattern(s: seq<Byte>, replacement: seq<Byte>, global: bool)
    ensures Replace(s, [], replacement, global) == s
  {
  }

  lemma NoMatchInFront(s: seq<Byte>, pattern: seq<Byte>)
    requires pattern != []
    ensures NoneBefore(s, pattern, FirstMatch(s, pattern))
  {
  }

  lemma FirstPiece(s: seq<Byte>, pattern: seq<Byte>)
    requires pattern != [] && FirstMatch(s, pattern) < |s|
    ensures var piece := s[..FirstMatch(s, pattern)]; NoneBefore(piece + pattern, pattern, |piece|)
  {
    var i := FirstMatch(s, pattern);
    NoMatchInFront(s, pattern);
    SplitAround(s, i, pattern);
    ConcatAssoc(s[..i], pattern, s[i + |pattern|..]);
    NoneInFront(s[..i] + pattern, s[i + |pattern|..], pattern, i);
  }

  lemma NoneInFront(front: seq<Byte>, rest: seq<Byte>, pattern: seq<Byte>, n: nat)
    requires NoneBefore(front + rest, pattern, n)
    ensures NoneBefore(front, pattern, n)
  {
    forall j | 0 <= j < n ensures !OccursAt(front, pattern, j) {
      if OccursAt(front, pattern, j) {
        assert (front + rest)[j..j + |pattern|] == front[j..j + |pattern|];
        assert OccursAt(front + rest, pattern, j);
      }
    }
  }
}
