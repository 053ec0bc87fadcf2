/** Trimming and splitting at ASCII white space, as programs do with their arguments. */
module AsciiText {
  import opened Bytes

  predicate IsSpace(b: Byte) { b == SPACE || 9 <= b <= 13 }

  function TrimStart(s: seq<Byte>): seq<Byte> {
    if s != [] && IsSpace(s[0]) then TrimStart(s[1..]) else s
  }

  function TrimEnd(s: seq<Byte>): seq<Byte> {
    if s != [] && IsSpace(s[|s| - 1]) then TrimEnd(s[..|s| - 1]) else s
  }

  function Trim(s: seq<Byte>): seq<Byte> { TrimEnd(TrimStart(s)) }

  /** How many non-space bytes s starts with. */
  function FieldLength(s: seq<Byte>): (n: nat)
    ensures n <= |s| && (forall k | 0 <= k < n :: !IsSpace(s[k])) && (n < |s| ==> IsSpace(s[n]))
  {
    if s != [] && !IsSpace(s[0]) then 1 + FieldLength(s[1..]) else 0
  }

  /** The maximal space-free pieces of s. */
  function Fields(s: seq<Byte>): seq<seq<Byte>>
    decreases |s|
  {
    if s == [] then []
    else if IsSpace(s[0]) then Fields(s[1..])
    else var n := FieldLength(s); [s[..n]] + Fields(s[n..])
  }

  predicate IsField(w: seq<Byte>) {
    w != [] && forall k | 0 <= k < |w| :: !IsSpace(w[k])
  }

  lemma FirstField(w: seq<Byte>, rest: seq<Byte>)
    requires IsField(w) && (rest == [] || IsSpace(rest[0]))
    ensures Fields(w + rest) == [w] + Fields(rest)
  {
    var s := w + rest;
    var n := FieldLength(s);
    assert s[0] == w[0] && (rest != [] ==> s[|w|] == rest[0]);
    assert !(n < |w|) && !(|w| < n);
    assert s[..n] == w && s[n..] == rest;
  }

  /** Words without white space, joined by single spaces, split into themselves again. */
  lemma {:induction false} FieldsOfJoined(words: seq<seq<Byte>>)
    requires words != [] && forall k | 0 <= k < |words| :: IsField(words[k])
    ensures Fields(JoinWith(words, SPACE)) == words
  {
    if |words| == 1 {
      FirstField(words[0], []);
      assert words[0] + [] == words[0];
    } else {
      var rest := [SPACE] + JoinWith(words[1..], SPACE);
      assert JoinWith(words, SPACE) == words[0] + rest;
      FirstField(words[0], rest);
      assert rest[1..] == JoinWith(words[1..], SPACE);
      FieldsOfJoined(words[1..]);
    }
  }

  // White space, spelled out: tab, line feed, vertical tab, form feed, carriage return, space.

  const WHITE: seq<Byte> := [9, 10, 11, 12, 13, 32]

  predicate AllWhite(s: seq<Byte>) { forall k | 0 <= k < |s| :: s[k] in WHITE }

  predicate NoWhite(s: seq<Byte>) { forall k | 0 <= k < |s| :: s[k] !in WHITE }

  /** Empty, or with no white space at either end. */
  predicate Trimmed(s: seq<Byte>) { s == [] || (s[0] !in WHITE && s[|s| - 1] !in WHITE) }

  lemma {:induction false} TrimStartSkips(a: seq<Byte>, s: seq<Byte>)
    requires AllWhite(a)
    ensures TrimStart(a + s) == TrimStart(s)
    decreases |a|
  {
    if a == [] {
      assert a + s == s;
    } else {
      assert (a + s)[1..] == a[1..] + s;
      TrimStartSkips(a[1..], s);
    }
  }

  lemma {:induction false} TrimEndSkips(s: seq<Byte>, b: seq<Byte>)
    requires AllWhite(b)
    ensures TrimEnd(s + b) == TrimEnd(s)
    decreases |b|
  {
    if b == [] {
      assert s + b == s;
    } else {
      assert (s + b)[..|s + b| - 1] == s + b[..|b| - 1];
      TrimEndSkips(s, b[..|b| - 1]);
    }
  }

  /** Trimming takes away the white space at both ends and nothing else. */
  lemma TrimSpaces(a: seq<Byte>, s: seq<Byte>, b: seq<Byte>)
    requires AllWhite(a) && AllWhite(b) && Trimmed(s)
    ensures Trim(a + s + b) == s
  {
    ConcatAssoc(a, s, b);
    TrimStartSkips(a, s + b);
    if s == [] {
      assert s + b == b + [];
      TrimStartSkips(b, []);
    } else {
      assert TrimStart(s + b) == s + b;
      TrimEndSkips(s, b);
    }
  }

  lemma TrimTrimmed(s: seq<Byte>)
    requires Trimmed(s)
    ensures Trim(s) == s
  {
  }

  lemma {:induction false} FieldsSkip(a: seq<Byte>, s: seq<Byte>)
    requires AllWhite(a)
    ensures Fields(a + s) == Fields(s)
    decreases |a|
  {
    if a == [] {
      assert a + s == s;
    } else {
      assert (a + s)[1..] == a[1..] + s;
      FieldsSkip(a[1..], s);
    }
  }

  /** Words, each with the white space behind it. */
  function Spaced(words: seq<seq<Byte>>, gaps: seq<seq<Byte>>): seq<Byte>
    requires |words| == |gaps|
  {
    if words == [] then [] else words[0] + (gaps[0] + Spaced(words[1..], gaps[1..]))
  }

  /** Whatever white space stands between non-empty words, before and behind them, the fields
      are the words. */
  lemma {:induction false} FieldsOfSpaced(before: seq<Byte>, words: seq<seq<Byte>>, gaps: seq<seq<Byte>>)
    requires |words| == |gaps| && AllWhite(before)
    requires forall k | 0 <= k < |words| :: words[k] != [] && NoWhite(words[k]) && AllWhite(gaps[k])
    requires forall k | 0 <= k < |words| - 1 :: gaps[k] != []
    ensures Fields(before + Spaced(words, gaps)) == words
    decreases |words|
  {
    FieldsSkip(before, Spaced(words, gaps));
    if words != [] {
      var rest := gaps[0] + Spaced(words[1..], gaps[1..]);
      FirstField(words[0], rest);
      FieldsOfSpaced(gaps[0], words[1..], gaps[1..]);
    }
  }
}
