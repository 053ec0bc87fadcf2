/** Bytes, bounded copies and the two result types the other modules share. */
module Bytes {
  newtype Byte = b: int | 0 <= b < 256

  datatype Option<+T> = None | Some(value: T)

  datatype Result<+T, +E> = Ok(value: T) | Err(error: E) {
    predicate IsFailure() { Err? }

    function PropagateFailure<U>(): Result<U, E>
      requires Err?
    {
      Err(error)
    }

    function Extract(): T
      requires Ok?
    {
      value
    }
  }

  const U64_MAX: nat := 0xFFFF_FFFF_FFFF_FFFF

  const NUL: Byte := 0
  const BACKSPACE: Byte := 8
  const TAB: Byte := 9
  const NEWLINE: Byte := 10
  const SPACE: Byte := 32
  const DOUBLE_QUOTE: Byte := 34
  const DOLLAR: Byte := 36
  const SINGLE_QUOTE: Byte := 39
  const SLASH: Byte := 47
  const LESS: Byte := 60
  const EQUALS: Byte := 61
  const GREATER: Byte := 62
  const BACKSLASH: Byte := 92
  const UNDERSCORE: Byte := 95
  const BAR: Byte := 124

  function Min(a: nat, b: nat): nat { if a <= b then a else b }

  /** What a buffer of n elements holds after s was copied into it until it was full. */
  function Take<T>(s: seq<T>, n: nat): seq<T> {
    if |s| <= n then s else s[..n]
  }

  /** A prefix overwritten in place: what lies behind the new bytes stays. */
  function Overwrite<T>(dst: seq<T>, src: seq<T>): (r: seq<T>)
    requires |src| <= |dst|
    ensures |r| == |dst|
    ensures r[..|src|] == src && r[|src|..] == dst[|src|..]
  {
    src + dst[|src|..]
  }

  function Flatten<T>(parts: seq<seq<T>>): seq<T> {
    if parts == [] then [] else parts[0] + Flatten(parts[1..])
  }

  lemma ConcatAssoc<T>(a: seq<T>, b: seq<T>, c: seq<T>)
    ensures a + (b + c) == a + b + c
  {
  }

  lemma TakeTake<T>(s: seq<T>, t: seq<T>, n: nat)
    ensures Take(Take(s, n) + t, n) == Take(s + t, n)
  {
  }

  /** The first index of x in s, or |s|. */
  function IndexOf<T(==)>(s: seq<T>, x: T): (i: nat)
    ensures i <= |s|
    ensures forall j | 0 <= j < i :: s[j] != x
    ensures i < |s| ==> s[i] == x
  {
    if s == [] then 0 else if s[0] == x then 0 else 1 + IndexOf(s[1..], x)
  }

  lemma FirstIs<T>(s: seq<T>, x: T, k: nat)
    requires k < |s| && s[k] == x && forall j | 0 <= j < k :: s[j] != x
    ensures IndexOf(s, x) == k
  {
  }

  /** The maximal pieces of s that do not hold sep: one more piece than separators. */
  function SplitOn<T(==)>(s: seq<T>, sep: T): (pieces: seq<seq<T>>)
    ensures |pieces| >= 1
    decreases |s|
  {
    var i := IndexOf(s, sep);
    if i == |s| then [s] else [s[..i]] + SplitOn(s[i + 1..], sep)
  }

  function JoinWith<T>(pieces: seq<seq<T>>, sep: T): seq<T>
    requires |pieces| >= 1
  {
    if |pieces| == 1 then pieces[0] else pieces[0] + [sep] + JoinWith(pieces[1..], sep)
  }

  lemma {:induction false} JoinSplit<T>(s: seq<T>, sep: T)
    ensures JoinWith(SplitOn(s, sep), sep) == s
    decreases |s|
  {
    var i := IndexOf(s, sep);
    if i < |s| {
      JoinSplit(s[i + 1..], sep);
      JoinCons(s[..i], SplitOn(s[i + 1..], sep), sep);
      CutAt(s, i);
    }
  }

  lemma CutAt<T>(s: seq<T>, i: nat)
    requires i < |s|
    ensures s[..i] + [s[i]] + s[i + 1..] == s
  {
  }

  lemma JoinCons<T>(first: seq<T>, rest: seq<seq<T>>, sep: T)
    requires rest != []
    ensures JoinWith([first] + rest, sep) == first + [sep] + JoinWith(rest, sep)
  {
  }

  /** No piece holds the separator. */
  ghost predicate Free<T>(pieces: seq<seq<T>>, sep: T) {
    forall k | 0 <= k < |pieces| :: sep !in pieces[k]
  }

  lemma {:induction false} SplitIsFree<T>(s: seq<T>, sep: T)
    ensures Free(SplitOn(s, sep), sep)
    decreases |s|
  {
    var i := IndexOf(s, sep);
    if i < |s| {
      SplitIsFree(s[i + 1..], sep);
    }
  }

  lemma {:induction false} SplitJoin<T>(pieces: seq<seq<T>>, sep: T)
    requires |pieces| >= 1 && Free(pieces, sep)
    ensures SplitOn(JoinWith(pieces, sep), sep) == pieces
  {
    if |pieces| == 1 {
      SplitWhole(pieces[0], sep);
    } else {
      SplitHead(pieces[0], sep, JoinWith(pieces[1..], sep));
      SplitJoin(pieces[1..], sep);
    }
  }

  lemma SplitWhole<T>(a: seq<T>, sep: T)
    requires sep !in a
    ensures SplitOn(a, sep) == [a]
  {
  }

  lemma SplitHead<T>(a: seq<T>, sep: T, rest: seq<T>)
    requires sep !in a
    ensures SplitOn(a + [sep] + rest, sep) == [a] + SplitOn(rest, sep)
  {
    var s := a + [sep] + rest;
    FirstIs(s, sep, |a|);
    assert s[..|a|] == a && s[|a| + 1..] == rest;
  }

  /** Copies src to dst[at..]: what is before and behind it stays. */
  method CopyInto<T>(dst: array<T>, at: nat, src: seq<T>)
    requires at + |src| <= dst.Length
    modifies dst
    ensures dst[..at + |src|] == old(dst[..at]) + src
    ensures forall k | at + |src| <= k < dst.Length :: dst[k] == old(dst[k])
  {
    forall k | 0 <= k < |src| { dst[at + k] := src[k]; }
  }

  /** The first n bytes of the buffer are all of text that the buffer has room for. */
  ghost predicate Holds(buf: seq<Byte>, n: nat, text: seq<Byte>) {
    n <= |buf| && buf[..n] == Take(text, |buf|)
  }

  lemma FullHolds(buf: seq<Byte>, n: nat, text: seq<Byte>, more: seq<Byte>)
    requires Holds(buf, n, text) && (n == |buf| || more == [])
    ensures Holds(buf, n, text + more)
  {
  }

  /** Appends value to the buffer byte by byte while there is room. */
  method Append(out: array<Byte>, at: nat, value: seq<Byte>, ghost done: seq<Byte>) returns (outIdx: nat)
    requires Holds(out[..], at, done)
    modifies out
    ensures Holds(out[..], outIdx, done + value)
  {
    outIdx := at;
    var k := 0;
    assert done + value[..0] == done;
    while k < |value|
      invariant k <= |value| && Holds(out[..], outIdx, done + value[..k])
    {
      assert done + value[..k + 1] == done + value[..k] + [value[k]];
      if outIdx < out.Length {
        ghost var before := out[..outIdx];
        out[outIdx] := value[k];
        outIdx := outIdx + 1;
        assert out[..outIdx] == before + [value[k]];
      }
      k := k + 1;
    }
    assert value[..k] == value;
  }

  /** A C string ends at the first NUL. */
  function CString(s: seq<Byte>): seq<Byte> {
    s[..IndexOf(s, NUL)]
  }

  lemma CStringPrefix(a: seq<Byte>, b: seq<Byte>)
    requires NUL !in a
    ensures a <= CString(a + b)
  {
  }

  /** The bytes of an ASCII text. */
  function Str(s: string): seq<Byte> {
    seq(|s|, i requires 0 <= i < |s| => if s[i] as int < 128 then s[i] as int as Byte else NUL)
  }
}
