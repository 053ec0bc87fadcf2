/** Variable expansion: one pass over the line into a bounded buffer, against the unbounded
    expansion. */
module ShellExpand {
  import opened Bytes
  import opened ShellEnv

  predicate IsNameByte(b: Byte) {
    48 <= b <= 57 || 65 <= b <= 90 || 97 <= b <= 122 || b == UNDERSCORE
  }

  /** How many name bytes s starts with. */
  function NameLength(s: seq<Byte>): (n: nat)
    ensures n <= |s| && (forall k | 0 <= k < n :: IsNameByte(s[k])) && (n < |s| ==> !IsNameByte(s[n]))
  {
    if s != [] && IsNameByte(s[0]) then 1 + NameLength(s[1..]) else 0
  }

  /** What a variable stands for; nothing when it is not set. */
  function ValuesOf(env: Env): seq<Byte> -> seq<Byte> {
    name => match Get(env, name)
            case None => []
            case Some(v) => v
  }

  /** What stands for a dollar and the name behind it: without a name the dollar stays. */
  function Reference(values: seq<Byte> -> seq<Byte>, name: seq<Byte>): seq<Byte> {
    if name == [] then [DOLLAR] else values(name)
  }

  /** The expansion without any limit: behind a dollar the longest name is looked up. */
  function Expand(values: seq<Byte> -> seq<Byte>, s: seq<Byte>): seq<Byte>
    decreases |s|
  {
    if s == [] then []
    else if s[0] != DOLLAR then [s[0]] + Expand(values, s[1..])
    else
      var n := NameLength(s[1..]);
      Reference(values, s[1..n + 1]) + Expand(values, s[n + 1..])
  }

  lemma {:induction false} ExpandPlain(values: seq<Byte> -> seq<Byte>, plain: seq<Byte>, rest: seq<Byte>)
    requires DOLLAR !in plain
    ensures Expand(values, plain + rest) == plain + Expand(values, rest)
  {
    if plain == [] {
      assert plain + rest == rest;
    } else {
      assert (plain + rest)[1..] == plain[1..] + rest;
      ExpandPlain(values, plain[1..], rest);
    }
  }

  /** No dollar has a name behind it. */
  predicate RefFree(s: seq<Byte>) {
    forall i | 0 <= i < |s| - 1 && s[i] == DOLLAR :: !IsNameByte(s[i + 1])
  }

  lemma {:induction false} ExpandIdentity(values: seq<Byte> -> seq<Byte>, line: seq<Byte>)
    requires RefFree(line)
    ensures Expand(values, line) == line
    decreases |line|
  {
    if line != [] {
      assert forall i | 0 <= i < |line| - 1 :: line[1..][i] == line[i + 1];
      ExpandIdentity(values, line[1..]);
      if line[0] == DOLLAR {
        assert NameLength(line[1..]) == 0 && line[1..1] == [];
      }
      assert [line[0]] + line[1..] == line;
    }
  }

  /** Values that are no longer than their names make the line shorter, unless there is no
      reference at all. */
  lemma {:induction false} ExpandShrinks(values: seq<Byte> -> seq<Byte>, line: seq<Byte>)
    requires forall name | name != [] :: |values(name)| <= |name|
    ensures |Expand(values, line)| <= |line|
    ensures !RefFree(line) ==> |Expand(values, line)| < |line|
    decreases |line|
  {
    if line != [] {
      var n := if line[0] == DOLLAR then NameLength(line[1..]) else 0;
      ExpandShrinks(values, line[n + 1..]);
      if n == 0 {
        assert forall i | 0 <= i < |line| - 1 :: line[1..][i] == line[i + 1];
      }
    }
  }

  /** Exactly the lines without a reference expand to themselves whatever the variables are. */
  lemma ExpandIdentityExactly(line: seq<Byte>)
    ensures RefFree(line) <==> forall values :: Expand(values, line) == line
  {
    if RefFree(line) {
      forall values ensures Expand(values, line) == line { ExpandIdentity(values, line); }
    } else {
      var unset: seq<Byte> -> seq<Byte> := _ => [];
      ExpandShrinks(unset, line);
      assert Expand(unset, line) != line;
    }
  }

  lemma NameLengthIs(s: seq<Byte>, n: nat)
    requires n <= |s| && (forall k | 0 <= k < n :: IsNameByte(s[k])) && (n < |s| ==> !IsNameByte(s[n]))
    ensures NameLength(s) == n
  {
  }

  lemma ExpandName(values: seq<Byte> -> seq<Byte>, name: seq<Byte>, rest: seq<Byte>)
    requires forall k | 0 <= k < |name| :: IsNameByte(name[k])
    requires rest == [] || !IsNameByte(rest[0])
    ensures Expand(values, [DOLLAR] + (name + rest)) == Reference(values, name) + Expand(values, rest)
  {
    var s := [DOLLAR] + (name + rest);
    assert s[1..] == name + rest;
    NameLengthIs(s[1..], |name|);
    assert s[1..|name| + 1] == name && s[|name| + 1..] == rest;
  }

  /** A reference is replaced by the variable's value as it is: a dollar in the value is not
      looked at again, and an unset name vanishes. */
  lemma ExpandReference(values: seq<Byte> -> seq<Byte>, plain: seq<Byte>, name: seq<Byte>, rest: seq<Byte>)
    requires DOLLAR !in plain
    requires name != [] && forall k | 0 <= k < |name| :: IsNameByte(name[k])
    requires rest == [] || !IsNameByte(rest[0])
    ensures Expand(values, plain + ([DOLLAR] + (name + rest))) == plain + (values(name) + Expand(values, rest))
  {
    ExpandPlain(values, plain, [DOLLAR] + (name + rest));
    ExpandName(values, name, rest);
  }

  lemma ExpandAtDollar(values: seq<Byte> -> seq<Byte>, s: seq<Byte>, k: nat)
    requires s != [] && s[0] == DOLLAR && k == 1 + NameLength(s[1..])
    ensures Expand(values, s) == Reference(values, s[1..k]) + Expand(values, s[k..])
  {
  }

  lemma CutSum(a: seq<Byte>, b: seq<Byte>, i: nat)
    requires i <= |a|
    ensures (a + b)[..i] == a[..i] && (a + b)[i..] == a[i..] + b
  {
  }

  lemma SameName(a: seq<Byte>, b: seq<Byte>)
    requires a != [] && (b == [] || !IsNameByte(b[0]))
    ensures NameLength((a + b)[1..]) == NameLength(a[1..])
  {
    CutSum(a, b, 1);
    NameLengthIs((a + b)[1..], NameLength(a[1..]));
  }

  /** Expanding in two halves is expanding the whole, unless a name runs over the seam. */
  lemma {:induction false} ExpandConcat(values: seq<Byte> -> seq<Byte>, a: seq<Byte>, b: seq<Byte>)
    requires b == [] || !IsNameByte(b[0])
    ensures Expand(values, a + b) == Expand(values, a) + Expand(values, b)
    decreases |a|
  {
    if a == [] {
      assert a + b == b;
    } else if a[0] != DOLLAR {
      assert (a + b)[1..] == a[1..] + b;
      ExpandConcat(values, a[1..], b);
      ConcatAssoc([a[0]], Expand(values, a[1..]), Expand(values, b));
    } else {
      var n := NameLength(a[1..]);
      SameName(a, b);
      CutSum(a, b, n + 1);
      assert (a + b)[1..n + 1] == (a + b)[..n + 1][1..] == a[1..n + 1];
      ExpandAtDollar(values, a, n + 1);
      ExpandAtDollar(values, a + b, n + 1);
      ExpandConcat(values, a[n + 1..], b);
      ConcatAssoc(Reference(values, a[1..n + 1]), Expand(values, a[n + 1..]), Expand(values, b));
    }
  }

  /** The inner loop: the end of the name that starts at start. */
  method ScanName(line: seq<Byte>, start: nat) returns (i: nat)
    requires start <= |line|
    ensures i == NameEnd(line, start)
  {
    i := start;
    while i < |line| && IsNameByte(line[i])
      invariant start <= i <= |line|
      invariant NameLength(line[start..]) == i - start + NameLength(line[i..])
    {
      assert line[i..][1..] == line[i + 1..];
      i := i + 1;
    }
  }

  method AppendReference(env: EnvTable, name: seq<Byte>, out: array<Byte>, at: nat, ghost done: seq<Byte>)
    returns (outIdx: nat)
    requires env.Valid() && Holds(out[..], at, done)
    modifies out
    ensures env.Valid() && env.Bindings() == old(env.Bindings())
    ensures Holds(out[..], outIdx, done + Reference(ValuesOf(env.Bindings()), name))
  {
    outIdx := at;
    if name == [] {
      outIdx := Append(out, outIdx, [DOLLAR], done);
    } else {
      var v := env.GetEnv(name);
      if v.Some? {
        outIdx := Append(out, outIdx, v.value, done);
      } else {
        assert done + [] == done;
      }
    }
  }

  /** rests[i] is the expansion of the line from i on, as the pass can compute it from what
      is behind i. */
  ghost predicate Rests(rests: seq<seq<Byte>>, values: seq<Byte> -> seq<Byte>, line: seq<Byte>) {
    && |rests| == |line| + 1 && rests[|line|] == []
    && (forall i | 0 <= i < |line| && line[i] != DOLLAR :: rests[i] == [line[i]] + rests[i + 1])
    && (forall i | 0 <= i < |line| && line[i] == DOLLAR ::
          rests[i] == Reference(values, line[i + 1..NameEnd(line, i + 1)]) + rests[NameEnd(line, i + 1)])
  }

  function NameEnd(line: seq<Byte>, start: nat): (end: nat)
    requires start <= |line|
    ensures start <= end <= |line|
  {
    start + NameLength(line[start..])
  }

  ghost function RestsOf(values: seq<Byte> -> seq<Byte>, line: seq<Byte>): seq<seq<Byte>> {
    seq(|line| + 1, i requires 0 <= i <= |line| => Expand(values, line[i..]))
  }

  lemma RestAtByte(values: seq<Byte> -> seq<Byte>, line: seq<Byte>, i: nat)
    requires i < |line| && line[i] != DOLLAR
    ensures RestsOf(values, line)[i] == [line[i]] + RestsOf(values, line)[i + 1]
  {
  }

  lemma RestAtDollar(values: seq<Byte> -> seq<Byte>, line: seq<Byte>, i: nat, j: nat)
    requires i < |line| && line[i] == DOLLAR && j == NameEnd(line, i + 1)
    ensures Expand(values, line[i..]) == Reference(values, line[i + 1..j]) + Expand(values, line[j..])
  {
    CutTwice(line, i, j);
    ExpandAtDollar(values, line[i..], j - i);
  }

  lemma CutTwice(line: seq<Byte>, i: nat, j: nat)
    requires i < j <= |line|
    ensures line[i..][1..] == line[i + 1..] && line[i..][1..j - i] == line[i + 1..j] && line[i..][j - i..] == line[j..]
  {
  }

  lemma RestsOfAreRests(values: seq<Byte> -> seq<Byte>, line: seq<Byte>)
    ensures Rests(RestsOf(values, line), values, line)
    ensures RestsOf(values, line)[0] == Expand(values, line)
  {
    var rests := RestsOf(values, line);
    assert line[|line|..] == [] && line[0..] == line;
    forall i | 0 <= i < |line| && line[i] != DOLLAR
      ensures rests[i] == [line[i]] + rests[i + 1]
    {
      RestAtByte(values, line, i);
    }
    forall i | 0 <= i < |line| && line[i] == DOLLAR
      ensures rests[i] == Reference(values, line[i + 1..NameEnd(line, i + 1)]) + rests[NameEnd(line, i + 1)]
    {
      RestAtDollar(values, line, i, NameEnd(line, i + 1));
    }
  }

  /** The pass over the line. */
  method ExpandLoop(env: EnvTable, line: seq<Byte>, out: array<Byte>, ghost rests: seq<seq<Byte>>) returns (outIdx: nat)
    requires env.Valid() && Rests(rests, ValuesOf(env.Bindings()), line)
    modifies out
    ensures env.Valid() && env.Bindings() == old(env.Bindings())
    ensures Holds(out[..], outIdx, rests[0])
  {
    ghost var bindings := env.Bindings();
    ghost var done: seq<Byte> := [];
    var i := 0;
    outIdx := 0;
    assert done + rests[0] == rests[0];
    while i < |line| && outIdx < out.Length
      invariant i <= |line| && env.Valid() && env.Bindings() == bindings
      invariant Holds(out[..], outIdx, done)
      invariant rests[0] == done + rests[i]
    {
      if line[i] == DOLLAR {
        var start := i + 1;
        i := ScanName(line, start);
        ConcatAssoc(done, Reference(ValuesOf(bindings), line[start..i]), rests[i]);
        outIdx := AppendReference(env, line[start..i], out, outIdx, done);
        done := done + Reference(ValuesOf(bindings), line[start..i]);
      } else {
        ConcatAssoc(done, [line[i]], rests[i + 1]);
        outIdx := Append(out, outIdx, [line[i]], done);
        done := done + [line[i]];
        i := i + 1;
      }
    }
    FullHolds(out[..], outIdx, done, rests[i]);
  }

  /** Writes the unbounded expansion, cut to the capacity of out. */
  method ExpandLine(env: EnvTable, line: seq<Byte>, out: array<Byte>) returns (outIdx: nat)
    requires env.Valid()
    modifies out
    ensures env.Valid() && env.Bindings() == old(env.Bindings())
    ensures Holds(out[..], outIdx, Expand(ValuesOf(env.Bindings()), line))
  {
    RestsOfAreRests(ValuesOf(env.Bindings()), line);
    outIdx := ExpandLoop(env, line, out, RestsOf(ValuesOf(env.Bindings()), line));
  }
}
