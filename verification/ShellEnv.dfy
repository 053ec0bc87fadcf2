/** The shell's environment table, the text it hands to a child, and the child's lookup in
    that text. */
module ShellEnv {
  import opened Bytes

  const MAX_ENV_VARS: nat := 16
  const MAX_ENV_LEN: nat := 511
  const MAX_KEY: nat := 32
  const MAX_VALUE: nat := 64
  const CWD: seq<Byte> := [67, 87, 68]

  /** One table entry: fixed buffers of which a prefix is in use. Length zero of the key
      marks a free entry. */
  datatype EnvVar = EnvVar(key: seq<Byte>, keyLen: nat, val: seq<Byte>, valLen: nat) {
    predicate Valid() {
      |key| == MAX_KEY && keyLen <= MAX_KEY && |val| == MAX_VALUE && valLen <= MAX_VALUE
    }

    function Bound(): Binding
      requires Valid()
    {
      Binding(key[..keyLen], val[..valLen])
    }
  }

  /** An entry as a value; the empty name is a free entry. */
  datatype Binding = Binding(name: seq<Byte>, value: seq<Byte>)

  type Env = seq<Binding>

  function Names(env: Env): seq<seq<Byte>> {
    seq(|env|, i requires 0 <= i < |env| => env[i].name)
  }

  function Get(env: Env, name: seq<Byte>): Option<seq<Byte>> {
    var i := IndexOf(Names(env), name);
    if i < |env| then Some(env[i].value) else None
  }

  /** The working directory of the shell, "/" when CWD is not set. */
  function CwdOf(env: Env): seq<Byte> {
    match Get(env, CWD)
    case None => [SLASH]
    case Some(cwd) => cwd
  }

  /** Whether a Set is carried out: the sizes fit and there is an entry to write. */
  predicate Accepts(env: Env, name: seq<Byte>, value: seq<Byte>) {
    |name| <= MAX_KEY && |value| <= MAX_VALUE && (name in Names(env) || [] in Names(env))
  }

  function Set(env: Env, name: seq<Byte>, value: seq<Byte>): (r: Env)
    ensures |r| == |env|
  {
    if !Accepts(env, name, value) then env
    else if name in Names(env) then
      var i := IndexOf(Names(env), name);
      env[i := env[i].(value := value)]
    else
      env[IndexOf(Names(env), []) := Binding(name, value)]
  }

  /** No two used entries share a name. */
  predicate UniqueNames(env: Env) {
    forall i, j | 0 <= i < j < |env| :: env[i].name == env[j].name ==> env[i].name == []
  }

  /** A table is a map: an accepted Set is read back, and every other used name keeps its
      value. */
  lemma GetAfterSet(env: Env, name: seq<Byte>, value: seq<Byte>, other: seq<Byte>)
    requires Accepts(env, name, value) && other != []
    ensures Get(Set(env, name, value), name) == Some(value)
    ensures other != name ==> Get(Set(env, name, value), other) == Get(env, other)
  {
    var names, r := Names(env), Set(env, name, value);
    var k := if name in names then IndexOf(names, name) else IndexOf(names, []);
    assert Names(r) == names[k := name];
    FirstIs(Names(r), name, k);
    if other != name {
      var i := IndexOf(names, other);
      assert IndexOf(Names(r), other) == i by {
        if i < |env| { FirstIs(Names(r), other, i); }
      }
    }
  }

  /** What every command keeps: sixteen entries, unique names, and CWD in entry 0. */
  predicate EnvInv(env: Env) {
    |env| == MAX_ENV_VARS && UniqueNames(env) && env[0].name == CWD
  }

  lemma SetKeepsInv(env: Env, name: seq<Byte>, value: seq<Byte>)
    requires EnvInv(env)
    ensures EnvInv(Set(env, name, value))
    ensures Set(env, name, value)[0].value
         == if name == CWD && |value| <= MAX_VALUE then value else env[0].value
  {
    CwdIsFirst(env);
    if Accepts(env, name, value) {
      var names, r := Names(env), Set(env, name, value);
      var k := if name in names then IndexOf(names, name) else IndexOf(names, []);
      assert forall i | 0 <= i < |env| && i != k :: r[i] == env[i];
      assert name in names ==> forall i | 0 <= i < |env| :: r[i].name == env[i].name;
      assert name !in names ==> forall i | 0 <= i < |env| :: env[i].name == names[i] != name;
    }
  }

  lemma CwdIsFirst(env: Env)
    requires EnvInv(env)
    ensures IndexOf(Names(env), CWD) == 0 && CWD in Names(env)
    ensures Get(env, CWD) == Some(env[0].value)
  {
  }

  /** The table the shell starts with: all free, then CWD set to "/". */
  function Started(): Env {
    Set(seq(MAX_ENV_VARS, _ => Binding([], [])), CWD, [SLASH])
  }

  datatype Assignment = Assignment(name: seq<Byte>, value: seq<Byte>)

  function RunAssignments(env: Env, run: seq<Assignment>): Env {
    if run == [] then env
    else var last := run[|run| - 1];
         Set(RunAssignments(env, run[..|run| - 1]), last.name, last.value)
  }

  /** The value CWD has after a run: the last one of acceptable size, whatever else was set. */
  function LastCwd(run: seq<Assignment>): seq<Byte> {
    if run == [] then [SLASH]
    else var last := run[|run| - 1];
         if last.name == CWD && |last.value| <= MAX_VALUE then last.value else LastCwd(run[..|run| - 1])
  }

  lemma {:induction false} RunKeepsInv(run: seq<Assignment>)
    ensures var env := RunAssignments(Started(), run);
            EnvInv(env) && env[0].value == LastCwd(run) && Get(env, CWD) == Some(LastCwd(run))
  {
    if run == [] {
      var free := seq(MAX_ENV_VARS, _ => Binding([], []));
      assert Names(free)[0] == [];
      FirstIs(Names(free), [], 0);
    } else {
      var n := |run| - 1;
      RunKeepsInv(run[..n]);
      SetKeepsInv(RunAssignments(Started(), run[..n]), run[n].name, run[n].value);
    }
    CwdIsFirst(RunAssignments(Started(), run));
  }

  // The text passed to a child.

  function LineFor(b: Binding): seq<Byte> {
    b.name + [EQUALS] + b.value + [NEWLINE]
  }

  /** NAME=value lines in table order, cut before the first line that would pass the limit. */
  function EnvText(env: Env, used: nat): seq<Byte> {
    if env == [] then []
    else if env[0].name == [] then EnvText(env[1..], used)
    else if used + |LineFor(env[0])| > MAX_ENV_LEN then []
    else LineFor(env[0]) + EnvText(env[1..], used + |LineFor(env[0])|)
  }

  /** The lines of the entries in use. */
  function EnvLines(env: Env): seq<seq<Byte>> {
    if env == [] then []
    else if env[0].name == [] then EnvLines(env[1..])
    else [env[0].name + [EQUALS] + env[0].value + [NEWLINE]] + EnvLines(env[1..])
  }

  /** The text is as many lines from the front as 511 bytes hold. */
  lemma {:induction false} EnvTextMeans(env: Env, used: nat) returns (n: nat)
    requires used <= 511
    ensures n <= |EnvLines(env)| && EnvText(env, used) == Flatten(EnvLines(env)[..n])
    ensures used + |Flatten(EnvLines(env)[..n])| <= 511
    ensures n < |EnvLines(env)| ==> used + |Flatten(EnvLines(env)[..n])| + |EnvLines(env)[n]| > 511
  {
    n := 0;
    if env != [] && env[0].name == [] {
      n := EnvTextMeans(env[1..], used);
    } else if env != [] && used + |LineFor(env[0])| <= 511 {
      var more := EnvTextMeans(env[1..], used + |LineFor(env[0])|);
      n := more + 1;
      assert EnvLines(env)[..n] == [LineFor(env[0])] + EnvLines(env[1..])[..more];
      FlattenCons(LineFor(env[0]), EnvLines(env[1..])[..more]);
    }
  }

  lemma FlattenCons(first: seq<Byte>, rest: seq<seq<Byte>>)
    ensures Flatten([first] + rest) == first + Flatten(rest)
  {
    assert ([first] + rest)[1..] == rest;
  }

  /** What a child gets: the text as a C string. */
  function ChildText(env: Env): seq<Byte> { CString(EnvText(env, 0)) }

  function ValueOfLine(line: seq<Byte>): Option<seq<Byte>> {
    var i := IndexOf(line, EQUALS);
    if i < |line| && line[..i] == CWD then Some(line[i + 1..]) else None
  }

  /** The first line CWD=... of the child's environment, or "/". */
  function CwdOfLines(lines: seq<seq<Byte>>): seq<Byte> {
    if lines == [] then [SLASH]
    else if ValueOfLine(lines[0]).Some? then ValueOfLine(lines[0]).value
    else CwdOfLines(lines[1..])
  }

  method ChildCwd(envStr: seq<Byte>) returns (cwd: seq<Byte>)
    ensures cwd == CwdOfLines(SplitOn(envStr, NEWLINE))
  {
    cwd := [SLASH];
    var lines := SplitOn(envStr, NEWLINE);
    var n := 0;
    while n < |lines|
      invariant n <= |lines| && cwd == [SLASH]
      invariant CwdOfLines(lines) == CwdOfLines(lines[n..])
    {
      var line := lines[n];
      var i := IndexOf(line, EQUALS);
      if i < |line| {
        if line[..i] == CWD {
          cwd := line[i + 1..];
          break;
        }
      }
      n := n + 1;
    }
  }

  lemma CwdOfText(v: seq<Byte>, after: seq<Byte>)
    requires NEWLINE !in v
    ensures CwdOfLines(SplitOn(CWD + [EQUALS] + v + [NEWLINE] + after, NEWLINE)) == v
  {
    var head := CWD + [EQUALS] + v;
    SplitHead(head, NEWLINE, after);
    FirstIs(head, EQUALS, 3);
    assert head[..3] == CWD && head[4..] == v;
  }

  /** The child finds the value of entry 0, however much of the rest of the table was cut
      off and whatever bytes the other entries hold. */
  lemma ChildFindsCwd(env: Env, padding: seq<Byte>)
    requires EnvInv(env) && |env[0].value| <= MAX_VALUE
    requires NEWLINE !in env[0].value && NUL !in env[0].value
    ensures CwdOfLines(SplitOn(CString(EnvText(env, 0) + padding), NEWLINE)) == env[0].value
  {
    var line := LineFor(env[0]);
    var rest := EnvText(env[1..], |line|);
    assert EnvText(env, 0) + padding == line + (rest + padding);
    CStringPrefix(line, rest + padding);
    var text := CString(EnvText(env, 0) + padding);
    assert text == line + text[|line|..];
    CwdOfText(env[0].value, text[|line|..]);
  }

  /** Over every run of the shell the child sees the shell's current CWD. */
  lemma ChildSeesShellCwd(run: seq<Assignment>, padding: seq<Byte>)
    requires forall a | a in run :: NEWLINE !in a.value && NUL !in a.value
    ensures var env := RunAssignments(Started(), run);
            Get(env, CWD) == Some(CwdOfLines(SplitOn(CString(EnvText(env, 0) + padding), NEWLINE)))
  {
    RunKeepsInv(run);
    LastCwdClean(run);
    ChildFindsCwd(RunAssignments(Started(), run), padding);
  }

  lemma {:induction false} LastCwdClean(run: seq<Assignment>)
    requires forall a | a in run :: NEWLINE !in a.value && NUL !in a.value
    ensures NEWLINE !in LastCwd(run) && NUL !in LastCwd(run) && |LastCwd(run)| <= MAX_VALUE
  {
    if run != [] { LastCwdClean(run[..|run| - 1]); }
  }

  // The table itself.

  predicate AllValid(vars: seq<EnvVar>) {
    forall i | 0 <= i < |vars| :: vars[i].Valid()
  }

  function AllBound(vars: seq<EnvVar>): Env
    requires AllValid(vars)
  {
    seq(|vars|, i requires 0 <= i < |vars| => vars[i].Bound())
  }

  lemma LineAssoc(before: seq<Byte>, b: Binding)
    ensures before + b.name + [EQUALS] + b.value + [NEWLINE] == before + LineFor(b)
  {
  }

  class EnvTable {
    const vars: array<EnvVar>

    ghost predicate Valid()
      reads vars
    {
      vars.Length == MAX_ENV_VARS && AllValid(vars[..])
    }

    ghost function Bindings(): Env
      requires Valid()
      reads vars
    {
      AllBound(vars[..])
    }

    constructor ()
      ensures fresh(vars) && Valid()
      ensures Bindings() == seq(MAX_ENV_VARS, _ => Binding([], []))
    {
      var empty := EnvVar(seq(MAX_KEY, _ => NUL), 0, seq(MAX_VALUE, _ => NUL), 0);
      vars := new EnvVar[MAX_ENV_VARS](_ => empty);
    }

    method SetEnv(key: seq<Byte>, val: seq<Byte>) returns (accepted: bool)
      requires Valid()
      modifies vars
      ensures Valid() && Bindings() == Set(old(Bindings()), key, val)
      ensures accepted == Accepts(old(Bindings()), key, val)
    {
      if |key| > MAX_KEY || |val| > MAX_VALUE { return false; }
      ghost var env := Bindings();
      var emptyIdx: Option<nat> := None;
      var i := 0;
      while i < MAX_ENV_VARS
        invariant i <= MAX_ENV_VARS && vars[..] == old(vars[..])
        invariant forall j | 0 <= j < i :: Names(env)[j] != key
        invariant match emptyIdx
                  case None => forall j | 0 <= j < i :: Names(env)[j] != []
                  case Some(k) => k < i && Names(env)[k] == [] && forall j | 0 <= j < k :: Names(env)[j] != []
      {
        assert Names(env)[i] == vars[i].Bound().name;
        if vars[i].keyLen == |key| && vars[i].key[..|key|] == key {
          FirstIs(Names(env), key, i);
          vars[i] := vars[i].(valLen := |val|, val := Overwrite(vars[i].val, val));
          assert Bindings() == env[i := env[i].(value := val)];
          return true;
        }
        if vars[i].keyLen == 0 && emptyIdx == None { emptyIdx := Some(i); }
        i := i + 1;
      }
      if emptyIdx.Some? {
        var k := emptyIdx.value;
        FirstIs(Names(env), [], k);
        vars[k] := EnvVar(Overwrite(vars[k].key, key), |key|, Overwrite(vars[k].val, val), |val|);
        assert Bindings() == env[k := Binding(key, val)];
        return true;
      }
      return false;
    }

    method GetEnv(key: seq<Byte>) returns (r: Option<seq<Byte>>)
      requires Valid()
      ensures r == Get(Bindings(), key)
    {
      ghost var env := Bindings();
      var i := 0;
      while i < MAX_ENV_VARS
        invariant i <= MAX_ENV_VARS
        invariant forall j | 0 <= j < i :: Names(env)[j] != key
      {
        assert Names(env)[i] == vars[i].Bound().name;
        if vars[i].keyLen == |key| && vars[i].key[..|key|] == key {
          FirstIs(Names(env), key, i);
          return Some(vars[i].val[..vars[i].valLen]);
        }
        i := i + 1;
      }
      return None;
    }

    method GetCwd() returns (cwd: seq<Byte>)
      requires Valid()
      ensures cwd == CwdOf(Bindings())
    {
      var v := GetEnv(CWD);
      cwd := if v == None then [SLASH] else v.value;
    }

    /** One NAME=value line, written piece by piece. */
    static method WriteLine(buf: array<Byte>, at: nat, v: EnvVar) returns (offset: nat)
      requires v.Valid() && at + |LineFor(v.Bound())| <= buf.Length
      modifies buf
      ensures offset == at + |LineFor(v.Bound())|
      ensures buf[..offset] == old(buf[..at]) + LineFor(v.Bound())
      ensures forall k | offset <= k < buf.Length :: buf[k] == old(buf[k])
    {
      offset := at;
      ghost var before, bound := buf[..at], v.Bound();
      CopyInto(buf, offset, v.key[..v.keyLen]);
      offset := offset + v.keyLen;
      CopyInto(buf, offset, [EQUALS]);
      offset := offset + 1;
      CopyInto(buf, offset, v.val[..v.valLen]);
      offset := offset + v.valLen;
      assert buf[..offset] == before + bound.name + [EQUALS] + bound.value;
      CopyInto(buf, offset, [NEWLINE]);
      offset := offset + 1;
      LineAssoc(before, bound);
    }

    /** The 512-byte buffer for the child: the text, then NULs, at least one. */
    method BuildEnvStr() returns (buf: array<Byte>, offset: nat)
      requires Valid()
      ensures fresh(buf) && buf.Length == MAX_ENV_LEN + 1 && offset <= MAX_ENV_LEN
      ensures buf[..offset] == EnvText(Bindings(), 0)
      ensures forall k | offset <= k < buf.Length :: buf[k] == NUL
    {
      buf := new Byte[MAX_ENV_LEN + 1](_ => NUL);
      offset := 0;
      ghost var env := Bindings();
      ghost var text: seq<Byte>, rest := [], EnvText(env, 0);
      ghost var all := rest;
      assert env[0..] == env && text + rest == all;
      var i := 0;
      while i < MAX_ENV_VARS
        invariant i <= MAX_ENV_VARS && offset <= MAX_ENV_LEN
        invariant env == Bindings() && buf[..offset] == text && |text| == offset
        invariant rest == EnvText(env[i..], offset) && all == text + rest
        invariant forall k | offset <= k < buf.Length :: buf[k] == NUL
      {
        var v := vars[i];
        assert env[i] == v.Bound();
        TextStep(env, i, text);
        if v.keyLen > 0 {
          var pairLen := v.keyLen + 1 + v.valLen + 1;
          if offset + pairLen > MAX_ENV_LEN { break; }
          offset := WriteLine(buf, offset, v);
          text := text + LineFor(env[i]);
        }
        rest := EnvText(env[i + 1..], offset);
        i := i + 1;
      }
      assert rest == [] && text + rest == text;
    }
  }

  /** Behind the text written so far comes the line of entry i, if it has one that fits. */
  lemma TextStep(env: Env, i: nat, text: seq<Byte>)
    requires i < |env|
    ensures env[i].name == [] ==> EnvText(env[i..], |text|) == EnvText(env[i + 1..], |text|)
    ensures env[i].name != [] && |text| + |LineFor(env[i])| > MAX_ENV_LEN ==> EnvText(env[i..], |text|) == []
    ensures env[i].name != [] && |text| + |LineFor(env[i])| <= MAX_ENV_LEN ==>
              var longer := text + LineFor(env[i]);
              text + EnvText(env[i..], |text|) == longer + EnvText(env[i + 1..], |longer|)
  {
    EnvTextAt(env, i, |text|);
    ConcatAssoc(text, LineFor(env[i]), EnvText(env[i + 1..], |text| + |LineFor(env[i])|));
  }

  lemma EnvTextAt(env: Env, i: nat, used: nat)
    requires i < |env|
    ensures EnvText(env[i..], used)
         == if env[i].name == [] then EnvText(env[i + 1..], used)
            else if used + |LineFor(env[i])| > MAX_ENV_LEN then []
            else LineFor(env[i]) + EnvText(env[i + 1..], used + |LineFor(env[i])|)
  {
  }
}
