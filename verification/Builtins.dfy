/** The builtin commands that change the environment: cd and export. */
module Builtins {
  import opened Bytes
  import opened AsciiText
  import opened ShellEnv

  const MAX_NEW_CWD: nat := 127
  const CD := Str("cd")
  const ENV := Str("env")
  const EXIT := Str("exit")
  const EXPORT := Str("export")

  /** Where a relative cd starts. */
  function CwdBase(env: Env): seq<Byte> {
    match Get(env, CWD)
    case None => [SLASH]
    case Some(cwd) =>
      WithSlash(Take(cwd, MAX_NEW_CWD))
  }

  function WithSlash(dir: seq<Byte>): seq<Byte> {
    if dir != [] && dir[|dir| - 1] != SLASH then dir + [SLASH] else dir
  }

  /** The argument of cd behind the old directory, unless it is absolute, cut to the buffer. */
  function Joined(env: Env, path: seq<Byte>): seq<Byte> {
    if path != [] && path[0] == SLASH then Take(path, MAX_NEW_CWD)
    else CwdBase(env) + Take(path, MAX_NEW_CWD - Min(|CwdBase(env)|, MAX_NEW_CWD))
  }

  function NoTrailingSlash(path: seq<Byte>): seq<Byte> {
    if |path| > 1 && path[|path| - 1] == SLASH then path[..|path| - 1] else path
  }

  function NewCwd(env: Env, args: seq<Byte>): seq<Byte> {
    NoTrailingSlash(Joined(env, if Trim(args) == [] then [SLASH] else Trim(args)))
  }

  /** The assignment a builtin makes, if it makes one. */
  function AssignmentOf(env: Env, cmd: seq<Byte>, args: seq<Byte>): Option<Assignment> {
    if cmd == CD then Some(Assignment(CWD, NewCwd(env, args)))
    else if cmd == EXPORT && EQUALS in args then
      var i := IndexOf(args, EQUALS);
      Some(Assignment(Trim(args[..i]), Trim(args[i + 1..])))
    else None
  }

  function AfterBuiltin(env: Env, cmd: seq<Byte>, args: seq<Byte>): Env {
    match AssignmentOf(env, cmd, args)
    case None => env
    case Some(a) => Set(env, a.name, a.value)
  }

  /** From an absolute directory cd leads to an absolute one. */
  lemma CdStaysAbsolute(env: Env, args: seq<Byte>)
    requires CwdOf(env) != [] && CwdOf(env)[0] == SLASH
    ensures NewCwd(env, args) != [] && NewCwd(env, args)[0] == SLASH
  {
  }

  /** cd over its 128-byte buffer. */
  method SetCwd(env: EnvTable, args: seq<Byte>)
    requires env.Valid()
    modifies env.vars
    ensures env.Valid() && env.Bindings() == Set(old(env.Bindings()), CWD, NewCwd(old(env.Bindings()), args))
  {
    var path := Trim(args);
    if path == [] { path := [SLASH]; }
    var newCwd := new Byte[MAX_NEW_CWD + 1](_ => NUL);
    var len := JoinInto(env, path, newCwd);
    if len > 1 && newCwd[len - 1] == SLASH { len := len - 1; }
    assert newCwd[..len] == NoTrailingSlash(Joined(env.Bindings(), path));
    var _ := env.SetEnv(CWD, newCwd[..len]);
  }

  method JoinInto(env: EnvTable, path: seq<Byte>, newCwd: array<Byte>) returns (len: nat)
    requires env.Valid() && newCwd.Length == MAX_NEW_CWD + 1 && path != []
    modifies newCwd
    ensures env.Valid() && len <= newCwd.Length && newCwd[..len] == Joined(env.Bindings(), path)
  {
    if path[0] == SLASH {
      len := Min(|path|, MAX_NEW_CWD);
      CopyInto(newCwd, 0, path[..len]);
      assert newCwd[..len] == newCwd[..0] + path[..len];
    } else {
      len := BaseInto(env, newCwd);
      ghost var base := newCwd[..len];
      var len2 := Min(|path|, newCwd.Length - len - 1);
      assert path[..len2] == Take(path, MAX_NEW_CWD - Min(|base|, MAX_NEW_CWD));
      CopyInto(newCwd, len, path[..len2]);
      len := len + len2;
      assert newCwd[..len] == base + path[..len2];
    }
  }

  method BaseInto(env: EnvTable, newCwd: array<Byte>) returns (len: nat)
    requires env.Valid() && newCwd.Length == MAX_NEW_CWD + 1
    modifies newCwd
    ensures env.Valid() && len <= MAX_VALUE + 1 && newCwd[..len] == CwdBase(env.Bindings())
  {
    var cwd := env.GetEnv(CWD);
    ValuesFit(env, CWD);
    if cwd == None {
      newCwd[0] := SLASH;
      return 1;
    }
    len := Min(|cwd.value|, MAX_NEW_CWD);
    CopyInto(newCwd, 0, cwd.value[..len]);
    assert newCwd[..len] == newCwd[..0] + cwd.value[..len] == Take(cwd.value, MAX_NEW_CWD);
    len := CloseDirectory(newCwd, len);
  }

  method CloseDirectory(newCwd: array<Byte>, at: nat) returns (len: nat)
    requires at < newCwd.Length
    modifies newCwd
    ensures at <= len <= at + 1 && len <= newCwd.Length && newCwd[..len] == WithSlash(old(newCwd[..at]))
  {
    len := at;
    if len > 0 && newCwd[len - 1] != SLASH {
      CopyInto(newCwd, len, [SLASH]);
      len := len + 1;
    }
  }

  lemma ValuesFit(env: EnvTable, name: seq<Byte>)
    requires env.Valid()
    ensures Get(env.Bindings(), name).Some? ==> |Get(env.Bindings(), name).value| <= MAX_VALUE
  {
    var i := IndexOf(Names(env.Bindings()), name);
    if i < |env.Bindings()| { assert env.Bindings()[i] == env.vars[i].Bound(); }
  }

  method RunBuiltin(env: EnvTable, cmd: seq<Byte>, args: seq<Byte>)
    requires env.Valid()
    modifies env.vars
    ensures env.Valid() && env.Bindings() == AfterBuiltin(old(env.Bindings()), cmd, args)
  {
    if cmd == CD {
      SetCwd(env, args);
    } else if cmd == EXPORT {
      var i := IndexOf(args, EQUALS);
      if i < |args| {
        var _ := env.SetEnv(Trim(args[..i]), Trim(args[i + 1..]));
      }
    }
  }

  // Values that can be handed to a child.

  /** No byte ends a line or a C string. */
  predicate Clean(s: seq<Byte>) { NEWLINE !in s && NUL !in s }

  predicate CleanEnv(env: Env) {
    forall i | 0 <= i < |env| :: Clean(env[i].value) && |env[i].value| <= MAX_VALUE
  }

  lemma {:induction false} TrimEndClean(s: seq<Byte>)
    requires Clean(s)
    ensures Clean(TrimEnd(s))
  {
    if s != [] && IsSpace(s[|s| - 1]) { TrimEndClean(s[..|s| - 1]); }
  }

  lemma {:induction false} TrimStartClean(s: seq<Byte>)
    requires Clean(s)
    ensures Clean(TrimStart(s))
  {
    if s != [] && IsSpace(s[0]) { TrimStartClean(s[1..]); }
  }

  lemma TrimClean(s: seq<Byte>)
    requires Clean(s)
    ensures Clean(Trim(s))
  {
    TrimStartClean(s);
    TrimEndClean(TrimStart(s));
  }

  lemma GetClean(env: Env, name: seq<Byte>)
    requires CleanEnv(env)
    ensures Get(env, name).Some? ==> Clean(Get(env, name).value) && |Get(env, name).value| <= MAX_VALUE
  {
  }

  lemma SetClean(env: Env, name: seq<Byte>, value: seq<Byte>)
    requires CleanEnv(env) && Clean(value)
    ensures CleanEnv(Set(env, name, value))
  {
  }

  lemma NewCwdClean(env: Env, args: seq<Byte>)
    requires CleanEnv(env) && Clean(args)
    ensures Clean(NewCwd(env, args))
  {
    TrimClean(args);
    GetClean(env, CWD);
    assert Clean(CwdBase(env));
    assert Clean(Joined(env, if Trim(args) == [] then [SLASH] else Trim(args)));
  }

  /** Clean arguments leave a clean environment. */
  lemma BuiltinKeepsClean(env: Env, cmd: seq<Byte>, args: seq<Byte>)
    requires CleanEnv(env) && Clean(args)
    ensures CleanEnv(AfterBuiltin(env, cmd, args))
  {
    if cmd == CD {
      NewCwdClean(env, args);
      SetClean(env, CWD, NewCwd(env, args));
    } else if cmd == EXPORT && EQUALS in args {
      var i := IndexOf(args, EQUALS);
      TrimClean(args[i + 1..]);
      SetClean(env, Trim(args[..i]), Trim(args[i + 1..]));
    }
  }
}
