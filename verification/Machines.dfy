/** Which program an exec call starts: cat, and tee and sed on redirected input, are modelled
    byte by byte, every other run is a given list of writes. */
module Machines {
  import opened Bytes
  import opened RamFiles
  import opened StreamIo
  import opened StreamPrograms
  import opened Pipeline
  import opened Filters
  import AsciiText
  import ExecIsolation
  import Sed
  import ShellEnv

  datatype OtherRun = OtherRun(effects: seq<Effect>, status: nat)

  /** One exec call: path, arguments, environment text and redirected input. */
  datatype Call = Call(path: seq<Byte>, args: seq<Byte>, env: seq<Byte>, stdin: Option<seq<Byte>>)

  /** The built-in files, which paths the process table and the loader accept, and what the
      runs do that are not modelled. */
  datatype Machine = Machine(statics: seq<FileEntry>, launches: seq<Byte> -> bool, others: (Call, Ram) -> OtherRun)

  /** The program behind a call, as far as it is modelled: cat with a file, and cat, tee and
      sed on redirected input. */
  function AppFor(call: Call): (app: Option<App>)
    ensures app.Some? && app.value.NeedsInput() ==> call.stdin.Some?
  {
    if call.path == BIN_PREFIX + CAT && AsciiText.Trim(call.args) != [] then
      Some(CatFileApp(call.env, AsciiText.Trim(call.args)))
    else if call.stdin.None? then None
    else if call.path == BIN_PREFIX + CAT then Some(CatApp)
    else if call.path == BIN_PREFIX + TEE then Some(TeeApp(call.args))
    else if call.path == BIN_PREFIX + SED && |AsciiText.Fields(call.args)| == 1 then
      match Sed.ParseScript(AsciiText.Fields(call.args)[0])
      case None => None
      case Some(script) => Some(SedApp(script))
    else None
  }

  function LaunchOf(m: Machine, call: Call, ram: Ram): (r: Launch)
    ensures r.Launched? && r.app.NeedsInput() ==> call.stdin.Some?
  {
    if !m.launches(call.path) then Refused
    else if AppFor(call).Some? then Launched(AppFor(call).value, 0)
    else var run := m.others(call, ram); Launched(OtherApp(run.effects), run.status)
  }

  function Program(m: Machine, call: Call, ram: Ram): ExecResult {
    LaunchResult(LaunchOf(m, call, ram), m.statics, call.stdin, ram)
  }

  /** The world of a shell with this environment. */
  function WorldOf(m: Machine, env: ShellEnv.Env): World {
    World(m.statics, ShellEnv.CwdOf(env),
          (path, args, stdin, ram) => Program(m, Call(path, args, ShellEnv.ChildText(env), stdin), ram))
  }

  lemma NamesDiffer()
    ensures BIN_PREFIX + CAT != BIN_PREFIX + TEE
    ensures BIN_PREFIX + CAT != BIN_PREFIX + SED
    ensures BIN_PREFIX + TEE != BIN_PREFIX + SED
  {
    assert (BIN_PREFIX + CAT)[5] == 99 && (BIN_PREFIX + TEE)[5] == 116 && (BIN_PREFIX + SED)[5] == 115;
  }

  lemma CatRuns(m: Machine, env: seq<Byte>, d: seq<Byte>, ram: Ram)
    requires m.launches(BIN_PREFIX + CAT) && |d| <= MAX_IO
    ensures Program(m, Call(BIN_PREFIX + CAT, [], env, Some(d)), ram) == ExecResult(0, CatRun(d, ram))
  {
  }

  lemma TeeRuns(m: Machine, args: seq<Byte>, env: seq<Byte>, d: seq<Byte>, ram: Ram)
    requires m.launches(BIN_PREFIX + TEE) && |d| <= MAX_IO
    ensures Program(m, Call(BIN_PREFIX + TEE, args, env, Some(d)), ram) == ExecResult(0, TeeRun(args, d, ram))
    ensures TeeRun([], d, ram) == CatRun(d, ram)
  {
    NamesDiffer();
    BareTeeIsCat([], d, ram);
  }

  predicate IsScript(args: seq<Byte>) {
    |AsciiText.Fields(args)| == 1 && Sed.ParseScript(AsciiText.Fields(args)[0]).Some?
  }

  lemma SedRuns(m: Machine, args: seq<Byte>, env: seq<Byte>, d: seq<Byte>, ram: Ram)
    requires m.launches(BIN_PREFIX + SED) && |d| <= MAX_IO && IsScript(args)
    ensures Program(m, Call(BIN_PREFIX + SED, args, env, Some(d)), ram)
         == ExecResult(0, SedRun(Sed.ParseScript(AsciiText.Fields(args)[0]).value, d, ram))
  {
    NamesDiffer();
  }

  /** On every machine that launches them cat and tee are filters, and tee and sed do what
      the pipeline theorems ask of them. */
  lemma MachineHasFilters(m: Machine, env: ShellEnv.Env)
    ensures m.launches(BIN_PREFIX + CAT) ==> IsFilter(WorldOf(m, env), CAT)
    ensures m.launches(BIN_PREFIX + TEE) ==> HasTee(WorldOf(m, env)) && IsFilter(WorldOf(m, env), TEE)
    ensures m.launches(BIN_PREFIX + SED) ==> HasSed(WorldOf(m, env))
  {
    ProgramsArePlain();
    var text := ShellEnv.ChildText(env);
    if m.launches(BIN_PREFIX + CAT) {
      forall d, ram | |d| <= MAX_IO
        ensures Program(m, Call(BIN_PREFIX + CAT, [], text, Some(d)), ram) == ExecResult(0, CatRun(d, ram))
      {
        CatRuns(m, text, d, ram);
      }
    }
    if m.launches(BIN_PREFIX + TEE) {
      forall args, d, ram | |d| <= MAX_IO
        ensures Program(m, Call(BIN_PREFIX + TEE, args, text, Some(d)), ram) == ExecResult(0, TeeRun(args, d, ram))
        ensures TeeRun([], d, ram) == CatRun(d, ram)
      {
        TeeRuns(m, args, text, d, ram);
      }
    }
    if m.launches(BIN_PREFIX + SED) {
      forall args, d, ram | |d| <= MAX_IO && IsScript(args)
        ensures Program(m, Call(BIN_PREFIX + SED, args, text, Some(d)), ram)
             == ExecResult(0, SedRun(Sed.ParseScript(AsciiText.Fields(args)[0]).value, d, ram))
      {
        SedRuns(m, args, text, d, ram);
      }
    }
  }

  lemma MachineKeepsGood(m: Machine, env: ShellEnv.Env)
    ensures KeepsGood(WorldOf(m, env))
  {
    forall path, args, stdin, ram | GoodRam(ram)
      ensures GoodRam(WorldOf(m, env).program(path, args, stdin, ram).result.ram)
    {
      var call := Call(path, args, ShellEnv.ChildText(env), stdin);
      LaunchKeepsGood(LaunchOf(m, call, ram), m.statics, stdin, ram);
    }
  }

  /** The machine of an installation: its process table and loader decide what launches. */
  function Installed(files: ExecIsolation.Files, others: (Call, Ram) -> OtherRun): Machine {
    Machine(files, path => ExecIsolation.Launches(files, path), others)
  }

  /** An exec call of the shell runs a program of that machine exactly when the kernel enters
      it: the process is on top of the stack then, and otherwise nothing is left behind. */
  lemma InstalledLaunches(files: ExecIsolation.Files, others: (Call, Ram) -> OtherRun, call: Call, ram: Ram,
                          k: ExecIsolation.Kernel, shell: nat)
    requires ExecIsolation.Inv(k) && k.table.nextPid < U64_MAX && k.stack == [ExecIsolation.Frame(shell, 0)]
    requires |call.args| <= ExecIsolation.MAX_ARG_LEN && |call.env| <= ExecIsolation.MAX_ENV_LEN
    ensures LaunchOf(Installed(files, others), call, ram).Launched?
        <==> |ExecIsolation.Exec(files, k, call.path, |call.args|, |call.env|).stack| == 2
    ensures LaunchOf(Installed(files, others), call, ram) == Refused
        ==> ExecIsolation.Exec(files, k, call.path, |call.args|, |call.env|).stack == k.stack
  {
    ExecIsolation.ShellLaunches(files, k, shell, call.path, |call.args|, |call.env|);
  }
}
