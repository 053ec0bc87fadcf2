/** Nested program execution: a stack of running processes, each in its own load slot. Over
    every run a load touches no byte of a process that is still running. */
module ExecIsolation {
  import opened Bytes
  import opened ProcessTable
  import opened ElfLoader
  import ElfFormat
  import RamFiles

  const SLOT_SIZE: nat := 0x10_0000
  const WINDOW_SIZE: nat := 7 * SLOT_SIZE
  const MAX_ARG_LEN: nat := 191
  const MAX_ENV_LEN: nat := 511

  function SlotFor(i: nat): AppSlot {
    AppSlot(WINDOW_BASE + i * SLOT_SIZE, WINDOW_BASE + i * SLOT_SIZE + SLOT_SIZE)
  }

  function SlotForPath(path: seq<Byte>): (r: Option<nat>)
    ensures r.Some? ==> r.value < MAX_PROCESS_SLOTS
  {
    if path == Str("/bin/init") then Some(0)
    else if path == Str("/bin/echo") then Some(1)
    else if path == Str("/bin/env") then Some(2)
    else if path == Str("/bin/ls") then Some(3)
    else if path == Str("/bin/cat") then Some(4)
    else if path == Str("/bin/tee") then Some(5)
    else if path == Str("/bin/sed") then Some(6)
    else None
  }

  const PROGRAMS: seq<seq<Byte>> := [Str("/bin/init"), Str("/bin/echo"), Str("/bin/env"), Str("/bin/ls"),
                                     Str("/bin/cat"), Str("/bin/tee"), Str("/bin/sed")]

  lemma ProgramsDiffer(i: nat, j: nat)
    requires i < j < MAX_PROCESS_SLOTS
    ensures PROGRAMS[i] != PROGRAMS[j]
  {
    assert |PROGRAMS[0]| == |PROGRAMS[1]| == 9 && |PROGRAMS[3]| == 7;
    assert |PROGRAMS[2]| == |PROGRAMS[4]| == |PROGRAMS[5]| == |PROGRAMS[6]| == 8;
    assert PROGRAMS[0][5] == 105 && PROGRAMS[1][5] == 101 && PROGRAMS[2][5] == 101;
    assert PROGRAMS[4][5] == 99 && PROGRAMS[5][5] == 116 && PROGRAMS[6][5] == 115;
    assert i == 0 || i == 1 || i == 2 || i == 3 || i == 4 || i == 5;
    assert j == 1 || j == 2 || j == 3 || j == 4 || j == 5 || j == 6;
  }

  /** Every slot belongs to exactly one program, and other paths have none. */
  lemma SlotsBelongToPrograms(path: seq<Byte>, i: nat)
    ensures SlotForPath(path) == Some(i) <==> i < MAX_PROCESS_SLOTS && path == PROGRAMS[i]
  {
    forall j, k | 0 <= j < k < MAX_PROCESS_SLOTS ensures PROGRAMS[j] != PROGRAMS[k] { ProgramsDiffer(j, k); }
    assert PROGRAMS[0] == Str("/bin/init") && PROGRAMS[1] == Str("/bin/echo") && PROGRAMS[2] == Str("/bin/env");
    assert PROGRAMS[3] == Str("/bin/ls") && PROGRAMS[4] == Str("/bin/cat") && PROGRAMS[5] == Str("/bin/tee");
    assert PROGRAMS[6] == Str("/bin/sed");
    assert i < MAX_PROCESS_SLOTS ==> i == 0 || i == 1 || i == 2 || i == 3 || i == 4 || i == 5 || i == 6;
  }

  /** The part of the window that slot i occupies. */
  function Image(mem: seq<Byte>, i: nat): seq<Byte>
    requires |mem| == WINDOW_SIZE && i < MAX_PROCESS_SLOTS
  {
    mem[i * SLOT_SIZE..i * SLOT_SIZE + SLOT_SIZE]
  }

  lemma SlotInWindow(i: nat)
    requires i < MAX_PROCESS_SLOTS
    ensures InWindow(SlotFor(i), WINDOW_SIZE) && SlotFor(i).end <= U64_MAX
  {
  }

  /** The window after a validated image was loaded into slot i. */
  function LoadInto(mem: seq<Byte>, bytes: seq<Byte>, i: nat): (r: seq<Byte>)
    requires i < MAX_PROCESS_SLOTS && |bytes| <= U64_MAX && Validate(bytes, SlotFor(i)).Ok?
    ensures |r| == |mem|
  {
    SlotInWindow(i);
    var hdr := Validate(bytes, SlotFor(i)).value;
    ValidateMeans(bytes, SlotFor(i), hdr);
    Loaded(mem, bytes, hdr, SlotFor(i), hdr.phnum)
  }

  /** A load leaves every other slot as it was. */
  lemma LoadTouchesOneSlot(mem: seq<Byte>, bytes: seq<Byte>, i: nat, other: nat)
    requires |mem| == WINDOW_SIZE && i < MAX_PROCESS_SLOTS && other < MAX_PROCESS_SLOTS && i != other
    requires |bytes| <= U64_MAX && Validate(bytes, SlotFor(i)).Ok?
    ensures Image(LoadInto(mem, bytes, i), other) == Image(mem, other)
  {
    var r := LoadInto(mem, bytes, i);
    assert forall k | other * SLOT_SIZE <= k < other * SLOT_SIZE + SLOT_SIZE :: r[k] == mem[k];
  }

  // Runs.

  datatype Frame = Frame(pid: nat, slot: nat)

  /** The kernel's table, the memory window, and the processes that run, outermost first. */
  datatype Kernel = Kernel(table: Table, mem: seq<Byte>, stack: seq<Frame>)

  datatype Event =
    | Enter(path: seq<Byte>, argsLen: nat, envLen: nat)
    | Leave
    | Store(at: nat, value: Byte)

  type Files = f: seq<RamFiles.FileEntry> | forall k | 0 <= k < |f| :: |f[k].data| <= U64_MAX

  /** An exec call up to the jump into the program, or up to its failure. */
  function Exec(files: Files, k: Kernel, path: seq<Byte>, argsLen: nat, envLen: nat): Kernel
    requires k.table.Sized()
  {
    var file := RamFiles.StaticRead(files, path);
    var slot := SlotForPath(path);
    if file.None? || slot.None? || !CanSpawn(k.table, slot.value) then k
    else
      var spawned, pid := Spawn(k.table, slot.value), k.table.nextPid;
      match Validate(file.value, SlotFor(slot.value))
      case Err(_) => k.(table := Finish(spawned, pid))
      case Ok(hdr) =>
        var mem := LoadInto(k.mem, file.value, slot.value);
        if hdr.entry == 0 || argsLen > MAX_ARG_LEN || envLen > MAX_ENV_LEN
        then k.(table := Finish(spawned, pid), mem := mem)
        else Kernel(spawned, mem, k.stack + [Frame(pid, slot.value)])
  }

  /** One event. Only the innermost process computes, and it stores into its own slot. */
  function Step(files: Files, k: Kernel, e: Event): (r: Kernel)
    requires k.table.Sized()
    ensures r.table.Sized() && |r.mem| == |k.mem|
  {
    match e
    case Enter(path, argsLen, envLen) => Exec(files, k, path, argsLen, envLen)
    case Leave =>
      if k.stack == [] then k
      else k.(table := Finish(k.table, k.stack[|k.stack| - 1].pid), stack := k.stack[..|k.stack| - 1])
    case Store(at, value) =>
      if k.stack != [] && at < |k.mem| && InSlot(SlotFor(k.stack[|k.stack| - 1].slot), at)
      then k.(mem := k.mem[at := value]) else k
  }

  function Run(files: Files, k: Kernel, events: seq<Event>): (r: Kernel)
    requires k.table.Sized()
    ensures r.table.Sized() && |r.mem| == |k.mem|
  {
    if events == [] then k
    else Step(files, Run(files, k, events[..|events| - 1]), events[|events| - 1])
  }

  // The invariant: the table is determined by the stack.

  predicate Uses(stack: seq<Frame>, slot: nat) {
    exists i | 0 <= i < |stack| :: stack[i].slot == slot
  }

  function TableOf(nextPid: nat, stack: seq<Frame>): Table {
    Table(nextPid, seq(MAX_PROCESS_SLOTS, s requires 0 <= s => Uses(stack, s)),
          seq(MAX_PROCESSES, i requires 0 <= i =>
            if i < |stack| then Record(stack[i].pid, stack[i].slot, true, 0) else EMPTY))
  }

  ghost predicate GoodStack(stack: seq<Frame>, nextPid: nat) {
    && |stack| <= MAX_PROCESSES
    && (forall i | 0 <= i < |stack| :: stack[i].slot < MAX_PROCESS_SLOTS && stack[i].pid < nextPid)
    && (forall i, j | 0 <= i < j < |stack| :: stack[i].slot != stack[j].slot && stack[i].pid != stack[j].pid)
  }

  ghost predicate Inv(k: Kernel) {
    && k.table.Sized() && |k.mem| == WINDOW_SIZE
    && GoodStack(k.stack, k.table.nextPid)
    && k.table == TableOf(k.table.nextPid, k.stack)
  }

  lemma FirstEmptyOfStack(nextPid: nat, stack: seq<Frame>)
    requires |stack| <= MAX_PROCESSES
    ensures FirstEmpty(TableOf(nextPid, stack).records) == |stack|
  {
    var records := TableOf(nextPid, stack).records;
    var i := FirstEmpty(records);
    assert forall j | 0 <= j < |stack| :: records[j].running;
    assert |stack| < MAX_PROCESSES ==> !records[|stack|].running;
    assert !(i < |stack|) && !(|stack| < i);
  }

  lemma SpawnPushes(nextPid: nat, stack: seq<Frame>, slot: nat)
    requires GoodStack(stack, nextPid) && nextPid < U64_MAX && CanSpawn(TableOf(nextPid, stack), slot)
    ensures Spawn(TableOf(nextPid, stack), slot) == TableOf(nextPid + 1, stack + [Frame(nextPid, slot)])
    ensures GoodStack(stack + [Frame(nextPid, slot)], nextPid + 1)
  {
    FirstEmptyOfStack(nextPid, stack);
    var t, pushed := TableOf(nextPid, stack), stack + [Frame(nextPid, slot)];
    var a, b := Spawn(t, slot), TableOf(nextPid + 1, pushed);
    assert !Uses(stack, slot);
    forall s | 0 <= s < MAX_PROCESS_SLOTS
      ensures a.slotsInUse[s] == b.slotsInUse[s]
    {
      assert pushed[|stack|].slot == slot;
      if Uses(stack, s) {
        var i :| 0 <= i < |stack| && stack[i].slot == s;
        assert pushed[i].slot == s;
      }
    }
    assert a.slotsInUse == b.slotsInUse && a.records == b.records;
  }

  lemma FinishPops(nextPid: nat, stack: seq<Frame>)
    requires GoodStack(stack, nextPid) && stack != [] && nextPid <= U64_MAX
    ensures Finish(TableOf(nextPid, stack), stack[|stack| - 1].pid) == TableOf(nextPid, stack[..|stack| - 1])
    ensures GoodStack(stack[..|stack| - 1], nextPid)
  {
    var n := |stack| - 1;
    var t, popped := TableOf(nextPid, stack), stack[..n];
    var a, b := Finish(t, stack[n].pid), TableOf(nextPid, popped);
    var i := FindPid(t.records, stack[n].pid);
    assert t.records[n] == Record(stack[n].pid, stack[n].slot, true, 0);
    assert i == n;
    forall s | 0 <= s < MAX_PROCESS_SLOTS
      ensures a.slotsInUse[s] == b.slotsInUse[s]
    {
      if Uses(stack, s) && s != stack[n].slot {
        var j :| 0 <= j < |stack| && stack[j].slot == s;
        assert popped[j].slot == s;
      }
    }
    assert a.slotsInUse == b.slotsInUse && a.records == b.records;
  }

  /** A spawn that is taken back at once leaves only the pid counter changed. */
  lemma SpawnFinish(nextPid: nat, stack: seq<Frame>, slot: nat)
    requires GoodStack(stack, nextPid) && nextPid < U64_MAX && CanSpawn(TableOf(nextPid, stack), slot)
    ensures Finish(Spawn(TableOf(nextPid, stack), slot), nextPid) == TableOf(nextPid + 1, stack)
  {
    SpawnPushes(nextPid, stack, slot);
    var pushed := stack + [Frame(nextPid, slot)];
    FinishPops(nextPid + 1, pushed);
    assert pushed[..|stack|] == stack;
  }

  lemma ExecKeepsInv(files: Files, k: Kernel, path: seq<Byte>, argsLen: nat, envLen: nat)
    requires Inv(k) && k.table.nextPid < U64_MAX
    ensures Inv(Exec(files, k, path, argsLen, envLen))
  {
    var file, slot := RamFiles.StaticRead(files, path), SlotForPath(path);
    if file.Some? && slot.Some? && CanSpawn(k.table, slot.value) {
      if |Exec(files, k, path, argsLen, envLen).stack| > |k.stack| {
        SpawnPushes(k.table.nextPid, k.stack, slot.value);
      } else {
        SpawnFinish(k.table.nextPid, k.stack, slot.value);
        GoodLonger(k.stack, k.table.nextPid);
      }
    }
  }

  lemma GoodLonger(stack: seq<Frame>, nextPid: nat)
    requires GoodStack(stack, nextPid)
    ensures GoodStack(stack, nextPid + 1)
  {
  }

  lemma StepKeepsInv(files: Files, k: Kernel, e: Event)
    requires Inv(k) && k.table.nextPid < U64_MAX
    ensures Inv(Step(files, k, e))
  {
    match e {
      case Enter(path, argsLen, envLen) => ExecKeepsInv(files, k, path, argsLen, envLen);
      case Leave =>
        if k.stack != [] { FinishPops(k.table.nextPid, k.stack); }
      case Store(at, value) =>
    }
  }

  lemma PidsOnlyGrow(files: Files, k: Kernel, e: Event)
    requires k.table.Sized()
    ensures k.table.nextPid <= Step(files, k, e).table.nextPid
  {
  }

  /** Holds in every state a run can reach while the pid counter is not at its end, however
      long the run is. */
  lemma {:induction false} RunKeepsInv(files: Files, k: Kernel, events: seq<Event>)
    requires Inv(k) && Run(files, k, events).table.nextPid < U64_MAX
    ensures Inv(Run(files, k, events))
  {
    if events != [] {
      var n := |events| - 1;
      PidsOnlyGrow(files, Run(files, k, events[..n]), events[n]);
      RunKeepsInv(files, k, events[..n]);
      StepKeepsInv(files, Run(files, k, events[..n]), events[n]);
    }
  }

  // Results over whole runs.

  function Booted(mem: seq<Byte>): Kernel { Kernel(ProcessTable.Started(), mem, []) }

  function SlotsOf(stack: seq<Frame>): set<nat> {
    if stack == [] then {} else SlotsOf(stack[..|stack| - 1]) + {stack[|stack| - 1].slot}
  }

  lemma {:induction false} SlotsOfMeans(stack: seq<Frame>, nextPid: nat)
    requires GoodStack(stack, nextPid)
    ensures |SlotsOf(stack)| == |stack|
    ensures forall s | s in SlotsOf(stack) :: Uses(stack, s) && s < MAX_PROCESS_SLOTS
  {
    if stack != [] {
      var n := |stack| - 1;
      SlotsOfMeans(stack[..n], nextPid);
      forall s | s in SlotsOf(stack)
        ensures Uses(stack, s) && s < MAX_PROCESS_SLOTS
      {
        if s in SlotsOf(stack[..n]) {
          var i :| 0 <= i < n && stack[..n][i].slot == s;
          assert stack[i].slot == s;
        } else {
          assert stack[n].slot == s;
        }
      }
    }
  }

  /** In every state of every run the processes that run hold pairwise distinct slots, those
      are exactly the slots in use, and no more than seven processes are nested. */
  lemma SlotsAreExclusive(files: Files, mem: seq<Byte>, events: seq<Event>)
    requires |mem| == WINDOW_SIZE && Run(files, Booted(mem), events).table.nextPid < U64_MAX
    ensures var k := Run(files, Booted(mem), events);
            && (forall i, j | 0 <= i < j < |k.stack| :: k.stack[i].slot != k.stack[j].slot)
            && (forall s | 0 <= s < MAX_PROCESS_SLOTS :: k.table.slotsInUse[s] <==> Uses(k.stack, s))
            && |k.stack| <= MAX_PROCESS_SLOTS
  {
    var k := Run(files, Booted(mem), events);
    assert Booted(mem).table.slotsInUse == TableOf(1, []).slotsInUse;
    assert Booted(mem).table.records == TableOf(1, []).records;
    RunKeepsInv(files, Booted(mem), events);
    SlotsOfMeans(k.stack, k.table.nextPid);
    BoundedSet(SlotsOf(k.stack), MAX_PROCESS_SLOTS);
  }

  /** An exec call that fails before loading, an image that is not valid for its slot
      included, changes no byte of memory, no slot and no record. */
  lemma RejectedExecChangesNothing(files: Files, k: Kernel, path: seq<Byte>, argsLen: nat, envLen: nat)
    requires Inv(k) && k.table.nextPid < U64_MAX
    requires var file, slot := RamFiles.StaticRead(files, path), SlotForPath(path);
             file.Some? && slot.Some? && CanSpawn(k.table, slot.value) ==>
               Validate(file.value, SlotFor(slot.value)).Err?
    ensures var r := Exec(files, k, path, argsLen, envLen);
            r.mem == k.mem && r.stack == k.stack && Restored(k.table, r.table)
  {
    var slot := SlotForPath(path);
    if RamFiles.StaticRead(files, path).Some? && slot.Some? && CanSpawn(k.table, slot.value) {
      SpawnFinish(k.table.nextPid, k.stack, slot.value);
    }
  }

  /** The byte at i after a load into the slot, with header n - 1 the last one whose segment
      holds its address. */
  function ByteAfter(mem: seq<Byte>, bytes: seq<Byte>, slot: nat, ps: seq<ElfFormat.SegmentHeader>,
                     n: nat, i: nat): Byte
    requires i < |mem| && n <= |ps|
    requires n > 0 ==> var p := ps[n - 1]; p.vaddr <= WINDOW_BASE + i && p.offset + p.filesz <= |bytes|
  {
    if !(slot * SLOT_SIZE <= i < slot * SLOT_SIZE + SLOT_SIZE) then mem[i]
    else if n == 0 then NUL
    else ElfFormat.SegmentByte(bytes, ps[n - 1], WINDOW_BASE + i)
  }

  /** What an exec call leaves in memory when its slot is free and its file may be loaded
      there, whether the program is entered or the call fails behind the load: each byte of
      the slot is the one of the last segment that holds its address, from the file or zero,
      and zero where none does; no other byte is touched. */
  lemma ExecLoads(files: Files, k: Kernel, path: seq<Byte>, argsLen: nat, envLen: nat, slot: nat, bytes: seq<Byte>,
                  h: ElfFormat.FileHeader, ps: seq<ElfFormat.SegmentHeader>, n: nat, i: nat)
    requires k.table.Sized() && |k.mem| == WINDOW_SIZE && i < WINDOW_SIZE
    requires SlotForPath(path) == Some(slot) && CanSpawn(k.table, slot)
    requires RamFiles.StaticRead(files, path) == Some(bytes) && |bytes| <= U64_MAX
    requires ElfFormat.Loadable(bytes, SlotFor(slot), h, ps)
    requires ElfFormat.LastHolding(ps, n, WINDOW_BASE + i)
    ensures n > 0 ==> var p := ps[n - 1]; p.vaddr <= WINDOW_BASE + i && p.offset + p.filesz <= |bytes|
    ensures Exec(files, k, path, argsLen, envLen).mem[i] == ByteAfter(k.mem, bytes, slot, ps, n, i)
  {
    SlotInWindow(slot);
    ElfFormat.LoadableIsAccepted(bytes, SlotFor(slot), h, ps);
    ExecLoadsFile(files, k, path, argsLen, envLen);
    LoadedIntoByte(k.mem, bytes, slot, h, ps, n, i);
  }

  lemma LoadedIntoByte(mem: seq<Byte>, bytes: seq<Byte>, slot: nat, h: ElfFormat.FileHeader,
                       ps: seq<ElfFormat.SegmentHeader>, n: nat, i: nat)
    requires i < |mem| && slot < MAX_PROCESS_SLOTS && |bytes| <= U64_MAX && Validate(bytes, SlotFor(slot)).Ok?
    requires ElfFormat.Loadable(bytes, SlotFor(slot), h, ps)
    requires ElfFormat.LastHolding(ps, n, WINDOW_BASE + i)
    ensures n > 0 ==> var p := ps[n - 1]; p.vaddr <= WINDOW_BASE + i && p.offset + p.filesz <= |bytes|
    ensures LoadInto(mem, bytes, slot)[i] == ByteAfter(mem, bytes, slot, ps, n, i)
  {
    SlotInWindow(slot);
    ElfFormat.LoadableIsAccepted(bytes, SlotFor(slot), h, ps);
    ElfFormat.LoadedByte(bytes, SlotFor(slot), h, ps, n, WINDOW_BASE + i);
    LoadIntoAt(mem, bytes, slot, i);
  }


  lemma ExecLoadsFile(files: Files, k: Kernel, path: seq<Byte>, argsLen: nat, envLen: nat)
    requires k.table.Sized()
    requires var file, slot := RamFiles.StaticRead(files, path), SlotForPath(path);
             && file.Some? && slot.Some? && CanSpawn(k.table, slot.value) && |file.value| <= U64_MAX
             && Validate(file.value, SlotFor(slot.value)).Ok?
    ensures Exec(files, k, path, argsLen, envLen).mem
         == LoadInto(k.mem, RamFiles.StaticRead(files, path).value, SlotForPath(path).value)
  {
  }

  lemma LoadIntoAt(mem: seq<Byte>, bytes: seq<Byte>, slot: nat, i: nat)
    requires i < |mem| && slot < MAX_PROCESS_SLOTS && |bytes| <= U64_MAX && Validate(bytes, SlotFor(slot)).Ok?
    ensures var hdr := Validate(bytes, SlotFor(slot)).value;
            && SegmentsOk(bytes, hdr, SlotFor(slot))
            && LoadInto(mem, bytes, slot)[i]
               == if slot * SLOT_SIZE <= i < slot * SLOT_SIZE + SLOT_SIZE
                  then ImageByte(bytes, hdr, SlotFor(slot), hdr.phnum, WINDOW_BASE + i) else mem[i]
  {
    SlotInWindow(slot);
    ValidateMeans(bytes, SlotFor(slot), Validate(bytes, SlotFor(slot)).value);
  }

  /** When an exec call enters the program, and what a call that does not leaves behind. */
  lemma ExecEnters(files: Files, k: Kernel, path: seq<Byte>, argsLen: nat, envLen: nat, slot: nat, bytes: seq<Byte>,
                   h: ElfFormat.FileHeader, ps: seq<ElfFormat.SegmentHeader>)
    requires Inv(k) && k.table.nextPid < U64_MAX
    requires SlotForPath(path) == Some(slot) && CanSpawn(k.table, slot)
    requires RamFiles.StaticRead(files, path) == Some(bytes) && |bytes| <= U64_MAX
    requires ElfFormat.Loadable(bytes, SlotFor(slot), h, ps)
    ensures var r := Exec(files, k, path, argsLen, envLen);
            if h.entry != 0 && argsLen <= 191 && envLen <= 511
            then r.stack == k.stack + [Frame(k.table.nextPid, slot)]
            else r.stack == k.stack && Restored(k.table, r.table)
  {
    SlotInWindow(slot);
    ElfFormat.LoadableIsAccepted(bytes, SlotFor(slot), h, ps);
    SpawnFinish(k.table.nextPid, k.stack, slot);
  }

  /** Through the whole run frame j stays on the stack and never is the one that computes. */
  ghost predicate Waits(files: Files, k: Kernel, events: seq<Event>, j: nat)
    requires k.table.Sized()
  {
    && |Run(files, k, events).stack| > j
    && (events != [] ==>
          var n := |events| - 1;
          Waits(files, k, events[..n], j)
          && (events[n].Store? ==> |Run(files, k, events[..n]).stack| > j + 1))
  }

  lemma StepKeepsAncestor(files: Files, k: Kernel, e: Event, j: nat)
    requires Inv(k) && j < |k.stack| && j < |Step(files, k, e).stack|
    requires e.Store? ==> j + 1 < |k.stack|
    ensures Step(files, k, e).stack[..j + 1] == k.stack[..j + 1]
    ensures Image(Step(files, k, e).mem, k.stack[j].slot) == Image(k.mem, k.stack[j].slot)
  {
    var r := Step(files, k, e);
    var mine := k.stack[j].slot;
    match e {
      case Enter(path, argsLen, envLen) =>
        var file, slot := RamFiles.StaticRead(files, path), SlotForPath(path);
        if file.Some? && slot.Some? && CanSpawn(k.table, slot.value) {
          assert Uses(k.stack, mine);
          if Validate(file.value, SlotFor(slot.value)).Ok? {
            LoadTouchesOneSlot(k.mem, file.value, slot.value, mine);
          }
        }
      case Leave =>
      case Store(at, value) =>
        var top := k.stack[|k.stack| - 1].slot;
        assert top != mine;
        assert forall i | mine * SLOT_SIZE <= i < mine * SLOT_SIZE + SLOT_SIZE :: r.mem[i] == k.mem[i];
    }
  }

  /** Isolation: whatever is executed above a waiting process, to any depth and in any order,
      with valid and invalid images, no byte of its image changes. */
  lemma {:induction false} AncestorIsUntouched(files: Files, k: Kernel, events: seq<Event>, j: nat)
    requires Inv(k) && Run(files, k, events).table.nextPid < U64_MAX && Waits(files, k, events, j)
    ensures j < |k.stack|
    ensures Run(files, k, events).stack[..j + 1] == k.stack[..j + 1]
    ensures |Run(files, k, events).mem| == WINDOW_SIZE
    ensures Image(Run(files, k, events).mem, k.stack[j].slot) == Image(k.mem, k.stack[j].slot)
  {
    if events != [] {
      var n := |events| - 1;
      PidsOnlyGrow(files, Run(files, k, events[..n]), events[n]);
      AncestorIsUntouched(files, k, events[..n], j);
      RunKeepsInv(files, k, events[..n]);
      var before := Run(files, k, events[..n]);
      assert before.stack[j] == before.stack[..j + 1][j] == k.stack[j];
      StepKeepsAncestor(files, before, events[n], j);
    }
  }

  /** The nesting depth never falls below d. */
  ghost predicate NeverBelow(files: Files, k: Kernel, events: seq<Event>, d: nat)
    requires k.table.Sized()
  {
    |Run(files, k, events).stack| >= d && (events != [] ==> NeverBelow(files, k, events[..|events| - 1], d))
  }

  lemma {:induction false} PrefixIsKept(files: Files, k: Kernel, events: seq<Event>, d: nat)
    requires k.table.Sized() && NeverBelow(files, k, events, d)
    ensures d <= |k.stack| && Run(files, k, events).stack[..d] == k.stack[..d]
  {
    if events != [] { PrefixIsKept(files, k, events[..|events| - 1], d); }
  }

  /** A well-nested run, one that comes back to its starting depth without falling below it,
      restores the stack, the slots in use and the records exactly. */
  lemma WellNestedRestores(files: Files, k: Kernel, events: seq<Event>)
    requires Inv(k) && Run(files, k, events).table.nextPid < U64_MAX
    requires NeverBelow(files, k, events, |k.stack|) && |Run(files, k, events).stack| == |k.stack|
    ensures Run(files, k, events).stack == k.stack
    ensures Restored(k.table, Run(files, k, events).table)
  {
    PrefixIsKept(files, k, events, |k.stack|);
    RunKeepsInv(files, k, events);
    var r := Run(files, k, events);
    assert r.stack == r.stack[..|k.stack|] == k.stack[..|k.stack|] == k.stack;
  }

  /** What an exec call of the shell, which holds slot 0, can start: a built-in file with a
      slot of its own, valid for that slot, with an entry point. */
  predicate Launches(files: Files, path: seq<Byte>) {
    var file, slot := RamFiles.StaticRead(files, path), SlotForPath(path);
    file.Some? && slot.Some? && slot.value != 0
    && match Validate(file.value, SlotFor(slot.value))
       case Err(_) => false
       case Ok(hdr) => hdr.entry != 0
  }

  /** With only the shell running an exec call starts a program exactly when the path can be
      launched; otherwise stack, slots in use and records stay. */
  lemma ShellLaunches(files: Files, k: Kernel, pid: nat, path: seq<Byte>, argsLen: nat, envLen: nat)
    requires Inv(k) && k.table.nextPid < U64_MAX && k.stack == [Frame(pid, 0)]
    requires argsLen <= MAX_ARG_LEN && envLen <= MAX_ENV_LEN
    ensures var r := Exec(files, k, path, argsLen, envLen);
            if Launches(files, path) then r.stack == k.stack + [Frame(k.table.nextPid, SlotForPath(path).value)]
            else r.stack == k.stack && Restored(k.table, r.table)
  {
    var slot := SlotForPath(path);
    FirstEmptyOfStack(k.table.nextPid, k.stack);
    assert k.stack[0].slot == 0;
    assert slot.Some? ==> (CanSpawn(k.table, slot.value) <==> slot.value != 0);
    if RamFiles.StaticRead(files, path).Some? && slot.Some? && slot.value != 0 {
      SpawnFinish(k.table.nextPid, k.stack, slot.value);
    }
  }

  // The imperative exec.

  /** The kernel's exec up to the jump: find the image and its slot, claim the slot, check,
      load; a failure behind the claim gives the slot back. */
  method ExecInternal(pm: ProcessManager, mem: array<Byte>, files: Files, path: seq<Byte>, argsLen: nat, envLen: nat)
    returns (pid: Option<nat>)
    requires pm.Valid() && mem.Length == WINDOW_SIZE
    modifies pm, pm.slotsInUse, pm.records, mem
    ensures pm.Valid()
    ensures var r := Exec(files, Kernel(old(pm.State()), old(mem[..]), []), path, argsLen, envLen);
            && pm.State() == r.table && mem[..] == r.mem
            && (pid.Some? <==> r.stack != []) && (pid.Some? ==> r.stack[0].pid == pid.value)
  {
    var file := RamFiles.StaticRead(files, path);
    if file == None { return None; }
    var slotIdx := SlotForPath(path);
    if slotIdx == None { return None; }
    var claimed := pm.SpawnSlot(slotIdx.value);
    if claimed == None { return None; }
    var ok := LoadChecked(mem, file.value, slotIdx.value, argsLen, envLen);
    if !ok {
      pm.FinishProcess(claimed.value, U64_MAX);
      return None;
    }
    return claimed;
  }

  method LoadChecked(mem: array<Byte>, bytes: seq<Byte>, slotIdx: nat, argsLen: nat, envLen: nat) returns (ok: bool)
    requires mem.Length == WINDOW_SIZE && slotIdx < MAX_PROCESS_SLOTS && |bytes| <= U64_MAX
    modifies mem
    ensures match Validate(bytes, SlotFor(slotIdx))
            case Err(_) => !ok && mem[..] == old(mem[..])
            case Ok(hdr) =>
              && mem[..] == LoadInto(old(mem[..]), bytes, slotIdx)
              && ok == (hdr.entry != 0 && argsLen <= MAX_ARG_LEN && envLen <= MAX_ENV_LEN)
  {
    var slot := SlotFor(slotIdx);
    var v := ValidateElfForSlot(bytes, slot);
    if v.Err? { return false; }
    SlotInWindow(slotIdx);
    ValidateMeans(bytes, slot, v.value);
    LoadSegments(mem, bytes, slot, v.value);
    if v.value.entry == 0 { return false; }
    if argsLen > MAX_ARG_LEN { return false; }
    if envLen > MAX_ENV_LEN { return false; }
    return true;
  }

  /** The end of the kernel's exec, when the program has returned: the innermost process
      leaves. */
  method ProgramReturned(pm: ProcessManager, pid: nat, status: nat, ghost files: Files, ghost k: Kernel)
    requires pm.Valid() && pm.State() == k.table && k.stack != [] && pid == k.stack[|k.stack| - 1].pid
    modifies pm.slotsInUse, pm.records
    ensures pm.Valid() && pm.State() == Step(files, k, Leave).table
  {
    pm.FinishProcess(pid, status);
  }
}
