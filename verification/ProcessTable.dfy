/** The process table: records of running processes and the load slots they hold. */
module ProcessTable {
  import opened Bytes

  const MAX_PROCESS_SLOTS: nat := 7
  const MAX_PROCESSES: nat := 16

  datatype Record = Record(pid: nat, slotIdx: nat, running: bool, exitCode: nat)

  const EMPTY := Record(0, 0, false, 0)

  // The table as a value.

  datatype Table = Table(nextPid: nat, slotsInUse: seq<bool>, records: seq<Record>) {
    predicate Sized() { |slotsInUse| == MAX_PROCESS_SLOTS && |records| == MAX_PROCESSES && nextPid <= U64_MAX }
  }

  function FirstEmpty(records: seq<Record>): (i: nat)
    ensures i <= |records| && (i < |records| ==> !records[i].running)
    ensures forall j | 0 <= j < i :: records[j].running
  {
    if records == [] || !records[0].running then 0 else 1 + FirstEmpty(records[1..])
  }

  /** The first running record with this pid. */
  function FindPid(records: seq<Record>, pid: nat): (i: nat)
    ensures i <= |records| && (i < |records| ==> records[i].running && records[i].pid == pid)
    ensures forall j | 0 <= j < i :: !(records[j].running && records[j].pid == pid)
  {
    if records == [] || (records[0].running && records[0].pid == pid) then 0 else 1 + FindPid(records[1..], pid)
  }

  predicate CanSpawn(t: Table, slot: nat)
    requires t.Sized()
  {
    slot < MAX_PROCESS_SLOTS && !t.slotsInUse[slot] && FirstEmpty(t.records) < MAX_PROCESSES
  }

  /** A saturating counter. */
  function NextPid(pid: nat): nat { if pid >= U64_MAX then U64_MAX else pid + 1 }

  function Spawn(t: Table, slot: nat): (r: Table)
    requires t.Sized()
    ensures r.Sized()
  {
    if !CanSpawn(t, slot) then t
    else Table(NextPid(t.nextPid), t.slotsInUse[slot := true],
               t.records[FirstEmpty(t.records) := Record(t.nextPid, slot, true, 0)])
  }

  function Finish(t: Table, pid: nat): (r: Table)
    requires t.Sized()
    ensures r.Sized()
  {
    var i := FindPid(t.records, pid);
    if i == MAX_PROCESSES then t
    else
      var slot := t.records[i].slotIdx;
      t.(slotsInUse := if slot < MAX_PROCESS_SLOTS then t.slotsInUse[slot := false] else t.slotsInUse,
         records := t.records[i := EMPTY])
  }

  // What every sequence of spawns and finishes keeps.

  /** The running records and the slots in use correspond one to one, and every other record
      is blank. */
  ghost predicate Matched(t: Table) {
    && t.Sized()
    && (forall i | 0 <= i < MAX_PROCESSES :: t.records[i].running || t.records[i] == EMPTY)
    && (forall i | 0 <= i < MAX_PROCESSES && t.records[i].running ::
          t.records[i].slotIdx < MAX_PROCESS_SLOTS && t.slotsInUse[t.records[i].slotIdx])
    && (forall i, j | 0 <= i < j < MAX_PROCESSES && t.records[i].running && t.records[j].running ::
          t.records[i].slotIdx != t.records[j].slotIdx)
    && (forall s | 0 <= s < MAX_PROCESS_SLOTS && t.slotsInUse[s] :: Holder(t, s) < MAX_PROCESSES)
  }

  /** The first running record that holds slot s. */
  function Holder(t: Table, s: nat): (i: nat)
    requires t.Sized()
    ensures i <= MAX_PROCESSES
    ensures i < MAX_PROCESSES
        <==> exists k :: 0 <= k < MAX_PROCESSES && t.records[k].running && t.records[k].slotIdx == s
    ensures i < MAX_PROCESSES ==> t.records[i].running && t.records[i].slotIdx == s
  {
    HolderFrom(t.records, s)
  }

  function HolderFrom(records: seq<Record>, s: nat): (i: nat)
    ensures i <= |records|
    ensures i < |records| ==> records[i].running && records[i].slotIdx == s
    ensures forall j | 0 <= j < i :: !(records[j].running && records[j].slotIdx == s)
  {
    if records == [] || (records[0].running && records[0].slotIdx == s) then 0 else 1 + HolderFrom(records[1..], s)
  }

  function Started(): Table {
    Table(1, seq(MAX_PROCESS_SLOTS, _ => false), seq(MAX_PROCESSES, _ => EMPTY))
  }

  datatype Op = SpawnOp(slot: nat) | FinishOp(pid: nat)

  function Apply(t: Table, op: Op): Table
    requires t.Sized()
  {
    match op
    case SpawnOp(slot) => Spawn(t, slot)
    case FinishOp(pid) => Finish(t, pid)
  }

  function RunOps(t: Table, ops: seq<Op>): (r: Table)
    requires t.Sized()
    ensures r.Sized()
  {
    if ops == [] then t else Apply(RunOps(t, ops[..|ops| - 1]), ops[|ops| - 1])
  }

  lemma SpawnKeepsMatched(t: Table, slot: nat)
    requires Matched(t)
    ensures Matched(Spawn(t, slot))
  {
    if CanSpawn(t, slot) {
      var r := Spawn(t, slot);
      var k := FirstEmpty(t.records);
      assert forall i | 0 <= i < MAX_PROCESSES && i != k :: r.records[i] == t.records[i];
      forall s | 0 <= s < MAX_PROCESS_SLOTS && r.slotsInUse[s]
        ensures Holder(r, s) < MAX_PROCESSES
      {
        if s == slot {
          assert r.records[k].running && r.records[k].slotIdx == s;
        } else {
          var i := Holder(t, s);
          assert r.records[i] == t.records[i];
        }
      }
    }
  }

  lemma FinishKeepsMatched(t: Table, pid: nat)
    requires Matched(t)
    ensures Matched(Finish(t, pid))
  {
    var k := FindPid(t.records, pid);
    if k < MAX_PROCESSES {
      var r := Finish(t, pid);
      assert forall i | 0 <= i < MAX_PROCESSES && i != k :: r.records[i] == t.records[i];
      forall s | 0 <= s < MAX_PROCESS_SLOTS && r.slotsInUse[s]
        ensures Holder(r, s) < MAX_PROCESSES
      {
        var i := Holder(t, s);
        assert r.records[i] == t.records[i];
      }
    }
  }

  function SlotSet(records: seq<Record>): set<nat> {
    if records == [] then {}
    else
      var init := SlotSet(records[..|records| - 1]);
      var last := records[|records| - 1];
      if last.running then init + {last.slotIdx} else init
  }

  function RunningCount(records: seq<Record>): nat {
    if records == [] then 0
    else RunningCount(records[..|records| - 1]) + if records[|records| - 1].running then 1 else 0
  }

  lemma {:induction false} CountIsSlotCount(records: seq<Record>)
    requires forall i, j | 0 <= i < j < |records| && records[i].running && records[j].running ::
               records[i].slotIdx != records[j].slotIdx
    ensures RunningCount(records) == |SlotSet(records)|
    ensures forall s | s in SlotSet(records) ::
              exists i :: 0 <= i < |records| && records[i].running && records[i].slotIdx == s
  {
    if records != [] {
      CountIsSlotCount(records[..|records| - 1]);
    }
  }

  lemma {:induction false} SlotsBelow(records: seq<Record>, n: nat)
    requires forall i | 0 <= i < |records| && records[i].running :: records[i].slotIdx < n
    ensures forall s | s in SlotSet(records) :: s < n
  {
    if records != [] { SlotsBelow(records[..|records| - 1], n); }
  }

  lemma {:induction false} BoundedSet(s: set<nat>, n: nat)
    requires forall x | x in s :: x < n
    ensures |s| <= n
  {
    if n == 0 {
      assert s == {};
    } else {
      BoundedSet(s - {n - 1}, n - 1);
      assert s <= s - {n - 1} + {n - 1};
    }
  }

  lemma {:induction false} AllRunningCount(records: seq<Record>)
    requires forall i | 0 <= i < |records| :: records[i].running
    ensures RunningCount(records) == |records|
  {
    if records != [] { AllRunningCount(records[..|records| - 1]); }
  }

  lemma AtMostSevenRun(t: Table)
    requires Matched(t)
    ensures RunningCount(t.records) <= MAX_PROCESS_SLOTS
  {
    CountIsSlotCount(t.records);
    SlotsBelow(t.records, MAX_PROCESS_SLOTS);
    BoundedSet(SlotSet(t.records), MAX_PROCESS_SLOTS);
  }

  /** At most seven of the sixteen records are taken, so a spawn fails only for a slot that
      does not exist or is busy. */
  lemma RecordsSuffice(t: Table, slot: nat)
    requires Matched(t)
    ensures RunningCount(t.records) <= MAX_PROCESS_SLOTS
    ensures CanSpawn(t, slot) <==> slot < MAX_PROCESS_SLOTS && !t.slotsInUse[slot]
  {
    AtMostSevenRun(t);
    if FirstEmpty(t.records) == MAX_PROCESSES { AllRunningCount(t.records); }
  }

  /** The same for every table that any sequence of spawns and finishes can produce, with
      whatever pids the finishes name. */
  lemma {:induction false} ReachableIsMatched(ops: seq<Op>)
    ensures Matched(RunOps(Started(), ops))
  {
    if ops != [] {
      var n := |ops| - 1;
      ReachableIsMatched(ops[..n]);
      var t := RunOps(Started(), ops[..n]);
      match ops[n] {
        case SpawnOp(slot) => SpawnKeepsMatched(t, slot);
        case FinishOp(pid) => FinishKeepsMatched(t, pid);
      }
    }
  }

  ghost predicate Restored(t: Table, u: Table) {
    u.slotsInUse == t.slotsInUse && u.records == t.records
  }

  /** Finishing the process just spawned restores slots and records exactly when no record
      before the new one carries the same pid. */
  lemma FinishUndoesSpawn(t: Table, slot: nat)
    requires Matched(t) && CanSpawn(t, slot)
    ensures Restored(t, Finish(Spawn(t, slot), t.nextPid))
        <==> forall i | 0 <= i < FirstEmpty(t.records) :: t.records[i].pid != t.nextPid
  {
    var k := FirstEmpty(t.records);
    var r := Spawn(t, slot);
    var u := Finish(r, t.nextPid);
    var i := FindPid(r.records, t.nextPid);
    assert r.records[k].running && r.records[k].pid == t.nextPid;
    assert i <= k;
    if i == k {
      assert u.slotsInUse == t.slotsInUse && u.records == t.records;
      assert forall j | 0 <= j < k :: r.records[j] == t.records[j];
    } else {
      assert t.records[i] == r.records[i] && u.records[i] == EMPTY;
    }
  }

  ghost predicate FreshPids(t: Table)
    requires t.Sized()
  {
    && (forall i | 0 <= i < MAX_PROCESSES && t.records[i].running :: t.records[i].pid < t.nextPid)
    && (forall i, j | 0 <= i < j < MAX_PROCESSES && t.records[i].running && t.records[j].running ::
          t.records[i].pid != t.records[j].pid)
  }

  /** As long as the counter has not come to its end, the running processes have distinct
      pids, all handed out before. */
  lemma {:induction false} UnsaturatedPidsAreFresh(ops: seq<Op>)
    requires RunOps(Started(), ops).nextPid < U64_MAX
    ensures FreshPids(RunOps(Started(), ops))
  {
    if ops != [] {
      var n := |ops| - 1;
      UnsaturatedPidsAreFresh(ops[..n]);
    }
  }

  /** Until then every finish undoes its spawn. */
  lemma UnsaturatedFinishUndoesSpawn(ops: seq<Op>, slot: nat)
    requires RunOps(Started(), ops).nextPid < U64_MAX && CanSpawn(RunOps(Started(), ops), slot)
    ensures var t := RunOps(Started(), ops); Restored(t, Finish(Spawn(t, slot), t.nextPid))
  {
    ReachableIsMatched(ops);
    UnsaturatedPidsAreFresh(ops);
    FinishUndoesSpawn(RunOps(Started(), ops), slot);
  }

  /** n programs run one after the other in slot 0. */
  function Churn(n: nat): seq<Op> {
    if n == 0 then [] else Churn(n - 1) + [SpawnOp(0), FinishOp(n)]
  }

  lemma RunTwoMore(t: Table, ops: seq<Op>, a: Op, b: Op)
    requires t.Sized()
    ensures RunOps(t, ops + [a, b]) == Apply(Apply(RunOps(t, ops), a), b)
  {
    var all := ops + [a, b];
    assert all[..|all| - 1] == ops + [a] && (ops + [a])[..|ops|] == ops;
  }

  lemma {:induction false} ChurnCounts(n: nat)
    requires n < U64_MAX
    ensures RunOps(Started(), Churn(n)) == Started().(nextPid := n + 1)
  {
    if n > 0 {
      ChurnCounts(n - 1);
      RunTwoMore(Started(), Churn(n - 1), SpawnOp(0), FinishOp(n));
      OneCount(n);
    }
  }

  lemma OneCount(n: nat)
    requires 0 < n < U64_MAX
    ensures Finish(Spawn(Started().(nextPid := n), 0), n) == Started().(nextPid := n + 1)
  {
    var t := Started().(nextPid := n);
    assert t.records[0] == EMPTY && FirstEmpty(t.records) == 0;
    var u := Spawn(t, 0);
    assert u.records[0] == Record(n, 0, true, 0) && FindPid(u.records, n) == 0;
    assert Finish(u, n).records == t.records && Finish(u, n).slotsInUse == t.slotsInUse;
  }

  /** The run that gets the counter to its end, and then nests two processes in slots 0 and 1
      and finishes the inner one. */
  function SaturatingRun(): seq<Op> { Churn(U64_MAX - 1) + [SpawnOp(0), SpawnOp(1)] }

  /** The pid counter stuck at its end: finishing the inner process frees the outer one. */
  lemma SaturatedFinishFreesOuter()
    ensures var t := RunOps(Started(), SaturatingRun());
            var u := Finish(t, t.nextPid);
            && t.records[1] == Record(t.nextPid, 1, true, 0) && t.slotsInUse[0] && t.slotsInUse[1]
            && !u.slotsInUse[0] && u.slotsInUse[1]
  {
    ChurnCounts(U64_MAX - 1);
    RunTwoMore(Started(), Churn(U64_MAX - 1), SpawnOp(0), SpawnOp(1));
    var s := Started().(nextPid := U64_MAX);
    assert s.records[0] == EMPTY && FirstEmpty(s.records) == 0;
    var t := Spawn(s, 0);
    assert t.records[1] == EMPTY && FirstEmpty(t.records) == 1;
    var r := Spawn(t, 1);
    assert r.records[0] == Record(U64_MAX, 0, true, 0) && FindPid(r.records, U64_MAX) == 0;
  }

  // The table itself.

  class ProcessManager {
    var nextPid: nat
    const slotsInUse: array<bool>
    const records: array<Record>

    ghost predicate Valid()
      reads this
    {
      slotsInUse.Length == MAX_PROCESS_SLOTS && records.Length == MAX_PROCESSES && nextPid <= U64_MAX
    }

    ghost function State(): (t: Table)
      requires Valid()
      reads this, slotsInUse, records
      ensures t.Sized()
    {
      Table(nextPid, slotsInUse[..], records[..])
    }

    constructor ()
      ensures Valid() && fresh(slotsInUse) && fresh(records) && State() == Started()
    {
      nextPid := 1;
      slotsInUse := new bool[MAX_PROCESS_SLOTS](_ => false);
      records := new Record[MAX_PROCESSES](_ => EMPTY);
    }

    method SpawnSlot(slotIdx: nat) returns (r: Option<nat>)
      requires Valid()
      modifies this, slotsInUse, records
      ensures Valid() && State() == Spawn(old(State()), slotIdx)
      ensures r == if CanSpawn(old(State()), slotIdx) then Some(old(nextPid)) else None
    {
      if slotIdx >= MAX_PROCESS_SLOTS || slotsInUse[slotIdx] { return None; }
      ghost var t := State();
      var recIdx := 0;
      while recIdx < MAX_PROCESSES
        invariant recIdx <= MAX_PROCESSES && State() == t && Valid()
        invariant forall j | 0 <= j < recIdx :: t.records[j].running
      {
        if !records[recIdx].running { break; }
        recIdx := recIdx + 1;
      }
      assert recIdx == FirstEmpty(t.records);
      if recIdx == MAX_PROCESSES { return None; }
      var pid := nextPid;
      nextPid := if nextPid >= U64_MAX then U64_MAX else nextPid + 1;
      slotsInUse[slotIdx] := true;
      records[recIdx] := Record(pid, slotIdx, true, 0);
      return Some(pid);
    }

    method FinishProcess(pid: nat, exitCode: nat)
      requires Valid()
      modifies slotsInUse, records
      ensures Valid() && State() == Finish(old(State()), pid)
    {
      ghost var t := State();
      var i := 0;
      while i < MAX_PROCESSES
        invariant i <= MAX_PROCESSES && Valid() && State() == t
        invariant forall j | 0 <= j < i :: !(t.records[j].running && t.records[j].pid == pid)
      {
        if records[i].pid == pid && records[i].running {
          assert i == FindPid(t.records, pid);
          var slotIdx := records[i].slotIdx;
          records[i] := records[i].(exitCode := exitCode);
          if slotIdx < MAX_PROCESS_SLOTS { slotsInUse[slotIdx] := false; }
          records[i] := EMPTY;
          assert records[..] == t.records[i := EMPTY];
          return;
        }
        i := i + 1;
      }
      assert FindPid(t.records, pid) == MAX_PROCESSES;
    }
  }
}
