/** The file system: a table of built-in files overlaid with sixteen fixed-size RAM files,
    against a map of bounded capacity. */
module RamFiles {
  import opened Bytes

  const MAX_RAM_FILES: nat := 16
  const MAX_RAM_PATH_LEN: nat := 128
  const MAX_RAM_FILE_LEN: nat := 4096

  datatype FileEntry = FileEntry(path: seq<Byte>, data: seq<Byte>)

  // The table as a value.

  datatype Slot = Free | Used(path: seq<Byte>, data: seq<Byte>)

  type Ram = seq<Slot>

  function Key(s: Slot): Option<seq<Byte>> {
    if s.Free? then None else Some(s.path)
  }

  function Keys(ram: Ram): seq<Option<seq<Byte>>> {
    seq(|ram|, i requires 0 <= i < |ram| => Key(ram[i]))
  }

  predicate ValidPath(path: seq<Byte>) { 1 <= |path| <= MAX_RAM_PATH_LEN }

  predicate CanWrite(ram: Ram, path: seq<Byte>) {
    ValidPath(path) && (Some(path) in Keys(ram) || None in Keys(ram))
  }

  /** The entry a write to path goes to: the one that holds it, else the first free one. */
  function Target(ram: Ram, path: seq<Byte>): (i: nat)
    requires CanWrite(ram, path)
    ensures i < |ram| && (Key(ram[i]) == Some(path) || (ram[i].Free? && Some(path) !in Keys(ram)))
  {
    var keys := Keys(ram);
    var i := if Some(path) in keys then IndexOf(keys, Some(path)) else IndexOf(keys, None);
    assert keys[i] == Key(ram[i]);
    i
  }

  function WriteFile(ram: Ram, path: seq<Byte>, data: seq<Byte>): (r: Ram)
    ensures |r| == |ram|
  {
    if CanWrite(ram, path) then ram[Target(ram, path) := Used(path, Take(data, MAX_RAM_FILE_LEN))] else ram
  }

  function RamRead(ram: Ram, path: seq<Byte>): Option<seq<Byte>> {
    var i := IndexOf(Keys(ram), Some(path));
    if i < |ram| && ram[i].Used? then Some(ram[i].data) else None
  }

  function StaticPaths(statics: seq<FileEntry>): seq<seq<Byte>> {
    seq(|statics|, i requires 0 <= i < |statics| => statics[i].path)
  }

  function StaticRead(statics: seq<FileEntry>, path: seq<Byte>): Option<seq<Byte>> {
    var i := IndexOf(StaticPaths(statics), path);
    if i < |statics| then Some(statics[i].data) else None
  }

  function ReadFile(statics: seq<FileEntry>, ram: Ram, path: seq<Byte>): Option<seq<Byte>> {
    if StaticRead(statics, path).Some? then StaticRead(statics, path) else RamRead(ram, path)
  }

  // The abstraction: a map with room for as many files as the table has entries.

  predicate UniquePaths(ram: Ram) {
    forall i, j | 0 <= i < j < |ram| :: Key(ram[i]) == Key(ram[j]) ==> ram[i].Free?
  }

  function AsMap(ram: Ram): map<seq<Byte>, seq<Byte>> {
    if ram == [] then map[]
    else if ram[0].Free? then AsMap(ram[1..])
    else AsMap(ram[1..])[ram[0].path := ram[0].data]
  }

  function Capped(m: map<seq<Byte>, seq<Byte>>, path: seq<Byte>, data: seq<Byte>, capacity: nat)
    : map<seq<Byte>, seq<Byte>>
  {
    if ValidPath(path) && (path in m || |m| < capacity) then m[path := Take(data, MAX_RAM_FILE_LEN)] else m
  }

  /** The map has exactly the paths of the used entries, with their data. */
  lemma {:induction false} AsMapHolds(ram: Ram)
    requires UniquePaths(ram)
    ensures forall i | 0 <= i < |ram| && ram[i].Used? ::
              ram[i].path in AsMap(ram) && AsMap(ram)[ram[i].path] == ram[i].data
    ensures forall p | p in AsMap(ram) :: Some(p) in Keys(ram)
  {
    if ram != [] {
      var rest := ram[1..];
      AsMapHolds(rest);
      assert Keys(ram) == [Key(ram[0])] + Keys(rest);
      assert forall i | 0 < i < |ram| :: ram[i] == rest[i - 1] && Key(ram[0]) == Key(ram[i]) ==> ram[0].Free?;
    }
  }

  lemma {:induction false} AsMapSize(ram: Ram)
    requires UniquePaths(ram)
    ensures |AsMap(ram)| <= |ram|
    ensures |AsMap(ram)| < |ram| <==> None in Keys(ram)
  {
    if ram != [] {
      var rest := ram[1..];
      AsMapSize(rest);
      AsMapHolds(rest);
      assert Keys(ram) == [Key(ram[0])] + Keys(rest);
      if ram[0].Used? {
        assert forall i | 0 <= i < |rest| :: Key(ram[i + 1]) == Keys(rest)[i] != Some(ram[0].path);
        assert ram[0].path !in AsMap(rest);
      }
    }
  }

  lemma AsMapKeys(ram: Ram, path: seq<Byte>)
    requires UniquePaths(ram)
    ensures path in AsMap(ram) <==> Some(path) in Keys(ram)
  {
    AsMapHolds(ram);
    if Some(path) in Keys(ram) {
      var i := IndexOf(Keys(ram), Some(path));
      assert Key(ram[i]) == Some(path);
    }
  }

  /** Reading the table is looking up the map. */
  lemma RamReadIsLookup(ram: Ram, path: seq<Byte>)
    requires UniquePaths(ram)
    ensures RamRead(ram, path) == if path in AsMap(ram) then Some(AsMap(ram)[path]) else None
  {
    AsMapKeys(ram, path);
    AsMapHolds(ram);
    var i := IndexOf(Keys(ram), Some(path));
    assert i < |ram| ==> Keys(ram)[i] == Key(ram[i]);
  }

  lemma WriteKeepsUnique(ram: Ram, path: seq<Byte>, data: seq<Byte>)
    requires UniquePaths(ram)
    ensures UniquePaths(WriteFile(ram, path, data))
  {
    if CanWrite(ram, path) {
      var k := Target(ram, path);
      var r := WriteFile(ram, path, data);
      assert forall i | 0 <= i < |ram| && i != k :: r[i] == ram[i] && Keys(ram)[i] == Key(ram[i]);
    }
  }

  lemma SameMap<K, V>(m: map<K, V>, n: map<K, V>)
    requires forall p :: p in m <==> p in n
    requires forall p | p in m :: m[p] == n[p]
    ensures m == n
  {
  }

  lemma WriteUpdates(ram: Ram, path: seq<Byte>, data: seq<Byte>)
    requires UniquePaths(ram) && CanWrite(ram, path)
    ensures AsMap(WriteFile(ram, path, data)) == AsMap(ram)[path := Take(data, MAX_RAM_FILE_LEN)]
  {
    var m, n := AsMap(WriteFile(ram, path, data)), AsMap(ram)[path := Take(data, MAX_RAM_FILE_LEN)];
    forall p
      ensures p in m <==> p in n
      ensures p in m ==> m[p] == n[p]
    {
      SameLookup(ram, path, data, p);
    }
    SameMap(m, n);
  }

  /** Every write refines the map of bounded capacity: a new path is refused exactly when
      the map is full, an accepted write is what the next read returns, and every other
      path keeps its data. */
  lemma WriteRefines(ram: Ram, path: seq<Byte>, data: seq<Byte>)
    requires UniquePaths(ram)
    ensures CanWrite(ram, path) <==> ValidPath(path) && (path in AsMap(ram) || |AsMap(ram)| < |ram|)
    ensures AsMap(WriteFile(ram, path, data)) == Capped(AsMap(ram), path, data, |ram|)
  {
    AsMapKeys(ram, path);
    AsMapSize(ram);
    if CanWrite(ram, path) { WriteUpdates(ram, path, data); }
  }

  /** A write is what the next read of its path returns, and reads of other paths stay. */
  lemma ReadAfterWrite(ram: Ram, path: seq<Byte>, data: seq<Byte>, p: seq<Byte>)
    requires CanWrite(ram, path)
    ensures RamRead(WriteFile(ram, path, data), p)
         == if p == path then Some(Take(data, MAX_RAM_FILE_LEN)) else RamRead(ram, p)
  {
    var k, r := Target(ram, path), WriteFile(ram, path, data);
    assert Keys(r) == Keys(ram)[k := Some(path)];
    assert Keys(ram)[k] == Key(ram[k]);
    if p == path {
      FirstIs(Keys(r), Some(path), k);
    } else {
      SameFirst(Keys(ram), k, Some(path), Some(p));
    }
  }

  lemma SameFirst<T>(s: seq<T>, k: nat, y: T, x: T)
    requires k < |s| && s[k] != x && y != x
    ensures IndexOf(s[k := y], x) == IndexOf(s, x) != k
  {
    var i := IndexOf(s, x);
    if i < |s| { FirstIs(s[k := y], x, i); }
  }

  lemma SameLookup(ram: Ram, path: seq<Byte>, data: seq<Byte>, p: seq<Byte>)
    requires UniquePaths(ram) && CanWrite(ram, path)
    ensures UniquePaths(WriteFile(ram, path, data))
    ensures var m := AsMap(WriteFile(ram, path, data));
            && (p in m <==> p == path || p in AsMap(ram))
            && (p in m ==> m[p] == if p == path then Take(data, MAX_RAM_FILE_LEN) else AsMap(ram)[p])
  {
    WriteKeepsUnique(ram, path, data);
    ReadAfterWrite(ram, path, data, p);
    RamReadIsLookup(ram, p);
    RamReadIsLookup(WriteFile(ram, path, data), p);
  }

  datatype WriteOp = WriteOp(path: seq<Byte>, data: seq<Byte>)

  function RunWrites(ram: Ram, ops: seq<WriteOp>): Ram {
    if ops == [] then ram
    else var n := |ops| - 1; WriteFile(RunWrites(ram, ops[..n]), ops[n].path, ops[n].data)
  }

  function RunCapped(m: map<seq<Byte>, seq<Byte>>, ops: seq<WriteOp>, capacity: nat): map<seq<Byte>, seq<Byte>> {
    if ops == [] then m
    else var n := |ops| - 1; Capped(RunCapped(m, ops[..n], capacity), ops[n].path, ops[n].data, capacity)
  }

  /** Over every sequence of writes the table stays free of duplicates and equals the map. */
  lemma {:induction false} RunRefines(ram: Ram, ops: seq<WriteOp>)
    requires UniquePaths(ram)
    ensures |RunWrites(ram, ops)| == |ram| && UniquePaths(RunWrites(ram, ops))
    ensures AsMap(RunWrites(ram, ops)) == RunCapped(AsMap(ram), ops, |ram|)
  {
    if ops != [] {
      var n := |ops| - 1;
      RunRefines(ram, ops[..n]);
      WriteKeepsUnique(RunWrites(ram, ops[..n]), ops[n].path, ops[n].data);
      WriteRefines(RunWrites(ram, ops[..n]), ops[n].path, ops[n].data);
    }
  }

  /** A built-in file always reads its fixed bytes, whatever was written; any other path
      reads the data of its last accepted write. */
  lemma ReadAfterWrites(statics: seq<FileEntry>, ram: Ram, ops: seq<WriteOp>, path: seq<Byte>)
    requires UniquePaths(ram)
    ensures path in StaticPaths(statics) ==>
              ReadFile(statics, RunWrites(ram, ops), path) == StaticRead(statics, path) != None
    ensures path !in StaticPaths(statics) ==>
              var m := RunCapped(AsMap(ram), ops, |ram|);
              ReadFile(statics, RunWrites(ram, ops), path) == if path in m then Some(m[path]) else None
  {
    RunRefines(ram, ops);
    RamReadIsLookup(RunWrites(ram, ops), path);
    var i := IndexOf(StaticPaths(statics), path);
    assert i < |statics| ==> StaticPaths(statics)[i] == path;
  }

  // What every table that the system can reach has.

  /** No path twice, and no NUL in any path. */
  ghost predicate GoodRam(ram: Ram) {
    UniquePaths(ram) && forall i | 0 <= i < |ram| && ram[i].Used? :: NUL !in ram[i].path
  }

  lemma WriteKeepsGood(ram: Ram, path: seq<Byte>, data: seq<Byte>)
    requires GoodRam(ram)
    ensures GoodRam(WriteFile(ram, CString(path), data))
  {
    WriteKeepsUnique(ram, CString(path), data);
  }

  // The table itself.

  /** One entry: fixed buffers of which a prefix is in use. */
  datatype RamFile = RamFile(used: bool, pathLen: nat, dataLen: nat, path: seq<Byte>, data: seq<Byte>) {
    predicate Valid() {
      && |path| == MAX_RAM_PATH_LEN && pathLen <= MAX_RAM_PATH_LEN
      && |data| == MAX_RAM_FILE_LEN && dataLen <= MAX_RAM_FILE_LEN
    }

    function AsSlot(): Slot
      requires Valid()
    {
      if used then Used(path[..pathLen], data[..dataLen]) else Free
    }
  }

  predicate AllValid(files: seq<RamFile>) {
    forall i | 0 <= i < |files| :: files[i].Valid()
  }

  function AsSlots(files: seq<RamFile>): Ram
    requires AllValid(files)
  {
    seq(|files|, i requires 0 <= i < |files| => files[i].AsSlot())
  }

  class FileSystem {
    const statics: seq<FileEntry>
    const files: array<RamFile>

    ghost predicate Valid()
      reads files
    {
      files.Length == MAX_RAM_FILES && AllValid(files[..])
    }

    function Table(): Ram
      requires Valid()
      reads files
    {
      AsSlots(files[..])
    }

    constructor (statics: seq<FileEntry>)
      ensures Valid() && fresh(files) && this.statics == statics
      ensures Table() == seq(MAX_RAM_FILES, _ => Free)
    {
      this.statics := statics;
      var empty := RamFile(false, 0, 0, seq(MAX_RAM_PATH_LEN, _ => NUL), seq(MAX_RAM_FILE_LEN, _ => NUL));
      files := new RamFile[MAX_RAM_FILES](_ => empty);
    }

    method ReadStatic(path: seq<Byte>) returns (r: Option<seq<Byte>>)
      ensures r == StaticRead(statics, path)
    {
      var i := 0;
      while i < |statics|
        invariant i <= |statics|
        invariant forall j | 0 <= j < i :: StaticPaths(statics)[j] != path
      {
        if statics[i].path == path {
          FirstIs(StaticPaths(statics), path, i);
          return Some(statics[i].data);
        }
        i := i + 1;
      }
      return None;
    }

    /** Copies the file to out as far as it fits. */
    method ReadFileBytes(path: seq<Byte>, out: array<Byte>) returns (r: Option<nat>)
      requires Valid()
      modifies out
      ensures Valid() && Table() == old(Table())
      ensures var spec := ReadFile(statics, Table(), path);
              && (r.Some? <==> spec.Some?)
              && (r.Some? ==> Holds(out[..], r.value, spec.value))
              && (r.None? ==> out[..] == old(out[..]))
    {
      var data := ReadStatic(path);
      if data == None {
        data := FindRam(path);
      }
      if data == None { return None; }
      var copyLen := Min(|data.value|, out.Length);
      CopyInto(out, 0, data.value[..copyLen]);
      assert out[..copyLen] == out[..0] + data.value[..copyLen];
      return Some(copyLen);
    }

    method FindRam(path: seq<Byte>) returns (r: Option<seq<Byte>>)
      requires Valid()
      ensures r == RamRead(Table(), path)
    {
      ghost var ram := Table();
      var i := 0;
      while i < MAX_RAM_FILES
        invariant i <= MAX_RAM_FILES
        invariant forall j | 0 <= j < i :: Keys(ram)[j] != Some(path)
      {
        var file := files[i];
        assert ram[i] == file.AsSlot() && Keys(ram)[i] == Key(ram[i]);
        if file.used && file.pathLen == |path| && file.path[..file.pathLen] == path {
          FirstIs(Keys(ram), Some(path), i);
          return Some(file.data[..file.dataLen]);
        }
        i := i + 1;
      }
      return None;
    }

    /** The two loops of a write: the entry that holds the path, else a free one. */
    method WriteFileData(path: seq<Byte>, data: seq<Byte>) returns (ok: bool)
      requires Valid()
      modifies files
      ensures Valid() && ok == CanWrite(old(Table()), path)
      ensures Table() == WriteFile(old(Table()), path, data)
    {
      if path == [] || |path| > MAX_RAM_PATH_LEN { return false; }
      ghost var ram := Table();
      var copyLen := Min(|data|, MAX_RAM_FILE_LEN);
      assert Take(data, MAX_RAM_FILE_LEN) == data[..copyLen] == Take(data[..copyLen], MAX_RAM_FILE_LEN);
      var i := 0;
      while i < MAX_RAM_FILES
        invariant i <= MAX_RAM_FILES && Valid() && Table() == ram
        invariant forall j | 0 <= j < i :: Keys(ram)[j] != Some(path)
      {
        var file := files[i];
        assert ram[i] == file.AsSlot() && Keys(ram)[i] == Key(ram[i]);
        if file.used && file.pathLen == |path| && file.path[..file.pathLen] == path {
          FirstIs(Keys(ram), Some(path), i);
          files[i] := file.(dataLen := copyLen, data := Overwrite(file.data, data[..copyLen]));
          assert Table() == ram[i := Used(path, data[..copyLen])];
          return true;
        }
        i := i + 1;
      }
      assert Some(path) !in Keys(ram);
      ok := WriteFree(path, data[..copyLen]);
    }

    method WriteFree(path: seq<Byte>, data: seq<Byte>) returns (ok: bool)
      requires Valid() && ValidPath(path) && |data| <= MAX_RAM_FILE_LEN
      requires Some(path) !in Keys(Table())
      modifies files
      ensures Valid() && ok == CanWrite(old(Table()), path)
      ensures Table() == WriteFile(old(Table()), path, data)
    {
      ghost var ram := Table();
      var i := 0;
      while i < MAX_RAM_FILES
        invariant i <= MAX_RAM_FILES && Valid() && Table() == ram
        invariant forall j | 0 <= j < i :: Keys(ram)[j] != None
      {
        var file := files[i];
        assert ram[i] == file.AsSlot() && Keys(ram)[i] == Key(ram[i]);
        if !file.used {
          FirstIs(Keys(ram), None, i);
          files[i] := RamFile(true, |path|, |data|, Overwrite(file.path, path), Overwrite(file.data, data));
          assert Table() == ram[i := Used(path, data)];
          return true;
        }
        i := i + 1;
      }
      return false;
    }
  }
}
