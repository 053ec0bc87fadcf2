/** Directory listing: the kernel's deduplicating encoder of first path components and the
    decoder in ls. */
module DirListing {
  import opened Bytes
  import opened RamFiles

  const MAX_DIR: nat := 126

  // What a listing should hold.

  /** The directory path with a trailing slash; longer paths are cut at 126 bytes. */
  function DirPrefix(path: seq<Byte>): seq<Byte> {
    if path == [SLASH] then [SLASH] else Take(path, MAX_DIR) + [SLASH]
  }

  /** The first path component behind the prefix, empty when the entry is not under it. */
  function Component(entry: seq<Byte>, prefix: seq<Byte>): (c: seq<Byte>)
    ensures SLASH !in c
    ensures c != [] ==> prefix + c <= entry
  {
    if prefix <= entry then
      var rest := entry[|prefix|..];
      rest[..IndexOf(rest, SLASH)]
    else []
  }

  /** The non-empty components of all entries, in order. */
  function Components(entries: seq<seq<Byte>>, prefix: seq<Byte>): seq<seq<Byte>> {
    if entries == [] then []
    else
      var init := Components(entries[..|entries| - 1], prefix);
      var c := Component(entries[|entries| - 1], prefix);
      if c == [] then init else init + [c]
  }

  /** First appearances only. */
  function Distinct(names: seq<seq<Byte>>): seq<seq<Byte>> {
    if names == [] then []
    else
      var init := Distinct(names[..|names| - 1]);
      var last := names[|names| - 1];
      if last in init then init else init + [last]
  }

  /** NUL-terminated names one after the other. */
  function Encode(names: seq<seq<Byte>>): seq<Byte> {
    if names == [] then [] else Encode(names[..|names| - 1]) + names[|names| - 1] + [NUL]
  }

  /** The names that get into a buffer of the given capacity: a new name that does not fit
      is skipped, a later shorter one may still fit. */
  function Fitting(entries: seq<seq<Byte>>, prefix: seq<Byte>, capacity: nat): seq<seq<Byte>> {
    if entries == [] then []
    else
      AddName(Fitting(entries[..|entries| - 1], prefix, capacity), Component(entries[|entries| - 1], prefix), capacity)
  }

  function AddName(names: seq<seq<Byte>>, c: seq<Byte>, capacity: nat): seq<seq<Byte>> {
    if c == [] || c in names || |Encode(names)| + |c| + 1 > capacity then names else names + [c]
  }

  predicate CleanNames(names: seq<seq<Byte>>) {
    && (forall k | 0 <= k < |names| :: names[k] != [] && NUL !in names[k])
    && (forall j, k | 0 <= j < k < |names| :: names[j] != names[k])
  }

  predicate NulFree(entries: seq<seq<Byte>>) {
    forall k | 0 <= k < |entries| :: NUL !in entries[k]
  }

  /** c names the entry in the directory, or the subdirectory the entry lies in. */
  predicate IsUnder(entry: seq<Byte>, prefix: seq<Byte>, c: seq<Byte>) {
    SLASH !in c && (entry == prefix + c || prefix + c + [SLASH] <= entry)
  }

  lemma ComponentIsUnder(entry: seq<Byte>, prefix: seq<Byte>)
    requires Component(entry, prefix) != []
    ensures IsUnder(entry, prefix, Component(entry, prefix))
  {
  }

  lemma UnderIsComponent(entry: seq<Byte>, prefix: seq<Byte>, c: seq<Byte>)
    requires IsUnder(entry, prefix, c)
    ensures Component(entry, prefix) == c
  {
    if entry == prefix + c {
      assert entry[|prefix|..] == c && IndexOf(c, SLASH) == |c|;
    } else {
      var rest := entry[|prefix|..];
      assert entry[..|prefix + c + [SLASH]|] == prefix + c + [SLASH];
      assert prefix <= entry && rest[..|c|] == c && rest[|c|] == SLASH;
      assert forall j | 0 <= j < |c| :: rest[j] == rest[..|c|][j];
      FirstIs(rest, SLASH, |c|);
    }
  }

  /** What is listed for an entry: the name of a file in the directory itself, or of the
      subdirectory the entry lies in. */
  lemma ComponentMeans(entry: seq<Byte>, prefix: seq<Byte>, c: seq<Byte>)
    requires c != []
    ensures Component(entry, prefix) == c <==> IsUnder(entry, prefix, c)
  {
    if Component(entry, prefix) == c { ComponentIsUnder(entry, prefix); }
    if IsUnder(entry, prefix, c) { UnderIsComponent(entry, prefix, c); }
  }

  lemma {:induction false} DistinctMeans(names: seq<seq<Byte>>)
    ensures forall c :: c in Distinct(names) <==> c in names
    ensures forall j, k | 0 <= j < k < |Distinct(names)| :: Distinct(names)[j] != Distinct(names)[k]
  {
    if names != [] {
      var n := |names| - 1;
      DistinctMeans(names[..n]);
      assert names == names[..n] + [names[n]];
    }
  }

  lemma ComponentNulFree(entry: seq<Byte>, prefix: seq<Byte>)
    requires NUL !in entry
    ensures NUL !in Component(entry, prefix)
  {
  }

  lemma EncodeAppend(names: seq<seq<Byte>>, c: seq<Byte>)
    ensures Encode(names + [c]) == Encode(names) + c + [NUL]
  {
  }

  lemma AddNameKeepsClean(names: seq<seq<Byte>>, c: seq<Byte>, capacity: nat)
    requires CleanNames(names) && |Encode(names)| <= capacity && NUL !in c
    ensures CleanNames(AddName(names, c, capacity)) && |Encode(AddName(names, c, capacity))| <= capacity
  {
  }

  /** The listing is clean and fits, and what is in it are distinct components of entries
      under the prefix. */
  lemma {:induction false} FittingIsClean(entries: seq<seq<Byte>>, prefix: seq<Byte>, capacity: nat)
    requires NulFree(entries)
    ensures var names := Fitting(entries, prefix, capacity);
            CleanNames(names) && |Encode(names)| <= capacity
    ensures forall c | c in Fitting(entries, prefix, capacity) :: c in Distinct(Components(entries, prefix))
  {
    if entries != [] {
      var n := |entries| - 1;
      FittingIsClean(entries[..n], prefix, capacity);
      var c := Component(entries[n], prefix);
      ComponentNulFree(entries[n], prefix);
      AddNameKeepsClean(Fitting(entries[..n], prefix, capacity), c, capacity);
      DistinctAppend(Components(entries[..n], prefix), c);
    }
  }

  lemma DistinctAppend(all: seq<seq<Byte>>, c: seq<Byte>)
    ensures Distinct(all + [c]) == if c in Distinct(all) then Distinct(all) else Distinct(all) + [c]
  {
  }

  /** One entry more, with distinct the components seen so far and names those listed. */
  lemma AddNameKeepsComplete(names: seq<seq<Byte>>, distinct: seq<seq<Byte>>, c: seq<Byte>, capacity: nat)
    requires |Encode(names)| <= capacity && (|Encode(distinct)| <= capacity <==> names == distinct)
    ensures var next := if c == [] || c in distinct then distinct else distinct + [c];
            |Encode(next)| <= capacity <==> AddName(names, c, capacity) == next
    ensures |Encode(AddName(names, c, capacity))| <= capacity
  {
  }

  /** All distinct components are listed, in order of first appearance, exactly when their
      encoding fits the buffer. */
  lemma {:induction false} FittingIsComplete(entries: seq<seq<Byte>>, prefix: seq<Byte>, capacity: nat)
    ensures |Encode(Distinct(Components(entries, prefix)))| <= capacity
        <==> Fitting(entries, prefix, capacity) == Distinct(Components(entries, prefix))
    ensures |Encode(Fitting(entries, prefix, capacity))| <= capacity
  {
    if entries != [] {
      var n := |entries| - 1;
      FittingIsComplete(entries[..n], prefix, capacity);
      var all, c := Components(entries[..n], prefix), Component(entries[n], prefix);
      DistinctAppend(all, c);
      AddNameKeepsComplete(Fitting(entries[..n], prefix, capacity), Distinct(all), c, capacity);
    }
  }

  lemma RootComponent(name: seq<Byte>)
    requires SLASH !in name
    ensures Component([SLASH] + name, [SLASH]) == name
  {
    assert ([SLASH] + name)[1..] == name && name[..|name|] == name;
  }

  /** One entry more with a name. */
  lemma OneMoreEntry(entries: seq<seq<Byte>>, e: seq<Byte>, prefix: seq<Byte>, capacity: nat)
    requires Component(e, prefix) != []
    ensures Components(entries + [e], prefix) == Components(entries, prefix) + [Component(e, prefix)]
    ensures Fitting(entries + [e], prefix, capacity)
         == AddName(Fitting(entries, prefix, capacity), Component(e, prefix), capacity)
  {
    assert (entries + [e])[..|entries|] == entries;
  }

  lemma AddToNames(short: seq<Byte>, capacity: nat)
    requires short != [] && |short| + 1 <= capacity
    ensures AddName([], short, capacity) == [short] && AddName([short], short, capacity) == [short]
  {
  }

  /** A name that does not fit is left out, and a later one that does is listed all the same:
      the listing need not be a prefix of the names. */
  lemma {:induction false} LongNameIsSkipped(first: seq<Byte>, rest: seq<seq<Byte>>, short: seq<Byte>,
                                             prefix: seq<Byte>, capacity: nat)
    requires rest != [] && forall k | 0 <= k < |rest| :: Component(rest[k], prefix) == short
    requires short != [] && |short| + 1 <= capacity <= |Component(first, prefix)|
    ensures Distinct(Components([first] + rest, prefix)) == [Component(first, prefix), short]
    ensures Fitting([first] + rest, prefix, capacity) == [short]
  {
    var init, last := [first] + rest[..|rest| - 1], rest[|rest| - 1];
    assert [first] + rest == init + [last];
    if |rest| == 1 {
      FirstEntry(first, prefix, capacity);
      assert init == [first];
    } else {
      LongNameIsSkipped(first, rest[..|rest| - 1], short, prefix, capacity);
    }
    OneMoreShort(init, last, Component(first, prefix), short, prefix, capacity);
  }

  lemma OneMoreShort(init: seq<seq<Byte>>, e: seq<Byte>, long: seq<Byte>, short: seq<Byte>,
                     prefix: seq<Byte>, capacity: nat)
    requires Component(e, prefix) == short != [] && |short| + 1 <= capacity <= |long|
    requires Distinct(Components(init, prefix)) == [long] || Distinct(Components(init, prefix)) == [long, short]
    requires Fitting(init, prefix, capacity) == [] || Fitting(init, prefix, capacity) == [short]
    ensures Distinct(Components(init + [e], prefix)) == [long, short]
    ensures Fitting(init + [e], prefix, capacity) == [short]
  {
    OneMoreEntry(init, e, prefix, capacity);
    DistinctAppend(Components(init, prefix), short);
    AddToNames(short, capacity);
  }

  lemma FirstEntry(first: seq<Byte>, prefix: seq<Byte>, capacity: nat)
    requires 0 < capacity <= |Component(first, prefix)|
    ensures Components([first], prefix) == [Component(first, prefix)] && Fitting([first], prefix, capacity) == []
    ensures Distinct([Component(first, prefix)]) == [Component(first, prefix)]
  {
    assert [first][..0] == [] && [] + [Component(first, prefix)] == [Component(first, prefix)];
  }

  const SHIPPED: seq<seq<Byte>> := [Str("/hello.txt"), Str("/bin/init"), Str("/bin/echo"), Str("/bin/env"),
                                    Str("/bin/ls"), Str("/bin/cat"), Str("/bin/tee"), Str("/bin/sed")]

  lemma BinComponent(entry: seq<Byte>)
    requires Str("/bin/") <= entry
    ensures Component(entry, [SLASH]) == Str("bin")
  {
    var rest := entry[1..];
    assert entry[0] == Str("/bin/")[0] == SLASH && entry[1] == Str("/bin/")[1] && entry[2] == Str("/bin/")[2];
    assert entry[3] == Str("/bin/")[3] && entry[4] == Str("/bin/")[4] == SLASH;
    FirstIs(rest, SLASH, 3);
    assert rest[..3] == Str("bin");
  }

  /** The root of the built-in files, listed into 4 to 9 bytes: "bin" is there and "hello.txt",
      which comes first, is not. */
  lemma ShippedRootListing(capacity: nat)
    requires 4 <= capacity <= 9
    ensures Fitting(SHIPPED, [SLASH], capacity) == [Str("bin")]
    ensures Distinct(Components(SHIPPED, [SLASH])) == [Str("hello.txt"), Str("bin")]
  {
    var first, rest := SHIPPED[0], SHIPPED[1..];
    assert SHIPPED == [first] + rest;
    assert first == [SLASH] + Str("hello.txt");
    RootComponent(Str("hello.txt"));
    forall k | 0 <= k < |rest| ensures Component(rest[k], [SLASH]) == Str("bin") {
      InBin(k);
      BinComponent(rest[k]);
    }
    assert |Str("bin")| == 3 && |Str("hello.txt")| == 9;
    LongNameIsSkipped(first, rest, Str("bin"), [SLASH], capacity);
  }

  lemma InBin(k: nat)
    requires k < |SHIPPED| - 1
    ensures Str("/bin/") <= SHIPPED[1..][k]
  {
    assert SHIPPED[1] == Str("/bin/init") && SHIPPED[2] == Str("/bin/echo") && SHIPPED[3] == Str("/bin/env");
    assert SHIPPED[4] == Str("/bin/ls") && SHIPPED[5] == Str("/bin/cat") && SHIPPED[6] == Str("/bin/tee");
    assert SHIPPED[7] == Str("/bin/sed");
    assert k == 0 || k == 1 || k == 2 || k == 3 || k == 4 || k == 5 || k == 6;
  }

  // The encoder.

  lemma {:induction false} EncodePrefix(names: seq<seq<Byte>>, k: nat)
    requires k < |names|
    ensures Encode(names[..k]) + names[k] + [NUL] <= Encode(names)
  {
    EncodeAppend(names[..k], names[k]);
    assert names[..k + 1] == names[..k] + [names[k]];
    if k + 1 < |names| {
      var n := |names| - 1;
      EncodePrefix(names[..n], k);
      assert names[..n][..k] == names[..k];
    }
  }

  /** The k-th name sits behind the encoding of the names before it, up to the first NUL. */
  lemma NameInBuffer(names: seq<seq<Byte>>, k: nat, buf: seq<Byte>)
    requires CleanNames(names) && k < |names| && buf == Encode(names)
    ensures var at := |Encode(names[..k])|;
            && at + |names[k]| < |buf| && buf[at..at + |names[k]|] == names[k] && buf[at + |names[k]|] == NUL
            && |Encode(names[..k + 1])| == at + |names[k]| + 1
  {
    EncodePrefix(names, k);
    var part := Encode(names[..k]) + names[k] + [NUL];
    assert buf[..|part|] == part;
    assert names[..k + 1] == names[..k] + [names[k]];
    EncodeAppend(names[..k], names[k]);
  }

  /** Scans the used part of the buffer for the component. */
  method IsListed(buf: array<Byte>, offset: nat, component: seq<Byte>, ghost names: seq<seq<Byte>>)
    returns (found: bool)
    requires offset <= buf.Length && buf[..offset] == Encode(names) && CleanNames(names)
    requires NUL !in component && component != []
    ensures found <==> component in names
  {
    ghost var k := 0;
    var checkOffset := 0;
    ghost var all := buf[..offset];
    while checkOffset < offset
      invariant k <= |names| && checkOffset == |Encode(names[..k])| <= offset
      invariant component !in names[..k]
      decreases offset - checkOffset
    {
      assert names[..|names|] == names;
      assert k < |names|;
      NameInBuffer(names, k, all);
      var len := 0;
      assert forall j | 0 <= j < |names[k]| :: all[checkOffset..checkOffset + |names[k]|][j] == names[k][j];
      assert forall j | checkOffset <= j < checkOffset + |names[k]| :: buf[j] == all[j] != NUL;
      assert buf[checkOffset + |names[k]|] == all[checkOffset + |names[k]|] == NUL;
      while checkOffset + len < offset && buf[checkOffset + len] != NUL
        invariant 0 <= len <= |names[k]|
      {
        len := len + 1;
      }
      assert len == |names[k]|;
      assert buf[checkOffset..checkOffset + len] == all[checkOffset..checkOffset + len] == names[k];
      if len == |component| && buf[checkOffset..checkOffset + len] == component {
        return true;
      }
      assert names[..k + 1] == names[..k] + [names[k]];
      checkOffset := checkOffset + len + 1;
      k := k + 1;
    }
    if k < |names| {
      NameInBuffer(names, k, all);
      assert false;
    }
    assert names[..k] == names;
    return false;
  }

  method WriteName(buf: array<Byte>, offset: nat, name: seq<Byte>) returns (next: nat)
    requires offset + |name| + 1 <= buf.Length
    modifies buf
    ensures next == offset + |name| + 1 && buf[..next] == old(buf[..offset]) + name + [NUL]
  {
    CopyInto(buf, offset, name);
    CopyInto(buf, offset + |name|, [NUL]);
    next := offset + |name| + 1;
  }

  method AppendPathComponent(entry: seq<Byte>, prefix: seq<Byte>, buf: array<Byte>, offset: nat,
                             ghost names: seq<seq<Byte>>)
    returns (next: nat)
    requires offset <= buf.Length && buf[..offset] == Encode(names) && CleanNames(names) && NUL !in entry
    modifies buf
    ensures var now := AddName(names, Component(entry, prefix), buf.Length);
            next <= buf.Length && buf[..next] == Encode(now) && CleanNames(now)
  {
    next := offset;
    if !(prefix <= entry) { return; }
    var remainder := entry[|prefix|..];
    var component := remainder[..IndexOf(remainder, SLASH)];
    if component == [] { return; }
    AddNameKeepsClean(names, component, buf.Length);
    var alreadyAdded := IsListed(buf, offset, component, names);
    if !alreadyAdded {
      if next + |component| + 1 <= buf.Length {
        EncodeAppend(names, component);
        next := WriteName(buf, next, component);
      }
    }
  }

  /** The paths a listing looks at: the built-in files, then the RAM files in table order. */
  function EntryPaths(statics: seq<FileEntry>, ram: Ram): seq<seq<Byte>> {
    StaticPaths(statics) + UsedPaths(ram)
  }

  function UsedPaths(ram: Ram): seq<seq<Byte>> {
    if ram == [] then []
    else
      var init := UsedPaths(ram[..|ram| - 1]);
      if ram[|ram| - 1].Free? then init else init + [ram[|ram| - 1].path]
  }

  /** The buffer holds the listing of the entries. */
  ghost predicate Lists(buf: seq<Byte>, offset: nat, entries: seq<seq<Byte>>, prefix: seq<Byte>) {
    offset <= |buf| && buf[..offset] == Encode(Fitting(entries, prefix, |buf|))
  }

  /** One more entry. */
  method ListEntry(entry: seq<Byte>, prefix: seq<Byte>, buf: array<Byte>, offset: nat, ghost entries: seq<seq<Byte>>)
    returns (next: nat)
    requires Lists(buf[..], offset, entries, prefix) && NulFree(entries) && NUL !in entry
    modifies buf
    ensures Lists(buf[..], next, entries + [entry], prefix)
  {
    ghost var names := Fitting(entries, prefix, buf.Length);
    FittingIsClean(entries, prefix, buf.Length);
    assert (entries + [entry])[..|entries|] == entries;
    next := AppendPathComponent(entry, prefix, buf, offset, names);
  }

  method ListStatics(statics: seq<FileEntry>, prefix: seq<Byte>, buf: array<Byte>) returns (offset: nat)
    requires NulFree(StaticPaths(statics))
    modifies buf
    ensures Lists(buf[..], offset, StaticPaths(statics), prefix)
  {
    offset := 0;
    ghost var paths := StaticPaths(statics);
    var i := 0;
    while i < |statics|
      invariant i <= |statics| && Lists(buf[..], offset, paths[..i], prefix)
    {
      assert paths[..i + 1] == paths[..i] + [statics[i].path] && paths[i] == statics[i].path;
      offset := ListEntry(statics[i].path, prefix, buf, offset, paths[..i]);
      i := i + 1;
    }
    assert paths[..i] == paths;
  }

  /** The built-in paths and those of the first j RAM files. */
  function EntriesUpTo(statics: seq<FileEntry>, ram: Ram, j: nat): seq<seq<Byte>>
    requires j <= |ram|
  {
    EntryPaths(statics, ram[..j])
  }

  /** The loop body over the RAM files: a used entry is listed, a free one is skipped. */
  method ListFile(file: RamFile, prefix: seq<Byte>, buf: array<Byte>, offset: nat,
                  ghost statics: seq<FileEntry>, ghost ram: Ram, ghost j: nat)
    returns (next: nat)
    requires file.Valid() && j < |ram| && ram[j] == file.AsSlot() && NulFree(EntryPaths(statics, ram))
    requires Lists(buf[..], offset, EntriesUpTo(statics, ram, j), prefix)
    modifies buf
    ensures Lists(buf[..], next, EntriesUpTo(statics, ram, j + 1), prefix)
  {
    next := offset;
    NextEntry(statics, ram, j);
    if file.used {
      next := ListEntry(file.path[..file.pathLen], prefix, buf, offset, EntriesUpTo(statics, ram, j));
    }
  }

  method ListRam(fs: FileSystem, prefix: seq<Byte>, buf: array<Byte>, start: nat) returns (offset: nat)
    requires fs.Valid() && NulFree(EntryPaths(fs.statics, fs.Table()))
    requires Lists(buf[..], start, StaticPaths(fs.statics), prefix)
    modifies buf
    ensures fs.Valid() && fs.Table() == old(fs.Table())
    ensures Lists(buf[..], offset, EntryPaths(fs.statics, fs.Table()), prefix)
  {
    offset := start;
    ghost var statics, ram := fs.statics, fs.Table();
    NothingUsed(statics, ram);
    var j := 0;
    while j < MAX_RAM_FILES
      invariant j <= MAX_RAM_FILES && fs.Valid() && fs.Table() == ram
      invariant Lists(buf[..], offset, EntriesUpTo(statics, ram, j), prefix)
    {
      assert ram[j] == fs.files[j].AsSlot();
      offset := ListFile(fs.files[j], prefix, buf, offset, statics, ram, j);
      j := j + 1;
    }
    assert ram[..j] == ram;
  }

  lemma NothingUsed(statics: seq<FileEntry>, ram: Ram)
    ensures EntriesUpTo(statics, ram, 0) == StaticPaths(statics)
  {
    assert ram[..0] == [] && UsedPaths([]) == [];
    assert StaticPaths(statics) + [] == StaticPaths(statics);
  }

  method ListDir(fs: FileSystem, path: seq<Byte>, buf: array<Byte>) returns (offset: nat)
    requires fs.Valid() && NulFree(EntryPaths(fs.statics, fs.Table()))
    modifies buf
    ensures fs.Valid() && fs.Table() == old(fs.Table())
    ensures Lists(buf[..], offset, EntryPaths(fs.statics, fs.Table()), DirPrefix(path))
    ensures ListingOf(Decode(buf[..offset]), EntryPaths(fs.statics, fs.Table()), path, buf.Length - offset)
  {
    var prefix := if path == [SLASH] then [SLASH] else path[..Min(|path|, MAX_DIR)] + [SLASH];
    assert prefix == DirPrefix(path);
    assert UsedPaths([]) == [] && StaticPaths(fs.statics) + [] == StaticPaths(fs.statics);
    EntriesNulFree(fs.statics, fs.Table(), 0);
    assert fs.Table()[..0] == [];
    offset := ListStatics(fs.statics, prefix, buf);
    offset := ListRam(fs, prefix, buf, offset);
    ListsMeans(buf[..], offset, EntryPaths(fs.statics, fs.Table()), path);
  }

  /** The names in the buffer are those of the directory. */
  lemma ListsMeans(buf: seq<Byte>, offset: nat, entries: seq<seq<Byte>>, dir: seq<Byte>)
    requires Lists(buf, offset, entries, DirPrefix(dir)) && NulFree(entries)
    ensures ListingOf(Decode(buf[..offset]), entries, dir, |buf| - offset)
  {
    FittingIsListing(entries, dir, |buf|);
    FittingIsClean(entries, DirPrefix(dir), |buf|);
    DecodeEncoded(Fitting(entries, DirPrefix(dir), |buf|));
  }

  lemma {:induction false} UsedPathsGrow(ram: Ram, j: nat)
    requires j <= |ram|
    ensures UsedPaths(ram[..j]) <= UsedPaths(ram)
    decreases |ram|
  {
    if j < |ram| {
      UsedPathsGrow(ram[..|ram| - 1], j);
      assert ram[..|ram| - 1][..j] == ram[..j];
    } else {
      assert ram[..j] == ram;
    }
  }

  lemma EntriesNulFree(statics: seq<FileEntry>, ram: Ram, j: nat)
    requires j <= |ram| && NulFree(EntryPaths(statics, ram))
    ensures NulFree(StaticPaths(statics) + UsedPaths(ram[..j]))
    ensures j < |ram| && ram[j].Used? ==> NUL !in ram[j].path
  {
    var all := EntryPaths(statics, ram);
    UsedPathsGrow(ram, j);
    var part := StaticPaths(statics) + UsedPaths(ram[..j]);
    assert forall k | 0 <= k < |part| :: part[k] == all[k];
    if j < |ram| && ram[j].Used? {
      UsedPathsGrow(ram, j + 1);
      assert ram[..j + 1][..j] == ram[..j];
      var k := |UsedPaths(ram[..j])|;
      assert UsedPaths(ram[..j + 1])[k] == ram[j].path == all[|statics| + k];
    }
  }

  lemma NextEntry(statics: seq<FileEntry>, ram: Ram, j: nat)
    requires j < |ram| && NulFree(EntryPaths(statics, ram))
    ensures NulFree(EntriesUpTo(statics, ram, j)) && (ram[j].Used? ==> NUL !in ram[j].path)
    ensures EntriesUpTo(statics, ram, j + 1)
         == if ram[j].Used? then EntriesUpTo(statics, ram, j) + [ram[j].path] else EntriesUpTo(statics, ram, j)
  {
    EntriesNulFree(statics, ram, j);
    assert ram[..j + 1][..j] == ram[..j];
    if ram[j].Used? {
      ConcatAssoc(StaticPaths(statics), UsedPaths(ram[..j]), [ram[j].path]);
    }
  }

  lemma {:induction false} UsedNulFree(ram: Ram)
    ensures NulFree(UsedPaths(ram)) <==> forall i | 0 <= i < |ram| && ram[i].Used? :: NUL !in ram[i].path
  {
    if ram != [] {
      var n := |ram| - 1;
      var init := UsedPaths(ram[..n]);
      UsedNulFree(ram[..n]);
      assert forall i | 0 <= i < n :: ram[..n][i] == ram[i];
      if ram[n].Used? { AppendNulFree(init, ram[n].path); }
    }
  }

  lemma AppendNulFree(paths: seq<seq<Byte>>, path: seq<Byte>)
    ensures NulFree(paths + [path]) <==> NulFree(paths) && NUL !in path
  {
    var all := paths + [path];
    assert all[|paths|] == path && forall k | 0 <= k < |paths| :: all[k] == paths[k];
  }

  /** Paths reach the table as C strings, so every table that writes produce can be listed. */
  lemma {:induction false} WritesKeepNulFree(ram: Ram, ops: seq<WriteOp>)
    requires NulFree(UsedPaths(ram)) && forall k | 0 <= k < |ops| :: NUL !in ops[k].path
    ensures NulFree(UsedPaths(RunWrites(ram, ops)))
  {
    if ops != [] {
      var n := |ops| - 1;
      WritesKeepNulFree(ram, ops[..n]);
      UsedNulFree(RunWrites(ram, ops[..n]));
      UsedNulFree(RunWrites(ram, ops));
    }
  }

  // The decoder.

  /** The non-empty NUL-separated pieces. */
  function Decode(s: seq<Byte>): seq<seq<Byte>> {
    NonEmpty(SplitOn(s, NUL))
  }

  function NonEmpty(pieces: seq<seq<Byte>>): seq<seq<Byte>> {
    if pieces == [] then []
    else if pieces[0] == [] then NonEmpty(pieces[1..])
    else [pieces[0]] + NonEmpty(pieces[1..])
  }

  /** What is decoded from position i on. */
  ghost function DecodeFrom(buf: seq<Byte>, i: nat): seq<seq<Byte>> {
    if i <= |buf| then Decode(buf[i..]) else []
  }

  lemma NonEmptyFirst(a: seq<Byte>, rest: seq<seq<Byte>>)
    ensures NonEmpty([a] + rest) == (if a == [] then [] else [a]) + NonEmpty(rest)
  {
  }

  lemma DecodeAt(buf: seq<Byte>, i: nat, j: nat)
    requires i <= j <= |buf| && (forall k | i <= k < j :: buf[k] != NUL) && (j < |buf| ==> buf[j] == NUL)
    ensures DecodeFrom(buf, i) == (if i == j then [] else [buf[i..j]]) + DecodeFrom(buf, j + 1)
  {
    var s := buf[i..];
    if j < |buf| {
      FirstIs(s, NUL, j - i);
      assert s[..j - i] == buf[i..j] && s[j - i + 1..] == buf[j + 1..];
      NonEmptyFirst(buf[i..j], SplitOn(buf[j + 1..], NUL));
    } else {
      assert IndexOf(s, NUL) == |s| && s == buf[i..j];
      NonEmptyFirst(s, []);
      assert [s] + [] == [s];
    }
  }

  lemma DecodeNothing()
    ensures Decode([]) == []
  {
    NonEmptyFirst([], []);
    var pieces: seq<seq<Byte>> := [[]];
    assert pieces + [] == pieces && SplitOn<Byte>([], NUL) == pieces;
  }

  /** One name more, or none when the piece is empty. */
  lemma DecodeStep(buf: seq<Byte>, i: nat, j: nat, names: seq<seq<Byte>>)
    requires i <= j <= |buf| && (forall k | i <= k < j :: buf[k] != NUL) && (j < |buf| ==> buf[j] == NUL)
    ensures names + DecodeFrom(buf, i)
         == (if i == j then names else names + [buf[i..j]]) + DecodeFrom(buf, j + 1)
  {
    DecodeAt(buf, i, j);
    ConcatAssoc(names, if i == j then [] else [buf[i..j]], DecodeFrom(buf, j + 1));
    assert names + [] == names;
  }

  /** The names read so far, and those that are still to come. */
  ghost predicate Reading(buf: seq<Byte>, i: nat, names: seq<seq<Byte>>) {
    Decode(buf) == names + DecodeFrom(buf, i)
  }

  lemma ReadingStarts(buf: seq<Byte>)
    ensures Reading(buf, 0, [])
  {
    assert buf[0..] == buf && [] + Decode(buf) == Decode(buf);
  }

  lemma ReadingStep(buf: seq<Byte>, i: nat, j: nat, names: seq<seq<Byte>>)
    requires i <= j <= |buf| && (forall k | i <= k < j :: buf[k] != NUL) && (j < |buf| ==> buf[j] == NUL)
    requires Reading(buf, i, names)
    ensures Reading(buf, j + 1, if i == j then names else names + [buf[i..j]])
  {
    DecodeStep(buf, i, j, names);
  }

  lemma ReadingEnds(buf: seq<Byte>, i: nat, names: seq<seq<Byte>>)
    requires i >= |buf| && Reading(buf, i, names)
    ensures names == Decode(buf)
  {
    if i == |buf| {
      assert buf[i..] == [];
      DecodeNothing();
    }
    assert names + [] == names;
  }

  method NameEnd(buf: seq<Byte>, i: nat) returns (j: nat)
    requires i <= |buf|
    ensures i <= j <= |buf| && (forall k | i <= k < j :: buf[k] != NUL) && (j < |buf| ==> buf[j] == NUL)
  {
    j := i;
    while j < |buf| && buf[j] != NUL
      invariant i <= j <= |buf| && forall k | i <= k < j :: buf[k] != NUL
    {
      j := j + 1;
    }
  }

  /** The loop of ls: each name up to its NUL, or to the end of the listing. */
  method ReadListing(buf: seq<Byte>) returns (names: seq<seq<Byte>>)
    ensures names == Decode(buf)
  {
    names := [];
    var i := 0;
    ReadingStarts(buf);
    while i < |buf|
      invariant i <= |buf| + 1 && Reading(buf, i, names)
    {
      var j := NameEnd(buf, i);
      ReadingStep(buf, i, j, names);
      if j > i {
        names := names + [buf[i..j]];
      }
      i := j + 1;
    }
    ReadingEnds(buf, i, names);
  }

  /** What ls reads is exactly what the kernel listed. */
  lemma {:induction false} DecodeEncoded(names: seq<seq<Byte>>)
    requires CleanNames(names)
    ensures Decode(Encode(names)) == names
  {
    if names == [] {
      DecodeNothing();
    } else {
      var rest := Encode(names[1..]);
      EncodeFromFront(names);
      SplitHead(names[0], NUL, rest);
      NonEmptyFirst(names[0], SplitOn(rest, NUL));
      assert Decode(Encode(names)) == [names[0]] + Decode(rest);
      DecodeEncoded(names[1..]);
    }
  }

  lemma {:induction false} EncodeFromFront(names: seq<seq<Byte>>)
    ensures names != [] ==> Encode(names) == names[0] + [NUL] + Encode(names[1..])
  {
    if |names| == 1 {
      assert names[..0] == [] && names[1..] == [];
    } else if |names| > 1 {
      var n := |names| - 1;
      EncodeFromFront(names[..n]);
      assert names[..n][1..] == names[1..][..n - 1];
      assert names[1..] == names[1..][..n - 1] + [names[n]];
      EncodeAppend(names[1..][..n - 1], names[n]);
      ConcatAssoc(names[0] + [NUL], Encode(names[1..][..n - 1]), names[n]);
      ConcatAssoc(names[0] + [NUL], Encode(names[1..][..n - 1]) + names[n], [NUL]);
    }
  }

  // What a listing means, in terms of paths alone.

  /** Directories are cut at 126 bytes; the root is the empty path with a slash behind it. */
  function Listed(dir: seq<Byte>): seq<Byte> {
    if dir == [SLASH] then [] else Take(dir, 126)
  }

  /** c is the name of the entry in the directory, or of the subdirectory the entry lies in. */
  predicate NamedIn(entry: seq<Byte>, dir: seq<Byte>, c: seq<Byte>) {
    && c != [] && SLASH !in c
    && (entry == Listed(dir) + [SLASH] + c || Listed(dir) + [SLASH] + c + [SLASH] <= entry)
  }

  ghost predicate HasName(entries: seq<seq<Byte>>, dir: seq<Byte>, c: seq<Byte>) {
    exists k | 0 <= k < |entries| :: NamedIn(entries[k], dir, c)
  }

  /** A listing with some bytes left in its buffer: each of its names is in the directory, none
      is there twice, and a name of the directory is missing only when it does not fit into
      what is left. */
  ghost predicate ListingOf(names: seq<seq<Byte>>, entries: seq<seq<Byte>>, dir: seq<Byte>, left: nat) {
    && NoRepeats(names)
    && (forall c | c in names :: HasName(entries, dir, c))
    && (forall c | HasName(entries, dir, c) && c !in names :: |c| + 1 > left)
  }

  ghost predicate NoRepeats(names: seq<seq<Byte>>) {
    forall j, k | 0 <= j < k < |names| :: names[j] != names[k]
  }

  lemma NamedInIsComponent(entry: seq<Byte>, dir: seq<Byte>, c: seq<Byte>)
    requires c != []
    ensures NamedIn(entry, dir, c) <==> Component(entry, DirPrefix(dir)) == c
  {
    ComponentMeans(entry, DirPrefix(dir), c);
    assert DirPrefix(dir) == Listed(dir) + [SLASH];
  }

  /** The same for a buffer that holds the encoded names. */
  ghost predicate FilledWith(names: seq<seq<Byte>>, entries: seq<seq<Byte>>, dir: seq<Byte>, capacity: nat) {
    |Encode(names)| <= capacity && ListingOf(names, entries, dir, capacity - |Encode(names)|)
  }

  lemma {:induction false} FittingIsListing(entries: seq<seq<Byte>>, dir: seq<Byte>, capacity: nat)
    ensures FilledWith(Fitting(entries, DirPrefix(dir), capacity), entries, dir, capacity)
  {
    if entries == [] {
      NothingListed(dir, capacity);
    } else {
      var init, last := entries[..|entries| - 1], entries[|entries| - 1];
      assert entries == init + [last];
      FittingIsListing(init, dir, capacity);
      OneMoreName(init, last, dir, Fitting(init, DirPrefix(dir), capacity), capacity);
      LastFitting(entries, DirPrefix(dir), capacity);
    }
  }

  lemma NothingListed(dir: seq<Byte>, capacity: nat)
    ensures FilledWith(Fitting([], DirPrefix(dir), capacity), [], dir, capacity)
  {
  }

  lemma LastFitting(entries: seq<seq<Byte>>, prefix: seq<Byte>, capacity: nat)
    requires entries != []
    ensures var n := |entries| - 1;
            Fitting(entries, prefix, capacity)
              == AddName(Fitting(entries[..n], prefix, capacity), Component(entries[n], prefix), capacity)
  {
  }

  lemma OneMoreName(entries: seq<seq<Byte>>, e: seq<Byte>, dir: seq<Byte>, names: seq<seq<Byte>>, capacity: nat)
    requires FilledWith(names, entries, dir, capacity)
    ensures FilledWith(AddName(names, Component(e, DirPrefix(dir)), capacity), entries + [e], dir, capacity)
  {
    var c := Component(e, DirPrefix(dir));
    forall d
      ensures HasName(entries + [e], dir, d) <==> HasName(entries, dir, d) || (d != [] && d == c)
    {
      OneMoreHasName(entries, e, dir, d);
    }
    if AddName(names, c, capacity) == names {
      NameStaysOut(entries, entries + [e], dir, names, c, capacity);
    } else {
      NameGetsIn(entries, entries + [e], dir, names, c, capacity);
    }
  }

  /** One name more in the directory that is not listed: it is there already, or does not fit. */
  lemma NameStaysOut(entries: seq<seq<Byte>>, more: seq<seq<Byte>>, dir: seq<Byte>, names: seq<seq<Byte>>,
                     c: seq<Byte>, capacity: nat)
    requires FilledWith(names, entries, dir, capacity)
    requires forall d :: HasName(more, dir, d) <==> HasName(entries, dir, d) || (d != [] && d == c)
    requires c == [] || c in names || |Encode(names)| + |c| + 1 > capacity
    ensures FilledWith(names, more, dir, capacity)
  {
  }

  lemma NameGetsIn(entries: seq<seq<Byte>>, more: seq<seq<Byte>>, dir: seq<Byte>, names: seq<seq<Byte>>,
                   c: seq<Byte>, capacity: nat)
    requires FilledWith(names, entries, dir, capacity)
    requires forall d :: HasName(more, dir, d) <==> HasName(entries, dir, d) || (d != [] && d == c)
    requires c != [] && c !in names && |Encode(names)| + |c| + 1 <= capacity
    ensures FilledWith(names + [c], more, dir, capacity)
  {
    EncodeAppend(names, c);
    assert forall d | d in names + [c] :: d in names || d == c;
  }

  lemma OneMoreHasName(entries: seq<seq<Byte>>, e: seq<Byte>, dir: seq<Byte>, d: seq<Byte>)
    ensures HasName(entries + [e], dir, d)
        <==> HasName(entries, dir, d) || (d != [] && d == Component(e, DirPrefix(dir)))
  {
    var all := entries + [e];
    assert all[|entries|] == e;
    if d != [] { NamedInIsComponent(e, dir, d); }
    if HasName(entries, dir, d) {
      var k :| 0 <= k < |entries| && NamedIn(entries[k], dir, d);
      assert NamedIn(all[k], dir, d);
    }
  }

  lemma {:induction false} UsedPathsMean(ram: Ram, p: seq<Byte>)
    ensures p in UsedPaths(ram) <==> exists i | 0 <= i < |ram| :: ram[i].Used? && ram[i].path == p
  {
    if ram != [] {
      var init, last := ram[..|ram| - 1], ram[|ram| - 1];
      UsedPathsMean(init, p);
      if i :| 0 <= i < |ram| && ram[i].Used? && ram[i].path == p { assert i < |init| ==> init[i] == ram[i]; }
      if i :| 0 <= i < |init| && init[i].Used? && init[i].path == p { assert ram[i] == init[i]; }
    }
  }

  lemma RamReadable(ram: Ram, p: seq<Byte>)
    ensures RamRead(ram, p).Some? <==> p in UsedPaths(ram)
  {
    UsedPathsMean(ram, p);
    if i :| 0 <= i < |ram| && ram[i].Used? && ram[i].path == p { assert Keys(ram)[i] == Some(p); }
    var k := IndexOf(Keys(ram), Some(p));
    assert k < |ram| ==> Keys(ram)[k] == Key(ram[k]) == Some(p);
  }

  /** A listing looks at exactly the files that can be read. */
  lemma EntriesAreReadable(statics: seq<FileEntry>, ram: Ram, p: seq<Byte>)
    ensures p in EntryPaths(statics, ram) <==> ReadFile(statics, ram, p).Some?
  {
    RamReadable(ram, p);
    var paths := StaticPaths(statics);
    if p in paths { var k := IndexOf(paths, p); assert k < |paths|; }
  }

  /** c names something in the directory exactly when a file there or below it can be read. */
  lemma HasNameMeans(statics: seq<FileEntry>, ram: Ram, dir: seq<Byte>, c: seq<Byte>)
    ensures HasName(EntryPaths(statics, ram), dir, c)
        <==> exists p :: NamedIn(p, dir, c) && ReadFile(statics, ram, p).Some?
  {
    var entries := EntryPaths(statics, ram);
    if HasName(entries, dir, c) {
      var k :| 0 <= k < |entries| && NamedIn(entries[k], dir, c);
      EntriesAreReadable(statics, ram, entries[k]);
    }
    if p :| NamedIn(p, dir, c) && ReadFile(statics, ram, p).Some? {
      EntriesAreReadable(statics, ram, p);
      var k :| 0 <= k < |entries| && entries[k] == p;
    }
  }

  lemma {:induction false} EncodeLength(a: seq<seq<Byte>>, b: seq<seq<Byte>>)
    ensures |Encode(a + b)| == |Encode(a)| + |Encode(b)|
  {
    if b == [] {
      assert a + b == a;
    } else {
      var init, last := b[..|b| - 1], b[|b| - 1];
      EncodeLength(a, init);
      assert a + b == a + init + [last];
      EncodeAppend(a + init, last);
    }
  }

  lemma {:induction false} FewerNamesAreShorter(some: seq<seq<Byte>>, all: seq<seq<Byte>>)
    requires NoRepeats(some) && forall c | c in some :: c in all
    ensures |Encode(some)| <= |Encode(all)|
  {
    if some != [] {
      var init, last := some[..|some| - 1], some[|some| - 1];
      assert last in some;
      var k :| 0 <= k < |all| && all[k] == last;
      var rest := all[..k] + all[k + 1..];
      forall c | c in init ensures c in rest {
        assert c in some && c != last;
        assert all == all[..k] + [last] + all[k + 1..];
      }
      FewerNamesAreShorter(init, rest);
      assert all == all[..k] + [last] + all[k + 1..];
      EncodeLength(all[..k], all[k + 1..]);
      EncodeLength(all[..k] + [last], all[k + 1..]);
      EncodeAppend(all[..k], last);
    }
  }

  /** Every name of the directory is in the listing exactly when all of them fit. */
  lemma ListsAllThatFit(names: seq<seq<Byte>>, entries: seq<seq<Byte>>, dir: seq<Byte>, capacity: nat,
                        all: seq<seq<Byte>>)
    requires FilledWith(names, entries, dir, capacity)
    requires NoRepeats(all) && forall c :: c in all <==> HasName(entries, dir, c)
    ensures (forall c | c in all :: c in names) <==> |Encode(all)| <= capacity
  {
    if forall c | c in all :: c in names { FewerNamesAreShorter(all, names); }
    if c :| c in all && c !in names {
      FewerNamesAreShorter(names + [c], all);
      EncodeAppend(names, c);
    }
  }

  const BIN_NAMES: seq<seq<Byte>> := [Str("init"), Str("echo"), Str("env"), Str("ls"),
                                      Str("cat"), Str("tee"), Str("sed")]

  function FilesIn(prefix: seq<Byte>, names: seq<seq<Byte>>): seq<seq<Byte>> {
    if names == [] then [] else FilesIn(prefix, names[..|names| - 1]) + [prefix + names[|names| - 1]]
  }

  lemma {:induction false} ComponentsOfFiles(first: seq<Byte>, prefix: seq<Byte>, names: seq<seq<Byte>>)
    requires Component(first, prefix) == []
    requires forall k | 0 <= k < |names| :: names[k] != [] && SLASH !in names[k]
    ensures Components([first] + FilesIn(prefix, names), prefix) == names
  {
    if names == [] {
      NoComponents(first, prefix);
    } else {
      var init, last := names[..|names| - 1], names[|names| - 1];
      var files := [first] + FilesIn(prefix, init);
      ComponentsOfFiles(first, prefix, init);
      UnderIsComponent(prefix + last, prefix, last);
      OneMoreEntry(files, prefix + last, prefix, 0);
      ConcatAssoc([first], FilesIn(prefix, init), [prefix + last]);
      assert init + [last] == names;
    }
  }

  lemma NoComponents(first: seq<Byte>, prefix: seq<Byte>)
    requires Component(first, prefix) == []
    ensures Components([first] + FilesIn(prefix, []), prefix) == []
  {
    assert [first] + [] == [first] && [first][..0] == [];
  }

  lemma {:induction false} DistinctOfNoRepeats(names: seq<seq<Byte>>)
    requires NoRepeats(names)
    ensures Distinct(names) == names
  {
    if names != [] { DistinctOfNoRepeats(names[..|names| - 1]); }
  }

  lemma StrConcat(s: string, t: string)
    ensures Str(s) + Str(t) == Str(s + t)
  {
  }

  lemma BinName(k: nat)
    requires k < 7
    ensures |BIN_NAMES[k]| == [4, 4, 3, 2, 3, 3, 3][k] && BIN_NAMES[k][0] == [105, 101, 101, 108, 99, 116, 115][k]
    ensures SLASH !in BIN_NAMES[k] && NUL !in BIN_NAMES[k]
  {
    assert k == 0 || k == 1 || k == 2 || k == 3 || k == 4 || k == 5 || k == 6;
    assert BIN_NAMES[0] == Str("init") && BIN_NAMES[1] == Str("echo") && BIN_NAMES[2] == Str("env");
    assert BIN_NAMES[3] == Str("ls") && BIN_NAMES[4] == Str("cat") && BIN_NAMES[5] == Str("tee");
    assert BIN_NAMES[6] == Str("sed");
  }

  lemma BinNames()
    ensures CleanNames(BIN_NAMES) && NoRepeats(BIN_NAMES)
    ensures forall k | 0 <= k < |BIN_NAMES| :: SLASH !in BIN_NAMES[k]
  {
    forall k | 0 <= k < 7
      ensures |BIN_NAMES[k]| == [4, 4, 3, 2, 3, 3, 3][k] && BIN_NAMES[k][0] == [105, 101, 101, 108, 99, 116, 115][k]
      ensures SLASH !in BIN_NAMES[k] && NUL !in BIN_NAMES[k]
    {
      BinName(k);
    }
  }

  lemma EncodeSplit(first: seq<Byte>, rest: seq<seq<Byte>>)
    ensures |Encode([first] + rest)| == |first| + 1 + |Encode(rest)|
  {
    EncodeLength([first], rest);
    EncodeAppend([], first);
    assert [] + [first] == [first];
  }

  lemma BinNamesLength()
    ensures |Encode(BIN_NAMES)| == 29
  {
    var init, echo, env, ls := Str("init"), Str("echo"), Str("env"), Str("ls");
    var cat, tee, sed := Str("cat"), Str("tee"), Str("sed");
    EncodeSplit(sed, []);
    EncodeSplit(tee, [sed]);
    EncodeSplit(cat, [tee, sed]);
    EncodeSplit(ls, [cat, tee, sed]);
    EncodeSplit(env, [ls, cat, tee, sed]);
    EncodeSplit(echo, [env, ls, cat, tee, sed]);
    EncodeSplit(init, [echo, env, ls, cat, tee, sed]);
    assert [sed] + [] == [sed] && [tee] + [sed] == [tee, sed] && [cat] + [tee, sed] == [cat, tee, sed];
    assert [ls] + [cat, tee, sed] == [ls, cat, tee, sed];
    assert [env] + [ls, cat, tee, sed] == [env, ls, cat, tee, sed];
    assert [echo] + [env, ls, cat, tee, sed] == [echo, env, ls, cat, tee, sed];
    assert [init] + [echo, env, ls, cat, tee, sed] == BIN_NAMES;
  }

  lemma {:induction false} FilesInAt(prefix: seq<Byte>, names: seq<seq<Byte>>)
    ensures |FilesIn(prefix, names)| == |names|
    ensures forall k | 0 <= k < |names| :: FilesIn(prefix, names)[k] == prefix + names[k]
  {
    if names != [] { FilesInAt(prefix, names[..|names| - 1]); }
  }

  lemma ShippedInBin(k: nat)
    requires k < 7
    ensures SHIPPED[k + 1] == Str("/bin/") + BIN_NAMES[k]
  {
    StrConcat("/bin/", "init");
    StrConcat("/bin/", "echo");
    StrConcat("/bin/", "env");
    StrConcat("/bin/", "ls");
    StrConcat("/bin/", "cat");
    StrConcat("/bin/", "tee");
    StrConcat("/bin/", "sed");
    assert k == 0 || k == 1 || k == 2 || k == 3 || k == 4 || k == 5 || k == 6;
  }

  lemma ShippedIsBin()
    ensures SHIPPED == [Str("/hello.txt")] + FilesIn(Str("/bin/"), BIN_NAMES)
  {
    FilesInAt(Str("/bin/"), BIN_NAMES);
    forall k | 0 <= k < 7 ensures SHIPPED[k + 1] == FilesIn(Str("/bin/"), BIN_NAMES)[k] { ShippedInBin(k); }
  }

  lemma BinPrefix()
    ensures DirPrefix(Str("/bin")) == Str("/bin/") && Component(Str("/hello.txt"), Str("/bin/")) == []
  {
    StrConcat("/bin", "/");
    assert Str("/") == [SLASH] && |Str("/bin")| == 4;
    assert Str("/bin/")[1] == 98 && Str("/hello.txt")[1] == 104;
  }

  lemma BinComponents()
    ensures Distinct(Components(SHIPPED, DirPrefix(Str("/bin")))) == BIN_NAMES
  {
    BinNames();
    BinPrefix();
    ShippedIsBin();
    ComponentsOfFiles(Str("/hello.txt"), Str("/bin/"), BIN_NAMES);
    DistinctOfNoRepeats(BIN_NAMES);
  }

  /** The programs of the built-in files, listed into any buffer of at least 29 bytes. */
  lemma ShippedBinListing(buf: seq<Byte>, offset: nat)
    requires Lists(buf, offset, SHIPPED, DirPrefix(Str("/bin"))) && |buf| >= 29
    ensures Decode(buf[..offset]) == BIN_NAMES
  {
    BinComponents();
    BinNames();
    BinNamesLength();
    FittingIsComplete(SHIPPED, DirPrefix(Str("/bin")), |buf|);
    DecodeEncoded(BIN_NAMES);
  }

  /** The listing and its decoding together, for one directory. */
  lemma ListingRoundTrip(entries: seq<seq<Byte>>, dir: seq<Byte>, capacity: nat)
    requires NulFree(entries)
    ensures var listed := Decode(Encode(Fitting(entries, DirPrefix(dir), capacity)));
            var all := Distinct(Components(entries, DirPrefix(dir)));
            && (forall c | c in listed :: c in all)
            && (listed == all <==> |Encode(all)| <= capacity)
  {
    FittingIsClean(entries, DirPrefix(dir), capacity);
    FittingIsComplete(entries, DirPrefix(dir), capacity);
    DecodeEncoded(Fitting(entries, DirPrefix(dir), capacity));
  }
}
