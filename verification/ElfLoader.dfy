/** Checking an ELF64 little-endian image against a load slot and copying its segments into
    the memory window that holds all slots. */
module ElfLoader {
  import opened Bytes

  const PT_LOAD: nat := 1
  const EHDR_SIZE: nat := 64
  const PHDR_SIZE: nat := 56
  const ELF_MAGIC: seq<Byte> := [0x7f, 0x45, 0x4c, 0x46]
  const CLASS_64: Byte := 2
  const DATA_LSB: Byte := 1

  /** The address of the first byte of the memory window. */
  const WINDOW_BASE: nat := 0x0000_5555_0000_0000

  datatype AppSlot = AppSlot(base: nat, end: nat)

  datatype ElfHeader = ElfHeader(entry: nat, phoff: nat, phentsize: nat, phnum: nat)

  datatype ProgramHeader = ProgramHeader(kind: nat, offset: nat, vaddr: nat, filesz: nat, memsz: nat)

  datatype ElfError = TooSmall | BadMagic | BadClass | BadEndianness | BadPhentsize | OffsetOutOfBounds
                    | TableOverflow | TableOutOfBounds
                    | RangeOverflow | OutsideSlot | FileRangeOverflow | OutsideFile | MemoryBelowFile

  // Little-endian integers.

  function FromLE(s: seq<Byte>): nat {
    if s == [] then 0 else s[0] as nat + 256 * FromLE(s[1..])
  }

  function ToLE(v: nat, n: nat): (s: seq<Byte>)
    ensures |s| == n
  {
    if n == 0 then [] else [(v % 256) as Byte] + ToLE(v / 256, n - 1)
  }

  /** Every byte counts at its own place: the value determines the bytes. */
  lemma {:induction false} LERoundTrip(s: seq<Byte>)
    ensures ToLE(FromLE(s), |s|) == s
  {
    if s != [] {
      LERoundTrip(s[1..]);
      assert FromLE(s) % 256 == s[0] as nat && FromLE(s) / 256 == FromLE(s[1..]);
    }
  }

  function ReadLE(bytes: seq<Byte>, off: nat, n: nat): Option<nat> {
    if off + n <= |bytes| then Some(FromLE(bytes[off..off + n])) else None
  }

  // Headers.

  function ParseHeader(bytes: seq<Byte>): Result<ElfHeader, ElfError> {
    if |bytes| < EHDR_SIZE then Err(TooSmall)
    else if bytes[0..4] != ELF_MAGIC then Err(BadMagic)
    else if bytes[4] != CLASS_64 then Err(BadClass)
    else if bytes[5] != DATA_LSB then Err(BadEndianness)
    else
      match (ReadLE(bytes, 24, 8), ReadLE(bytes, 32, 8), ReadLE(bytes, 54, 2), ReadLE(bytes, 56, 2))
      case (Some(entry), Some(phoff), Some(phentsize), Some(phnum)) =>
        if phentsize != PHDR_SIZE then Err(BadPhentsize) else Ok(ElfHeader(entry, phoff, phentsize, phnum))
      case _ => Err(OffsetOutOfBounds)
  }

  function CheckTable(bytes: seq<Byte>, hdr: ElfHeader): Option<ElfError> {
    var total := hdr.phentsize * hdr.phnum;
    if total > U64_MAX then Some(TableOverflow)
    else if hdr.phoff + total > U64_MAX then Some(TableOverflow)
    else if hdr.phoff + total > |bytes| then Some(TableOutOfBounds)
    else None
  }

  /** One program header; None when a field would lie outside the file. */
  function HeaderAt(bytes: seq<Byte>, base: nat): Option<ProgramHeader> {
    match (ReadLE(bytes, base, 4), ReadLE(bytes, base + 8, 8), ReadLE(bytes, base + 16, 8),
           ReadLE(bytes, base + 32, 8), ReadLE(bytes, base + 40, 8))
    case (Some(kind), Some(offset), Some(vaddr), Some(filesz), Some(memsz)) =>
      Some(ProgramHeader(kind, offset, vaddr, filesz, memsz))
    case _ => None
  }

  /** The whole table lies in the file. */
  predicate TableFits(bytes: seq<Byte>, hdr: ElfHeader) {
    hdr.phentsize == PHDR_SIZE && hdr.phoff + PHDR_SIZE * hdr.phnum <= |bytes|
  }

  function Segment(bytes: seq<Byte>, hdr: ElfHeader, k: nat): (ph: ProgramHeader)
    requires TableFits(bytes, hdr) && k < hdr.phnum
  {
    InTable(bytes, hdr, k);
    HeaderAt(bytes, hdr.phoff + k * hdr.phentsize).value
  }

  lemma InTable(bytes: seq<Byte>, hdr: ElfHeader, k: nat)
    requires TableFits(bytes, hdr) && k < hdr.phnum
    ensures hdr.phoff + k * hdr.phentsize + PHDR_SIZE <= |bytes|
    ensures HeaderAt(bytes, hdr.phoff + k * hdr.phentsize).Some?
  {
  }

  /** The program header iterator. It yields exactly phnum headers: no read in it fails. */
  class ProgramHeaderIter {
    const bytes: seq<Byte>
    const hdr: ElfHeader
    var idx: nat

    ghost predicate Valid()
      reads this
    {
      TableFits(bytes, hdr) && idx <= hdr.phnum
    }

    constructor (bytes: seq<Byte>, hdr: ElfHeader)
      requires TableFits(bytes, hdr)
      ensures Valid() && this.bytes == bytes && this.hdr == hdr && idx == 0
    {
      this.bytes, this.hdr, idx := bytes, hdr, 0;
    }

    method Next() returns (r: Option<ProgramHeader>)
      requires Valid()
      modifies this
      ensures Valid()
      ensures old(idx) < hdr.phnum ==> r == Some(Segment(bytes, hdr, old(idx))) && idx == old(idx) + 1
      ensures old(idx) == hdr.phnum ==> r == None && idx == old(idx)
    {
      if idx >= hdr.phnum { return None; }
      InTable(bytes, hdr, idx);
      var base := hdr.phoff + idx * hdr.phentsize;
      idx := idx + 1;
      return HeaderAt(bytes, base);
    }
  }

  // Validation.

  function SegmentError(ph: ProgramHeader, size: nat, slot: AppSlot): Option<ElfError> {
    if ph.kind != PT_LOAD then None
    else if ph.vaddr + ph.memsz > U64_MAX then Some(RangeOverflow)
    else if ph.vaddr < slot.base || ph.vaddr + ph.memsz > slot.end then Some(OutsideSlot)
    else if ph.offset + ph.filesz > U64_MAX then Some(FileRangeOverflow)
    else if ph.offset + ph.filesz > size then Some(OutsideFile)
    else if ph.memsz < ph.filesz then Some(MemoryBelowFile)
    else None
  }

  /** The first error from header k on. */
  function FirstError(bytes: seq<Byte>, hdr: ElfHeader, slot: AppSlot, k: nat): Option<ElfError>
    requires TableFits(bytes, hdr) && k <= hdr.phnum
    decreases hdr.phnum - k
  {
    if k == hdr.phnum then None
    else
      var e := SegmentError(Segment(bytes, hdr, k), |bytes|, slot);
      if e.Some? then e else FirstError(bytes, hdr, slot, k + 1)
  }

  function Validate(bytes: seq<Byte>, slot: AppSlot): Result<ElfHeader, ElfError> {
    match ParseHeader(bytes)
    case Err(e) => Err(e)
    case Ok(hdr) =>
      match CheckTable(bytes, hdr)
      case Some(e) => Err(e)
      case None =>
        match FirstError(bytes, hdr, slot, 0)
        case Some(e) => Err(e)
        case None => Ok(hdr)
  }

  /** A segment that may be copied: inside the slot, backed by the file, not shrinking. */
  predicate SegmentOk(ph: ProgramHeader, size: nat, slot: AppSlot) {
    ph.kind == PT_LOAD ==>
      && slot.base <= ph.vaddr && ph.vaddr + ph.memsz <= slot.end
      && ph.offset + ph.filesz <= size && ph.filesz <= ph.memsz
  }

  ghost predicate SegmentsOk(bytes: seq<Byte>, hdr: ElfHeader, slot: AppSlot) {
    TableFits(bytes, hdr) && forall k | 0 <= k < hdr.phnum :: SegmentOk(Segment(bytes, hdr, k), |bytes|, slot)
  }

  lemma {:induction false} NoFirstError(bytes: seq<Byte>, hdr: ElfHeader, slot: AppSlot, k: nat)
    requires TableFits(bytes, hdr) && k <= hdr.phnum
    requires slot.end <= U64_MAX && |bytes| <= U64_MAX
    ensures FirstError(bytes, hdr, slot, k).None?
        <==> forall j | k <= j < hdr.phnum :: SegmentOk(Segment(bytes, hdr, j), |bytes|, slot)
    decreases hdr.phnum - k
  {
    if k < hdr.phnum {
      NoFirstError(bytes, hdr, slot, k + 1);
      NoSegmentError(Segment(bytes, hdr, k), |bytes|, slot);
    }
  }

  lemma NoSegmentError(ph: ProgramHeader, size: nat, slot: AppSlot)
    requires slot.end <= U64_MAX && size <= U64_MAX
    ensures SegmentError(ph, size, slot).None? <==> SegmentOk(ph, size, slot)
  {
  }

  ghost predicate HeaderOk(bytes: seq<Byte>, hdr: ElfHeader) {
    && |bytes| >= EHDR_SIZE && bytes[0..4] == ELF_MAGIC && bytes[4] == CLASS_64 && bytes[5] == DATA_LSB
    && hdr == ElfHeader(FromLE(bytes[24..32]), FromLE(bytes[32..40]), FromLE(bytes[54..56]), FromLE(bytes[56..58]))
  }

  /** An image is accepted exactly when its header is well formed, its program header table
      lies in the file and every loadable segment fits the slot and the file. */
  lemma ValidateMeans(bytes: seq<Byte>, slot: AppSlot, hdr: ElfHeader)
    requires slot.end <= U64_MAX && |bytes| <= U64_MAX
    ensures Validate(bytes, slot) == Ok(hdr) <==> HeaderOk(bytes, hdr) && SegmentsOk(bytes, hdr, slot)
  {
    if ParseHeader(bytes).Ok? {
      var h := ParseHeader(bytes).value;
      assert HeaderOk(bytes, h);
      assert CheckTable(bytes, h).None? <==> TableFits(bytes, h);
      if TableFits(bytes, h) { NoFirstError(bytes, h, slot, 0); }
    }
  }

  method ValidateElfForSlot(bytes: seq<Byte>, slot: AppSlot) returns (r: Result<ElfHeader, ElfError>)
    ensures r == Validate(bytes, slot)
  {
    var hdr :- ParseHeader(bytes);
    var table := CheckTable(bytes, hdr);
    if table.Some? { return Err(table.value); }
    var headers := new ProgramHeaderIter(bytes, hdr);
    var ph := headers.Next();
    ghost var n := 0;
    while ph.Some?
      invariant headers.Valid() && headers.bytes == bytes && headers.hdr == hdr && fresh(headers)
      invariant n <= hdr.phnum && headers.idx == if ph.Some? then n + 1 else n
      invariant if n < hdr.phnum then ph == Some(Segment(bytes, hdr, n)) else ph == None
      invariant FirstError(bytes, hdr, slot, 0) == FirstError(bytes, hdr, slot, n)
      decreases hdr.phnum - n
    {
      var e := SegmentError(ph.value, |bytes|, slot);
      if e.Some? { return Err(e.value); }
      n := n + 1;
      ph := headers.Next();
    }
    return Ok(hdr);
  }

  // Loading.

  predicate Covers(ph: ProgramHeader, a: nat) {
    ph.kind == PT_LOAD && ph.vaddr <= a < ph.vaddr + ph.memsz
  }

  /** The byte that segment ph puts at address a: from the file below filesz, else zero. */
  function ByteOf(bytes: seq<Byte>, ph: ProgramHeader, a: nat): Byte
    requires ph.vaddr <= a && ph.offset + ph.filesz <= |bytes|
  {
    if a - ph.vaddr < ph.filesz then bytes[ph.offset + (a - ph.vaddr)] else NUL
  }

  /** The byte at address a after the first n headers were processed. */
  function ImageByte(bytes: seq<Byte>, hdr: ElfHeader, slot: AppSlot, n: nat, a: nat): Byte
    requires SegmentsOk(bytes, hdr, slot) && n <= hdr.phnum
  {
    if n == 0 then NUL
    else
      var ph := Segment(bytes, hdr, n - 1);
      if Covers(ph, a) then ByteOf(bytes, ph, a) else ImageByte(bytes, hdr, slot, n - 1, a)
  }

  predicate InSlot(slot: AppSlot, i: nat) { slot.base <= WINDOW_BASE + i < slot.end }

  /** The whole window after a load: the slot holds the image, all else is as before. */
  function Loaded(mem: seq<Byte>, bytes: seq<Byte>, hdr: ElfHeader, slot: AppSlot, n: nat): (r: seq<Byte>)
    requires SegmentsOk(bytes, hdr, slot) && n <= hdr.phnum
    ensures |r| == |mem|
  {
    seq(|mem|, i requires 0 <= i < |mem| =>
      if InSlot(slot, i) then ImageByte(bytes, hdr, slot, n, WINDOW_BASE + i) else mem[i])
  }

  /** The last covering segment decides each byte, and a byte none covers is zero. */
  lemma {:induction false} LastSegmentWins(bytes: seq<Byte>, hdr: ElfHeader, slot: AppSlot, n: nat, k: nat, a: nat)
    requires SegmentsOk(bytes, hdr, slot) && k <= n <= hdr.phnum
    requires forall j | k <= j < n :: !Covers(Segment(bytes, hdr, j), a)
    ensures k == 0 ==> ImageByte(bytes, hdr, slot, n, a) == NUL
    ensures k > 0 && Covers(Segment(bytes, hdr, k - 1), a) ==>
              ImageByte(bytes, hdr, slot, n, a) == ByteOf(bytes, Segment(bytes, hdr, k - 1), a)
    decreases n
  {
    if k < n { LastSegmentWins(bytes, hdr, slot, n - 1, k, a); }
  }

  predicate InWindow(slot: AppSlot, size: nat) {
    WINDOW_BASE <= slot.base <= slot.end <= WINDOW_BASE + size
  }

  /** One segment: file bytes, then zeros up to its size in memory. */
  method CopySegment(mem: array<Byte>, bytes: seq<Byte>, ph: ProgramHeader, slot: AppSlot)
    requires InWindow(slot, mem.Length) && SegmentOk(ph, |bytes|, slot) && ph.kind == PT_LOAD
    modifies mem
    ensures forall i | 0 <= i < mem.Length ::
              mem[i] == if Covers(ph, WINDOW_BASE + i) then ByteOf(bytes, ph, WINDOW_BASE + i) else old(mem[i])
  {
    var dst := ph.vaddr - WINDOW_BASE;
    forall k | 0 <= k < ph.filesz { mem[dst + k] := bytes[ph.offset + k]; }
    if ph.memsz > ph.filesz {
      forall k | ph.filesz <= k < ph.memsz { mem[dst + k] := NUL; }
    }
  }

  lemma LoadedStep(mem: seq<Byte>, bytes: seq<Byte>, hdr: ElfHeader, slot: AppSlot, n: nat, i: nat)
    requires SegmentsOk(bytes, hdr, slot) && n < hdr.phnum && i < |mem|
    ensures Loaded(mem, bytes, hdr, slot, n + 1)[i]
         == if Covers(Segment(bytes, hdr, n), WINDOW_BASE + i)
            then ByteOf(bytes, Segment(bytes, hdr, n), WINDOW_BASE + i)
            else Loaded(mem, bytes, hdr, slot, n)[i]
  {
  }

  /** The memory part of processing header n. */
  method LoadSegment(mem: array<Byte>, bytes: seq<Byte>, slot: AppSlot, hdr: ElfHeader, ph: ProgramHeader,
                     ghost before: seq<Byte>, ghost n: nat)
    requires InWindow(slot, mem.Length) && SegmentsOk(bytes, hdr, slot)
    requires n < hdr.phnum && ph == Segment(bytes, hdr, n)
    requires mem[..] == Loaded(before, bytes, hdr, slot, n)
    modifies mem
    ensures mem[..] == Loaded(before, bytes, hdr, slot, n + 1)
  {
    forall i | 0 <= i < |before|
      ensures Loaded(before, bytes, hdr, slot, n + 1)[i]
           == if Covers(ph, WINDOW_BASE + i) then ByteOf(bytes, ph, WINDOW_BASE + i)
              else Loaded(before, bytes, hdr, slot, n)[i]
    {
      LoadedStep(before, bytes, hdr, slot, n, i);
    }
    ghost var was := mem[..];
    if ph.kind == PT_LOAD {
      CopySegment(mem, bytes, ph, slot);
      assert forall i | 0 <= i < mem.Length && !Covers(ph, WINDOW_BASE + i) :: mem[i] == was[i];
    }
  }

  method LoadSegments(mem: array<Byte>, bytes: seq<Byte>, slot: AppSlot, hdr: ElfHeader)
    requires InWindow(slot, mem.Length) && SegmentsOk(bytes, hdr, slot)
    modifies mem
    ensures mem[..] == Loaded(old(mem[..]), bytes, hdr, slot, hdr.phnum)
  {
    ghost var before := mem[..];
    forall i | slot.base - WINDOW_BASE <= i < slot.end - WINDOW_BASE { mem[i] := NUL; }
    var headers := new ProgramHeaderIter(bytes, hdr);
    var ph := headers.Next();
    ghost var n, image := 0, Loaded(before, bytes, hdr, slot, 0);
    while ph.Some?
      invariant headers.Valid() && headers.bytes == bytes && headers.hdr == hdr && fresh(headers)
      invariant n <= hdr.phnum && headers.idx == if ph.Some? then n + 1 else n
      invariant if n < hdr.phnum then ph == Some(Segment(bytes, hdr, n)) else ph == None
      invariant image == Loaded(before, bytes, hdr, slot, n) && mem[..] == image
      decreases hdr.phnum - n
    {
      LoadSegment(mem, bytes, slot, hdr, ph.value, before, n);
      n := n + 1;
      image := mem[..];
      ph := headers.Next();
    }
  }
}
