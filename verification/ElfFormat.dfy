/** The file header and the program headers of a 64-bit little-endian object file, field by
    field as the System V gABI lays them out, and what the loader reads of them. */
module ElfFormat {
  import opened Bytes
  import opened ElfLoader

  /** Chapter 4, "ELF Header". */
  datatype FileHeader = FileHeader(ident: seq<Byte>, kind: nat, machine: nat, version: nat, entry: nat, phoff: nat,
                                   shoff: nat, flags: nat, ehsize: nat, phentsize: nat, phnum: nat,
                                   shentsize: nat, shnum: nat, shstrndx: nat)

  /** Chapter 5, "Program Header". */
  datatype SegmentHeader = SegmentHeader(kind: nat, flags: nat, offset: nat, vaddr: nat, paddr: nat,
                                         filesz: nat, memsz: nat, align: nat)

  // Little-endian numbers.

  function Pow256(n: nat): (r: nat)
    ensures r > 0
  {
    if n == 0 then 1 else 256 * Pow256(n - 1)
  }

  /** Which number some bytes are: the first one counts once, each further one 256 times as
      much as the one before it. */
  lemma {:induction false} LEPlaces(s: seq<Byte>, k: nat)
    requires k <= |s|
    ensures FromLE(s) == FromLE(s[..k]) + Pow256(k) * FromLE(s[k..])
    ensures |s| == 1 ==> FromLE(s) == s[0] as nat
    ensures FromLE(s) < Pow256(|s|)
  {
    if s != [] {
      LEPlaces(s[1..], if k > 0 then k - 1 else 0);
      if k > 0 {
        assert s[..k][1..] == s[1..][..k - 1] && s[k..] == s[1..][k - 1..];
        MulAssoc(256, Pow256(k - 1), FromLE(s[k..]));
      } else {
        assert s[0..] == s;
      }
    }
  }

  lemma MulAssoc(a: nat, b: nat, c: nat)
    ensures a * (b * c) == a * b * c
  {
  }

  lemma {:induction false} FromToLE(v: nat, n: nat)
    requires v < Pow256(n)
    ensures FromLE(ToLE(v, n)) == v
  {
    if n > 0 {
      FromToLE(v / 256, n - 1);
      assert ToLE(v, n)[1..] == ToLE(v / 256, n - 1);
    }
  }

  // The layouts.

  predicate SegmentFits(p: SegmentHeader) {
    && p.kind < Pow256(4) && p.flags < Pow256(4)
    && p.offset < Pow256(8) && p.vaddr < Pow256(8) && p.paddr < Pow256(8)
    && p.filesz < Pow256(8) && p.memsz < Pow256(8) && p.align < Pow256(8)
  }

  function EncodeSegment(p: SegmentHeader): (s: seq<Byte>)
    ensures |s| == PHDR_SIZE
  {
    ToLE(p.kind, 4) + ToLE(p.flags, 4) + ToLE(p.offset, 8) + ToLE(p.vaddr, 8) + ToLE(p.paddr, 8)
    + ToLE(p.filesz, 8) + ToLE(p.memsz, 8) + ToLE(p.align, 8)
  }

  predicate FileFits(h: FileHeader) {
    && |h.ident| == 16 && h.kind < Pow256(2) && h.machine < Pow256(2) && h.version < Pow256(4)
    && h.entry < Pow256(8) && h.phoff < Pow256(8) && h.shoff < Pow256(8) && h.flags < Pow256(4)
    && h.ehsize < Pow256(2) && h.phentsize < Pow256(2) && h.phnum < Pow256(2)
    && h.shentsize < Pow256(2) && h.shnum < Pow256(2) && h.shstrndx < Pow256(2)
  }

  function EncodeFile(h: FileHeader): (s: seq<Byte>)
    requires |h.ident| == 16
    ensures |s| == EHDR_SIZE
  {
    h.ident + ToLE(h.kind, 2) + ToLE(h.machine, 2) + ToLE(h.version, 4)
    + ToLE(h.entry, 8) + ToLE(h.phoff, 8) + ToLE(h.shoff, 8) + ToLE(h.flags, 4)
    + ToLE(h.ehsize, 2) + ToLE(h.phentsize, 2) + ToLE(h.phnum, 2)
    + ToLE(h.shentsize, 2) + ToLE(h.shnum, 2) + ToLE(h.shstrndx, 2)
  }

  function EncodeTable(ps: seq<SegmentHeader>): (s: seq<Byte>)
    ensures |s| == PHDR_SIZE * |ps|
  {
    if ps == [] then [] else EncodeSegment(ps[0]) + EncodeTable(ps[1..])
  }

  // What the loader reads.

  lemma SegmentFields(p: SegmentHeader)
    requires SegmentFits(p)
    ensures var s := EncodeSegment(p);
            && FromLE(s[0..4]) == p.kind && FromLE(s[8..16]) == p.offset && FromLE(s[16..24]) == p.vaddr
            && FromLE(s[32..40]) == p.filesz && FromLE(s[40..48]) == p.memsz
  {
    var s := EncodeSegment(p);
    assert FromLE(s[0..4]) == p.kind by {
      FromToLE(p.kind, 4);
      assert s[0..4] == ToLE(p.kind, 4);
    }
    assert FromLE(s[8..16]) == p.offset by {
      FromToLE(p.offset, 8);
      assert s[8..16] == ToLE(p.offset, 8);
    }
    assert FromLE(s[16..24]) == p.vaddr by {
      FromToLE(p.vaddr, 8);
      assert s[16..24] == ToLE(p.vaddr, 8);
    }
    assert FromLE(s[32..40]) == p.filesz by {
      FromToLE(p.filesz, 8);
      assert s[32..40] == ToLE(p.filesz, 8);
    }
    assert FromLE(s[40..48]) == p.memsz by {
      FromToLE(p.memsz, 8);
      assert s[40..48] == ToLE(p.memsz, 8);
    }
  }

  predicate StandsAt(bytes: seq<Byte>, at: nat, part: seq<Byte>) {
    at + |part| <= |bytes| && bytes[at..at + |part|] == part
  }

  lemma FieldOf(bytes: seq<Byte>, at: nat, part: seq<Byte>, i: nat, n: nat)
    requires StandsAt(bytes, at, part) && i + n <= |part|
    ensures bytes[at + i..at + i + n] == part[i..i + n]
  {
    var a, b := bytes[at + i..at + i + n], part[i..i + n];
    assert |a| == |b| && forall k | 0 <= k < |a| :: a[k] == b[k];
  }

  lemma StandsInside(bytes: seq<Byte>, at: nat, part: seq<Byte>, i: nat, field: seq<Byte>)
    requires StandsAt(bytes, at, part) && StandsAt(part, i, field)
    ensures StandsAt(bytes, at + i, field)
  {
    FieldOf(bytes, at, part, i, |field|);
  }

  /** A program header is read where its encoding stands. */
  lemma EncodedHeader(bytes: seq<Byte>, base: nat, p: SegmentHeader)
    requires SegmentFits(p) && StandsAt(bytes, base, EncodeSegment(p))
    ensures HeaderAt(bytes, base) == Some(ProgramHeader(p.kind, p.offset, p.vaddr, p.filesz, p.memsz))
  {
    SegmentFields(p);
    var s := EncodeSegment(p);
    FieldOf(bytes, base, s, 0, 4);
    FieldOf(bytes, base, s, 8, 8);
    FieldOf(bytes, base, s, 16, 8);
    FieldOf(bytes, base, s, 32, 8);
    FieldOf(bytes, base, s, 40, 8);
  }

  lemma {:induction false} StandsInTable(ps: seq<SegmentHeader>, k: nat)
    requires k < |ps|
    ensures StandsAt(EncodeTable(ps), PHDR_SIZE * k, EncodeSegment(ps[k]))
  {
    var first, rest := EncodeSegment(ps[0]), EncodeTable(ps[1..]);
    if k == 0 {
      assert (first + rest)[0..|first|] == first;
    } else {
      StandsInTable(ps[1..], k - 1);
      assert (first + rest)[|first|..|first| + |rest|] == rest;
      StandsInside(first + rest, |first|, rest, PHDR_SIZE * (k - 1), EncodeSegment(ps[k]));
    }
  }

  lemma Commutes(k: nat, hdr: ElfHeader)
    requires hdr.phentsize == PHDR_SIZE
    ensures PHDR_SIZE * k == k * hdr.phentsize
  {
  }

  /** In a file whose table is the encoding of some headers, header k is the k-th of them. */
  lemma EncodedSegment(bytes: seq<Byte>, hdr: ElfHeader, ps: seq<SegmentHeader>, k: nat)
    requires TableFits(bytes, hdr) && hdr.phnum == |ps| && k < |ps| && SegmentFits(ps[k])
    requires StandsAt(bytes, hdr.phoff, EncodeTable(ps))
    ensures Segment(bytes, hdr, k) == ProgramHeader(ps[k].kind, ps[k].offset, ps[k].vaddr, ps[k].filesz, ps[k].memsz)
  {
    var base := hdr.phoff + PHDR_SIZE * k;
    StandsInTable(ps, k);
    StandsInside(bytes, hdr.phoff, EncodeTable(ps), PHDR_SIZE * k, EncodeSegment(ps[k]));
    EncodedHeader(bytes, base, ps[k]);
    assert HeaderAt(bytes, base).Some?;
    Commutes(k, hdr);
  }

  lemma FileFields(h: FileHeader)
    requires FileFits(h)
    ensures var s := EncodeFile(h);
            && s[0..16] == h.ident && FromLE(s[24..32]) == h.entry && FromLE(s[32..40]) == h.phoff
            && FromLE(s[54..56]) == h.phentsize && FromLE(s[56..58]) == h.phnum
  {
    var s := EncodeFile(h);
    assert s[0..16] == h.ident;
    assert s[24..32] == ToLE(h.entry, 8);
    assert s[32..40] == ToLE(h.phoff, 8);
    assert s[54..56] == ToLE(h.phentsize, 2);
    assert s[56..58] == ToLE(h.phnum, 2);
    FromToLE(h.entry, 8);
    FromToLE(h.phoff, 8);
    FromToLE(h.phentsize, 2);
    FromToLE(h.phnum, 2);
  }

  /** What the parser says of a file that starts with the encoding of h: it looks at the
      magic number, the class, the byte order and the size of a program header, in this
      order, and at nothing else. */
  lemma EncodedFile(bytes: seq<Byte>, h: FileHeader)
    requires FileFits(h) && StandsAt(bytes, 0, EncodeFile(h))
    ensures ParseHeader(bytes)
         == if h.ident[..4] != [127, 69, 76, 70] then Err(BadMagic)
            else if h.ident[4] != 2 then Err(BadClass)
            else if h.ident[5] != 1 then Err(BadEndianness)
            else if h.phentsize != 56 then Err(BadPhentsize)
            else Ok(ElfHeader(h.entry, h.phoff, h.phentsize, h.phnum))
  {
    FileFields(h);
    var s := EncodeFile(h);
    FieldOf(bytes, 0, s, 0, 16);
    FieldOf(bytes, 0, s, 24, 8);
    FieldOf(bytes, 0, s, 32, 8);
    FieldOf(bytes, 0, s, 54, 2);
    FieldOf(bytes, 0, s, 56, 2);
    assert bytes[0..16] == h.ident && bytes[0..4] == h.ident[..4];
    assert bytes[4] == bytes[0..16][4] && bytes[5] == bytes[0..16][5];
  }

  // Any bytes are some headers, so the laws above are about every file.

  lemma Field(s: seq<Byte>, n: nat)
    requires |s| == n
    ensures FromLE(s) < Pow256(n) && ToLE(FromLE(s), n) == s
  {
    LEPlaces(s, 0);
    LERoundTrip(s);
  }

  lemma SomeSegment(s: seq<Byte>) returns (p: SegmentHeader)
    requires |s| == PHDR_SIZE
    ensures SegmentFits(p) && EncodeSegment(p) == s
  {
    p := SegmentHeader(FromLE(s[0..4]), FromLE(s[4..8]), FromLE(s[8..16]), FromLE(s[16..24]),
                       FromLE(s[24..32]), FromLE(s[32..40]), FromLE(s[40..48]), FromLE(s[48..56]));
    Field(s[0..4], 4);
    Field(s[4..8], 4);
    Field(s[8..16], 8);
    Field(s[16..24], 8);
    Field(s[24..32], 8);
    Field(s[32..40], 8);
    Field(s[40..48], 8);
    Field(s[48..56], 8);
    SegmentSlices(s);
  }

  lemma SegmentSlices(s: seq<Byte>)
    requires |s| == PHDR_SIZE
    ensures s[0..4] + s[4..8] + s[8..16] + s[16..24] + s[24..32] + s[32..40] + s[40..48] + s[48..56] == s
  {
  }

  lemma {:induction false} SomeTable(s: seq<Byte>, n: nat) returns (ps: seq<SegmentHeader>)
    requires |s| == PHDR_SIZE * n
    ensures |ps| == n && EncodeTable(ps) == s && forall k | 0 <= k < n :: SegmentFits(ps[k])
    decreases n
  {
    if n == 0 { return []; }
    var p := SomeSegment(s[..PHDR_SIZE]);
    var more := SomeTable(s[PHDR_SIZE..], n - 1);
    ps := [p] + more;
    assert ps[1..] == more && s == s[..PHDR_SIZE] + s[PHDR_SIZE..];
  }

  lemma SomeFile(s: seq<Byte>) returns (h: FileHeader)
    requires |s| == EHDR_SIZE
    ensures FileFits(h) && EncodeFile(h) == s
  {
    h := FileHeader(s[..16], FromLE(s[16..18]), FromLE(s[18..20]), FromLE(s[20..24]), FromLE(s[24..32]),
                    FromLE(s[32..40]), FromLE(s[40..48]), FromLE(s[48..52]), FromLE(s[52..54]), FromLE(s[54..56]),
                    FromLE(s[56..58]), FromLE(s[58..60]), FromLE(s[60..62]), FromLE(s[62..64]));
    Field(s[16..18], 2);
    Field(s[18..20], 2);
    Field(s[20..24], 4);
    Field(s[24..32], 8);
    Field(s[32..40], 8);
    Field(s[40..48], 8);
    Field(s[48..52], 4);
    Field(s[52..54], 2);
    Field(s[54..56], 2);
    Field(s[56..58], 2);
    Field(s[58..60], 2);
    Field(s[60..62], 2);
    Field(s[62..64], 2);
    FileSlices(s);
  }

  lemma FileSlices(s: seq<Byte>)
    requires |s| == EHDR_SIZE
    ensures s[..16] + s[16..18] + s[18..20] + s[20..24] + s[24..32] + s[32..40] + s[40..48] + s[48..52]
            + s[52..54] + s[54..56] + s[56..58] + s[58..60] + s[60..62] + s[62..64] == s
  {
  }

  /** bytes is an object file with header h and program headers ps that may be loaded into
      the slot. */
  ghost predicate Loadable(bytes: seq<Byte>, slot: AppSlot, h: FileHeader, ps: seq<SegmentHeader>) {
    && FileFits(h) && StandsAt(bytes, 0, EncodeFile(h))
    && h.ident[..6] == [127, 69, 76, 70, 2, 1] && h.phentsize == 56 && h.phnum == |ps|
    && StandsAt(bytes, h.phoff, EncodeTable(ps))
    && forall k | 0 <= k < |ps| :: SegmentFits(ps[k]) && LoadableSegment(ps[k], |bytes|, slot)
  }

  predicate LoadableSegment(p: SegmentHeader, size: nat, slot: AppSlot) {
    p.kind == 1 ==> slot.base <= p.vaddr && p.vaddr + p.memsz <= slot.end
                    && p.filesz <= p.memsz && p.offset + p.filesz <= size
  }

  /** The loader accepts exactly the loadable object files, and returns their entry point
      and table. */
  lemma AcceptsLoadable(bytes: seq<Byte>, slot: AppSlot, hdr: ElfHeader)
    requires slot.end <= U64_MAX && |bytes| <= U64_MAX
    ensures Validate(bytes, slot) == Ok(hdr)
        <==> exists h, ps :: Loadable(bytes, slot, h, ps) && hdr == ElfHeader(h.entry, h.phoff, 56, |ps|)
  {
    ValidateMeans(bytes, slot, hdr);
    if Validate(bytes, slot) == Ok(hdr) {
      var h, ps := HeadersOf(bytes, slot, hdr);
      assert Loadable(bytes, slot, h, ps);
    }
    if exists h, ps :: Loadable(bytes, slot, h, ps) && hdr == ElfHeader(h.entry, h.phoff, 56, |ps|) {
      var h, ps :| Loadable(bytes, slot, h, ps) && hdr == ElfHeader(h.entry, h.phoff, 56, |ps|);
      LoadableIsAccepted(bytes, slot, h, ps);
    }
  }

  lemma LoadableIsAccepted(bytes: seq<Byte>, slot: AppSlot, h: FileHeader, ps: seq<SegmentHeader>)
    requires slot.end <= U64_MAX && |bytes| <= U64_MAX && Loadable(bytes, slot, h, ps)
    ensures Validate(bytes, slot) == Ok(ElfHeader(h.entry, h.phoff, 56, |ps|))
  {
    var hdr := ElfHeader(h.entry, h.phoff, 56, |ps|);
    assert h.ident[..4] == h.ident[..6][..4] && h.ident[4] == h.ident[..6][4] && h.ident[5] == h.ident[..6][5];
    EncodedFile(bytes, h);
    assert ParseHeader(bytes) == Ok(hdr) && HeaderOk(bytes, hdr) && TableFits(bytes, hdr);
    forall k | 0 <= k < hdr.phnum ensures SegmentOk(Segment(bytes, hdr, k), |bytes|, slot) {
      EncodedSegment(bytes, hdr, ps, k);
    }
    ValidateMeans(bytes, slot, hdr);
  }

  lemma HeadersOf(bytes: seq<Byte>, slot: AppSlot, hdr: ElfHeader) returns (h: FileHeader, ps: seq<SegmentHeader>)
    requires slot.end <= U64_MAX && |bytes| <= U64_MAX && Validate(bytes, slot) == Ok(hdr)
    ensures Loadable(bytes, slot, h, ps) && hdr == ElfHeader(h.entry, h.phoff, 56, |ps|)
  {
    ValidateMeans(bytes, slot, hdr);
    h := SomeFile(bytes[0..EHDR_SIZE]);
    EncodedFile(bytes, h);
    assert ParseHeader(bytes) == Ok(hdr);
    assert h.ident[..6] == h.ident[..4] + [h.ident[4], h.ident[5]];
    ps := SomeTable(bytes[hdr.phoff..hdr.phoff + PHDR_SIZE * hdr.phnum], hdr.phnum);
    assert StandsAt(bytes, hdr.phoff, EncodeTable(ps));
    forall k | 0 <= k < |ps| ensures LoadableSegment(ps[k], |bytes|, slot) {
      EncodedSegment(bytes, hdr, ps, k);
      assert SegmentOk(Segment(bytes, hdr, k), |bytes|, slot);
    }
  }

  predicate Holds(p: SegmentHeader, a: nat) {
    p.kind == 1 && p.vaddr <= a < p.vaddr + p.memsz
  }

  /** Header n - 1 is the last one whose segment holds address a; with n == 0 none does. */
  ghost predicate LastHolding(ps: seq<SegmentHeader>, n: nat, a: nat) {
    n <= |ps| && (n > 0 ==> Holds(ps[n - 1], a)) && forall j | n <= j < |ps| :: !Holds(ps[j], a)
  }

  lemma {:induction false} SomeLast(ps: seq<SegmentHeader>, a: nat) returns (n: nat)
    ensures LastHolding(ps, n, a)
    decreases |ps|
  {
    var k := |ps|;
    if k == 0 || Holds(ps[k - 1], a) { return k; }
    n := SomeLast(ps[..k - 1], a);
  }

  /** The byte of segment p at address a: from the file below filesz, else zero. */
  function SegmentByte(bytes: seq<Byte>, p: SegmentHeader, a: nat): Byte
    requires p.vaddr <= a && p.offset + p.filesz <= |bytes|
  {
    if a < p.vaddr + p.filesz then bytes[p.offset + (a - p.vaddr)] else 0
  }

  /** What a load puts at address a. */
  lemma LoadedByte(bytes: seq<Byte>, slot: AppSlot, h: FileHeader, ps: seq<SegmentHeader>, n: nat, a: nat)
    requires slot.end <= U64_MAX && |bytes| <= U64_MAX && Loadable(bytes, slot, h, ps) && LastHolding(ps, n, a)
    ensures SegmentsOk(bytes, ElfHeader(h.entry, h.phoff, 56, |ps|), slot)
    ensures n > 0 ==> ps[n - 1].vaddr <= a && ps[n - 1].offset + ps[n - 1].filesz <= |bytes|
    ensures ImageByte(bytes, ElfHeader(h.entry, h.phoff, 56, |ps|), slot, |ps|, a)
         == if n == 0 then 0 else SegmentByte(bytes, ps[n - 1], a)
  {
    ImageIsLast(bytes, slot, h, ps, n, a);
    if n > 0 { HeldByte(bytes, slot, h, ps, n - 1, a); }
  }

  lemma ImageIsLast(bytes: seq<Byte>, slot: AppSlot, h: FileHeader, ps: seq<SegmentHeader>, n: nat, a: nat)
    requires slot.end <= U64_MAX && |bytes| <= U64_MAX && Loadable(bytes, slot, h, ps) && LastHolding(ps, n, a)
    ensures var hdr := ElfHeader(h.entry, h.phoff, 56, |ps|);
            && SegmentsOk(bytes, hdr, slot)
            && (n == 0 ==> ImageByte(bytes, hdr, slot, |ps|, a) == 0)
            && (n > 0 ==> var seg := Segment(bytes, hdr, n - 1);
                          && seg.vaddr <= a && seg.offset + seg.filesz <= |bytes|
                          && ImageByte(bytes, hdr, slot, |ps|, a) == ByteOf(bytes, seg, a))
  {
    var hdr := ElfHeader(h.entry, h.phoff, 56, |ps|);
    LoadableIsOk(bytes, slot, h, ps);
    NoneCovers(bytes, slot, h, ps, n, a);
    LastSegmentWins(bytes, hdr, slot, |ps|, n, a);
    if n > 0 {
      SameCover(bytes, slot, h, ps, n - 1, a);
      assert SegmentOk(Segment(bytes, hdr, n - 1), |bytes|, slot);
    }
  }

  lemma HeldByte(bytes: seq<Byte>, slot: AppSlot, h: FileHeader, ps: seq<SegmentHeader>, k: nat, a: nat)
    requires slot.end <= U64_MAX && |bytes| <= U64_MAX && Loadable(bytes, slot, h, ps) && k < |ps| && Holds(ps[k], a)
    ensures var hdr := ElfHeader(h.entry, h.phoff, 56, |ps|);
            && SegmentsOk(bytes, hdr, slot) && Covers(Segment(bytes, hdr, k), a)
            && ps[k].offset + ps[k].filesz <= |bytes|
            && ByteOf(bytes, Segment(bytes, hdr, k), a) == SegmentByte(bytes, ps[k], a)
  {
    LoadableIsOk(bytes, slot, h, ps);
    SameCover(bytes, slot, h, ps, k, a);
    assert LoadableSegment(ps[k], |bytes|, slot);
  }

  lemma LoadableIsOk(bytes: seq<Byte>, slot: AppSlot, h: FileHeader, ps: seq<SegmentHeader>)
    requires slot.end <= U64_MAX && |bytes| <= U64_MAX && Loadable(bytes, slot, h, ps)
    ensures SegmentsOk(bytes, ElfHeader(h.entry, h.phoff, 56, |ps|), slot)
  {
    LoadableIsAccepted(bytes, slot, h, ps);
    ValidateMeans(bytes, slot, ElfHeader(h.entry, h.phoff, 56, |ps|));
  }

  lemma NoneCovers(bytes: seq<Byte>, slot: AppSlot, h: FileHeader, ps: seq<SegmentHeader>, n: nat, a: nat)
    requires Loadable(bytes, slot, h, ps) && n <= |ps| && forall j | n <= j < |ps| :: !Holds(ps[j], a)
    ensures var hdr := ElfHeader(h.entry, h.phoff, 56, |ps|);
            TableFits(bytes, hdr) && forall j | n <= j < |ps| :: !Covers(Segment(bytes, hdr, j), a)
  {
    var hdr := ElfHeader(h.entry, h.phoff, 56, |ps|);
    forall j | n <= j < |ps| ensures !Covers(Segment(bytes, hdr, j), a) {
      SameCover(bytes, slot, h, ps, j, a);
    }
  }

  lemma SameCover(bytes: seq<Byte>, slot: AppSlot, h: FileHeader, ps: seq<SegmentHeader>, k: nat, a: nat)
    requires Loadable(bytes, slot, h, ps) && k < |ps|
    ensures var hdr := ElfHeader(h.entry, h.phoff, 56, |ps|);
            && TableFits(bytes, hdr)
            && Segment(bytes, hdr, k)
               == ProgramHeader(ps[k].kind, ps[k].offset, ps[k].vaddr, ps[k].filesz, ps[k].memsz)
            && (Covers(Segment(bytes, hdr, k), a) <==> Holds(ps[k], a))
  {
    EncodedSegment(bytes, ElfHeader(h.entry, h.phoff, 56, |ps|), ps, k);
  }
}
