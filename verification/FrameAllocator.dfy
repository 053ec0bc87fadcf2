/** The boot frame allocator: a counter that indexes the frames of all usable regions. */
module FrameAllocator {
  import opened Bytes

  const FRAME_SIZE: nat := 4096

  /** A region of physical memory, from start up to but not including end. */
  datatype Region = Region(start: nat, end: nat, usable: bool)

  predicate Aligned(regions: seq<Region>) {
    forall k | 0 <= k < |regions| :: regions[k].start % FRAME_SIZE == 0 && regions[k].end % FRAME_SIZE == 0
  }

  predicate Disjoint(regions: seq<Region>) {
    forall j, k | 0 <= j < k < |regions| ::
      regions[j].end <= regions[k].start || regions[k].end <= regions[j].start || regions[j].end <= regions[j].start
      || regions[k].end <= regions[k].start
  }

  /** Every 4096th address from start up to but not including end. */
  function Addresses(start: nat, end: nat): seq<nat>
    decreases end - start
  {
    if start >= end then [] else [start] + Addresses(start + FRAME_SIZE, end)
  }

  function FrameOf(addr: nat): nat { addr - addr % FRAME_SIZE }

  function FramesIn(addresses: seq<nat>): seq<nat> {
    seq(|addresses|, i requires 0 <= i < |addresses| => FrameOf(addresses[i]))
  }

  function RegionFrames(r: Region): seq<nat> { FramesIn(Addresses(r.start, r.end)) }

  /** The usable frames, region by region, identified by their start address. */
  function UsableFrames(regions: seq<Region>): seq<nat> {
    if regions == [] then []
    else
      var init := UsableFrames(regions[..|regions| - 1]);
      var r := regions[|regions| - 1];
      if r.usable then init + RegionFrames(r) else init
  }

  function Nth(frames: seq<nat>, n: nat): Option<nat> {
    if n < |frames| then Some(frames[n]) else None
  }

  class BootInfoFrameAllocator {
    const memoryMap: seq<Region>
    var next: nat

    constructor (memoryMap: seq<Region>)
      ensures this.memoryMap == memoryMap && next == 0
    {
      this.memoryMap, next := memoryMap, 0;
    }

    /** Walks the usable regions frame by frame and returns the frame after next others. The
        counter is a machine word; the source would overflow past its end. */
    method AllocateFrame() returns (frame: Option<nat>)
      requires next < U64_MAX
      modifies this
      ensures frame == Nth(UsableFrames(memoryMap), old(next)) && next == old(next) + 1
      ensures Aligned(memoryMap) && frame.Some? ==> InUsable(memoryMap, frame.value)
    {
      var skip := next;
      next := next + 1;
      frame := None;
      var k := 0;
      assert UsableFrames(memoryMap[..0]) == [];
      while k < |memoryMap| && frame.None?
        invariant k <= |memoryMap| && next == old(next) + 1
        invariant frame.None? ==> |UsableFrames(memoryMap[..k])| + skip == old(next)
        invariant frame.Some? ==> frame == Nth(UsableFrames(memoryMap), old(next))
      {
        var r := memoryMap[k];
        assert memoryMap[..k + 1][..k] == memoryMap[..k];
        FramesOfPrefix(memoryMap, k + 1);
        if r.usable {
          frame, skip := NthInRegion(r, skip);
        }
        k := k + 1;
      }
      assert memoryMap[..|memoryMap|] == memoryMap;
      if Aligned(memoryMap) { UsableFramesMean(memoryMap); }
    }

    /** A run of n calls hands out the first n usable frames in order, then nothing. */
    method AllocateMany(n: nat) returns (frames: seq<Option<nat>>)
      requires next + n <= U64_MAX
      modifies this
      ensures next == old(next) + n && |frames| == n
      ensures forall k | 0 <= k < n :: frames[k] == Nth(UsableFrames(memoryMap), old(next) + k)
    {
      frames := [];
      for i := 0 to n
        invariant next == old(next) + i && |frames| == i
        invariant forall k | 0 <= k < i :: frames[k] == Nth(UsableFrames(memoryMap), old(next) + k)
      {
        var frame := AllocateFrame();
        frames := frames + [frame];
      }
    }
  }

  /** The n-th frame of a region, or how many are still to be skipped behind it. */
  method NthInRegion(r: Region, n: nat) returns (frame: Option<nat>, left: nat)
    ensures frame == Nth(RegionFrames(r), n)
    ensures frame.None? ==> |RegionFrames(r)| + left == n
  {
    left := n;
    var addr := r.start;
    ghost var done: seq<nat> := [];
    assert done + Addresses(addr, r.end) == Addresses(r.start, r.end);
    while addr < r.end
      invariant done + Addresses(addr, r.end) == Addresses(r.start, r.end)
      invariant |done| + left == n
      decreases r.end - addr
    {
      assert Addresses(r.start, r.end)[|done|] == addr;
      if left == 0 { return Some(FrameOf(addr)), 0; }
      ConcatAssoc(done, [addr], Addresses(addr + FRAME_SIZE, r.end));
      done := done + [addr];
      left := left - 1;
      addr := addr + FRAME_SIZE;
    }
    return None, left;
  }

  lemma {:induction false} FramesOfPrefix(regions: seq<Region>, k: nat)
    requires k <= |regions|
    ensures UsableFrames(regions[..k]) <= UsableFrames(regions)
  {
    var n := |regions|;
    if k == n {
      assert regions[..k] == regions;
    } else {
      FramesOfPrefix(regions[..n - 1], k);
      assert regions[..n - 1][..k] == regions[..k];
    }
  }

  /** The frame lies wholly inside the region. */
  predicate FrameIn(frame: nat, r: Region) {
    r.start <= frame && frame + FRAME_SIZE <= r.end
  }

  lemma {:induction false} AddressesMean(start: nat, end: nat)
    requires start % FRAME_SIZE == 0 && end % FRAME_SIZE == 0
    ensures forall k | 0 <= k < |Addresses(start, end)| :: Addresses(start, end)[k] == start + k * FRAME_SIZE
    ensures start < end ==> |Addresses(start, end)| * FRAME_SIZE == end - start
    decreases end - start
  {
    if start < end {
      AddressesMean(start + FRAME_SIZE, end);
    }
  }

  /** The frames of an aligned region: all of them, each once, in order. */
  lemma RegionFramesMean(r: Region)
    requires r.start % FRAME_SIZE == 0 && r.end % FRAME_SIZE == 0
    ensures forall k | 0 <= k < |RegionFrames(r)| :: RegionFrames(r)[k] == r.start + k * FRAME_SIZE
    ensures forall f | f in RegionFrames(r) :: FrameIn(f, r) && f % FRAME_SIZE == 0
    ensures forall f: nat | FrameIn(f, r) && f % FRAME_SIZE == 0 :: f in RegionFrames(r)
    ensures forall j, k | 0 <= j < k < |RegionFrames(r)| :: RegionFrames(r)[j] != RegionFrames(r)[k]
  {
    AddressesMean(r.start, r.end);
    var frames, addresses := RegionFrames(r), Addresses(r.start, r.end);
    forall k | 0 <= k < |frames|
      ensures frames[k] == r.start + k * FRAME_SIZE && FrameIn(frames[k], r) && frames[k] % FRAME_SIZE == 0
    {
      assert addresses[k] == r.start + k * FRAME_SIZE;
    }
    forall f: nat | FrameIn(f, r) && f % FRAME_SIZE == 0
      ensures f in frames
    {
      var k := (f - r.start) / FRAME_SIZE;
      assert f == r.start + k * FRAME_SIZE;
      assert frames[k] == f;
    }
  }

  ghost predicate InUsable(regions: seq<Region>, f: nat) {
    f % FRAME_SIZE == 0 && exists k | 0 <= k < |regions| :: regions[k].usable && FrameIn(f, regions[k])
  }

  /** The enumeration holds exactly the frames that lie wholly inside a usable region. */
  lemma {:induction false} UsableFramesMean(regions: seq<Region>)
    requires Aligned(regions)
    ensures forall f: nat :: f in UsableFrames(regions) <==> InUsable(regions, f)
  {
    if regions != [] {
      var n := |regions| - 1;
      UsableFramesMean(regions[..n]);
      RegionFramesMean(regions[n]);
      forall f: nat
        ensures f in UsableFrames(regions) <==> InUsable(regions, f)
      {
        if InUsable(regions, f) {
          var k :| 0 <= k < |regions| && regions[k].usable && FrameIn(f, regions[k]);
          if k < n { assert regions[..n][k] == regions[k] && InUsable(regions[..n], f); }
        }
        if InUsable(regions[..n], f) {
          var k :| 0 <= k < n && regions[..n][k].usable && FrameIn(f, regions[..n][k]);
          assert regions[k] == regions[..n][k];
        }
      }
    }
  }

  /** No frame is listed twice. */
  lemma {:induction false} UsableFramesDistinct(regions: seq<Region>)
    requires Aligned(regions) && Disjoint(regions)
    ensures forall j, k | 0 <= j < k < |UsableFrames(regions)| :: UsableFrames(regions)[j] != UsableFrames(regions)[k]
  {
    if regions != [] {
      var n := |regions| - 1;
      UsableFramesDistinct(regions[..n]);
      UsableFramesMean(regions[..n]);
      RegionFramesMean(regions[n]);
      var init, last := UsableFrames(regions[..n]), RegionFrames(regions[n]);
      forall f | f in init
        ensures f !in last
      {
        assert InUsable(regions[..n], f);
        var k :| 0 <= k < n && regions[..n][k].usable && FrameIn(f, regions[..n][k]);
        assert regions[k] == regions[..n][k];
      }
      DistinctConcat(init, last);
    }
  }

  lemma DistinctConcat(a: seq<nat>, b: seq<nat>)
    requires forall j, k | 0 <= j < k < |a| :: a[j] != a[k]
    requires forall j, k | 0 <= j < k < |b| :: b[j] != b[k]
    requires forall f | f in a :: f !in b
    ensures forall j, k | 0 <= j < k < |a + b| :: (a + b)[j] != (a + b)[k]
  {
    var s := a + b;
    assert forall i | 0 <= i < |a| :: s[i] == a[i] && s[i] in a;
    assert forall i | |a| <= i < |s| :: s[i] == b[i - |a|] && s[i] in b;
  }

  /** The answers of the first n calls. */
  function Answers(regions: seq<Region>, n: nat): seq<Option<nat>> {
    seq(n, k requires 0 <= k => Nth(UsableFrames(regions), k))
  }

  /** Over every run: frames are pairwise distinct and lie wholly inside usable regions, a
      refusal is permanent, and it comes only after every usable frame was handed out. */
  lemma RunHandsOutEachFrameOnce(regions: seq<Region>, n: nat)
    requires Aligned(regions) && Disjoint(regions)
    ensures forall j, k | 0 <= j < k < n && Answers(regions, n)[k].Some? ::
              Answers(regions, n)[j].Some? && Answers(regions, n)[j] != Answers(regions, n)[k]
    ensures forall k | 0 <= k < n && Answers(regions, n)[k].Some? :: InUsable(regions, Answers(regions, n)[k].value)
    ensures forall k, f: nat | 0 <= k < n && Answers(regions, n)[k].None? && InUsable(regions, f) ::
              Some(f) in Answers(regions, n)[..k]
  {
    var frames, answers := UsableFrames(regions), Answers(regions, n);
    UsableFramesDistinct(regions);
    UsableFramesMean(regions);
    assert forall k | 0 <= k < n && answers[k].Some? :: answers[k].value == frames[k] && frames[k] in frames;
    forall k, f: nat | 0 <= k < n && answers[k].None? && InUsable(regions, f)
      ensures Some(f) in answers[..k]
    {
      var j :| 0 <= j < |frames| && frames[j] == f;
      assert answers[..k][j] == Some(f);
    }
  }
}
