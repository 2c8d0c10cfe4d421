/**
 * The bump-style physical frame allocator of `src/allocator.rs`.
 *
 * The bootloader's memory map is read as one flat stream: for every `Usable`
 * region, in map order, the addresses `start, start + 4096, ...` below `end`,
 * each turned into the frame that contains it. The allocator keeps a cursor;
 * call number n returns element n of that stream (or nothing when the stream
 * is shorter) and then advances the cursor, whatever it returned.
 */
module FrameAllocator {
  import opened Wrappers
  import opened Paging

  /**
   * Kind of a memory-map region. Only `Usable` regions feed the allocator;
   * the bootloader's remaining kinds are folded into the other variants.
   */
  datatype MemoryRegionType = Usable | InUse | Reserved | Other(code: nat)

  /** One entry of the memory map: the physical range `[start, end)` and its kind. */
  datatype MemoryRegion = MemoryRegion(start: nat, end: nat, regionType: MemoryRegionType)

  type MemoryMap = seq<MemoryRegion>

  // ---------------------------------------------------------------------------
  // The frame stream

  /** `(start..end).step_by(4096)`: start, start + 4096, ... as long as below `end`. */
  function StepAddresses(start: nat, end: nat): (r: seq<nat>)
    ensures forall a :: a in r ==> start <= a < end
    decreases end - start
  {
    if start < end then [start] + StepAddresses(start + PageSize, end) else []
  }

  /** What one region puts into the stream: its step addresses if `Usable`, nothing otherwise. */
  function RegionAddresses(r: MemoryRegion): seq<nat>
  {
    if r.regionType == Usable then StepAddresses(r.start, r.end) else []
  }

  /** The filter / map / flatten chain over the memory map, before frames are formed. */
  function UsableAddresses(m: MemoryMap): (r: seq<nat>)
    ensures forall a :: a in r ==> exists region :: region in m && region.regionType == Usable && region.start <= a < region.end
  {
    if m == [] then [] else RegionAddresses(m[0]) + UsableAddresses(m[1..])
  }

  /** The allocator's stream of frames: the frame containing each usable address. */
  function Frames(m: MemoryMap): (r: seq<PhysFrame>)
    ensures |r| == |UsableAddresses(m)|
    ensures forall i :: 0 <= i < |r| ==>
      r[i].startAddress % PageSize == 0 && r[i].startAddress <= UsableAddresses(m)[i] < r[i].startAddress + PageSize
  {
    var addrs := UsableAddresses(m);
    seq(|addrs|, i requires 0 <= i < |addrs| => FrameContaining(addrs[i]))
  }

  /** `.nth(n)` on the frame stream: what a call made with cursor `n` returns. */
  function FrameAt(m: MemoryMap, n: nat): (r: Option<PhysFrame>)
    ensures r.None? <==> n >= |Frames(m)|
    ensures r.Some? ==> r.value in Frames(m)
  {
    if n < |Frames(m)| then Some(Frames(m)[n]) else None
  }

  // ---------------------------------------------------------------------------
  // Independent counts

  /** ⌈(end − start) / 4096⌉ for a non-empty range, 0 when `end <= start`. */
  function PagesIn(start: nat, end: nat): nat
  {
    if end <= start then 0 else (end - start + PageSize - 1) / PageSize
  }

  /** The number of frames the memory map offers: the sum of `PagesIn` over `Usable` regions. */
  function UsableFrameCount(m: MemoryMap): nat
  {
    if m == [] then 0
    else (if m[0].regionType == Usable then PagesIn(m[0].start, m[0].end) else 0)
         + UsableFrameCount(m[1..])
  }

  /** A region `[start, end)` yields exactly ⌈(end − start) / 4096⌉ addresses, none if `end <= start`. */
  lemma {:induction false} StepAddressesLength(start: nat, end: nat)
    ensures |StepAddresses(start, end)| == PagesIn(start, end)
    decreases end - start
  {
    if start < end {
      StepAddressesLength(start + PageSize, end);
    }
  }

  /** Address k of a region is `start + k * 4096`, and it lies inside `[start, end)`. */
  lemma {:induction false} StepAddressesAt(start: nat, end: nat, k: nat)
    requires k < |StepAddresses(start, end)|
    ensures StepAddresses(start, end)[k] == start + k * PageSize
    ensures start <= StepAddresses(start, end)[k] < end
    ensures (StepAddresses(start, end)[k] - start) % PageSize == 0
    decreases k
  {
    if k > 0 {
      StepAddressesAt(start + PageSize, end, k - 1);
    }
  }

  /** The stream is exactly as long as the independent count says. */
  lemma {:induction false} UsableAddressesLength(m: MemoryMap)
    ensures |UsableAddresses(m)| == UsableFrameCount(m)
    ensures |Frames(m)| == UsableFrameCount(m)
  {
    if m != [] {
      UsableAddressesLength(m[1..]);
      if m[0].regionType == Usable {
        StepAddressesLength(m[0].start, m[0].end);
      }
    }
  }

  /** The stream of a concatenated map is the concatenation of the streams, in order. */
  lemma {:induction false} UsableAddressesAppend(a: MemoryMap, b: MemoryMap)
    ensures UsableAddresses(a + b) == UsableAddresses(a) + UsableAddresses(b)
  {
    if a == [] {
      assert a + b == b;
    } else {
      assert (a + b)[1..] == a[1..] + b;
      UsableAddressesAppend(a[1..], b);
    }
  }

  /** A map of one usable region offers ⌈(end − start) / 4096⌉ frames. */
  lemma SingleRegionFrameCount(m: MemoryMap, start: nat, end: nat)
    requires m == [MemoryRegion(start, end, Usable)]
    ensures |Frames(m)| == PagesIn(start, end)
  {
    UsableAddressesLength(m);
    assert m[1..] == [];
  }

  /** A region that is not `Usable` contributes nothing, wherever it stands in the map. */
  lemma NonUsableRegionIgnored(a: MemoryMap, r: MemoryRegion, b: MemoryMap)
    requires r.regionType != Usable
    ensures UsableAddresses(a + [r] + b) == UsableAddresses(a + b)
  {
    assert UsableAddresses([r]) == [] by {
      assert [r][1..] == [];
    }
    UsableAddressesAppend(a + [r], b);
    UsableAddressesAppend(a, [r]);
    UsableAddressesAppend(a, b);
    assert UsableAddresses(a + [r]) == UsableAddresses(a);
  }

  /** Each address of the stream comes from a `Usable` region, at a multiple of 4096 past its start. */
  lemma {:induction false} RegionOfAddress(m: MemoryMap, k: nat) returns (i: nat)
    requires k < |UsableAddresses(m)|
    ensures i < |m| && m[i].regionType == Usable
    ensures m[i].start <= UsableAddresses(m)[k] < m[i].end
    ensures (UsableAddresses(m)[k] - m[i].start) % PageSize == 0
  {
    var head := RegionAddresses(m[0]);
    if k < |head| {
      StepAddressesAt(m[0].start, m[0].end, k);
      i := 0;
    } else {
      var j := RegionOfAddress(m[1..], k - |head|);
      assert m[1..][j] == m[j + 1];
      i := j + 1;
    }
  }

  /** `f` is the frame containing some address of a `Usable` region of `m`. */
  ghost predicate ContainsUsableAddress(m: MemoryMap, f: PhysFrame)
  {
    exists i, a: nat :: 0 <= i < |m| && m[i].regionType == Usable && m[i].start <= a < m[i].end
      && f == FrameContaining(a)
  }

  /** A call returns nothing exactly when the cursor has reached the number of usable frames. */
  lemma FrameAtNone(m: MemoryMap, n: nat)
    ensures FrameAt(m, n).None? <==> n >= UsableFrameCount(m)
  {
    UsableAddressesLength(m);
  }

  /** Every frame a call returns contains an address of a `Usable` region. */
  lemma FrameAtInUsableRegion(m: MemoryMap, n: nat)
    requires FrameAt(m, n).Some?
    ensures ContainsUsableAddress(m, FrameAt(m, n).value)
  {
    var i := RegionOfAddress(m, n);
    var a := UsableAddresses(m)[n];
    assert 0 <= i < |m| && m[i].regionType == Usable && m[i].start <= a < m[i].end
      && FrameAt(m, n).value == FrameContaining(a);
  }

  // ---------------------------------------------------------------------------
  // Order and distinctness

  /** Usable regions appear in ascending address order and do not overlap. */
  ghost predicate UsableRegionsAscending(m: MemoryMap)
  {
    forall i, j :: 0 <= i < j < |m| && m[i].regionType == Usable && m[j].regionType == Usable
      ==> m[i].end <= m[j].start
  }

  /** Every usable region starts on a 4096-byte boundary. */
  ghost predicate UsableRegionsAligned(m: MemoryMap)
  {
    forall i :: 0 <= i < |m| && m[i].regionType == Usable ==> m[i].start % PageSize == 0
  }

  /** Every usable region ends on a 4096-byte boundary. */
  ghost predicate UsableRegionEndsAligned(m: MemoryMap)
  {
    forall i :: 0 <= i < |m| && m[i].regionType == Usable ==> m[i].end % PageSize == 0
  }

  /** With ascending, non-overlapping usable regions, the address stream strictly increases. */
  lemma {:induction false} UsableAddressesIncreasing(m: MemoryMap)
    requires UsableRegionsAscending(m)
    ensures forall i, j :: 0 <= i < j < |UsableAddresses(m)| ==> UsableAddresses(m)[i] < UsableAddresses(m)[j]
  {
    if m != [] {
      var rest := m[1..];
      assert UsableRegionsAscending(rest) by {
        forall i, j | 0 <= i < j < |rest| && rest[i].regionType == Usable && rest[j].regionType == Usable
          ensures rest[i].end <= rest[j].start
        {
          assert rest[i] == m[i + 1] && rest[j] == m[j + 1];
        }
      }
      UsableAddressesIncreasing(rest);
      var head := RegionAddresses(m[0]);
      var ua := UsableAddresses(m);
      assert ua == head + UsableAddresses(rest);
      forall i, j | 0 <= i < j < |ua| ensures ua[i] < ua[j] {
        if j < |head| {
          StepAddressesAt(m[0].start, m[0].end, i);
          StepAddressesAt(m[0].start, m[0].end, j);
        } else if i >= |head| {
          assert ua[i] == UsableAddresses(rest)[i - |head|];
          assert ua[j] == UsableAddresses(rest)[j - |head|];
        } else {
          StepAddressesAt(m[0].start, m[0].end, i);
          var r := RegionOfAddress(rest, j - |head|);
          assert rest[r] == m[r + 1];
          assert ua[j] == UsableAddresses(rest)[j - |head|];
        }
      }
    }
  }

  /** With ascending regions, the frames handed out never go down. */
  lemma FramesNonDecreasing(m: MemoryMap, i: nat, j: nat)
    requires UsableRegionsAscending(m)
    requires i <= j < |Frames(m)|
    ensures Frames(m)[i].startAddress <= Frames(m)[j].startAddress
  {
    UsableAddressesIncreasing(m);
    AlignDownMonotone(UsableAddresses(m)[i], UsableAddresses(m)[j]);
  }

  /**
   * With ascending usable regions that start on 4096-byte boundaries, the
   * frames strictly increase, so no frame is ever handed out twice.
   */
  lemma FramesIncreasing(m: MemoryMap, i: nat, j: nat)
    requires UsableRegionsAscending(m) && UsableRegionsAligned(m)
    requires i < j < |Frames(m)|
    ensures Frames(m)[i].startAddress < Frames(m)[j].startAddress
  {
    var ua := UsableAddresses(m);
    assert ua[i] < ua[j] by {
      UsableAddressesIncreasing(m);
    }
    UsableAddressAligned(m, i);
    UsableAddressAligned(m, j);
    AlignDownAligned(ua[i]);
    AlignDownAligned(ua[j]);
    assert Frames(m)[i] == FrameContaining(ua[i]) && Frames(m)[j] == FrameContaining(ua[j]);
  }

  /** In a map whose usable regions start on 4096-byte boundaries every address of the stream is a frame start. */
  lemma UsableAddressAligned(m: MemoryMap, k: nat)
    requires UsableRegionsAligned(m)
    requires k < |UsableAddresses(m)|
    ensures UsableAddresses(m)[k] % PageSize == 0
  {
    var r := RegionOfAddress(m, k);
    var a := UsableAddresses(m)[k];
    var start := m[r].start;
    assert start % PageSize == 0 && (a - start) % PageSize == 0;
    assert a == start + (a - start);
  }

  /**
   * With usable regions aligned at both ends, every frame of the stream lies
   * wholly inside one `Usable` region.
   */
  lemma FrameWithinUsableRegion(m: MemoryMap, n: nat)
    requires UsableRegionsAligned(m) && UsableRegionEndsAligned(m)
    requires n < |Frames(m)|
    ensures exists i :: (0 <= i < |m| && m[i].regionType == Usable
                         && m[i].start <= Frames(m)[n].startAddress && Frames(m)[n].startAddress + PageSize <= m[i].end)
  {
    var r := RegionOfAddress(m, n);
    var a := UsableAddresses(m)[n];
    UsableAddressAligned(m, n);
    AlignDownAligned(a);
    assert Frames(m)[n].startAddress == a;
    var end := m[r].end;
    assert end % PageSize == 0;
    assert a + PageSize <= end by {
      assert (end - a) % PageSize == 0 by {
        assert end == a + (end - a);
      }
    }
  }

  /**
   * Aligned starts alone do not keep a frame inside its region: a usable
   * region ending at 0x1800 yields frame 0x1000, which also covers the
   * reserved bytes `[0x1800, 0x2000)` that follow.
   */
  lemma UnalignedEndFrameOverruns(m: MemoryMap)
    requires m == [MemoryRegion(0, 0x1800, Usable), MemoryRegion(0x1800, 0x2000, Reserved)]
    ensures UsableRegionsAscending(m) && UsableRegionsAligned(m)
    ensures FrameAt(m, 1) == Some(PhysFrame(0x1000))
    ensures m[0].end < 0x1000 + PageSize && m[1].regionType == Reserved && m[1].start < 0x1000 + PageSize
  {
    assert StepAddresses(0x2000, 0x1800) == [];
    assert StepAddresses(0x1000, 0x1800) == [0x1000];
    assert StepAddresses(0, 0x1800) == [0, 0x1000];
    assert m[1..][1..] == [];
    assert UsableAddresses(m[1..]) == [] + UsableAddresses(m[1..][1..]);
    assert UsableAddresses(m) == [0, 0x1000] + UsableAddresses(m[1..]);
    assert UsableAddresses(m) == [0, 0x1000];
  }

  /** Each frame of the sequence lies strictly above the ones before it. */
  ghost predicate StrictlyAscending(frames: seq<PhysFrame>)
  {
    forall i, j :: 0 <= i < j < |frames| ==> frames[i].startAddress < frames[j].startAddress
  }

  /** With ascending, page-aligned usable regions the whole frame stream strictly ascends. */
  lemma FrameStreamAscends(m: MemoryMap)
    requires UsableRegionsAscending(m) && UsableRegionsAligned(m)
    ensures StrictlyAscending(Frames(m))
  {
    forall i, j | 0 <= i < j < |Frames(m)|
      ensures Frames(m)[i].startAddress < Frames(m)[j].startAddress
    {
      FramesIncreasing(m, i, j);
    }
  }

  /**
   * Without aligned region starts the code does hand out one frame twice:
   * two adjacent usable regions that meet at 0x1800 both yield frame 0x1000.
   */
  lemma UnalignedRegionsShareFrame(m: MemoryMap)
    requires m == [MemoryRegion(0, 0x1800, Usable), MemoryRegion(0x1800, 0x3000, Usable)]
    ensures UsableRegionsAscending(m)
    ensures FrameAt(m, 1) == Some(PhysFrame(0x1000)) && FrameAt(m, 2) == Some(PhysFrame(0x1000))
  {
    assert StepAddresses(0x3000, 0x3000) == [];
    assert StepAddresses(0x2800, 0x3000) == [0x2800];
    assert StepAddresses(0x1800, 0x3000) == [0x1800, 0x2800];
    assert StepAddresses(0x2000, 0x1800) == [];
    assert StepAddresses(0x1000, 0x1800) == [0x1000];
    assert StepAddresses(0, 0x1800) == [0, 0x1000];
    assert m[1..][1..] == [];
    assert UsableAddresses(m[1..]) == [0x1800, 0x2800] + UsableAddresses(m[1..][1..]);
    assert UsableAddresses(m) == [0, 0x1000] + UsableAddresses(m[1..]);
    assert UsableAddresses(m) == [0, 0x1000, 0x1800, 0x2800];
  }

  // ---------------------------------------------------------------------------
  // Allocation history

  /** `h` lists what the calls with cursor 0, 1, ... returned. */
  ghost predicate IsAllocationHistory(m: MemoryMap, h: seq<Option<PhysFrame>>)
  {
    forall i :: 0 <= i < |h| ==> h[i] == FrameAt(m, i)
  }

  /** Once a call returns nothing, every later call returns nothing too. */
  lemma ExhaustedStaysExhausted(m: MemoryMap, h: seq<Option<PhysFrame>>, i: nat, j: nat)
    requires IsAllocationHistory(m, h)
    requires i <= j < |h| && h[i].None?
    ensures h[j].None?
  {
  }

  /** On an aligned, ascending map, two calls never return the same frame, and later frames lie higher. */
  lemma HistoryNeverRepeatsFrame(m: MemoryMap, h: seq<Option<PhysFrame>>, i: nat, j: nat)
    requires UsableRegionsAscending(m) && UsableRegionsAligned(m)
    requires IsAllocationHistory(m, h)
    requires i < j < |h| && h[i].Some? && h[j].Some?
    ensures h[i].value.startAddress < h[j].value.startAddress
  {
    FramesIncreasing(m, i, j);
  }

  // ---------------------------------------------------------------------------
  // The allocator object

  /** `struct Allocator(usize, &'static MemoryMap)`: a cursor over a borrowed memory map. */
  class Allocator {
    /** The cursor `self.0`: how many calls have been made. */
    var next: nat
    /** The memory map `self.1`, read-only. */
    const memoryMap: MemoryMap
    /** Everything returned so far, in call order. */
    ghost var issued: seq<Option<PhysFrame>>

    ghost predicate Valid()
      reads this
    {
      |issued| == next && IsAllocationHistory(memoryMap, issued)
    }

    /** `Allocator::new`: the cursor starts at 0. */
    constructor (memoryMap: MemoryMap)
      ensures Valid()
      ensures this.memoryMap == memoryMap && next == 0 && issued == []
    {
      this.memoryMap := memoryMap;
      next := 0;
      issued := [];
    }

    /**
     * `allocate_frame`: returns element `next` of the frame stream if there
     * is one, and advances the cursor by one in either case.
     */
    method AllocateFrame() returns (frame: Option<PhysFrame>)
      requires Valid()
      modifies this
      ensures Valid()
      ensures next == old(next) + 1 && issued == old(issued) + [frame]
      ensures frame == FrameAt(memoryMap, old(next))
      ensures frame.None? <==> old(next) >= UsableFrameCount(memoryMap)
      ensures frame.Some? ==> ContainsUsableAddress(memoryMap, frame.value)
    {
      frame := FrameAt(memoryMap, next);
      FrameAtNone(memoryMap, next);
      if frame.Some? {
        FrameAtInUsableRegion(memoryMap, next);
      }
      issued := issued + [frame];
      next := next + 1;
    }
  }
}
