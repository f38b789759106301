/** The address arithmetic dfuse.js does over a parsed memory map: the segment
    that holds an address, the sector around an address, how far a read may run,
    and which sectors an erase of a range visits. These are the specifications
    the `Dfuse.Device` methods are proved against. */
module DfuseLookup {
  import opened Wrappers
  import opened Transport
  import opened DfuseMemoryMap
  import Arith

  predicate Contains(seg: Segment, addr: int) {
    seg.start <= addr < seg.end
  }

  /** No two segments of the map share an address. The parser lays the segments
      of one block end to end; separate blocks of a descriptor could overlap, so
      the lemmas that need this say so. */
  predicate Disjoint(segs: seq<Segment>) {
    forall j, k :: 0 <= j < k < |segs| ==> segs[j].end <= segs[k].start || segs[k].end <= segs[j].start
  }

  // ---------------------------------------------------------------------------
  // getSegment and getFirstWritableSegment

  /** The segment `getSegment` returns: the first one holding `addr`, or none. */
  function SegmentAt(segs: seq<Segment>, addr: int): (r: Option<Segment>)
    ensures r.Some? ==> r.value in segs && Contains(r.value, addr)
    decreases |segs|
  {
    if segs == [] then None
    else if Contains(segs[0], addr) then Some(segs[0])
    else SegmentAt(segs[1..], addr)
  }

  /** `SegmentAt` is the first segment holding the address... */
  lemma {:induction false} SegmentAtIsFirst(segs: seq<Segment>, addr: int, k: nat)
    requires k < |segs| && Contains(segs[k], addr)
    requires forall j :: 0 <= j < k ==> !Contains(segs[j], addr)
    ensures SegmentAt(segs, addr) == Some(segs[k])
  {
    if k > 0 {
      assert !Contains(segs[0], addr);
      SegmentAtIsFirst(segs[1..], addr, k - 1);
    }
  }

  /** ... and there is none exactly when no segment holds it. */
  lemma {:induction false} SegmentAtNone(segs: seq<Segment>, addr: int)
    ensures SegmentAt(segs, addr).None? <==> forall k :: 0 <= k < |segs| ==> !Contains(segs[k], addr)
  {
    if segs != [] && !Contains(segs[0], addr) {
      SegmentAtNone(segs[1..], addr);
      assert forall k :: 1 <= k < |segs| ==> segs[k] == segs[1..][k - 1];
    }
  }

  /** In a disjoint map the segment holding an address is the only one. */
  lemma SegmentAtDisjoint(segs: seq<Segment>, addr: int, k: nat)
    requires Disjoint(segs) && k < |segs| && Contains(segs[k], addr)
    ensures SegmentAt(segs, addr) == Some(segs[k])
  {
    forall j | 0 <= j < k ensures !Contains(segs[j], addr) {
      assert segs[j].end <= segs[k].start || segs[k].end <= segs[j].start;
    }
    SegmentAtIsFirst(segs, addr, k);
  }

  /** The segment `getFirstWritableSegment` returns. */
  function FirstWritable(segs: seq<Segment>): (r: Option<Segment>)
    ensures r.Some? ==> r.value in segs && r.value.writable
    decreases |segs|
  {
    if segs == [] then None
    else if segs[0].writable then Some(segs[0])
    else FirstWritable(segs[1..])
  }

  lemma {:induction false} FirstWritableIsFirst(segs: seq<Segment>)
    ensures FirstWritable(segs).None? <==> forall k :: 0 <= k < |segs| ==> !segs[k].writable
    ensures FirstWritable(segs).Some? ==>
              exists k :: 0 <= k < |segs| && segs[k] == FirstWritable(segs).value
                          && forall j :: 0 <= j < k ==> !segs[j].writable
  {
    if segs != [] && !segs[0].writable {
      FirstWritableIsFirst(segs[1..]);
      assert forall k :: 1 <= k < |segs| ==> segs[k] == segs[1..][k - 1];
      if FirstWritable(segs).Some? {
        var k :| 0 <= k < |segs[1..]| && segs[1..][k] == FirstWritable(segs).value
                 && forall j :: 0 <= j < k ==> !segs[1..][j].writable;
        assert segs[k + 1] == FirstWritable(segs).value;
        assert forall j :: 0 <= j < k + 1 ==> !segs[j].writable by {
          forall j | 0 <= j < k + 1 ensures !segs[j].writable {
            if j > 0 { assert segs[j] == segs[1..][j - 1]; }
          }
        }
      }
    } else if segs != [] {
      assert segs[0] == FirstWritable(segs).value;
    }
  }

  // ---------------------------------------------------------------------------
  // getSectorStart and getSectorEnd

  /** `Math.floor((addr - start) / sectorSize)`; for a positive divisor Dafny's
      Euclidean division is the floor. */
  function SectorIndex(seg: Segment, addr: int): int
    requires seg.sectorSize > 0
  {
    (addr - seg.start) / seg.sectorSize
  }

  function SectorStart(seg: Segment, addr: int): int
    requires seg.sectorSize > 0
  {
    seg.start + SectorIndex(seg, addr) * seg.sectorSize
  }

  function SectorEnd(seg: Segment, addr: int): int
    requires seg.sectorSize > 0
  {
    seg.start + (SectorIndex(seg, addr) + 1) * seg.sectorSize
  }

  /** The sector around `addr` holds it, is one sector long and starts a whole
      number of sectors into the segment. */
  lemma SectorBounds(seg: Segment, addr: int)
    requires seg.sectorSize > 0
    ensures SectorStart(seg, addr) <= addr < SectorEnd(seg, addr)
    ensures SectorEnd(seg, addr) - SectorStart(seg, addr) == seg.sectorSize
    ensures (SectorStart(seg, addr) - seg.start) % seg.sectorSize == 0
  {
    var size, q := seg.sectorSize, SectorIndex(seg, addr);
    assert q * size + (addr - seg.start) % size == addr - seg.start;
    assert (q + 1) * size == q * size + size;
    Arith.MultipleMod(q, size);
  }

  /** A sector start is its own sector start. */
  lemma SectorStartAligned(seg: Segment, addr: int)
    requires seg.sectorSize > 0 && (addr - seg.start) % seg.sectorSize == 0
    ensures SectorStart(seg, addr) == addr
  {
    assert SectorIndex(seg, addr) * seg.sectorSize + (addr - seg.start) % seg.sectorSize == addr - seg.start;
  }

  /** Within a well-formed segment the sector around an address it holds lies
      inside the segment. */
  lemma SectorWithinSegment(seg: Segment, addr: int)
    requires SegmentWf(seg) && Contains(seg, addr)
    ensures seg.sectorSize > 0
    ensures seg.start <= SectorStart(seg, addr) <= addr < SectorEnd(seg, addr) <= seg.end
  {
    var size := seg.sectorSize;
    SectorBounds(seg, addr);
    var m := (seg.end - seg.start) / size;
    assert m * size == seg.end - seg.start by {
      assert m * size + (seg.end - seg.start) % size == seg.end - seg.start;
    }
    Arith.QuotientBelow(addr - seg.start, m, size);
    Arith.MulNonNegative(SectorIndex(seg, addr), size);
  }

  // ---------------------------------------------------------------------------
  // getMaxReadSize

  /** The loop of `getMaxReadSize` from segment `i` on, with `n` bytes counted so
      far: the segment holding the start adds the bytes from there to its end, or
      makes the answer 0 when it is not readable; a segment that starts where the
      count ends adds its length when readable and ends the loop when not. */
  function MaxReadScan(segs: seq<Segment>, i: nat, addr: int, n: int): int
    requires i <= |segs|
    decreases |segs| - i
  {
    if i == |segs| then n
    else
      var seg := segs[i];
      if Contains(seg, addr) then
        if seg.readable then MaxReadScan(segs, i + 1, addr, n + (seg.end - addr)) else 0
      else if seg.start == addr + n then
        if seg.readable then MaxReadScan(segs, i + 1, addr, n + (seg.end - seg.start)) else n
      else MaxReadScan(segs, i + 1, addr, n)
  }

  function MaxRead(segs: seq<Segment>, addr: int): int {
    MaxReadScan(segs, 0, addr, 0)
  }

  /** A readable segment holds the address. */
  predicate ReadableAt(segs: seq<Segment>, x: int) {
    exists k :: 0 <= k < |segs| && Contains(segs[k], x) && segs[k].readable
  }

  lemma {:induction false} MaxReadScanUnmapped(segs: seq<Segment>, i: nat, addr: int)
    requires i <= |segs| && AllWf(segs)
    requires forall k :: i <= k < |segs| ==> !Contains(segs[k], addr)
    ensures MaxReadScan(segs, i, addr, 0) == 0
    decreases |segs| - i
  {
    if i < |segs| {
      assert SegmentWf(segs[i]);
      MaxReadScanUnmapped(segs, i + 1, addr);
    }
  }

  /** An address in no segment can be read for 0 bytes. */
  lemma MaxReadUnmapped(segs: seq<Segment>, addr: int)
    requires AllWf(segs)
    requires forall k :: 0 <= k < |segs| ==> !Contains(segs[k], addr)
    ensures MaxRead(segs, addr) == 0
  {
    MaxReadScanUnmapped(segs, 0, addr);
  }

  lemma {:induction false} MaxReadScanUnreadable(segs: seq<Segment>, i: nat, addr: int, k: nat)
    requires i <= k < |segs| && AllWf(segs)
    requires Contains(segs[k], addr) && !segs[k].readable
    requires forall j :: i <= j < k ==> !Contains(segs[j], addr)
    ensures MaxReadScan(segs, i, addr, 0) == 0
    decreases k - i
  {
    if i < k {
      assert SegmentWf(segs[i]);
      MaxReadScanUnreadable(segs, i + 1, addr, k);
    }
  }

  /** When the segment `getSegment` finds is not readable, nothing can be read. */
  lemma MaxReadUnreadable(segs: seq<Segment>, addr: int)
    requires AllWf(segs)
    requires SegmentAt(segs, addr).Some? && !SegmentAt(segs, addr).value.readable
    ensures MaxRead(segs, addr) == 0
  {
    var k := FirstIndexAt(segs, addr);
    SegmentAtIsFirst(segs, addr, k);
    MaxReadScanUnreadable(segs, 0, addr, k);
  }

  /** The index of the segment `SegmentAt` finds. */
  lemma {:induction false} FirstIndexAt(segs: seq<Segment>, addr: int) returns (k: nat)
    requires SegmentAt(segs, addr).Some?
    ensures k < |segs| && Contains(segs[k], addr) && SegmentAt(segs, addr).value == segs[k]
    ensures forall j :: 0 <= j < k ==> !Contains(segs[j], addr)
  {
    if Contains(segs[0], addr) {
      k := 0;
    } else {
      var k' := FirstIndexAt(segs[1..], addr);
      k := k' + 1;
      forall j | 0 <= j < k ensures !Contains(segs[j], addr) {
        if j > 0 { assert segs[j] == segs[1..][j - 1]; }
      }
    }
  }

  lemma {:induction false} MaxReadScanSound(segs: seq<Segment>, i: nat, addr: int, n: int, x: int)
    requires i <= |segs| && AllWf(segs) && Disjoint(segs) && 0 <= n
    requires forall y :: addr <= y < addr + n ==> ReadableAt(segs, y)
    requires n > 0 ==> exists j :: 0 <= j < i && Contains(segs[j], addr)
    requires addr <= x < addr + MaxReadScan(segs, i, addr, n)
    ensures ReadableAt(segs, x)
    decreases |segs| - i
  {
    if i < |segs| {
      var seg := segs[i];
      assert SegmentWf(seg);
      if Contains(seg, addr) {
        if seg.readable {
          assert n == 0;
          forall y | addr <= y < addr + (seg.end - addr) ensures ReadableAt(segs, y) {
            assert Contains(segs[i], y);
          }
          MaxReadScanSound(segs, i + 1, addr, seg.end - addr, x);
        }
      } else if seg.start == addr + n {
        if seg.readable {
          var n' := n + (seg.end - seg.start);
          forall y | addr <= y < addr + n' ensures ReadableAt(segs, y) {
            if y >= addr + n { assert Contains(segs[i], y); }
          }
          MaxReadScanSound(segs, i + 1, addr, n', x);
        }
      } else {
        MaxReadScanSound(segs, i + 1, addr, n, x);
      }
    }
  }

  /** In a disjoint map every byte of the range `getMaxReadSize` allows lies in a
      readable segment. */
  lemma MaxReadSound(segs: seq<Segment>, addr: int, x: int)
    requires AllWf(segs) && Disjoint(segs)
    requires addr <= x < addr + MaxRead(segs, addr)
    ensures ReadableAt(segs, x)
  {
    MaxReadScanSound(segs, 0, addr, 0, x);
  }

  lemma {:induction false} MaxReadScanGrows(segs: seq<Segment>, i: nat, addr: int, n: int)
    requires i <= |segs| && AllWf(segs)
    requires forall k :: i <= k < |segs| ==> !Contains(segs[k], addr)
    ensures MaxReadScan(segs, i, addr, n) >= n
    decreases |segs| - i
  {
    if i < |segs| {
      var seg := segs[i];
      assert SegmentWf(seg);
      if seg.start == addr + n && seg.readable {
        MaxReadScanGrows(segs, i + 1, addr, n + (seg.end - seg.start));
      } else if seg.start != addr + n {
        MaxReadScanGrows(segs, i + 1, addr, n);
      }
    }
  }

  lemma {:induction false} MaxReadScanSkips(segs: seq<Segment>, i: nat, addr: int, k: nat)
    requires i <= k < |segs|
    requires forall j :: i <= j < k ==> !Contains(segs[j], addr) && segs[j].start < segs[j].end
    ensures MaxReadScan(segs, i, addr, 0) == MaxReadScan(segs, k, addr, 0)
    decreases k - i
  {
    if i < k {
      MaxReadScanSkips(segs, i + 1, addr, k);
    }
  }

  /** In a disjoint map without empty segments, a read starting in a readable
      segment may run at least to that segment's end. */
  lemma MaxReadCoversSegment(segs: seq<Segment>, addr: int, k: nat)
    requires AllWf(segs) && Disjoint(segs)
    requires forall j :: 0 <= j < |segs| ==> segs[j].start < segs[j].end
    requires k < |segs| && Contains(segs[k], addr) && segs[k].readable
    ensures MaxRead(segs, addr) >= segs[k].end - addr
  {
    forall j | 0 <= j < |segs| && j != k ensures !Contains(segs[j], addr) {
      if j < k {
        assert segs[j].end <= segs[k].start || segs[k].end <= segs[j].start;
      } else {
        assert segs[k].end <= segs[j].start || segs[j].end <= segs[k].start;
      }
    }
    MaxReadScanSkips(segs, 0, addr, k);
    MaxReadScanGrows(segs, k + 1, addr, segs[k].end - addr);
  }

  /** Only the segment at index `k` holds the address, when it does and the map
      is disjoint. */
  lemma OnlyHolderOf(segs: seq<Segment>, addr: int, k: nat)
    requires Disjoint(segs) && k < |segs| && Contains(segs[k], addr)
    ensures forall j :: 0 <= j < |segs| && j != k ==> !Contains(segs[j], addr)
  {
    forall j | 0 <= j < |segs| && j != k ensures !Contains(segs[j], addr) {
      if j < k {
        assert segs[j].end <= segs[k].start || segs[k].end <= segs[j].start;
      } else {
        assert segs[k].end <= segs[j].start || segs[j].end <= segs[k].start;
      }
    }
  }

  /** Through a run of readable segments, each starting where the one before
      ends, the scan adds each segment whole. */
  lemma {:induction false} MaxReadScanRun(segs: seq<Segment>, addr: int, k: nat, i: nat, m: nat)
    requires k < i <= m + 1 <= |segs|
    requires forall j :: 0 <= j < |segs| && j != k ==> !Contains(segs[j], addr)
    requires forall j :: i <= j <= m ==> segs[j].readable && segs[j].start == segs[j - 1].end
    ensures MaxReadScan(segs, i, addr, segs[i - 1].end - addr) == MaxReadScan(segs, m + 1, addr, segs[m].end - addr)
    decreases m + 1 - i
  {
    if i <= m {
      var n := segs[i - 1].end - addr;
      assert !Contains(segs[i], addr) && segs[i].start == addr + n;
      assert n + (segs[i].end - segs[i].start) == segs[i].end - addr;
      MaxReadScanRun(segs, addr, k, i + 1, m);
    }
  }

  /** In a disjoint map without empty segments, a read starting in readable
      segment `k` may run at least to the end of the run of readable segments
      `k..m` laid end to end after it; when the segment after the run starts at
      its end and is not readable, the read ends exactly there. */
  lemma MaxReadCoversRun(segs: seq<Segment>, addr: int, k: nat, m: nat)
    requires AllWf(segs) && Disjoint(segs)
    requires forall j :: 0 <= j < |segs| ==> segs[j].start < segs[j].end
    requires k <= m < |segs| && Contains(segs[k], addr)
    requires forall j :: k <= j <= m ==> segs[j].readable
    requires forall j :: k < j <= m ==> segs[j].start == segs[j - 1].end
    ensures MaxRead(segs, addr) >= segs[m].end - addr
    ensures m + 1 < |segs| && segs[m + 1].start == segs[m].end && !segs[m + 1].readable ==>
              MaxRead(segs, addr) == segs[m].end - addr
  {
    OnlyHolderOf(segs, addr, k);
    MaxReadScanSkips(segs, 0, addr, k);
    assert MaxReadScan(segs, k, addr, 0) == MaxReadScan(segs, k + 1, addr, segs[k].end - addr);
    MaxReadScanRun(segs, addr, k, k + 1, m);
    MaxReadScanGrows(segs, m + 1, addr, segs[m].end - addr);
    if m + 1 < |segs| && segs[m + 1].start == segs[m].end && !segs[m + 1].readable {
      assert !Contains(segs[m + 1], addr);
    }
  }

  /** An empty, unreadable segment that starts at the address ends the scan
      before the segment holding the address is reached: a count of 0 sectors
      (`0*1Kb`) in front of a readable entry gives a read size of 0. */
  lemma MaxReadEmptyLeader(addr: int)
    ensures var segs := [Segment(addr, addr, 1024, false, true, false),
                         Segment(addr, addr + 1024, 1024, true, true, true)];
            && AllWf(segs) && Disjoint(segs) && ReadableAt(segs, addr)
            && MaxRead(segs, addr) == 0
  {
    var segs := [Segment(addr, addr, 1024, false, true, false),
                 Segment(addr, addr + 1024, 1024, true, true, true)];
    assert Contains(segs[1], addr) && segs[1].readable;
  }

  // ---------------------------------------------------------------------------
  // erase

  /** The sectors an erase asks the device to erase, in order, and whether the
      walk then reached an address no segment holds (where `erase` reads a
      property of `null`). */
  datatype ErasePlan = ErasePlan(sectors: seq<int>, stuck: bool)

  /** The loop of `erase` from `addr` on, with `seg` the segment it last
      used: it looks the segment up again once the address has reached the
      segment's end, jumps over a segment that is not erasable, and otherwise
      erases the sector around the address and moves to the sector's end. */
  function EraseWalk(segs: seq<Segment>, seg: Segment, addr: int, endAddr: int): ErasePlan
    requires AllWf(segs) && SegmentWf(seg) && seg.start <= addr
    decreases endAddr - addr
  {
    if addr >= endAddr then ErasePlan([], false)
    else
      var cur := if seg.end <= addr then SegmentAt(segs, addr) else Some(seg);
      SegmentAtWf(segs, addr);
      if cur.None? then ErasePlan([], true)
      else
        var s := cur.value;
        SectorWithinSegment(s, addr);
        if !s.erasable then EraseWalk(segs, s, s.end, endAddr)
        else
          var sector := SectorStart(s, addr);
          var rest := EraseWalk(segs, s, sector + s.sectorSize, endAddr);
          ErasePlan([sector] + rest.sectors, rest.stuck)
  }

  lemma SegmentAtWf(segs: seq<Segment>, addr: int)
    requires AllWf(segs)
    ensures SegmentAt(segs, addr).Some? ==> SegmentWf(SegmentAt(segs, addr).value)
  {
    if SegmentAt(segs, addr).Some? {
      InWf(segs, SegmentAt(segs, addr).value);
    }
  }

  lemma InWf(segs: seq<Segment>, s: Segment)
    requires AllWf(segs) && s in segs
    ensures SegmentWf(s)
  {
    var k :| 0 <= k < |segs| && segs[k] == s;
  }

  /** What `erase(startAddr, length)` does before it sends anything: the
      segment holding the start and the one holding the last byte must exist;
      the walk runs from the start's sector start to the last byte's sector end. */
  function EraseRange(segs: seq<Segment>, startAddr: int, length: int): Result<ErasePlan, Failure>
    requires AllWf(segs)
  {
    match SegmentAt(segs, startAddr)
    case None => Err(OutsideMemoryMap(startAddr))
    case Some(seg) =>
      InWf(segs, seg);
      SectorWithinSegment(seg, startAddr);
      match SegmentAt(segs, startAddr + length - 1)
      case None => Err(OutsideMemoryMap(startAddr + length - 1))
      case Some(last) =>
        InWf(segs, last);
        SectorWithinSegment(last, startAddr + length - 1);
        Ok(EraseWalk(segs, seg, SectorStart(seg, startAddr), SectorEnd(last, startAddr + length - 1)))
  }

  /** An address where an erasable segment has a sector boundary. */
  predicate ErasableSectorStart(segs: seq<Segment>, x: int) {
    exists k :: 0 <= k < |segs| && segs[k].erasable && Contains(segs[k], x)
                && segs[k].sectorSize > 0 && (x - segs[k].start) % segs[k].sectorSize == 0
  }

  /** Every sector the walk erases starts a sector of an erasable segment and
      lies below the end of the range. */
  lemma {:induction false} EraseWalkSound(segs: seq<Segment>, seg: Segment, addr: int, endAddr: int)
    requires AllWf(segs) && SegmentWf(seg) && seg.start <= addr && seg in segs
    ensures forall x :: x in EraseWalk(segs, seg, addr, endAddr).sectors ==>
              x < endAddr && ErasableSectorStart(segs, x)
    decreases endAddr - addr
  {
    if addr < endAddr {
      var cur := if seg.end <= addr then SegmentAt(segs, addr) else Some(seg);
      SegmentAtWf(segs, addr);
      if cur.Some? {
        var s := cur.value;
        SectorWithinSegment(s, addr);
        if !s.erasable {
          EraseWalkSound(segs, s, s.end, endAddr);
        } else {
          EraseWalkSound(segs, s, SectorStart(s, addr) + s.sectorSize, endAddr);
          ErasableSector(segs, s, addr);
        }
      }
    }
  }

  lemma ErasableSector(segs: seq<Segment>, s: Segment, addr: int)
    requires s in segs && SegmentWf(s) && Contains(s, addr) && s.erasable
    ensures ErasableSectorStart(segs, SectorStart(s, addr))
  {
    SectorWithinSegment(s, addr);
    SectorBounds(s, addr);
    var k :| 0 <= k < |segs| && segs[k] == s;
    assert Contains(segs[k], SectorStart(s, addr));
  }

  /** Where the walk may stand: inside the segment it last used at a sector
      boundary, or exactly at that segment's end. */
  predicate WalkAligned(seg: Segment, addr: int) {
    && seg.start < seg.end
    && (addr < seg.end ==> seg.sectorSize > 0 && (addr - seg.start) % seg.sectorSize == 0)
    && (seg.end <= addr ==> addr == seg.end)
  }

  /** In a disjoint map the segment after `seg` that holds its end starts there. */
  lemma NextSegmentStarts(segs: seq<Segment>, seg: Segment, s: Segment)
    requires Disjoint(segs) && seg in segs && s in segs
    requires seg.start < seg.end && Contains(s, seg.end)
    ensures s.start == seg.end
  {
    var j :| 0 <= j < |segs| && segs[j] == seg;
    var k :| 0 <= k < |segs| && segs[k] == s;
    assert j != k by { assert !Contains(seg, seg.end); }
  }

  /** The segment the walk uses next, and that it stands at one of its sector
      boundaries there. */
  lemma WalkStep(segs: seq<Segment>, seg: Segment, addr: int)
    requires AllWf(segs) && SegmentWf(seg) && seg.start <= addr && seg in segs && Disjoint(segs)
    requires WalkAligned(seg, addr)
    requires seg.end <= addr ==> SegmentAt(segs, addr).Some?
    ensures var s := if seg.end <= addr then SegmentAt(segs, addr).value else seg;
            s in segs && SegmentWf(s) && Contains(s, addr) && s.sectorSize > 0
            && SectorStart(s, addr) == addr
  {
    var s := if seg.end <= addr then SegmentAt(segs, addr).value else seg;
    InWf(segs, s);
    if seg.end <= addr {
      NextSegmentStarts(segs, seg, s);
    }
    SectorWithinSegment(s, addr);
    SectorStartAligned(s, addr);
  }

  /** After erasing the sector at `addr` the walk stands at the next boundary. */
  lemma NextSectorAligned(s: Segment, addr: int)
    requires SegmentWf(s) && Contains(s, addr) && s.sectorSize > 0 && SectorStart(s, addr) == addr
    ensures WalkAligned(s, addr + s.sectorSize)
  {
    SectorWithinSegment(s, addr);
    SectorBounds(s, addr);
    Arith.AddMultiple(addr - s.start, 1, s.sectorSize);
  }

  /** In a disjoint map the walk erases strictly increasing addresses, none below
      where it starts. */
  lemma {:induction false} EraseWalkOrdered(segs: seq<Segment>, seg: Segment, addr: int, endAddr: int)
    requires AllWf(segs) && SegmentWf(seg) && seg.start <= addr && seg in segs && Disjoint(segs)
    requires WalkAligned(seg, addr)
    ensures var p := EraseWalk(segs, seg, addr, endAddr);
            (forall x :: x in p.sectors ==> addr <= x) && StrictlyIncreasing(p.sectors)
    decreases endAddr - addr
  {
    var p := EraseWalk(segs, seg, addr, endAddr);
    if addr < endAddr {
      var cur := if seg.end <= addr then SegmentAt(segs, addr) else Some(seg);
      if cur.Some? {
        WalkStep(segs, seg, addr);
        var s := cur.value;
        if !s.erasable {
          assert p == EraseWalk(segs, s, s.end, endAddr);
          EraseWalkOrdered(segs, s, s.end, endAddr);
        } else {
          var next := addr + s.sectorSize;
          NextSectorAligned(s, addr);
          var rest := EraseWalk(segs, s, next, endAddr);
          assert p.sectors == [addr] + rest.sectors;
          EraseWalkOrdered(segs, s, next, endAddr);
          ConsIncreasing(addr, rest.sectors);
        }
      }
    }
  }

  predicate StrictlyIncreasing(xs: seq<int>) {
    forall i, j :: 0 <= i < j < |xs| ==> xs[i] < xs[j]
  }

  lemma ConsIncreasing(a: int, xs: seq<int>)
    requires StrictlyIncreasing(xs) && forall x :: x in xs ==> a < x
    ensures StrictlyIncreasing([a] + xs) && forall x :: x in [a] + xs ==> a <= x
  {
    var ys := [a] + xs;
    forall i, j | 0 <= i < j < |ys| ensures ys[i] < ys[j] {
      assert ys[j] == xs[j - 1] && xs[j - 1] in xs;
      if i > 0 { assert ys[i] == xs[i - 1]; }
    }
  }

  /** Every address of a sector boundary lies in the sector starting there. */
  lemma SameSector(s: Segment, sector: int, x: int)
    requires s.sectorSize > 0 && (sector - s.start) % s.sectorSize == 0
    requires sector <= x < sector + s.sectorSize
    ensures SectorStart(s, x) == sector
  {
    var q := (sector - s.start) / s.sectorSize;
    assert q * s.sectorSize + (sector - s.start) % s.sectorSize == sector - s.start;
    Arith.DivModUnique(x - s.start, s.sectorSize, q, x - sector);
  }

  /** The only segment of a disjoint map that holds `x` is the one we know of. */
  lemma OnlyHolder(segs: seq<Segment>, s: Segment, k: nat, x: int)
    requires Disjoint(segs) && s in segs && Contains(s, x) && k < |segs| && Contains(segs[k], x)
    ensures segs[k] == s
  {
    var j :| 0 <= j < |segs| && segs[j] == s;
  }

  /** Every address from `lo` below `hi` that an erasable segment holds has the
      start of its sector among `sectors`. */
  predicate Covers(segs: seq<Segment>, lo: int, hi: int, sectors: seq<int>) {
    forall x, k :: lo <= x < hi && 0 <= k < |segs| && Contains(segs[k], x)
                   && segs[k].erasable && segs[k].sectorSize > 0
                   ==> SectorStart(segs[k], x) in sectors
  }

  /** When a disjoint map has no gap in the range, the walk erases the sector
      around every address of the range that an erasable segment holds. */
  lemma {:induction false} EraseWalkComplete(segs: seq<Segment>, seg: Segment, addr: int, endAddr: int)
    requires AllWf(segs) && SegmentWf(seg) && seg.start <= addr && seg in segs && Disjoint(segs)
    requires WalkAligned(seg, addr)
    ensures var p := EraseWalk(segs, seg, addr, endAddr);
            !p.stuck ==> Covers(segs, addr, endAddr, p.sectors)
    decreases endAddr - addr
  {
    var p := EraseWalk(segs, seg, addr, endAddr);
    if addr < endAddr {
      var cur := if seg.end <= addr then SegmentAt(segs, addr) else Some(seg);
      if cur.Some? {
        WalkStep(segs, seg, addr);
        var s := cur.value;
        if !s.erasable {
          EraseWalkComplete(segs, s, s.end, endAddr);
          if !p.stuck {
            CoversSkip(segs, s, addr, endAddr, p.sectors);
          }
        } else {
          var next := addr + s.sectorSize;
          NextSectorAligned(s, addr);
          EraseWalkComplete(segs, s, next, endAddr);
          var rest := EraseWalk(segs, s, next, endAddr);
          assert p.sectors == [addr] + rest.sectors;
          if !p.stuck {
            CoversErase(segs, s, addr, endAddr, rest.sectors);
          }
        }
      }
    }
  }

  /** Skipping a segment that cannot be erased leaves nothing uncovered: no
      other segment of a disjoint map holds its addresses. */
  lemma CoversSkip(segs: seq<Segment>, s: Segment, addr: int, endAddr: int, sectors: seq<int>)
    requires Disjoint(segs) && s in segs && Contains(s, addr) && !s.erasable
    requires Covers(segs, s.end, endAddr, sectors)
    ensures Covers(segs, addr, endAddr, sectors)
  {
    forall x, k | addr <= x < endAddr && 0 <= k < |segs| && Contains(segs[k], x)
                  && segs[k].erasable && segs[k].sectorSize > 0
      ensures SectorStart(segs[k], x) in sectors
    {
      if x < s.end {
        OnlyHolder(segs, s, k, x);
        assert false;
      }
    }
  }

  /** Erasing the sector at `addr` covers every address of that sector. */
  lemma CoversErase(segs: seq<Segment>, s: Segment, addr: int, endAddr: int, rest: seq<int>)
    requires Disjoint(segs) && s in segs && SegmentWf(s) && Contains(s, addr)
    requires s.sectorSize > 0 && SectorStart(s, addr) == addr
    requires Covers(segs, addr + s.sectorSize, endAddr, rest)
    ensures Covers(segs, addr, endAddr, [addr] + rest)
  {
    SectorWithinSegment(s, addr);
    SectorBounds(s, addr);
    forall x, k | addr <= x < endAddr && 0 <= k < |segs| && Contains(segs[k], x)
                  && segs[k].erasable && segs[k].sectorSize > 0
      ensures SectorStart(segs[k], x) in [addr] + rest
    {
      if x < addr + s.sectorSize {
        OnlyHolder(segs, s, k, x);
        SameSector(s, addr, x);
      } else {
        assert SectorStart(segs[k], x) in rest;
      }
    }
  }

  /** The walk erases nothing outside the range and every sector it erases is a
      sector of an erasable segment; in a disjoint map the sectors strictly
      increase from the start's sector start, and when the walk finds no gap it
      erases every sector of an erasable segment the range touches. */
  lemma EraseRangeSpec(segs: seq<Segment>, startAddr: int, length: int)
    requires AllWf(segs)
    ensures var r := EraseRange(segs, startAddr, length);
            && (SegmentAt(segs, startAddr).None? ==> r == Err(OutsideMemoryMap(startAddr)))
            && (SegmentAt(segs, startAddr).Some? && SegmentAt(segs, startAddr + length - 1).None?
                ==> r == Err(OutsideMemoryMap(startAddr + length - 1)))
            && (r.Ok? <==> SegmentAt(segs, startAddr).Some? && SegmentAt(segs, startAddr + length - 1).Some?)
    ensures var r := EraseRange(segs, startAddr, length);
            r.Ok? ==>
              var seg := SegmentAt(segs, startAddr).value;
              var last := SegmentAt(segs, startAddr + length - 1).value;
              var lo := SectorStart(seg, startAddr);
              var hi := SectorEnd(last, startAddr + length - 1);
              && (forall x :: x in r.value.sectors ==> x < hi && ErasableSectorStart(segs, x))
              && (Disjoint(segs) ==>
                    && (forall x :: x in r.value.sectors ==> lo <= x)
                    && StrictlyIncreasing(r.value.sectors)
                    && (!r.value.stuck ==>
                          forall x, k :: lo <= x < hi && 0 <= k < |segs| && Contains(segs[k], x)
                                         && segs[k].erasable && segs[k].sectorSize > 0
                                         ==> SectorStart(segs[k], x) in r.value.sectors))
  {
    if EraseRange(segs, startAddr, length).Ok? {
      var seg := SegmentAt(segs, startAddr).value;
      var last := SegmentAt(segs, startAddr + length - 1).value;
      InWf(segs, seg);
      InWf(segs, last);
      SectorWithinSegment(seg, startAddr);
      SectorWithinSegment(last, startAddr + length - 1);
      var lo := SectorStart(seg, startAddr);
      var hi := SectorEnd(last, startAddr + length - 1);
      EraseWalkSound(segs, seg, lo, hi);
      if Disjoint(segs) {
        SectorBounds(seg, startAddr);
        assert WalkAligned(seg, lo);
        EraseWalkOrdered(segs, seg, lo, hi);
        EraseWalkComplete(segs, seg, lo, hi);
      }
    }
  }
}
