/** The DfuSe device of dfuse.js: ST's extension of DFU, where DNLOAD of block 0
    carries a command (SET_ADDRESS, ERASE_SECTOR, GET_COMMANDS) and data blocks
    are written at the address last set. The device keeps the memory map parsed
    from its interface name and an optional start address (NaN until the page
    sets one). */
module Dfuse {
  import opened Wrappers
  import opened Transport
  import opened DfuseMemoryMap
  import opened DfuseLookup
  import opened DfuseCommands
  import DfuseTransfer
  import Dfu

  // ---------------------------------------------------------------------------
  // Segment lookups

  /** The loop of `getSegment` over the list. */
  method FindSegment(segs: seq<Segment>, addr: int) returns (r: Option<Segment>)
    ensures r == SegmentAt(segs, addr)
  {
    var i := 0;
    while i < |segs|
      invariant 0 <= i <= |segs|
      invariant SegmentAt(segs[i..], addr) == SegmentAt(segs, addr)
    {
      var segment := segs[i];
      assert segs[i..][1..] == segs[i + 1..];
      if segment.start <= addr && addr < segment.end {
        return Some(segment);
      }
      i := i + 1;
    }
    return None;
  }

  /** What a sector function is given as its segment: nothing (it looks the
      address up), `null`, or a segment. */
  datatype SegmentArg = Undefined | Null | Given(segment: Segment)

  class Device {
    /** `settings["interface"].interfaceNumber`, where requests are sent. */
    const intf: int
    const codes: Codes
    var memoryInfo: Option<MemoryInfo>
    /** None while the start address is NaN. */
    var startAddress: Option<int>

    /** Every segment of the map is well formed, as the parser guarantees. */
    ghost predicate Valid()
      reads this
    {
      memoryInfo.Some? ==> AllWf(memoryInfo.value.segments)
    }

    constructor (intf: int, codes: Codes, memoryInfo: Option<MemoryInfo>)
      requires memoryInfo.Some? ==> AllWf(memoryInfo.value.segments)
      ensures this.intf == intf && this.codes == codes
      ensures this.memoryInfo == memoryInfo && startAddress.None?
      ensures Valid()
    {
      this.intf := intf;
      this.codes := codes;
      this.memoryInfo := memoryInfo;
      this.startAddress := None;
    }

    /** `new dfuse.Device(device, settings)`: the map is parsed from the name
        of the alternate setting when it has one (a name that is not a DfuSe
        descriptor makes the constructor throw); the start address is NaN. */
    static method Create(intf: int, codes: Codes, name: Option<string>) returns (r: Result<Device, Failure>)
      ensures name.None? || name.value == "" ==>
                r.Ok? && r.value.memoryInfo.None?
      ensures name.Some? && name.value != "" ==>
                (r.Ok? <==> ParseDescriptor(name.value).Ok?)
                && (r.Ok? ==> r.value.memoryInfo == Some(ParseDescriptor(name.value).value))
                && (r.Err? ==> r.error == ParseDescriptor(name.value).error)
      ensures r.Ok? ==> fresh(r.value) && r.value.Valid() && r.value.startAddress.None?
                        && r.value.intf == intf && r.value.codes == codes
    {
      var memoryInfo: Option<MemoryInfo> := None;
      if name.Some? && name.value != "" {
        var parsed := ParseMemoryDescriptor(name.value);
        if parsed.Err? {
          return Err(parsed.error);
        }
        ParseDescriptorWf(name.value);
        memoryInfo := Some(parsed.value);
      }
      var device := new Device(intf, codes, memoryInfo);
      return Ok(device);
    }

    /** `do_download(xferSize, data)`: resolves the start address, erases the
        range, writes the image chunk by chunk at increasing addresses and asks
        the device to manifest it. */
    method DoDownload(usb: Usb, trace: seq<Event>, xferSize: int, data: seq<byte>) returns (s: Step<()>)
      requires Valid() && xferSize > 0
      ensures s == DfuseTransfer.DownloadSpec(usb, trace, intf, codes, memoryInfo, startAddress, xferSize, data)
    {
      if memoryInfo.None? {
        return Step(trace, Err(NoMemoryMap));
      }
      var expectedSize := |data|;
      var start: int;
      if startAddress.None? {
        // the inferred start address
        if |memoryInfo.value.segments| == 0 {
          return Step(trace, Err(TypeError));
        }
        start := memoryInfo.value.segments[0].start;
      } else {
        start := startAddress.value;
        // an address outside the map is only logged
        var found := GetSegment(start);
      }
      var erased := Erase(usb, trace, start, expectedSize);
      if erased.result.Err? {
        return erased;
      }
      var tr := WriteChunks(usb, erased.trace, xferSize, data, start);
      if tr.result.Err? {
        return tr;
      }
      s := Manifestation(usb, tr.trace, start);
    }

    /** The chunk loop of `do_download`. */
    method WriteChunks(usb: Usb, trace: seq<Event>, xferSize: int, data: seq<byte>, start: int) returns (s: Step<()>)
      requires xferSize > 0
      ensures s == DfuseTransfer.ProgramChunks(usb, trace, intf, codes, data, xferSize, 0, start)
    {
      ghost var spec := DfuseTransfer.ProgramChunks(usb, trace, intf, codes, data, xferSize, 0, start);
      var expectedSize := |data|;
      var bytesSent: nat := 0;
      var address := start;
      var tr := trace;
      while bytesSent < expectedSize
        invariant 0 <= bytesSent <= expectedSize
        invariant spec == DfuseTransfer.ProgramChunks(usb, tr, intf, codes, data, xferSize, bytesSent, address)
        decreases expectedSize - bytesSent
      {
        var chunkSize := DfuseTransfer.Min(expectedSize - bytesSent, xferSize);
        var w := WriteChunk(usb, tr, xferSize, data, bytesSent, address);
        if w.result.Err? {
          DfuseTransfer.ProgramChunksStop(usb, tr, intf, codes, data, xferSize, bytesSent, address, w, spec);
          return Step(w.trace, Err(w.result.error));
        }
        var nextSent := bytesSent + w.result.value;
        var nextAddress := address + chunkSize;
        ghost var rest := DfuseTransfer.ProgramChunks(usb, w.trace, intf, codes, data, xferSize, nextSent, nextAddress);
        DfuseTransfer.ProgramChunksNext(usb, tr, intf, codes, data, xferSize, bytesSent, address,
                                        w, nextSent, nextAddress, spec, rest);
        tr := w.trace;
        address := nextAddress;
        bytesSent := nextSent;
      }
      return Step(tr, Ok(()));
    }

    /** One pass of the chunk loop: returns the number of bytes written. */
    method WriteChunk(usb: Usb, trace: seq<Event>, xferSize: int, data: seq<byte>, sent: nat, address: int)
      returns (s: Step<int>)
      requires xferSize > 0 && sent < |data|
      ensures s == DfuseTransfer.ChunkStep(usb, trace, intf, codes, data, xferSize, sent, address)
    {
      var chunkSize := DfuseTransfer.Min(|data| - sent, xferSize);
      var c := DfuseCommand(usb, trace, intf, codes, SET_ADDRESS, Some(address), Some(4));
      if c.result.Err? {
        return Step(c.trace, Err(DownloadError(c.result.error)));
      }
      var d := Dfu.Download(usb, c.trace, intf, data[sent..sent + chunkSize], 2);
      if d.result.Err? {
        return Step(d.trace, Err(DownloadError(d.result.error)));
      }
      var bytesWritten := d.result.value;
      var tr := d.trace + [PollUntil(IdleIn(codes.dnloadIdle))];
      var dfuStatus := usb.poll(tr);
      if dfuStatus.Err? {
        return Step(tr, Err(DownloadError(Raised(dfuStatus.error))));
      }
      if dfuStatus.value.status != codes.statusOk {
        return Step(tr, Err(DownloadStatus(dfuStatus.value.state, dfuStatus.value.status)));
      }
      return Step(tr, Ok(bytesWritten));
    }

    /** The end of `do_download`. */
    method Manifestation(usb: Usb, trace: seq<Event>, start: int) returns (s: Step<()>)
      ensures s == DfuseTransfer.Manifest(usb, trace, intf, codes, start)
    {
      var c := DfuseCommand(usb, trace, intf, codes, SET_ADDRESS, Some(start), Some(4));
      if c.result.Err? {
        return Step(c.trace, Err(ManifestationError(c.result.error)));
      }
      var d := Dfu.Download(usb, c.trace, intf, [], 0);
      if d.result.Err? {
        return Step(d.trace, Err(ManifestationError(d.result.error)));
      }
      // the wait for dfuMANIFEST, whose failure is only logged
      return Step(d.trace + [PollUntil(StateIs(codes.manifest))], Ok(()));
    }

    /** The part of `do_upload` before the base loop: resolve the start
        address, leave any state other than dfuIDLE, move the device's address
        pointer to the start and return to dfuIDLE. */
    method UploadStart(usb: Usb, trace: seq<Event>) returns (s: Step<()>)
      ensures s == DfuseTransfer.UploadSetup(usb, trace, intf, codes, memoryInfo, startAddress)
    {
      var start: int;
      if startAddress.None? {
        // the inferred start address
        if memoryInfo.None? || |memoryInfo.value.segments| == 0 {
          return Step(trace, Err(TypeError));
        }
        start := memoryInfo.value.segments[0].start;
      } else {
        start := startAddress.value;
        // an address outside the map is only a warning
        var found := GetSegment(start);
        if found.Err? {
          return Step(trace, Err(found.error));
        }
      }
      var state := Dfu.GetState(usb, trace, intf);
      if state.result.Err? {
        return Step(state.trace, Err(state.result.error));
      }
      var tr := state.trace;
      if state.result.value != codes.dfuIdle {
        var idle := DfuseTransfer.AbortToIdleStep(usb, tr);
        if idle.result.Err? {
          return idle;
        }
        tr := idle.trace;
      }
      var c := DfuseCommand(usb, tr, intf, codes, SET_ADDRESS, Some(start), Some(4));
      if c.result.Err? {
        return c;
      }
      s := DfuseTransfer.AbortToIdleStep(usb, c.trace);
    }

    /** `do_upload(xferSize)` as written: the setup, then the base upload loop,
        `replies[k]` answering the k-th UPLOAD request. The base loop takes one
        argument, so the 2 passed as its first block is dropped and the blocks
        are 0, 0, 1, 2, ...; on a DfuSe device, whose memory reads start at
        block 2 (`t` is the device model taking the setup's requests), the first
        three requests read no memory and request k from the fourth on reads
        `k - 3` transfers past the start address. */
    method DoUpload(usb: Usb, trace: seq<Event>, xferSize: int, replies: seq<InTransfer>, ghost t: DfuseTransfer.Target)
      returns (s: Step<()>, outcome: Dfu.UploadOutcome, blockNums: seq<int>)
      ensures s == DfuseTransfer.UploadSetup(usb, trace, intf, codes, memoryInfo, startAddress)
      ensures s.result.Err? ==> outcome == Dfu.Rejected(s.result.error) && blockNums == []
      ensures s.result.Ok? ==>
                && 1 <= |blockNums| <= |replies| + 1
                && Dfu.UploadBlockNumbers(blockNums)
                && Dfu.FullBlocks(replies[..|blockNums| - 1], xferSize)
                && (outcome.Awaiting? <==> |blockNums| == |replies| + 1)
                && (outcome.Awaiting? ==> outcome.received == Dfu.Concat(replies))
                && (outcome.Rejected? ==> var last := replies[|blockNums| - 1];
                      last.status != StatusOk && outcome.error == TransferFailed(last.status))
                && (outcome.Complete? ==> var last := replies[|blockNums| - 1];
                      last.status == StatusOk && |last.data| != xferSize
                      && outcome.image == Dfu.Concat(replies[..|blockNums|]))
      ensures s.result.Ok? ==>
                var pointer := DfuseTransfer.AcceptAll(t, s.trace[|trace|..], xferSize).pointer;
                var start := DfuseTransfer.StartOf(memoryInfo, startAddress).value % 0x1_0000_0000;
                && (forall k :: 0 <= k < |blockNums| && k < 3 ==>
                      DfuseTransfer.UploadReadAddress(pointer, blockNums[k], xferSize).None?)
                && (forall k :: 3 <= k < |blockNums| ==>
                      DfuseTransfer.UploadReadAddress(pointer, blockNums[k], xferSize) == Some(start + (k - 3) * xferSize))
    {
      s := UploadStart(usb, trace);
      if s.result.Err? {
        return s, Dfu.Rejected(s.result.error), [];
      }
      outcome, blockNums := Dfu.DoUpload(xferSize, replies);
      DfuseTransfer.UploadAsWrittenSkips(usb, trace, intf, codes, memoryInfo, startAddress, t, xferSize, blockNums);
    }

    /** `do_upload(xferSize)` as its comment intends: the setup, then the upload
        loop from block 2, so that request k reads `k` transfers past the start
        address. */
    method DoUploadIntended(usb: Usb, trace: seq<Event>, xferSize: int, replies: seq<InTransfer>, ghost t: DfuseTransfer.Target)
      returns (s: Step<()>, outcome: Dfu.UploadOutcome, blockNums: seq<int>)
      ensures s == DfuseTransfer.UploadSetup(usb, trace, intf, codes, memoryInfo, startAddress)
      ensures s.result.Err? ==> outcome == Dfu.Rejected(s.result.error) && blockNums == []
      ensures s.result.Ok? ==>
                && 1 <= |blockNums| <= |replies| + 1
                && Dfu.BlockNumbersFrom(blockNums, 2)
                && Dfu.FullBlocks(replies[..|blockNums| - 1], xferSize)
                && (outcome.Awaiting? <==> |blockNums| == |replies| + 1)
                && (outcome.Awaiting? ==> outcome.received == Dfu.Concat(replies))
                && (outcome.Rejected? ==> var last := replies[|blockNums| - 1];
                      last.status != StatusOk && outcome.error == TransferFailed(last.status))
                && (outcome.Complete? ==> var last := replies[|blockNums| - 1];
                      last.status == StatusOk && |last.data| != xferSize
                      && outcome.image == Dfu.Concat(replies[..|blockNums|]))
      ensures s.result.Ok? ==>
                var pointer := DfuseTransfer.AcceptAll(t, s.trace[|trace|..], xferSize).pointer;
                var start := DfuseTransfer.StartOf(memoryInfo, startAddress).value % 0x1_0000_0000;
                forall k :: 0 <= k < |blockNums| ==>
                  DfuseTransfer.UploadReadAddress(pointer, blockNums[k], xferSize) == Some(start + k * xferSize)
    {
      s := UploadStart(usb, trace);
      if s.result.Err? {
        return s, Dfu.Rejected(s.result.error), [];
      }
      outcome, blockNums := Dfu.DoUploadFrom(xferSize, 2, replies);
      DfuseTransfer.UploadReadsFromStart(usb, trace, intf, codes, memoryInfo, startAddress, t, xferSize, blockNums);
    }

    /** `getSegment`: the first segment holding `addr`, or none; an error when
        there is no memory map. */
    method GetSegment(addr: int) returns (r: Result<Option<Segment>, Failure>)
      ensures memoryInfo.None? ==> r == Err(NoMemoryMapInformation)
      ensures memoryInfo.Some? ==> r == Ok(SegmentAt(memoryInfo.value.segments, addr))
    {
      if memoryInfo.None? {
        return Err(NoMemoryMapInformation);
      }
      var segment := FindSegment(memoryInfo.value.segments, addr);
      return Ok(segment);
    }

    /** `getFirstWritableSegment`. */
    method GetFirstWritableSegment() returns (r: Result<Option<Segment>, Failure>)
      ensures memoryInfo.None? ==> r == Err(NoMemoryMapInformation)
      ensures memoryInfo.Some? ==> r == Ok(FirstWritable(memoryInfo.value.segments))
    {
      if memoryInfo.None? {
        return Err(NoMemoryMapInformation);
      }
      var segs := memoryInfo.value.segments;
      var i := 0;
      while i < |segs|
        invariant 0 <= i <= |segs|
        invariant FirstWritable(segs[i..]) == FirstWritable(segs)
      {
        assert segs[i..][1..] == segs[i + 1..];
        if segs[i].writable {
          return Ok(Some(segs[i]));
        }
        i := i + 1;
      }
      return Ok(None);
    }

    /** `getMaxReadSize`. */
    method GetMaxReadSize(startAddr: int) returns (r: Result<int, Failure>)
      ensures memoryInfo.None? ==> r == Err(NoMemoryMapInformation)
      ensures memoryInfo.Some? ==> r == Ok(MaxRead(memoryInfo.value.segments, startAddr))
    {
      if memoryInfo.None? {
        return Err(NoMemoryMapInformation);
      }
      var segs := memoryInfo.value.segments;
      var numBytes := 0;
      var i := 0;
      while i < |segs|
        invariant 0 <= i <= |segs|
        invariant MaxReadScan(segs, i, startAddr, numBytes) == MaxRead(segs, startAddr)
      {
        var segment := segs[i];
        if segment.start <= startAddr && startAddr < segment.end {
          // the segment the read starts in
          if segment.readable {
            numBytes := numBytes + (segment.end - startAddr);
          } else {
            return Ok(0);
          }
        } else if segment.start == startAddr + numBytes {
          // a segment that continues the read
          if segment.readable {
            numBytes := numBytes + (segment.end - segment.start);
          } else {
            break;
          }
        }
        i := i + 1;
      }
      return Ok(numBytes);
    }

    /** `erase`: erases the sectors the range touches, one command each, looking
        the segment up again each time the address leaves it and jumping over
        segments that are not erasable. A gap in the map ends the loop with a
        TypeError, after the commands before it. */
    method Erase(usb: Usb, trace: seq<Event>, startAddr: int, length: int) returns (s: Step<()>)
      requires Valid()
      ensures memoryInfo.None? ==> s == Step(trace, Err(NoMemoryMapInformation))
      ensures memoryInfo.Some? ==> s == EraseSpec(usb, trace, intf, codes, memoryInfo.value.segments, startAddr, length)
    {
      var found := GetSegment(startAddr);
      if found.Err? {
        return Step(trace, Err(found.error));
      }
      ghost var segs := memoryInfo.value.segments;
      EraseSpecStart(usb, trace, intf, codes, segs, startAddr, length);
      var first := GetSectorStart(startAddr, if found.value.None? then Null else Given(found.value.value));
      if first.Err? {
        return Step(trace, Err(first.error));
      }
      var last := GetSectorEnd(startAddr + length - 1, Undefined);
      if last.Err? {
        return Step(trace, Err(last.error));
      }
      var segment := found.value.value;
      var addr := first.value;
      var endAddr := last.value;
      SectorUnique(segment, startAddr, addr);
      SectorEndUnique(SegmentAt(segs, startAddr + length - 1).value, startAddr + length - 1, endAddr);
      s := EraseFrom(usb, trace, segment, addr, endAddr);
    }

    /** The loop of `erase`, from `addr` in `segment` up to `endAddr`. */
    method EraseFrom(usb: Usb, trace: seq<Event>, segment: Segment, addr: int, endAddr: int) returns (s: Step<()>)
      requires Valid() && memoryInfo.Some? && SegmentWf(segment) && segment.start <= addr
      ensures s == RunErasePlan(usb, trace, intf, codes, EraseWalk(memoryInfo.value.segments, segment, addr, endAddr))
    {
      ghost var spec := RunErasePlan(usb, trace, intf, codes, EraseWalk(memoryInfo.value.segments, segment, addr, endAddr));
      var segs := memoryInfo.value.segments;
      var segment, addr, tr := segment, addr, trace;
      while addr < endAddr
        invariant SegmentWf(segment) && segment.start <= addr
        invariant RunErasePlan(usb, tr, intf, codes, EraseWalk(segs, segment, addr, endAddr)) == spec
        decreases endAddr - addr
      {
        EraseTurn(segs, segment, addr, endAddr);
        ghost var previous := segment;
        if segment.end <= addr {
          // `getSegment`, whose map is known to be there
          var next := FindSegment(segs, addr);
          if next.None? {
            // `segment.erasable` on null
            return Step(tr, Err(TypeError));
          }
          segment := next.value;
        }
        assert TurnSegment(segs, previous, addr) == Some(segment);
        if !segment.erasable {
          // skip over the non-erasable section
          addr := segment.end;
          assert RunErasePlan(usb, tr, intf, codes, EraseWalk(segs, segment, addr, endAddr)) == spec;
          continue;
        }
        var sectorAddr := SectorStart(segment, addr);
        var c := DfuseCommand(usb, tr, intf, codes, ERASE_SECTOR, Some(sectorAddr), Some(4));
        var next := sectorAddr + segment.sectorSize;
        EraseTurnSector(usb, tr, intf, codes, segs, previous, segment, addr, endAddr, c, next);
        if c.result.Err? {
          return c;
        }
        tr := c.trace;
        addr := next;
      }
      return Step(tr, Ok(()));
    }

    /** The segment a sector function works in; a looked-up one holds the address. */
    function Resolve(addr: int, segment: SegmentArg): (r: Result<Segment, Failure>)
      reads this
      requires Valid()
      ensures segment.Null? ==> r == Err(OutsideMemoryMap(addr))
      ensures segment.Given? ==> r == Ok(segment.segment)
      ensures segment.Undefined? && memoryInfo.None? ==> r == Err(NoMemoryMapInformation)
      ensures segment.Undefined? && memoryInfo.Some? ==>
                (r.Ok? <==> SegmentAt(memoryInfo.value.segments, addr).Some?)
                && (r.Err? ==> r.error == OutsideMemoryMap(addr))
                && (r.Ok? ==> r.value in memoryInfo.value.segments && Contains(r.value, addr) && SegmentWf(r.value))
    {
      match segment
      case Null => Err(OutsideMemoryMap(addr))
      case Given(s) => Ok(s)
      case Undefined =>
        if memoryInfo.None? then Err(NoMemoryMapInformation)
        else
          SegmentAtWf(memoryInfo.value.segments, addr);
          match SegmentAt(memoryInfo.value.segments, addr)
          case None => Err(OutsideMemoryMap(addr))
          case Some(s) => Ok(s)
    }

    /** `getSectorStart`: the sector boundary at or below `addr`, a whole number
        of sectors into the segment and less than a sector below `addr`. */
    function GetSectorStart(addr: int, segment: SegmentArg): (r: Result<int, Failure>)
      reads this
      requires Valid() && (segment.Given? ==> segment.segment.sectorSize > 0)
      ensures r.Err? <==> Resolve(addr, segment).Err?
      ensures r.Err? ==> r.error == Resolve(addr, segment).error
      ensures r.Ok? ==> var s := Resolve(addr, segment).value;
                && s.sectorSize > 0
                && r.value <= addr < r.value + s.sectorSize
                && (r.value - s.start) % s.sectorSize == 0
                && (segment.Undefined? ==> s.start <= r.value)
    {
      match Resolve(addr, segment)
      case Err(e) => Err(e)
      case Ok(s) =>
        ResolvedSector(addr, segment);
        Ok(SectorStart(s, addr))
    }

    /** `getSectorEnd`: the next sector boundary above `addr`; inside the
        segment when the segment was looked up. */
    function GetSectorEnd(addr: int, segment: SegmentArg): (r: Result<int, Failure>)
      reads this
      requires Valid() && (segment.Given? ==> segment.segment.sectorSize > 0)
      ensures r.Err? <==> Resolve(addr, segment).Err?
      ensures r.Err? ==> r.error == Resolve(addr, segment).error
      ensures r.Ok? ==> var s := Resolve(addr, segment).value;
                && s.sectorSize > 0
                && r.value - s.sectorSize <= addr < r.value
                && (r.value - s.start) % s.sectorSize == 0
                && (segment.Undefined? ==> r.value <= s.end)
    {
      match Resolve(addr, segment)
      case Err(e) => Err(e)
      case Ok(s) =>
        ResolvedSector(addr, segment);
        Ok(SectorEnd(s, addr))
    }

    lemma ResolvedSector(addr: int, segment: SegmentArg)
      requires Valid() && (segment.Given? ==> segment.segment.sectorSize > 0)
      requires Resolve(addr, segment).Ok?
      ensures var s := Resolve(addr, segment).value;
              && s.sectorSize > 0
              && SectorStart(s, addr) <= addr < SectorEnd(s, addr)
              && SectorEnd(s, addr) - SectorStart(s, addr) == s.sectorSize
              && (SectorStart(s, addr) - s.start) % s.sectorSize == 0
              && (SectorEnd(s, addr) - s.start) % s.sectorSize == 0
              && (segment.Undefined? ==> s.start <= SectorStart(s, addr) && SectorEnd(s, addr) <= s.end)
    {
      var s := Resolve(addr, segment).value;
      if segment.Undefined? {
        SectorWithinSegment(s, addr);
      }
      SectorBounds(s, addr);
      SectorEndAligned(s, addr);
    }

    /** The two sector functions bracket one sector, and fail together. */
    lemma SectorSpan(addr: int, segment: SegmentArg)
      requires Valid() && (segment.Given? ==> segment.segment.sectorSize > 0)
      ensures GetSectorStart(addr, segment).Ok? <==> GetSectorEnd(addr, segment).Ok?
      ensures GetSectorStart(addr, segment).Ok? ==>
                GetSectorEnd(addr, segment).value - GetSectorStart(addr, segment).value
                == Resolve(addr, segment).value.sectorSize
    {
      if Resolve(addr, segment).Ok? {
        SectorBounds(Resolve(addr, segment).value, addr);
      }
    }
  }

}
