/** The special commands of the DfuSe extension (`dfuseCommand`) and the erase
    they carry out: a command is the DNLOAD of block 0 whose first byte names it,
    followed by a wait until the device has left dfuDNBUSY. */
module DfuseCommands {
  import opened Wrappers
  import opened Transport
  import opened DfuseMemoryMap
  import opened DfuseLookup
  import Arith
  import Dfu

  const GET_COMMANDS := 0x00
  const SET_ADDRESS := 0x21
  const ERASE_SECTOR := 0x41

  /** The DFU status and state codes (`dfu.STATUS_OK`, `dfu.dfuIDLE`,
      `dfu.dfuDNBUSY`, `dfu.dfuDNLOAD_IDLE`, `dfu.dfuMANIFEST`). The base driver
      file does not define them, so the model takes them as given. */
  datatype Codes = Codes(statusOk: int, dfuIdle: int, dnBusy: int, dnloadIdle: int, manifest: int)

  // ---------------------------------------------------------------------------
  // dfuseCommand

  /** `DataView.setUint32(offset, v, true)`: the four little-endian bytes of `v`
      taken modulo 2^32. */
  function Le32(v: int): (b: seq<byte>)
    ensures |b| == 4 && Dfu.Uint32Le(b) == v % 0x1_0000_0000
  {
    var u := v % 0x1_0000_0000;
    var u1 := u / 0x100;
    var u2 := u1 / 0x100;
    var u3 := u2 / 0x100;
    assert u == u % 0x100 + 0x100 * u1 && u1 == u1 % 0x100 + 0x100 * u2 && u2 == u2 % 0x100 + 0x100 * u3;
    assert u3 < 0x100;
    [u % 0x100, u1 % 0x100, u2 % 0x100, u3]
  }

  /** A missing parameter converts to NaN, which a DataView stores as 0. */
  function NumberOr0(param: Option<int>): int {
    if param.None? then 0 else param.value
  }

  /** The payload `dfuseCommand` builds: an `ArrayBuffer` of `len + 1` bytes
      with the command in byte 0 and the parameter after it. With neither
      parameter nor length given they default to 0 and 1. A missing length makes
      `len + 1` NaN, an empty buffer; a buffer of no bytes, or of a negative length,
      is a RangeError; any length but 1 and 4 is refused once byte 0 is written. */
  function CommandPayload(command: int, param: Option<int>, len: Option<int>): (r: Result<seq<byte>, Failure>)
    ensures param.None? && len.None? ==> r == Ok([command % 0x100, 0])
    ensures len == Some(1) ==> r == Ok([command % 0x100, NumberOr0(param) % 0x100])
    ensures len == Some(4) ==> r.Ok? && |r.value| == 5 && r.value[0] == command % 0x100
                               && Dfu.Uint32Le(r.value[1..]) == NumberOr0(param) % 0x1_0000_0000
    ensures param.Some? && len.None? ==> r == Err(RangeError)
    ensures len.Some? && len.value < 0 ==> r == Err(RangeError)
    ensures len.Some? && len.value >= 0 && len.value != 1 && len.value != 4 ==> r == Err(UnsupportedLength(len.value))
    ensures r.Ok? ==> |r.value| == (if len.None? then 1 else len.value) + 1
  {
    var p := if param.None? && len.None? then Some(0) else param;
    var l := if param.None? && len.None? then Some(1) else len;
    if l.None? then Err(RangeError)
    else if l.value + 1 <= 0 then Err(RangeError)
    else if l.value == 1 then Ok([command % 0x100, NumberOr0(p) % 0x100])
    else if l.value == 4 then
      var b := [command % 0x100] + Le32(NumberOr0(p));
      assert b[1..] == Le32(NumberOr0(p));
      Ok(b)
    else Err(UnsupportedLength(l.value))
  }

  /** `dfuseCommand`: the payload goes out as DNLOAD of block 0; a rejected
      transfer is reported with the command; then the device is polled until it
      leaves dfuDNBUSY. When that status is not OK the source's error path names
      an undeclared variable, so what it throws is a ReferenceError. */
  function DfuseCommand(usb: Usb, trace: seq<Event>, intf: int, codes: Codes,
                        command: int, param: Option<int>, len: Option<int>): (s: Step<()>)
    ensures CommandPayload(command, param, len).Err? ==>
              s == Step(trace, Err(CommandPayload(command, param, len).error))
    ensures CommandPayload(command, param, len).Ok? ==>
              var sent := trace + [ControlOut(Dfu.DNLOAD, 0, intf, CommandPayload(command, param, len).value)];
              var polled := sent + [PollUntil(StateIsNot(codes.dnBusy))];
              && (usb.outStatus(sent) != StatusOk ==>
                    s == Step(sent, Err(CommandError(command, TransferFailed(usb.outStatus(sent))))))
              && (usb.outStatus(sent) == StatusOk ==>
                    && s.trace == polled
                    && (s.result.Ok? <==> usb.poll(polled).Ok? && usb.poll(polled).value.status == codes.statusOk)
                    && (usb.poll(polled).Err? ==> s.result == Err(Raised(usb.poll(polled).error)))
                    && (usb.poll(polled).Ok? && usb.poll(polled).value.status != codes.statusOk ==>
                          s.result == Err(ReferenceError)))
  {
    match CommandPayload(command, param, len)
    case Err(e) => Step(trace, Err(e))
    case Ok(payload) =>
      var dl := Dfu.Download(usb, trace, intf, payload, 0);
      if dl.result.Err? then Step(dl.trace, Err(CommandError(command, dl.result.error)))
      else
        var polled := dl.trace + [PollUntil(StateIsNot(codes.dnBusy))];
        match usb.poll(polled)
        case Err(m) => Step(polled, Err(Raised(m)))
        case Ok(status) =>
          if status.status != codes.statusOk then Step(polled, Err(ReferenceError))
          else Step(polled, Ok(()))
  }

  /** The two events of a command the device accepts. */
  function CommandEvents(intf: int, codes: Codes, payload: seq<byte>): seq<Event> {
    [ControlOut(Dfu.DNLOAD, 0, intf, payload), PollUntil(StateIsNot(codes.dnBusy))]
  }

  /** A SET_ADDRESS or ERASE_SECTOR command with a 4-byte address. */
  function AddressCommand(command: byte, addr: int): seq<byte> {
    [command] + Le32(addr)
  }

  /** What a command whose payload is well formed can fail with. */
  predicate CommandFailure(command: int, e: Failure) {
    (e.CommandError? && e.command == command && e.cause.TransferFailed?) || e.Raised? || e == ReferenceError
  }

  /** A command with a 4-byte address succeeds with exactly its two events. */
  lemma AddressCommandSucceeds(usb: Usb, trace: seq<Event>, intf: int, codes: Codes, command: byte, addr: int)
    ensures var s := DfuseCommand(usb, trace, intf, codes, command, Some(addr), Some(4));
            && (s.result.Ok? ==> s.trace == trace + CommandEvents(intf, codes, AddressCommand(command, addr)))
            && (s.result.Err? ==> CommandFailure(command, s.result.error))
  {
    var p := CommandPayload(command, Some(addr), Some(4));
    assert p == Ok(AddressCommand(command, addr));
  }

  // ---------------------------------------------------------------------------
  // Erasing: the plan of lookup.dfy carried out one command at a time

  /** The events of erasing the given sectors, each command accepted. */
  function EraseEvents(intf: int, codes: Codes, sectors: seq<int>): seq<Event>
    decreases |sectors|
  {
    if sectors == [] then []
    else CommandEvents(intf, codes, AddressCommand(ERASE_SECTOR, sectors[0])) + EraseEvents(intf, codes, sectors[1..])
  }

  /** One ERASE_SECTOR command per sector, in order, up to the first that fails;
      when none fails the trace is exactly the erase events. */
  function EraseSectors(usb: Usb, trace: seq<Event>, intf: int, codes: Codes, sectors: seq<int>): (s: Step<()>)
    ensures s.result.Ok? ==> s.trace == trace + EraseEvents(intf, codes, sectors)
    ensures s.result.Err? ==> CommandFailure(ERASE_SECTOR, s.result.error)
    decreases |sectors|
  {
    if sectors == [] then Step(trace, Ok(()))
    else
      var c := DfuseCommand(usb, trace, intf, codes, ERASE_SECTOR, Some(sectors[0]), Some(4));
      if c.result.Err? then c
      else
        AddressCommandSucceeds(usb, trace, intf, codes, ERASE_SECTOR, sectors[0]);
        var rest := EraseSectors(usb, c.trace, intf, codes, sectors[1..]);
        var cmd := CommandEvents(intf, codes, AddressCommand(ERASE_SECTOR, sectors[0]));
        var later := EraseEvents(intf, codes, sectors[1..]);
        assert EraseEvents(intf, codes, sectors) == cmd + later;
        assert trace + cmd + later == trace + (cmd + later);
        rest
  }

  /** Carrying out a plan: its sectors, then the TypeError of reading a property
      of `null` when the walk ran into a gap. */
  function RunErasePlan(usb: Usb, trace: seq<Event>, intf: int, codes: Codes, plan: ErasePlan): Step<()> {
    var r := EraseSectors(usb, trace, intf, codes, plan.sectors);
    if r.result.Ok? && plan.stuck then Step(r.trace, Err(TypeError)) else r
  }

  /** What `erase(startAddr, length)` does on a map: the lookups that can fail
      before anything is sent, then the plan. */
  function EraseSpec(usb: Usb, trace: seq<Event>, intf: int, codes: Codes,
                     segs: seq<Segment>, startAddr: int, length: int): Step<()>
    requires AllWf(segs)
  {
    match EraseRange(segs, startAddr, length)
    case Err(e) => Step(trace, Err(e))
    case Ok(plan) => RunErasePlan(usb, trace, intf, codes, plan)
  }

  /** An erase that succeeds sends exactly one command per sector of the plan,
      and the plan has the properties proved of it in `EraseRangeSpec`. */
  lemma EraseSucceeds(usb: Usb, trace: seq<Event>, intf: int, codes: Codes,
                      segs: seq<Segment>, startAddr: int, length: int)
    requires AllWf(segs)
    ensures var s := EraseSpec(usb, trace, intf, codes, segs, startAddr, length);
            s.result.Ok? ==>
              && EraseRange(segs, startAddr, length).Ok?
              && !EraseRange(segs, startAddr, length).value.stuck
              && s.trace == trace + EraseEvents(intf, codes, EraseRange(segs, startAddr, length).value.sectors)
  {
  }

  /** A plan whose first sector is `sector`: that command, then the rest. */
  lemma RunPlanCons(usb: Usb, trace: seq<Event>, intf: int, codes: Codes, sector: int, rest: ErasePlan,
                    plan: ErasePlan, c: Step<()>)
    requires plan == ErasePlan([sector] + rest.sectors, rest.stuck)
    requires c == DfuseCommand(usb, trace, intf, codes, ERASE_SECTOR, Some(sector), Some(4))
    ensures RunErasePlan(usb, trace, intf, codes, plan)
            == if c.result.Err? then c else RunErasePlan(usb, c.trace, intf, codes, rest)
  {
    assert plan.sectors[1..] == rest.sectors;
  }

  /** The segment a turn of the erase loop works in. */
  function TurnSegment(segs: seq<Segment>, seg: Segment, addr: int): Option<Segment> {
    if seg.end <= addr then SegmentAt(segs, addr) else Some(seg)
  }

  /** One turn of the erase loop: a gap ends the walk; otherwise the turn works
      inside the segment holding the address. */
  lemma EraseTurn(segs: seq<Segment>, seg: Segment, addr: int, endAddr: int)
    requires AllWf(segs) && SegmentWf(seg) && seg.start <= addr < endAddr
    ensures TurnSegment(segs, seg, addr).None? ==> EraseWalk(segs, seg, addr, endAddr) == ErasePlan([], true)
    ensures TurnSegment(segs, seg, addr).Some? ==>
              var s := TurnSegment(segs, seg, addr).value;
              && SegmentWf(s) && Contains(s, addr) && s.sectorSize > 0
              && s.start <= SectorStart(s, addr) <= addr < SectorStart(s, addr) + s.sectorSize
              && (!s.erasable ==> EraseWalk(segs, seg, addr, endAddr) == EraseWalk(segs, s, s.end, endAddr))
  {
    SegmentAtWf(segs, addr);
    if TurnSegment(segs, seg, addr).Some? {
      SectorWithinSegment(TurnSegment(segs, seg, addr).value, addr);
    }
  }

  /** A turn in an erasable segment puts the address's sector first in the plan. */
  lemma WalkErasesSector(segs: seq<Segment>, seg: Segment, s: Segment, addr: int, endAddr: int)
    requires AllWf(segs) && SegmentWf(seg) && seg.start <= addr < endAddr
    requires TurnSegment(segs, seg, addr) == Some(s) && s.erasable
    requires SegmentWf(s) && s.sectorSize > 0 && s.start <= SectorStart(s, addr)
    ensures var rest := EraseWalk(segs, s, SectorStart(s, addr) + s.sectorSize, endAddr);
            EraseWalk(segs, seg, addr, endAddr) == ErasePlan([SectorStart(s, addr)] + rest.sectors, rest.stuck)
  {
    SegmentAtWf(segs, addr);
    SectorWithinSegment(s, addr);
  }

  /** A turn that erases a sector: the command, then the rest of the walk. */
  lemma EraseTurnSector(usb: Usb, trace: seq<Event>, intf: int, codes: Codes,
                        segs: seq<Segment>, seg: Segment, s: Segment, addr: int, endAddr: int,
                        c: Step<()>, next: int)
    requires AllWf(segs) && SegmentWf(seg) && seg.start <= addr < endAddr
    requires TurnSegment(segs, seg, addr) == Some(s) && s.erasable
    requires SegmentWf(s) && s.sectorSize > 0 && s.start <= SectorStart(s, addr)
    requires c == DfuseCommand(usb, trace, intf, codes, ERASE_SECTOR, Some(SectorStart(s, addr)), Some(4))
    requires next == SectorStart(s, addr) + s.sectorSize
    ensures RunErasePlan(usb, trace, intf, codes, EraseWalk(segs, seg, addr, endAddr))
            == if c.result.Err? then c else RunErasePlan(usb, c.trace, intf, codes, EraseWalk(segs, s, next, endAddr))
  {
    var sector := SectorStart(s, addr);
    var rest := EraseWalk(segs, s, next, endAddr);
    var plan := ErasePlan([sector] + rest.sectors, rest.stuck);
    assert EraseWalk(segs, seg, addr, endAddr) == plan by {
      WalkErasesSector(segs, seg, s, addr, endAddr);
    }
    RunPlanCons(usb, trace, intf, codes, sector, rest, plan, c);
  }


  /** Before the loop: the plan starts at the start's sector and ends at the end
      of the last byte's sector. */
  lemma EraseSpecStart(usb: Usb, trace: seq<Event>, intf: int, codes: Codes,
                       segs: seq<Segment>, startAddr: int, length: int)
    requires AllWf(segs)
    ensures var seg := SegmentAt(segs, startAddr);
            var last := SegmentAt(segs, startAddr + length - 1);
            var spec := EraseSpec(usb, trace, intf, codes, segs, startAddr, length);
            && (seg.None? ==> spec == Step(trace, Err(OutsideMemoryMap(startAddr))))
            && (seg.Some? && last.None? ==> spec == Step(trace, Err(OutsideMemoryMap(startAddr + length - 1))))
            && (seg.Some? && last.Some? ==>
                  && SegmentWf(seg.value) && SegmentWf(last.value)
                  && seg.value.sectorSize > 0 && last.value.sectorSize > 0
                  && seg.value.start <= SectorStart(seg.value, startAddr)
                  && spec == RunErasePlan(usb, trace, intf, codes,
                               EraseWalk(segs, seg.value, SectorStart(seg.value, startAddr),
                                         SectorEnd(last.value, startAddr + length - 1))))
  {
    SegmentAtWf(segs, startAddr);
    SegmentAtWf(segs, startAddr + length - 1);
    if SegmentAt(segs, startAddr).Some? {
      SectorWithinSegment(SegmentAt(segs, startAddr).value, startAddr);
    }
    if SegmentAt(segs, startAddr + length - 1).Some? {
      SectorWithinSegment(SegmentAt(segs, startAddr + length - 1).value, startAddr + length - 1);
    }
  }

  /** The sector boundaries are the only aligned addresses that bracket `addr`. */
  lemma SectorUnique(seg: Segment, addr: int, x: int)
    requires seg.sectorSize > 0 && (x - seg.start) % seg.sectorSize == 0 && x <= addr < x + seg.sectorSize
    ensures x == SectorStart(seg, addr) && x + seg.sectorSize == SectorEnd(seg, addr)
  {
    var size := seg.sectorSize;
    var q := (x - seg.start) / size;
    assert q * size + (x - seg.start) % size == x - seg.start;
    Arith.DivModUnique(addr - seg.start, size, q, addr - x);
  }

  lemma SectorEndUnique(seg: Segment, addr: int, y: int)
    requires seg.sectorSize > 0 && (y - seg.start) % seg.sectorSize == 0 && y - seg.sectorSize <= addr < y
    ensures y == SectorEnd(seg, addr)
  {
    Arith.AddMultiple(y - seg.start - seg.sectorSize, 1, seg.sectorSize);
    SectorUnique(seg, addr, y - seg.sectorSize);
  }

  lemma SectorEndAligned(s: Segment, addr: int)
    requires s.sectorSize > 0
    ensures (SectorEnd(s, addr) - s.start) % s.sectorSize == 0
  {
    Arith.MultipleMod(SectorIndex(s, addr) + 1, s.sectorSize);
  }
}
