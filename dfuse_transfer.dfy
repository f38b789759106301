/** What `do_download` and `do_upload` of the DfuSe device send, as functions of
    the device's memory map, its start address and the answers of the device;
    and how a DfuSe device takes those requests, so that what a download leaves
    in the device's memory can be stated. */
module DfuseTransfer {
  import opened Wrappers
  import opened Transport
  import opened DfuseMemoryMap
  import opened DfuseLookup
  import opened DfuseCommands
  import Dfu

  // ---------------------------------------------------------------------------
  // The start address

  /** The address a transfer starts at: the start address when one is set (an
      explicit address with no memory map fails in `getSegment`); otherwise the
      start of the first segment, where an absent map or an empty segment list
      is a property read of `undefined`. */
  function StartOf(memoryInfo: Option<MemoryInfo>, startAddress: Option<int>): (r: Result<int, Failure>)
    ensures startAddress.Some? && memoryInfo.Some? ==> r == Ok(startAddress.value)
    ensures startAddress.Some? && memoryInfo.None? ==> r == Err(NoMemoryMapInformation)
    ensures startAddress.None? ==>
              (r.Ok? <==> memoryInfo.Some? && |memoryInfo.value.segments| > 0)
              && (r.Ok? ==> r.value == memoryInfo.value.segments[0].start)
              && (r.Err? ==> r.error == TypeError)
  {
    match startAddress
    case Some(a) => if memoryInfo.None? then Err(NoMemoryMapInformation) else Ok(a)
    case None =>
      if memoryInfo.None? || |memoryInfo.value.segments| == 0 then Err(TypeError)
      else Ok(memoryInfo.value.segments[0].start)
  }

  // ---------------------------------------------------------------------------
  // do_download

  function Min(a: int, b: int): int {
    if a <= b then a else b
  }

  /** One pass of the chunk loop of `do_download`: a chunk of at most `xferSize`
      bytes from byte `sent` on is a SET_ADDRESS command for `address`, a DNLOAD
      of block 2 and a wait until the device is idle again. A failure inside
      that sequence is a download error; a status other than OK ends the loop
      with the device's state and status. The result is the number of bytes
      the device took. */
  function ChunkStep(usb: Usb, trace: seq<Event>, intf: int, codes: Codes,
                     data: seq<byte>, xferSize: int, sent: nat, address: int): (s: Step<int>)
    requires xferSize > 0 && sent < |data|
    ensures s.result.Ok? ==>
              && s.result.value == Min(|data| - sent, xferSize)
              && s.trace == trace + ChunkStepEvents(intf, codes, address, data[sent..sent + s.result.value])
    ensures s.result.Err? ==> s.result.error.DownloadError? || s.result.error.DownloadStatus?
  {
    var chunkSize := Min(|data| - sent, xferSize);
    var c := DfuseCommand(usb, trace, intf, codes, SET_ADDRESS, Some(address), Some(4));
    if c.result.Err? then Step(c.trace, Err(DownloadError(c.result.error)))
    else
      AddressCommandSucceeds(usb, trace, intf, codes, SET_ADDRESS, address);
      var d := Dfu.Download(usb, c.trace, intf, data[sent..sent + chunkSize], 2);
      if d.result.Err? then Step(d.trace, Err(DownloadError(d.result.error)))
      else
        var polled := d.trace + [PollUntil(IdleIn(codes.dnloadIdle))];
        match usb.poll(polled)
        case Err(m) => Step(polled, Err(DownloadError(Raised(m))))
        case Ok(status) =>
          if status.status != codes.statusOk then Step(polled, Err(DownloadStatus(status.state, status.status)))
          else
            assert polled == trace + ChunkStepEvents(intf, codes, address, data[sent..sent + chunkSize]);
            Step(polled, Ok(d.result.value))
  }

  /** The chunk loop of `do_download` from byte `sent` on, writing at `address`;
      the address moves on by the chunk size and the count by what the device
      took. A failure is one of a chunk's. */
  function ProgramChunks(usb: Usb, trace: seq<Event>, intf: int, codes: Codes,
                         data: seq<byte>, xferSize: int, sent: nat, address: int): (s: Step<()>)
    requires xferSize > 0 && sent <= |data|
    ensures s.result.Err? ==> s.result.error.DownloadError? || s.result.error.DownloadStatus?
    decreases |data| - sent, 1
  {
    if sent >= |data| then Step(trace, Ok(()))
    else ChunksAfter(usb, trace, intf, codes, data, xferSize, sent, address,
                     ChunkStep(usb, trace, intf, codes, data, xferSize, sent, address))
  }

  /** The chunk loop once the pass from byte `sent` on has given `w`: a failed
      pass ends it, an accepted one goes on after the chunk. */
  function ChunksAfter(usb: Usb, trace: seq<Event>, intf: int, codes: Codes,
                       data: seq<byte>, xferSize: int, sent: nat, address: int, w: Step<int>): (s: Step<()>)
    requires xferSize > 0 && sent < |data|
    requires w.result.Ok? ==> w.result.value == Min(|data| - sent, xferSize)
    requires w.result.Err? ==> w.result.error.DownloadError? || w.result.error.DownloadStatus?
    ensures s.result.Err? ==> s.result.error.DownloadError? || s.result.error.DownloadStatus?
    decreases |data| - sent, 0
  {
    if w.result.Err? then Step(w.trace, Err(w.result.error))
    else ProgramChunks(usb, w.trace, intf, codes, data, xferSize, sent + w.result.value, address + w.result.value)
  }

  /** A chunk loop that succeeds has sent the events of every chunk, in order. */
  lemma {:induction false} ProgramChunksTrace(usb: Usb, trace: seq<Event>, intf: int, codes: Codes,
                                              data: seq<byte>, xferSize: int, sent: nat, address: int)
    requires xferSize > 0 && sent <= |data|
    ensures var s := ProgramChunks(usb, trace, intf, codes, data, xferSize, sent, address);
            s.result.Ok? ==> s.trace == trace + ChunkEvents(intf, codes, data, xferSize, sent, address)
    decreases |data| - sent
  {
    var s := ProgramChunks(usb, trace, intf, codes, data, xferSize, sent, address);
    if sent >= |data| {
      assert trace + [] == trace;
    } else {
      var w := ChunkStep(usb, trace, intf, codes, data, xferSize, sent, address);
      assert s == ChunksAfter(usb, trace, intf, codes, data, xferSize, sent, address, w);
      if w.result.Ok? {
        var next, nextAddress := sent + w.result.value, address + w.result.value;
        var rest := ProgramChunks(usb, w.trace, intf, codes, data, xferSize, next, nextAddress);
        assert s == rest;
        var step := ChunkStepEvents(intf, codes, address, data[sent..next]);
        var after := ChunkEvents(intf, codes, data, xferSize, next, nextAddress);
        assert w.trace == trace + step;
        ProgramChunksTrace(usb, w.trace, intf, codes, data, xferSize, next, nextAddress);
        ChunkEventsNext(intf, codes, data, xferSize, sent, address, next, nextAddress);
        Assoc3(trace, step, after);
      }
    }
  }

  /** One turn of the chunk loop: once a chunk is accepted, the loop goes on
      from the next count and address, which are given as arguments so that a
      loop can name them. */
  lemma ProgramChunksNext(usb: Usb, trace: seq<Event>, intf: int, codes: Codes,
                          data: seq<byte>, xferSize: int, sent: nat, address: int,
                          w: Step<int>, nextSent: nat, nextAddress: int, spec: Step<()>, rest: Step<()>)
    requires xferSize > 0 && sent < |data| && nextSent <= |data|
    requires spec == ProgramChunks(usb, trace, intf, codes, data, xferSize, sent, address)
    requires w == ChunkStep(usb, trace, intf, codes, data, xferSize, sent, address) && w.result.Ok?
    requires nextSent == sent + w.result.value && nextAddress == address + Min(|data| - sent, xferSize)
    requires rest == ProgramChunks(usb, w.trace, intf, codes, data, xferSize, nextSent, nextAddress)
    ensures spec == rest
  {
  }

  /** A chunk the device rejects ends the loop with its error. */
  lemma ProgramChunksStop(usb: Usb, trace: seq<Event>, intf: int, codes: Codes,
                          data: seq<byte>, xferSize: int, sent: nat, address: int, w: Step<int>, spec: Step<()>)
    requires xferSize > 0 && sent < |data|
    requires spec == ProgramChunks(usb, trace, intf, codes, data, xferSize, sent, address)
    requires w == ChunkStep(usb, trace, intf, codes, data, xferSize, sent, address) && w.result.Err?
    ensures spec == Step(w.trace, Err(w.result.error))
  {
  }

  lemma Assoc3(a: seq<Event>, b: seq<Event>, c: seq<Event>)
    ensures a + b + c == a + (b + c)
  {
  }

  /** The events of the chunk loop when the device accepts every chunk. */
  function ChunkEvents(intf: int, codes: Codes, data: seq<byte>, xferSize: int, sent: nat, address: int): seq<Event>
    requires xferSize > 0 && sent <= |data|
    decreases |data| - sent
  {
    if sent >= |data| then []
    else
      var chunkSize := Min(|data| - sent, xferSize);
      ChunkStepEvents(intf, codes, address, data[sent..sent + chunkSize])
      + ChunkEvents(intf, codes, data, xferSize, sent + chunkSize, address + chunkSize)
  }

  /** The events of one chunk the device accepts. */
  function ChunkStepEvents(intf: int, codes: Codes, address: int, chunk: seq<byte>): seq<Event> {
    CommandEvents(intf, codes, AddressCommand(SET_ADDRESS, address))
    + [ControlOut(Dfu.DNLOAD, 2, intf, chunk), PollUntil(IdleIn(codes.dnloadIdle))]
  }

  /** Manifestation: SET_ADDRESS back to the start and an empty DNLOAD of block
      0, whose failures are manifestation errors; then a wait for dfuMANIFEST
      whose failure is only logged. */
  function Manifest(usb: Usb, trace: seq<Event>, intf: int, codes: Codes, start: int): (s: Step<()>)
    ensures s.result.Ok? ==> s.trace == trace + ManifestEvents(intf, codes, start)
    ensures s.result.Err? ==> s.result.error.ManifestationError?
  {
    var c := DfuseCommand(usb, trace, intf, codes, SET_ADDRESS, Some(start), Some(4));
    if c.result.Err? then Step(c.trace, Err(ManifestationError(c.result.error)))
    else
      AddressCommandSucceeds(usb, trace, intf, codes, SET_ADDRESS, start);
      var d := Dfu.Download(usb, c.trace, intf, [], 0);
      if d.result.Err? then Step(d.trace, Err(ManifestationError(d.result.error)))
      else Step(d.trace + [PollUntil(StateIs(codes.manifest))], Ok(()))
  }

  function ManifestEvents(intf: int, codes: Codes, start: int): seq<Event> {
    CommandEvents(intf, codes, AddressCommand(SET_ADDRESS, start))
    + [ControlOut(Dfu.DNLOAD, 0, intf, []), PollUntil(StateIs(codes.manifest))]
  }

  /** `do_download(xferSize, data)`: no map is an error; the start is resolved,
      the range is erased, the chunks are written and the firmware manifested. */
  function DownloadSpec(usb: Usb, trace: seq<Event>, intf: int, codes: Codes,
                        memoryInfo: Option<MemoryInfo>, startAddress: Option<int>,
                        xferSize: int, data: seq<byte>): (s: Step<()>)
    requires xferSize > 0 && (memoryInfo.Some? ==> AllWf(memoryInfo.value.segments))
    ensures memoryInfo.None? ==> s == Step(trace, Err(NoMemoryMap))
    ensures memoryInfo.Some? && StartOf(memoryInfo, startAddress).Err? ==>
              s == Step(trace, Err(StartOf(memoryInfo, startAddress).error))
    ensures s.result.Ok? ==> memoryInfo.Some? && StartOf(memoryInfo, startAddress).Ok?
  {
    if memoryInfo.None? then Step(trace, Err(NoMemoryMap))
    else
      match StartOf(memoryInfo, startAddress)
      case Err(e) => Step(trace, Err(e))
      case Ok(start) =>
        var erased := EraseSpec(usb, trace, intf, codes, memoryInfo.value.segments, start, |data|);
        if erased.result.Err? then erased
        else
          var written := ProgramChunks(usb, erased.trace, intf, codes, data, xferSize, 0, start);
          if written.result.Err? then written
          else Manifest(usb, written.trace, intf, codes, start)
  }

  // ---------------------------------------------------------------------------
  // do_upload

  /** `abortToIdle`, which the driver files do not define: one event, and
      whatever it throws passes through. */
  function AbortToIdleStep(usb: Usb, trace: seq<Event>): (s: Step<()>)
    ensures s.trace == trace + [Event.AbortToIdle]
    ensures s.result.Ok? <==> usb.abort(s.trace).Ok?
  {
    var t := trace + [Event.AbortToIdle];
    match usb.abort(t)
    case Err(m) => Step(t, Err(Raised(m)))
    case Ok(_) => Step(t, Ok(()))
  }

  /** What `do_upload` does before the base upload loop: it resolves the start,
      reads the state and aborts to dfuIDLE when the device is elsewhere, sets
      the address pointer and aborts to idle again so the device takes it. */
  function UploadSetup(usb: Usb, trace: seq<Event>, intf: int, codes: Codes,
                       memoryInfo: Option<MemoryInfo>, startAddress: Option<int>): (s: Step<()>)
    ensures StartOf(memoryInfo, startAddress).Err? ==> s == Step(trace, Err(StartOf(memoryInfo, startAddress).error))
    ensures s.result.Ok? ==>
              var afterState := trace + [ControlIn(Dfu.GETSTATE, 0, intf, 1)];
              var st := usb.inReply(afterState);
              && StartOf(memoryInfo, startAddress).Ok?
              && st.status == StatusOk && |st.data| >= 1
              && s.trace == afterState + (if st.data[0] != codes.dfuIdle then [Event.AbortToIdle] else [])
                            + CommandEvents(intf, codes, AddressCommand(SET_ADDRESS, StartOf(memoryInfo, startAddress).value))
                            + [Event.AbortToIdle]
  {
    match StartOf(memoryInfo, startAddress)
    case Err(e) => Step(trace, Err(e))
    case Ok(start) =>
      var st := Dfu.GetState(usb, trace, intf);
      if st.result.Err? then Step(st.trace, Err(st.result.error))
      else
        var idle := if st.result.value != codes.dfuIdle then AbortToIdleStep(usb, st.trace) else Step(st.trace, Ok(()));
        if idle.result.Err? then idle
        else
          var c := DfuseCommand(usb, idle.trace, intf, codes, SET_ADDRESS, Some(start), Some(4));
          if c.result.Err? then c
          else
            AddressCommandSucceeds(usb, idle.trace, intf, codes, SET_ADDRESS, start);
            AbortToIdleStep(usb, c.trace)
  }

  // ---------------------------------------------------------------------------
  // The device side of a download

  /** What a DfuSe device keeps while it is programmed: the address pointer and
      the bytes written so far. */
  datatype Target = Target(pointer: int, memory: map<int, byte>)

  /** `memory` with `bytes` written from address `at` on. */
  function Write(memory: map<int, byte>, at: int, bytes: seq<byte>): map<int, byte>
    decreases |bytes|
  {
    if bytes == [] then memory else Write(memory[at := bytes[0]], at + 1, bytes[1..])
  }

  /** How a DfuSe device takes one request: a SET_ADDRESS command moves its
      pointer to the 32-bit address it carries; a DNLOAD of block 2 or more
      writes its data at the pointer plus `(block - 2) * xferSize`; every other
      event leaves it as it was. This device model ignores ERASE_SECTOR and
      every other command: a real device sets the bytes of an erased sector to
      its erased value, which the model does not record. */
  function Accept(t: Target, e: Event, xferSize: int): Target {
    match e
    case ControlOut(request, value, _, data) =>
      if request != Dfu.DNLOAD then t
      else if value == 0 && |data| == 5 && data[0] == SET_ADDRESS then Target(Dfu.Uint32Le(data[1..]), t.memory)
      else if value >= 2 then Target(t.pointer, Write(t.memory, t.pointer + (value - 2) * xferSize, data))
      else t
    case _ => t
  }

  function AcceptAll(t: Target, events: seq<Event>, xferSize: int): Target
    decreases |events|
  {
    if events == [] then t else AcceptAll(Accept(t, events[0], xferSize), events[1..], xferSize)
  }

  lemma {:induction false} AcceptAllAppend(t: Target, a: seq<Event>, b: seq<Event>, xferSize: int)
    ensures AcceptAll(t, a + b, xferSize) == AcceptAll(AcceptAll(t, a, xferSize), b, xferSize)
    decreases |a|
  {
    if a != [] {
      assert (a + b)[0] == a[0] && (a + b)[1..] == a[1..] + b;
      AcceptAllAppend(Accept(t, a[0], xferSize), a[1..], b, xferSize);
    } else {
      assert a + b == b;
    }
  }

  /** Writing two runs one after the other is writing them joined. */
  lemma {:induction false} WriteAppend(memory: map<int, byte>, at: int, a: seq<byte>, b: seq<byte>)
    ensures Write(memory, at, a + b) == Write(Write(memory, at, a), at + |a|, b)
    decreases |a|
  {
    if a != [] {
      assert (a + b)[0] == a[0] && (a + b)[1..] == a[1..] + b;
      WriteAppend(memory[at := a[0]], at + 1, a[1..], b);
    } else {
      assert a + b == b;
    }
  }

  /** After a write the run reads back byte for byte, and nothing outside it changed. */
  lemma {:induction false} WriteContents(memory: map<int, byte>, at: int, bytes: seq<byte>)
    ensures forall x :: at <= x < at + |bytes| ==>
              x in Write(memory, at, bytes) && Write(memory, at, bytes)[x] == bytes[x - at]
    ensures forall x :: (x < at || at + |bytes| <= x) ==>
              (x in Write(memory, at, bytes) <==> x in memory)
              && (x in memory ==> Write(memory, at, bytes)[x] == memory[x])
    decreases |bytes|
  {
    if bytes != [] {
      var m := memory[at := bytes[0]];
      WriteContents(m, at + 1, bytes[1..]);
      assert Write(memory, at, bytes) == Write(m, at + 1, bytes[1..]);
      forall x | at <= x < at + |bytes|
        ensures x in Write(memory, at, bytes) && Write(memory, at, bytes)[x] == bytes[x - at]
      {
        if x == at {
          assert at in m && m[at] == bytes[0];
        } else {
          assert bytes[1..][x - (at + 1)] == bytes[x - at];
        }
      }
    }
  }

  lemma AcceptTwo(t: Target, e0: Event, e1: Event, xferSize: int)
    ensures AcceptAll(t, [e0, e1], xferSize) == Accept(Accept(t, e0, xferSize), e1, xferSize)
  {
    var t1 := Accept(t, e0, xferSize);
    assert [e0, e1][1..] == [e1] && [e1][1..] == [];
    assert AcceptAll(t1, [e1], xferSize) == AcceptAll(Accept(t1, e1, xferSize), [], xferSize);
  }

  /** Commands and waits never touch the memory; a SET_ADDRESS command moves
      the pointer to its address. */
  lemma CommandTarget(t: Target, intf: int, codes: Codes, command: byte, addr: int, xferSize: int)
    ensures AcceptAll(t, CommandEvents(intf, codes, AddressCommand(command, addr)), xferSize)
            == if command == SET_ADDRESS then Target(addr % 0x1_0000_0000, t.memory) else t
  {
    var p := AddressCommand(command, addr);
    assert p[1..] == Le32(addr) && |p| == 5 && p[0] == command;
    AcceptTwo(t, ControlOut(Dfu.DNLOAD, 0, intf, p), PollUntil(StateIsNot(codes.dnBusy)), xferSize);
  }

  /** Erasing leaves the pointer and the memory of the model as they were; this
      holds of the device model only, which does not record erasure. */
  lemma {:induction false} EraseTarget(t: Target, intf: int, codes: Codes, sectors: seq<int>, xferSize: int)
    ensures AcceptAll(t, EraseEvents(intf, codes, sectors), xferSize) == t
    decreases |sectors|
  {
    if sectors != [] {
      var head := CommandEvents(intf, codes, AddressCommand(ERASE_SECTOR, sectors[0]));
      AcceptAllAppend(t, head, EraseEvents(intf, codes, sectors[1..]), xferSize);
      CommandTarget(t, intf, codes, ERASE_SECTOR, sectors[0], xferSize);
      EraseTarget(t, intf, codes, sectors[1..], xferSize);
    }
  }

  lemma SplitAt(data: seq<byte>, i: nat, j: nat)
    requires i <= j <= |data|
    ensures data[i..] == data[i..j] + data[j..]
  {
  }

  /** One chunk: the pointer goes to its address and the chunk is written there. */
  lemma ChunkTarget(t: Target, intf: int, codes: Codes, address: int, chunk: seq<byte>, xferSize: int)
    requires 0 <= address < 0x1_0000_0000
    ensures AcceptAll(t, ChunkStepEvents(intf, codes, address, chunk), xferSize)
            == Target(address, Write(t.memory, address, chunk))
  {
    var cmd := CommandEvents(intf, codes, AddressCommand(SET_ADDRESS, address));
    var out := [ControlOut(Dfu.DNLOAD, 2, intf, chunk), PollUntil(IdleIn(codes.dnloadIdle))];
    AcceptAllAppend(t, cmd, out, xferSize);
    CommandTarget(t, intf, codes, SET_ADDRESS, address, xferSize);
    AcceptTwo(Target(address, t.memory), out[0], out[1], xferSize);
  }

  /** The chunk loop writes the rest of the image at consecutive addresses, as
      long as those fit in the device's 32-bit address space. */
  lemma {:induction false} ChunksTarget(t: Target, intf: int, codes: Codes, data: seq<byte>,
                                        xferSize: int, sent: nat, address: int)
    requires xferSize > 0 && sent <= |data|
    requires 0 <= address && address + (|data| - sent) <= 0x1_0000_0000
    ensures AcceptAll(t, ChunkEvents(intf, codes, data, xferSize, sent, address), xferSize).memory
            == Write(t.memory, address, data[sent..])
    decreases |data| - sent
  {
    if sent < |data| {
      var next := sent + Min(|data| - sent, xferSize);
      var nextAddress := address + (next - sent);
      var chunk := data[sent..next];
      var step := ChunkStepEvents(intf, codes, address, chunk);
      var rest := ChunkEvents(intf, codes, data, xferSize, next, nextAddress);
      ChunkEventsNext(intf, codes, data, xferSize, sent, address, next, nextAddress);
      AcceptAllAppend(t, step, rest, xferSize);
      ChunkTarget(t, intf, codes, address, chunk, xferSize);
      var t2 := Target(address, Write(t.memory, address, chunk));
      ChunksTarget(t2, intf, codes, data, xferSize, next, nextAddress);
      SplitAt(data, sent, next);
      WriteAppend(t.memory, address, chunk, data[next..]);
    } else {
      assert data[sent..] == [];
    }
  }

  /** The first chunk of the chunk loop's events, split off. */
  lemma ChunkEventsNext(intf: int, codes: Codes, data: seq<byte>, xferSize: int, sent: nat, address: int,
                        next: int, nextAddress: int)
    requires xferSize > 0 && sent < |data|
    requires next == sent + Min(|data| - sent, xferSize) && nextAddress == address + (next - sent)
    ensures sent < next <= |data|
    ensures ChunkEvents(intf, codes, data, xferSize, sent, address)
            == ChunkStepEvents(intf, codes, address, data[sent..next]) + ChunkEvents(intf, codes, data, xferSize, next, nextAddress)
  {
  }

  /** Manifestation moves the pointer back to the start and writes nothing. */
  lemma ManifestTarget(t: Target, intf: int, codes: Codes, start: int, xferSize: int)
    ensures AcceptAll(t, ManifestEvents(intf, codes, start), xferSize).memory == t.memory
  {
    var cmd := CommandEvents(intf, codes, AddressCommand(SET_ADDRESS, start));
    var tail := [ControlOut(Dfu.DNLOAD, 0, intf, []), PollUntil(StateIs(codes.manifest))];
    AcceptAllAppend(t, cmd, tail, xferSize);
    CommandTarget(t, intf, codes, SET_ADDRESS, start, xferSize);
    AcceptTwo(Target(start % 0x1_0000_0000, t.memory), tail[0], tail[1], xferSize);
  }

  /** A download that succeeds has sent the erase commands of the plan, the
      chunks and the manifestation, in that order. */
  lemma DownloadTrace(usb: Usb, trace: seq<Event>, intf: int, codes: Codes,
                      memoryInfo: Option<MemoryInfo>, startAddress: Option<int>,
                      xferSize: int, data: seq<byte>)
    requires xferSize > 0 && (memoryInfo.Some? ==> AllWf(memoryInfo.value.segments))
    ensures var s := DownloadSpec(usb, trace, intf, codes, memoryInfo, startAddress, xferSize, data);
            s.result.Ok? ==>
              && memoryInfo.Some? && StartOf(memoryInfo, startAddress).Ok?
              && var start := StartOf(memoryInfo, startAddress).value;
                 var plan := EraseRange(memoryInfo.value.segments, start, |data|);
                 && plan.Ok? && !plan.value.stuck
                 && s.trace == trace + (EraseEvents(intf, codes, plan.value.sectors)
                                        + ChunkEvents(intf, codes, data, xferSize, 0, start)
                                        + ManifestEvents(intf, codes, start))
  {
    var s := DownloadSpec(usb, trace, intf, codes, memoryInfo, startAddress, xferSize, data);
    if s.result.Ok? {
      var start := StartOf(memoryInfo, startAddress).value;
      var segs := memoryInfo.value.segments;
      var erased := EraseSpec(usb, trace, intf, codes, segs, start, |data|);
      var written := ProgramChunks(usb, erased.trace, intf, codes, data, xferSize, 0, start);
      assert erased.result.Ok? && written.result.Ok?;
      assert s == Manifest(usb, written.trace, intf, codes, start);
      EraseSucceeds(usb, trace, intf, codes, segs, start, |data|);
      var plan := EraseRange(segs, start, |data|).value;
      assert erased.trace == trace + EraseEvents(intf, codes, plan.sectors);
      var e, c, m := EraseEvents(intf, codes, plan.sectors), ChunkEvents(intf, codes, data, xferSize, 0, start),
                     ManifestEvents(intf, codes, start);
      ProgramChunksTrace(usb, erased.trace, intf, codes, data, xferSize, 0, start);
      assert written.trace == erased.trace + c;
      assert s.trace == written.trace + m;
      TraceAssoc(trace, e, c, m);
    }
  }

  lemma Suffix(a: seq<Event>, b: seq<Event>)
    ensures (a + b)[|a|..] == b
  {
  }

  lemma TraceAssoc(a: seq<Event>, b: seq<Event>, c: seq<Event>, d: seq<Event>)
    ensures a + b + c + d == a + (b + c + d)
  {
  }

  /** A DfuSe device that takes the events of a download holds the image at the
      start address, whatever was erased, when the image fits below 4 GiB. */
  lemma DownloadEventsTarget(t: Target, intf: int, codes: Codes, sectors: seq<int>,
                             data: seq<byte>, xferSize: int, start: int)
    requires xferSize > 0 && 0 <= start && start + |data| <= 0x1_0000_0000
    ensures AcceptAll(t, EraseEvents(intf, codes, sectors)
                         + ChunkEvents(intf, codes, data, xferSize, 0, start)
                         + ManifestEvents(intf, codes, start), xferSize).memory
            == Write(t.memory, start, data)
  {
    var erase := EraseEvents(intf, codes, sectors);
    var chunks := ChunkEvents(intf, codes, data, xferSize, 0, start);
    var manifest := ManifestEvents(intf, codes, start);
    AcceptAllAppend(t, erase + chunks, manifest, xferSize);
    AcceptAllAppend(t, erase, chunks, xferSize);
    EraseTarget(t, intf, codes, sectors, xferSize);
    ChunksTarget(t, intf, codes, data, xferSize, 0, start);
    ManifestTarget(AcceptAll(t, chunks, xferSize), intf, codes, start, xferSize);
    assert data[0..] == data;
  }

  /** After a download that succeeds, a DfuSe device that took its requests
      holds the image written at the start address (which `WriteContents`
      reads back byte for byte), whenever the image fits below 4 GiB. That
      nothing else changed holds in the device model, which ignores the erase
      commands; on a device the rest of each erased sector holds the erased
      value. */
  lemma DownloadWritesImage(usb: Usb, trace: seq<Event>, intf: int, codes: Codes,
                            memoryInfo: Option<MemoryInfo>, startAddress: Option<int>,
                            xferSize: int, data: seq<byte>, t: Target)
    requires xferSize > 0 && (memoryInfo.Some? ==> AllWf(memoryInfo.value.segments))
    ensures var s := DownloadSpec(usb, trace, intf, codes, memoryInfo, startAddress, xferSize, data);
            s.result.Ok? && 0 <= StartOf(memoryInfo, startAddress).value
            && StartOf(memoryInfo, startAddress).value + |data| <= 0x1_0000_0000 ==>
              |trace| <= |s.trace|
              && AcceptAll(t, s.trace[|trace|..], xferSize).memory
              == Write(t.memory, StartOf(memoryInfo, startAddress).value, data)
  {
    var s := DownloadSpec(usb, trace, intf, codes, memoryInfo, startAddress, xferSize, data);
    DownloadTrace(usb, trace, intf, codes, memoryInfo, startAddress, xferSize, data);
    if s.result.Ok? {
      var start := StartOf(memoryInfo, startAddress).value;
      if 0 <= start && start + |data| <= 0x1_0000_0000 {
        var plan := EraseRange(memoryInfo.value.segments, start, |data|).value;
        var events := EraseEvents(intf, codes, plan.sectors)
                      + ChunkEvents(intf, codes, data, xferSize, 0, start)
                      + ManifestEvents(intf, codes, start);
        Suffix(trace, events);
        DownloadEventsTarget(t, intf, codes, plan.sectors, data, xferSize, start);
      }
    }
  }

  /** After the upload setup the device's pointer is at the start address
      (taken modulo 2^32), and its memory is untouched. */
  lemma UploadSetupPointer(usb: Usb, trace: seq<Event>, intf: int, codes: Codes,
                           memoryInfo: Option<MemoryInfo>, startAddress: Option<int>, t: Target, xferSize: int)
    ensures var s := UploadSetup(usb, trace, intf, codes, memoryInfo, startAddress);
            s.result.Ok? ==>
              AcceptAll(t, s.trace[|trace|..], xferSize)
              == Target(StartOf(memoryInfo, startAddress).value % 0x1_0000_0000, t.memory)
  {
    var s := UploadSetup(usb, trace, intf, codes, memoryInfo, startAddress);
    if s.result.Ok? {
      var start := StartOf(memoryInfo, startAddress).value;
      var afterState := trace + [ControlIn(Dfu.GETSTATE, 0, intf, 1)];
      var st := usb.inReply(afterState);
      var idle: seq<Event> := if st.data[0] != codes.dfuIdle then [Event.AbortToIdle] else [];
      var cmd := CommandEvents(intf, codes, AddressCommand(SET_ADDRESS, start));
      var pre := [ControlIn(Dfu.GETSTATE, 0, intf, 1)] + idle;
      assert s.trace[|trace|..] == pre + (cmd + [Event.AbortToIdle]);
      AcceptAllAppend(t, pre, cmd + [Event.AbortToIdle], xferSize);
      assert AcceptAll(t, pre, xferSize) == t by {
        if idle == [] {
          assert pre[1..] == [];
        } else {
          AcceptTwo(t, pre[0], pre[1], xferSize);
        }
      }
      AcceptAllAppend(t, cmd, [Event.AbortToIdle], xferSize);
      assert [Event.AbortToIdle][1..] == [];
      CommandTarget(t, intf, codes, SET_ADDRESS, start, xferSize);
    }
  }

  /** Where a DfuSe device reads the data of an UPLOAD of block `block`:
      `(block - 2) * xferSize` bytes past its address pointer, as the comment
      in `do_upload` says; blocks 0 and 1 are not reads of memory. */
  function UploadReadAddress(pointer: int, block: int, xferSize: int): Option<int> {
    if block >= 2 then Some(pointer + (block - 2) * xferSize) else None
  }

  /** With the block numbers of the base loop as written, the first three
      requests of an upload read no memory, and request k from the fourth on
      reads `k - 3` transfers past the start address the setup left the
      pointer at. */
  lemma UploadAsWrittenSkips(usb: Usb, trace: seq<Event>, intf: int, codes: Codes,
                             memoryInfo: Option<MemoryInfo>, startAddress: Option<int>, t: Target, xferSize: int,
                             blockNums: seq<int>)
    requires Dfu.UploadBlockNumbers(blockNums)
    ensures var s := UploadSetup(usb, trace, intf, codes, memoryInfo, startAddress);
            s.result.Ok? ==>
              var pointer := AcceptAll(t, s.trace[|trace|..], xferSize).pointer;
              var start := StartOf(memoryInfo, startAddress).value % 0x1_0000_0000;
              && (forall k :: 0 <= k < |blockNums| && k < 3 ==> UploadReadAddress(pointer, blockNums[k], xferSize).None?)
              && (forall k :: 3 <= k < |blockNums| ==>
                    UploadReadAddress(pointer, blockNums[k], xferSize) == Some(start + (k - 3) * xferSize))
  {
    UploadSetupPointer(usb, trace, intf, codes, memoryInfo, startAddress, t, xferSize);
  }

  /** With block numbers counted up from 2, request k of an upload reads `k`
      transfers past the pointer the setup left at the start address: the
      replies are the memory from the start address on, one transfer each. */
  lemma UploadReadsFromStart(usb: Usb, trace: seq<Event>, intf: int, codes: Codes,
                             memoryInfo: Option<MemoryInfo>, startAddress: Option<int>, t: Target, xferSize: int,
                             blockNums: seq<int>)
    requires Dfu.BlockNumbersFrom(blockNums, 2)
    ensures var s := UploadSetup(usb, trace, intf, codes, memoryInfo, startAddress);
            s.result.Ok? ==>
              var pointer := AcceptAll(t, s.trace[|trace|..], xferSize).pointer;
              forall k :: 0 <= k < |blockNums| ==>
                UploadReadAddress(pointer, blockNums[k], xferSize)
                == Some(StartOf(memoryInfo, startAddress).value % 0x1_0000_0000 + k * xferSize)
  {
    UploadSetupPointer(usb, trace, intf, codes, memoryInfo, startAddress, t, xferSize);
  }
}
