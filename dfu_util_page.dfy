/** The logic of the dfu-util page that is not page wiring: which driver
    `connect` gives an interface, the summary it writes of a DfuSe memory map,
    and how the start-address field is checked against the map. */
module DfuUtilPage {
  import opened Wrappers
  import opened JsText
  import opened Transport
  import opened DfuseMemoryMap
  import opened DfuseLookup
  import opened DfuseCommands
  import opened DfuPages
  import Dfu
  import Dfuse

  // ---------------------------------------------------------------------------
  // The DfuSe driver

  /** The DfuSe driver replaces the plain one exactly when the functional
      descriptor was found, names DFU version 1.1a (0x011a), and the interface
      is in DFU mode (protocol 2). */
  predicate UsesDfuse(desc: DescriptorProperties, protocol: int) {
    desc.Found? && desc.properties.dfuVersion == 0x011a && protocol == 0x02
  }

  /** The driver `connect` ends up with: `Ok(None)` keeps the plain DFU device,
      `Ok(Some(d))` is a new DfuSe device with the memory map of the interface
      name, and an error is what the DfuSe constructor throws. */
  method SelectDriver(desc: DescriptorProperties, settings: Dfu.InterfaceSettings, codes: Codes)
    returns (r: Result<Option<Dfuse.Device>, Failure>)
    ensures !UsesDfuse(desc, settings.alternate.interfaceProtocol) ==> r == Ok(None)
    ensures UsesDfuse(desc, settings.alternate.interfaceProtocol) ==>
              var name := settings.name;
              && (r.Err? <==> name.Some? && name.value != "" && ParseDescriptor(name.value).Err?)
              && (r.Ok? ==> r.value.Some? && fresh(r.value.value) && r.value.value.Valid()
                            && r.value.value.intf == settings.intf.interfaceNumber
                            && r.value.value.startAddress.None?
                            && r.value.value.memoryInfo ==
                                 if name.None? || name.value == "" then None
                                 else Some(ParseDescriptor(name.value).value))
  {
    if !(desc.Found? && desc.properties.dfuVersion == 0x011a && settings.alternate.interfaceProtocol == 0x02) {
      return Ok(None);
    }
    var created := Dfuse.Device.Create(settings.intf.interfaceNumber, codes, settings.name);
    if created.Err? {
      return Err(created.error);
    }
    return Ok(Some(created.value));
  }

  // ---------------------------------------------------------------------------
  // The memory summary

  /** The sum of `end - start` over the segments. */
  function TotalSize(segs: seq<Segment>): int {
    if segs == [] then 0 else TotalSize(segs[..|segs| - 1]) + (segs[|segs| - 1].end - segs[|segs| - 1].start)
  }

  lemma {:induction false} TotalSizeAppend(a: seq<Segment>, b: seq<Segment>)
    ensures TotalSize(a + b) == TotalSize(a) + TotalSize(b)
    decreases |b|
  {
    if b == [] {
      assert a + b == a;
    } else {
      assert (a + b)[..|a + b| - 1] == a + b[..|b| - 1];
      TotalSizeAppend(a, b[..|b| - 1]);
    }
  }

  /** The total the summary shows for a block of the descriptor is the sum of
      `count * size` over its entries. */
  lemma {:induction false} TotalSizeOfLayout(addr: int, specs: seq<SectorSpec>)
    requires forall k :: 0 <= k < |specs| ==> ValidSpec(specs[k])
    ensures TotalSize(Layout(addr, specs)) == TotalExtent(specs)
    decreases |specs|
  {
    if specs != [] {
      var first := MakeSegment(addr, specs[0]);
      TotalSizeOfLayout(first.end, specs[1..]);
      TotalSizeAppend([first], Layout(first.end, specs[1..]));
      assert [first][..0] == [];
    }
  }

  /** In a map of well-formed segments the total is never negative. */
  lemma {:induction false} TotalSizeWf(segs: seq<Segment>)
    requires AllWf(segs)
    ensures TotalSize(segs) >= 0
    decreases |segs|
  {
    if segs != [] {
      assert SegmentWf(segs[|segs| - 1]);
      TotalSizeWf(segs[..|segs| - 1]);
    }
  }

  /** The segment's properties in the order the page lists them. */
  function AccessWords(seg: Segment): seq<string> {
    (if seg.readable then ["readable"] else [])
    + (if seg.erasable then ["erasable"] else [])
    + (if seg.writable then ["writable"] else [])
  }

  /** `Array.prototype.join`. */
  function Join(words: seq<string>, sep: string): string
    decreases |words|
  {
    if words == [] then "" else if |words| == 1 then words[0] else words[0] + sep + Join(words[1..], sep)
  }

  /** The property text of a segment: its properties joined with ", ", or
      "inaccessible" when it has none. */
  function AccessSummary(seg: Segment): string {
    var joined := Join(AccessWords(seg), ", ");
    if joined == "" then "inaccessible" else joined
  }

  predicate EndsWith(s: string, p: string) {
    |p| <= |s| && s[|s| - |p|..] == p
  }

  /** A join starts with the first word and ends with the last. */
  lemma {:induction false} JoinEnds(words: seq<string>, sep: string)
    requires |words| >= 1
    ensures StartsWith(Join(words, sep), words[0])
    ensures EndsWith(Join(words, sep), words[|words| - 1])
    decreases |words|
  {
    if |words| > 1 {
      JoinEnds(words[1..], sep);
      var rest := Join(words[1..], sep);
      assert Join(words, sep) == words[0] + (sep + rest);
      var s := Join(words, sep);
      var w := words[|words| - 1];
      assert words[1..][|words[1..]| - 1] == w;
      assert s[|s| - |w|..] == rest[|rest| - |w|..];
    }
  }

  /** The property text reads "inaccessible" exactly when the segment has no
      property; it starts with "readable" exactly when the segment is readable
      and ends with "writable" exactly when it is writable. */
  lemma AccessSummaryShape(seg: Segment)
    ensures AccessSummary(seg) == "inaccessible" <==> !seg.readable && !seg.erasable && !seg.writable
    ensures StartsWith(AccessSummary(seg), "readable") <==> seg.readable
    ensures EndsWith(AccessSummary(seg), "writable") <==> seg.writable
  {
    AccessSummaryEmpty(seg);
    AccessSummaryFirst(seg);
    AccessSummaryLast(seg);
  }

  lemma AccessSummaryEmpty(seg: Segment)
    ensures AccessSummary(seg) == "inaccessible" <==> !seg.readable && !seg.erasable && !seg.writable
  {
    var words := AccessWords(seg);
    var s := AccessSummary(seg);
    if words != [] {
      JoinEnds(words, ", ");
      assert s == Join(words, ", ");
      assert s[0] == words[0][0];
      assert s != "inaccessible" by { assert s[0] != 'i'; }
    }
  }

  lemma AccessSummaryFirst(seg: Segment)
    ensures StartsWith(AccessSummary(seg), "readable") <==> seg.readable
  {
    var words := AccessWords(seg);
    var s := AccessSummary(seg);
    if words != [] {
      JoinEnds(words, ", ");
      assert s == Join(words, ", ");
      assert s[0] == words[0][0];
      assert words[0][0] == 'r' <==> seg.readable;
      assert seg.readable ==> words[0] == "readable";
    } else {
      assert s[0] == 'i';
    }
    assert StartsWith(s, "readable") ==> s[0] == 'r';
  }

  lemma AccessSummaryLast(seg: Segment)
    ensures EndsWith(AccessSummary(seg), "writable") <==> seg.writable
  {
    var words := AccessWords(seg);
    var s := AccessSummary(seg);
    if words != [] {
      JoinEnds(words, ", ");
      var last := words[|words| - 1];
      assert s == Join(words, ", ");
      assert last == if seg.writable then "writable" else if seg.erasable then "erasable" else "readable";
      assert s[|s| - 8..] == last;
      assert s[|s| - 8] == last[0];
    } else {
      assert s == "inaccessible" && s[|s| - 8] == 'c';
    }
    assert EndsWith(s, "writable") ==> s[|s| - 8] == 'w';
  }

  /** The property text of one segment, pushed one property at a time. */
  method PropertySummary(seg: Segment) returns (propertySummary: string)
    ensures propertySummary == AccessSummary(seg)
  {
    var properties: seq<string> := [];
    if seg.readable {
      properties := properties + ["readable"];
    }
    if seg.erasable {
      properties := properties + ["erasable"];
    }
    if seg.writable {
      properties := properties + ["writable"];
    }
    assert properties == AccessWords(seg);
    propertySummary := Join(properties, ", ");
    if propertySummary == "" {
      propertySummary := "inaccessible";
    }
  }

  /** The line of one segment: its first and last address, and its properties. */
  function SegmentLine(seg: Segment): string {
    "\n" + Addr8(seg.start) + LineTail(seg)
  }

  /** What follows the first address: the last address and the properties. */
  function LineTail(seg: Segment): string {
    "-" + Addr8(seg.end - 1) + " (" + AccessSummary(seg) + ")"
  }

  lemma SegmentLinesSnoc(segs: seq<Segment>, i: nat)
    requires i < |segs|
    ensures SegmentLines(segs[..i + 1]) == SegmentLines(segs[..i]) + SegmentLine(segs[i])
  {
    assert segs[..i + 1][..i] == segs[..i];
  }

  function SegmentLines(segs: seq<Segment>): string {
    if segs == [] then "" else SegmentLines(segs[..|segs| - 1]) + SegmentLine(segs[|segs| - 1])
  }

  /** The first address of a segment line reads back with `parseInt(s, 16)` as
      the segment's start, so it can be typed into the start-address field. */
  lemma SegmentLineStart(seg: Segment)
    requires seg.start >= 0
    ensures var line := SegmentLine(seg);
            && |line| > |Addr8(seg.start)|
            && ParseIntHex(line[1..1 + |Addr8(seg.start)|]) == Some(seg.start)
  {
    var a := Addr8(seg.start);
    var line := "\n" + a + LineTail(seg);
    assert line == SegmentLine(seg);
    assert line[1..1 + |a|] == a;
    PaddedHexReadsBack(seg.start, 8);
  }

  /** The line the summary loop appends for one segment. */
  method SegmentText(segment: Segment) returns (line: string)
    ensures line == SegmentLine(segment)
  {
    var propertySummary := PropertySummary(segment);
    var first := HexAddr8(segment.start);
    var last := HexAddr8(segment.end - 1);
    var tail := "-" + last + " (" + propertySummary + ")";
    line := "\n" + first + tail;
  }

  /** The summary `connect` writes of a DfuSe device's memory map. `niceSize`,
      the floating-point size text, is a parameter. */
  method MemorySummary(info: MemoryInfo, niceSize: int -> string) returns (memorySummary: string)
    ensures memorySummary == "Selected memory region: " + info.name + " (" + niceSize(TotalSize(info.segments)) + ")"
                             + SegmentLines(info.segments)
  {
    var totalSize := SumSizes(info.segments);
    memorySummary := "Selected memory region: " + info.name + " (" + niceSize(totalSize) + ")";
    memorySummary := AppendSegmentLines(memorySummary, info.segments);
  }

  /** The first loop of the summary: `totalSize += segment.end - segment.start`. */
  method SumSizes(segs: seq<Segment>) returns (totalSize: int)
    ensures totalSize == TotalSize(segs)
  {
    totalSize := 0;
    var i := 0;
    while i < |segs|
      invariant 0 <= i <= |segs|
      invariant totalSize == TotalSize(segs[..i])
    {
      assert segs[..i + 1][..i] == segs[..i];
      totalSize := totalSize + (segs[i].end - segs[i].start);
      i := i + 1;
    }
    assert segs[..|segs|] == segs;
  }

  lemma Assoc(a: string, b: string, c: string)
    ensures (a + b) + c == a + (b + c)
  {
  }

  /** One turn of the second loop appends the next segment's line. */
  lemma AppendLineStep(head: string, segs: seq<Segment>, i: nat, acc: string, line: string)
    requires i < |segs| && acc == head + SegmentLines(segs[..i]) && line == SegmentLine(segs[i])
    ensures acc + line == head + SegmentLines(segs[..i + 1])
  {
    SegmentLinesSnoc(segs, i);
    Assoc(head, SegmentLines(segs[..i]), line);
  }

  /** The second loop of the summary: one line per segment, in map order. */
  method AppendSegmentLines(head: string, segs: seq<Segment>) returns (memorySummary: string)
    ensures memorySummary == head + SegmentLines(segs)
  {
    memorySummary := head;
    var i := 0;
    while i < |segs|
      invariant 0 <= i <= |segs|
      invariant memorySummary == head + SegmentLines(segs[..i])
    {
      var line := SegmentText(segs[i]);
      AppendLineStep(head, segs, i, memorySummary, line);
      memorySummary := memorySummary + line;
      i := i + 1;
    }
    assert segs[..|segs|] == segs;
  }

  // ---------------------------------------------------------------------------
  // The start-address field

  /** The change handler of the start-address field, for the field's text
      `value`. `device` is null when there is no device or it is not a DfuSe
      device. Returns the field's validity message and, when it is set, the new
      maximum of the upload-size field. */
  method StartAddressChanged(device: Dfuse.Device?, value: string) returns (validity: string, uploadMax: Option<int>)
    requires device != null ==> device.Valid()
    modifies device
    ensures device != null ==> device.memoryInfo == old(device.memoryInfo) && device.Valid()
    ensures ParseIntHex(value).None? ==>
              validity == "Invalid hexadecimal start address" && uploadMax.None?
              && (device != null ==> device.startAddress == old(device.startAddress))
    ensures ParseIntHex(value).Some? && (device == null || device.memoryInfo.None?) ==>
              validity == "" && uploadMax.None?
              && (device != null ==> device.startAddress == old(device.startAddress))
    ensures ParseIntHex(value).Some? && device != null && device.memoryInfo.Some? ==>
              var address := ParseIntHex(value).value;
              var segs := device.memoryInfo.value.segments;
              if SegmentAt(segs, address).Some? then
                && validity == "" && device.startAddress == Some(address)
                && uploadMax == Some(MaxRead(segs, address))
              else
                && validity == "Address outside of memory map" && uploadMax.None?
                && device.startAddress == old(device.startAddress)
  {
    var address := ParseIntHex(value);
    uploadMax := None;
    if address.None? {
      validity := "Invalid hexadecimal start address";
    } else if device != null && device.memoryInfo.Some? {
      var segment := device.GetSegment(address.value);
      if segment.value.Some? {
        device.startAddress := address;
        validity := "";
        var maxSize := device.GetMaxReadSize(address.value);
        uploadMax := Some(maxSize.value);
      } else {
        validity := "Address outside of memory map";
      }
    } else {
      validity := "";
    }
  }

  /** The start of a segment, as the summary writes it, is accepted by the
      start-address field. */
  lemma SummaryStartAccepted(segs: seq<Segment>, k: nat)
    requires k < |segs| && 0 <= segs[k].start < segs[k].end
    ensures ParseIntHex(Addr8(segs[k].start)) == Some(segs[k].start)
    ensures SegmentAt(segs, segs[k].start).Some?
  {
    PaddedHexReadsBack(segs[k].start, 8);
    SegmentAtNone(segs, segs[k].start);
  }
}
