/** The DfuSe memory map (dfuse.js): the segments an alternate's interface
    string describes (section 6 of ST's UM0391, "DfuSe File Format" and the
    memory-map string `@Name/0xADDR/count*size<unit><flag>,...`), and the
    address arithmetic over them.

    `parseMemoryDescriptor` uses two global regular expressions. Their matches
    are computed here by deterministic recognisers: in both patterns every
    quantified run is followed by a character its class excludes, so
    backtracking into a run can never make a match succeed, and the one choice
    point (`\s?[ BKM]`) is resolved below exactly as the backtracking matcher
    resolves it. `exec` on a global expression finds the leftmost match at or
    after `lastIndex`; `FindEntry` and `FindBlock` are that search. */
module DfuseMemoryMap {
  import opened Wrappers
  import opened JsText
  import opened Transport
  import Arith

  /** One segment: the addresses `[start, end)`, its sector size and its
      access flags. */
  datatype Segment = Segment(start: int, end: int, sectorSize: int, readable: bool, erasable: bool, writable: bool)

  datatype MemoryInfo = MemoryInfo(name: string, segments: seq<Segment>)

  /** The fields one `count*size<unit><flag>` entry captures. */
  datatype SectorSpec = SectorSpec(count: nat, size: nat, unit: char, flag: char)

  predicate IsUnit(c: char) { c == ' ' || c == 'B' || c == 'K' || c == 'M' }

  predicate IsFlag(c: char) { 'a' <= c <= 'g' }

  predicate ValidSpec(spec: SectorSpec) { IsUnit(spec.unit) && IsFlag(spec.flag) }

  /** The `sectorMultipliers` table. */
  function Multiplier(unit: char): (m: nat)
    requires IsUnit(unit)
    ensures unit == ' ' || unit == 'B' ==> m == 1
    ensures unit == 'K' ==> m == 1024
    ensures unit == 'M' ==> m == 1048576
  {
    match unit
    case 'K' => 1024
    case 'M' => 1048576
    case _ => 1
  }

  /** The properties value of a flag letter: 'a' is 1, ..., 'g' is 7. */
  function Properties(flag: char): (p: int)
    requires IsFlag(flag)
    ensures 1 <= p <= 7
  {
    flag as int - 'a' as int + 1
  }

  /** `(p & (1 << k)) != 0` for a properties value `p` in 1..7. */
  function Bit(p: int, k: nat): bool
    requires 1 <= p <= 7
  {
    if k == 0 then p % 2 == 1 else Bit2(p / 2, k - 1)
  }

  function Bit2(p: int, k: nat): bool
    requires 0 <= p <= 3
  {
    if k == 0 then p % 2 == 1 else p / 2 % 2 == 1
  }

  function SectorSize(spec: SectorSpec): nat
    requires ValidSpec(spec)
  {
    spec.size * Multiplier(spec.unit)
  }

  /** The segment an entry describes at the running address `addr`. */
  function MakeSegment(addr: int, spec: SectorSpec): Segment
    requires ValidSpec(spec)
  {
    var sectorSize := SectorSize(spec);
    var properties := Properties(spec.flag);
    Segment(addr, addr + sectorSize * spec.count, sectorSize,
            Bit(properties, 0), Bit(properties, 1), Bit(properties, 2))
  }

  /** The access flags decode the letter's value bit by bit: readable is bit 0,
      erasable bit 1, writable bit 2. */
  lemma FlagBits(addr: int, spec: SectorSpec)
    requires ValidSpec(spec)
    ensures var seg := MakeSegment(addr, spec); var p := spec.flag as int - 'a' as int + 1;
            && seg.readable == (p % 2 == 1)
            && seg.erasable == ((p / 2) % 2 == 1)
            && seg.writable == (p / 4 == 1)
            && (seg.readable <==> spec.flag in "aceg")
            && (seg.erasable <==> spec.flag in "bcfg")
            && (seg.writable <==> spec.flag in "defg")
  {
    var p := Properties(spec.flag);
    assert spec.flag == 'a' || spec.flag == 'b' || spec.flag == 'c' || spec.flag == 'd'
           || spec.flag == 'e' || spec.flag == 'f' || spec.flag == 'g';
  }

  // ---------------------------------------------------------------------------
  // The two regular expressions

  /** A match of `([0-9]+)\s*\*\s*([0-9]+)\s?([ BKM])\s*([abcdefg])\s*,?\s*`. */
  datatype EntryMatch = EntryMatch(at: nat, spec: SectorSpec, end: nat)

  /** The entry pattern anchored at `i`. After the size digits, `\s?` takes a
      white-space character only when a unit character follows it; when it
      cannot, the unit is the character right after the digits. */
  function EntryAt(s: string, i: nat): (m: Option<EntryMatch>)
    requires i <= |s|
    ensures m.Some? ==> m.value.at == i < m.value.end <= |s| && ValidSpec(m.value.spec)
  {
    var d1 := DigitRunEnd(s, i);
    var a := SkipSpaces(s, d1);
    if d1 == i || a == |s| || s[a] != '*' then None
    else
      var b := SkipSpaces(s, a + 1);
      var d2 := DigitRunEnd(s, b);
      var u := if d2 + 1 < |s| && IsSpace(s[d2]) && IsUnit(s[d2 + 1]) then d2 + 1 else d2;
      if d2 == b || u == |s| || !IsUnit(s[u]) then None
      else
        var f := SkipSpaces(s, u + 1);
        if f == |s| || !IsFlag(s[f]) then None
        else
          var t1 := SkipSpaces(s, f + 1);
          var t2 := if t1 < |s| && s[t1] == ',' then t1 + 1 else t1;
          Some(EntryMatch(i, SectorSpec(DecimalValue(s[i..d1]), DecimalValue(s[b..d2]), s[u], s[f]),
                          SkipSpaces(s, t2)))
  }

  /** `exec` of the entry pattern from `p`: the leftmost match at or after `p`. */
  function FindEntry(s: string, p: nat): (m: Option<EntryMatch>)
    requires p <= |s|
    ensures m.Some? ==> p <= m.value.at < m.value.end <= |s| && ValidSpec(m.value.spec)
    decreases |s| - p
  {
    if EntryAt(s, p).Some? then EntryAt(s, p)
    else if p == |s| then None
    else FindEntry(s, p + 1)
  }

  /** The entries the inner `while (segmentMatch = segmentRegex.exec(...))`
      loop visits, from `lastIndex == p`. */
  function Entries(s: string, p: nat): (specs: seq<SectorSpec>)
    requires p <= |s|
    ensures forall k :: 0 <= k < |specs| ==> ValidSpec(specs[k])
    decreases |s| - p
  {
    match FindEntry(s, p)
    case None => []
    case Some(m) => [m.spec] + Entries(s, m.end)
  }

  /** The end of `(\s*<entry>)+` once one entry has matched up to `j`: the
      repetition is greedy and what follows it cannot fail, so it takes entries
      as long as the next one matches. */
  function RepeatEntries(s: string, j: nat): (e: nat)
    requires j <= |s|
    ensures j <= e <= |s|
    decreases |s| - j
  {
    var k := SkipSpaces(s, j);
    match EntryAt(s, k)
    case None => j
    case Some(m) => RepeatEntries(s, m.end)
  }

  /** A match of `\/\s*(0x[0-9a-fA-F]{1,8})\s*\/(\s*<entry>)+`: where it starts,
      the digits of its address capture (the capture is "0x" followed by them),
      and where it ends. */
  datatype BlockMatch = BlockMatch(at: nat, digits: string, end: nat)

  /** The block pattern anchored at `i`. The address must be a run of one to
      eight hexadecimal digits: a longer run leaves a digit where `\s*\/` needs
      white space or a slash. */
  function BlockAt(s: string, i: nat): (m: Option<BlockMatch>)
    requires i <= |s|
    ensures m.Some? ==> && m.value.at == i < m.value.end <= |s|
                        && 1 <= |m.value.digits| <= 8 && AllHex(m.value.digits)
  {
    if i == |s| || s[i] != '/' then None
    else
      var a := SkipSpaces(s, i + 1);
      if a + 1 >= |s| || s[a] != '0' || s[a + 1] != 'x' then None
      else
        var h := HexRunEnd(s, a + 2);
        var b := SkipSpaces(s, h);
        if h == a + 2 || h - (a + 2) > 8 || b == |s| || s[b] != '/' then None
        else
          match EntryAt(s, SkipSpaces(s, b + 1))
          case None => None
          case Some(first) => Some(BlockMatch(i, s[a + 2..h], RepeatEntries(s, first.end)))
  }

  /** `exec` of the block pattern from `p`. */
  function FindBlock(s: string, p: nat): (m: Option<BlockMatch>)
    requires p <= |s|
    ensures m.Some? ==> && p <= m.value.at < m.value.end <= |s|
                        && 1 <= |m.value.digits| <= 8 && AllHex(m.value.digits)
    decreases |s| - p
  {
    if BlockAt(s, p).Some? then BlockAt(s, p)
    else if p == |s| then None
    else FindBlock(s, p + 1)
  }

  /** `parseInt(capture, 16)` of an address capture is the value of its digits. */
  lemma ParseAddressCapture(digits: string)
    requires 1 <= |digits| && AllHex(digits)
    ensures ParseIntHex("0x" + digits) == Some(HexValue(digits) as int)
  {
    var s := "0x" + digits;
    assert s[2..] == digits;
    ParseIntHexPrefixed(s);
  }

  // ---------------------------------------------------------------------------
  // The segments a descriptor describes

  /** The sum of the extents `count * sectorSize` of `specs`. */
  function TotalExtent(specs: seq<SectorSpec>): int
    requires forall k :: 0 <= k < |specs| ==> ValidSpec(specs[k])
  {
    if specs == [] then 0 else SectorSize(specs[0]) * specs[0].count + TotalExtent(specs[1..])
  }

  /** The segments of one block, laid end to end from `addr`. */
  function Layout(addr: int, specs: seq<SectorSpec>): (segs: seq<Segment>)
    requires forall k :: 0 <= k < |specs| ==> ValidSpec(specs[k])
    decreases |specs|
  {
    if specs == [] then []
    else
      var first := MakeSegment(addr, specs[0]);
      [first] + Layout(first.end, specs[1..])
  }

  /** Each segment of a block is the one its entry describes at its own start;
      the first starts at the block's address, each ends where the next
      starts, and the last ends `TotalExtent(specs)` after the address. */
  lemma {:induction false} LayoutShape(addr: int, specs: seq<SectorSpec>)
    requires forall k :: 0 <= k < |specs| ==> ValidSpec(specs[k])
    ensures var segs := Layout(addr, specs);
            && |segs| == |specs|
            && (forall k :: 0 <= k < |specs| ==> segs[k] == MakeSegment(segs[k].start, specs[k]))
            && (|segs| > 0 ==> segs[0].start == addr)
            && (forall k :: 0 <= k < |segs| - 1 ==> segs[k].end == segs[k + 1].start)
            && (|segs| > 0 ==> segs[|segs| - 1].end == addr + TotalExtent(specs))
    decreases |specs|
  {
    if specs != [] {
      var first := MakeSegment(addr, specs[0]);
      LayoutShape(first.end, specs[1..]);
      var rest := Layout(first.end, specs[1..]);
      var segs := [first] + rest;
      forall k | 1 <= k < |specs|
        ensures segs[k] == MakeSegment(segs[k].start, specs[k])
      {
        assert specs[k] == specs[1..][k - 1] && segs[k] == rest[k - 1];
      }
    }
  }

  lemma LayoutCons(addr: int, spec: SectorSpec, rest: seq<SectorSpec>)
    requires ValidSpec(spec) && forall k :: 0 <= k < |rest| ==> ValidSpec(rest[k])
    ensures Layout(addr, [spec] + rest) == [MakeSegment(addr, spec)] + Layout(MakeSegment(addr, spec).end, rest)
  {
    assert ([spec] + rest)[0] == spec;
    assert ([spec] + rest)[1..] == rest;
  }

  /** One turn of the inner loop: the first entry found becomes the first
      segment, and the rest follow from its end. */
  lemma LayoutEntriesStep(s: string, p: nat, addr: int)
    requires p <= |s| && FindEntry(s, p).Some?
    ensures var m := FindEntry(s, p).value; var seg := MakeSegment(addr, m.spec);
            Layout(addr, Entries(s, p)) == [seg] + Layout(seg.end, Entries(s, m.end))
  {
    var m := FindEntry(s, p).value;
    EntriesStep(s, p);
    LayoutCons(addr, m.spec, Entries(s, m.end));
  }

  lemma EntriesStep(s: string, p: nat)
    requires p <= |s|
    ensures FindEntry(s, p).None? ==> Entries(s, p) == []
    ensures FindEntry(s, p).Some? ==>
              Entries(s, p) == [FindEntry(s, p).value.spec] + Entries(s, FindEntry(s, p).value.end)
  {
  }

  /** The segments of the blocks the outer `exec` loop visits from `lastIndex == p`. */
  function SegmentsFrom(s: string, p: nat): seq<Segment>
    requires p <= |s|
    decreases |s| - p
  {
    match FindBlock(s, p)
    case None => []
    case Some(b) => Layout(HexValue(b.digits), Entries(s[b.at..b.end], 0)) + SegmentsFrom(s, b.end)
  }

  lemma SegmentsFromStep(s: string, p: nat)
    requires p <= |s|
    ensures FindBlock(s, p).None? ==> SegmentsFrom(s, p) == []
    ensures FindBlock(s, p).Some? ==> var b := FindBlock(s, p).value;
              SegmentsFrom(s, p) == Layout(HexValue(b.digits), Entries(s[b.at..b.end], 0)) + SegmentsFrom(s, b.end)
  {
  }

  /** parseMemoryDescriptor as a function of the descriptor. */
  function ParseDescriptor(desc: string): (r: Result<MemoryInfo, Failure>)
    ensures r.Err? <==> |desc| == 0 || desc[0] != '@' || '/' !in desc
    ensures r.Err? ==> r.error == NotDfuseDescriptor(desc)
    ensures r.Ok? ==> var slash := IndexOf(desc, '/');
              && r.value.name == Trim(desc[1..slash])
              && r.value.segments == SegmentsFrom(desc[slash..], 0)
  {
    var nameEnd := IndexOf(desc, '/');
    if |desc| == 0 || desc[0] != '@' || nameEnd == -1 then Err(NotDfuseDescriptor(desc))
    else
      var segmentString := desc[nameEnd..];
      Ok(MemoryInfo(Trim(desc[1..nameEnd]), SegmentsFrom(segmentString, 0)))
  }

  lemma ConcatAssoc(a: seq<Segment>, b: seq<Segment>, c: seq<Segment>)
    ensures a + (b + c) == (a + b) + c
  {
  }

  lemma ConcatNil(a: seq<Segment>)
    ensures [] + a == a && a + [] == a
  {
  }

  /** dfuse.parseMemoryDescriptor. */
  method ParseMemoryDescriptor(desc: string) returns (r: Result<MemoryInfo, Failure>)
    ensures r == ParseDescriptor(desc)
  {
    var nameEndIndex := IndexOf(desc, '/');
    if !(|desc| > 0 && desc[0] == '@') || nameEndIndex == -1 {
      return Err(NotDfuseDescriptor(desc));
    }
    var name := Trim(desc[1..nameEndIndex]);
    var segmentString := desc[nameEndIndex..];
    var segments: seq<Segment> := [];
    ConcatNil(SegmentsFrom(segmentString, 0));
    var p := 0;
    while true
      invariant p <= |segmentString|
      invariant segments + SegmentsFrom(segmentString, p) == SegmentsFrom(segmentString, 0)
      decreases |segmentString| - p
    {
      var contiguousSegmentMatch := FindBlock(segmentString, p);
      SegmentsFromStep(segmentString, p);
      if contiguousSegmentMatch.None? {
        break;
      }
      var block := contiguousSegmentMatch.value;
      ParseAddressCapture(block.digits);
      var startAddress := ParseIntHex("0x" + block.digits).value;
      var blockSegments := ParseContiguousSegments(segmentString[block.at..block.end], startAddress);
      ConcatAssoc(segments, blockSegments, SegmentsFrom(segmentString, block.end));
      segments := segments + blockSegments;
      p := block.end;
    }
    ConcatNil(segments);
    r := Ok(MemoryInfo(name, segments));
  }

  /** The inner loop of parseMemoryDescriptor over the text of one block match:
      each entry becomes a segment at the running address, which then advances
      by the segment's extent. */
  method ParseContiguousSegments(text: string, address: int) returns (segments: seq<Segment>)
    ensures segments == Layout(address, Entries(text, 0))
  {
    segments := [];
    ConcatNil(Layout(address, Entries(text, 0)));
    var startAddress := address;
    var q := 0;
    while true
      invariant q <= |text|
      invariant segments + Layout(startAddress, Entries(text, q)) == Layout(address, Entries(text, 0))
      decreases |text| - q
    {
      var segmentMatch := FindEntry(text, q);
      if segmentMatch.None? {
        EntriesStep(text, q);
        break;
      }
      // The segment object the loop body builds from the captured fields.
      var segment := MakeSegment(startAddress, segmentMatch.value.spec);
      LayoutEntriesStep(text, q, startAddress);
      ghost var restEntries := Entries(text, segmentMatch.value.end);
      ConcatAssoc(segments, [segment], Layout(segment.end, restEntries));
      segments := segments + [segment];
      startAddress := segment.end;
      q := segmentMatch.value.end;
      assert startAddress == segment.end && Entries(text, q) == restEntries;
    }
    ConcatNil(segments);
  }

  // ---------------------------------------------------------------------------
  // Well-formed segments

  /** What every parsed segment satisfies: a non-negative sector size, and an
      extent that is a whole number of sectors (none at all when the size is 0). */
  predicate SegmentWf(seg: Segment) {
    && 0 <= seg.sectorSize
    && seg.start <= seg.end
    && (seg.sectorSize == 0 ==> seg.start == seg.end)
    && (seg.sectorSize > 0 ==> (seg.end - seg.start) % seg.sectorSize == 0)
  }

  predicate AllWf(segs: seq<Segment>) {
    forall k :: 0 <= k < |segs| ==> SegmentWf(segs[k])
  }

  /** An entry describes a whole number of sectors. */
  lemma MakeSegmentWf(addr: int, spec: SectorSpec)
    requires ValidSpec(spec)
    ensures SegmentWf(MakeSegment(addr, spec))
  {
    var size, count := SectorSize(spec), spec.count;
    var seg := MakeSegment(addr, spec);
    assert seg.end - seg.start == size * count;
    Arith.MulNonNegative(size, count);
    if size > 0 {
      Arith.MultipleMod(count, size);
      assert size * count == count * size;
    }
  }

  lemma LayoutWf(addr: int, specs: seq<SectorSpec>)
    requires forall k :: 0 <= k < |specs| ==> ValidSpec(specs[k])
    ensures AllWf(Layout(addr, specs))
  {
    LayoutShape(addr, specs);
    var segs := Layout(addr, specs);
    forall k | 0 <= k < |segs| ensures SegmentWf(segs[k]) {
      MakeSegmentWf(segs[k].start, specs[k]);
    }
  }

  /** Every segment of a descriptor is well formed. */
  lemma {:induction false} SegmentsFromWf(s: string, p: nat)
    requires p <= |s|
    ensures AllWf(SegmentsFrom(s, p))
    decreases |s| - p
  {
    match FindBlock(s, p)
    case None =>
    case Some(b) =>
      LayoutWf(HexValue(b.digits), Entries(s[b.at..b.end], 0));
      SegmentsFromWf(s, b.end);
  }

  lemma ParseDescriptorWf(desc: string)
    ensures ParseDescriptor(desc).Ok? ==> AllWf(ParseDescriptor(desc).value.segments)
  {
    if ParseDescriptor(desc).Ok? {
      SegmentsFromWf(desc[IndexOf(desc, '/')..], 0);
    }
  }
}
