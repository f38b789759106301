/** The helpers the two page scripts, the dfu-util page and the mbed download
    page, define word for word: hexadecimal zero-padding (`hex4`, `hexAddr8`),
    the one-line interface summary, and the decode of the DFU functional
    descriptor (section 4.1.3 of the USB Device Class Specification for Device
    Firmware Upgrade 1.1). Each is defined once here. */
module DfuPages {
  import opened Wrappers
  import opened JsText
  import opened Transport
  import Dfu
  import DfuseMemoryMap

  // ---------------------------------------------------------------------------
  // Zero-padded hexadecimal

  function Zeros(count: nat): (z: string)
    ensures |z| == count && forall k :: 0 <= k < count ==> z[k] == '0'
  {
    seq(count, _ => '0')
  }

  /** `s` with zeros put in front until it is `width` long; a longer `s` is
      left as it is. */
  function PadZeros(s: string, width: nat): (r: string)
    ensures |r| == if |s| >= width then |s| else width
    ensures r[|r| - |s|..] == s
    ensures forall k :: 0 <= k < |r| - |s| ==> r[k] == '0'
    ensures |s| >= width ==> r == s
  {
    if |s| >= width then s else Zeros(width - |s|) + s
  }

  /** One turn of the padding loop leaves the padded result as it was. */
  lemma PadZerosCons(s: string, width: nat)
    requires |s| < width
    ensures PadZeros("0" + s, width) == PadZeros(s, width)
  {
    var r := PadZeros(s, width);
    var r' := PadZeros("0" + s, width);
    assert |r'| == |r|;
    forall k | 0 <= k < |r| ensures r'[k] == r[k] {
      if k >= |r| - |s| {
        assert r'[k] == r'[|r'| - |"0" + s|..][k - (|r'| - |"0" + s|)];
        assert r[k] == r[|r| - |s|..][k - (|r| - |s|)];
      }
    }
  }

  /** `hex4(n)`: the lower-case hexadecimal of `n`, zero-padded to four digits. */
  method Hex4(n: int) returns (s: string)
    ensures s == PadZeros(ToHexString(n), 4)
  {
    s := ToHexString(n);
    ghost var digits := s;
    while |s| < 4
      invariant PadZeros(s, 4) == PadZeros(digits, 4)
      decreases 4 - |s|
    {
      PadZerosCons(s, 4);
      s := "0" + s;
    }
  }

  /** How the page writes an address: `0x`, then eight hex digits or more. */
  function Addr8(n: int): string {
    "0x" + PadZeros(ToHexString(n), 8)
  }

  /** `hexAddr8(n)`: `0x`, then the hexadecimal of `n` zero-padded to eight digits. */
  method HexAddr8(n: int) returns (s: string)
    ensures s == Addr8(n)
  {
    var digits := ToHexString(n);
    ghost var original := digits;
    while |digits| < 8
      invariant PadZeros(digits, 8) == PadZeros(original, 8)
      decreases 8 - |digits|
    {
      PadZerosCons(digits, 8);
      digits := "0" + digits;
    }
    s := "0x" + digits;
  }

  lemma {:induction false} HexValueZeros(count: nat, s: string)
    requires AllHex(s)
    ensures AllHex(Zeros(count) + s) && HexValue(Zeros(count) + s) == HexValue(s)
  {
    if count > 0 {
      HexValueZeros(count - 1, s);
      assert Zeros(count) + s == "0" + (Zeros(count - 1) + s);
      HexValueLeadingZero(Zeros(count - 1) + s);
    } else {
      assert Zeros(count) + s == s;
    }
  }

  /** The padded digits of a non-negative number are hexadecimal digits, at
      least one, the second of which is not an `x`, and they denote the number. */
  lemma PaddedDigits(n: nat, width: nat)
    ensures var p := PadZeros(ToHexString(n), width);
            && |p| >= 1 && AllHex(p) && HexValue(p) == n
            && (|p| > 1 ==> p[1] != 'x' && p[1] != 'X')
  {
    var h := HexDigits(n);
    assert ToHexString(n) == h;
    HexDigitsValue(n);
    var p := PadZeros(h, width);
    if |h| < width {
      assert p == Zeros(width - |h|) + h;
      HexValueZeros(width - |h|, h);
      assert p[1] == '0' || p[1] == h[1 - (width - |h|)];
    } else {
      assert p == h;
      assert |p| > 1 ==> IsLowerHexDigit(p[1]);
    }
  }

  /** What `hex4` or `hexAddr8` writes for a non-negative number reads back as
      that number with `parseInt(s, 16)`: an address copied from the memory
      summary into the start-address field is the address shown. */
  lemma PaddedHexReadsBack(n: nat, width: nat)
    ensures ParseIntHex(PadZeros(ToHexString(n), width)) == Some(n)
    ensures ParseIntHex("0x" + PadZeros(ToHexString(n), width)) == Some(n)
  {
    PaddedDigits(n, width);
    DigitsReadBack(PadZeros(ToHexString(n), width));
  }

  /** Hexadecimal digits, with or without `0x` in front, read back as their value. */
  lemma DigitsReadBack(p: string)
    requires |p| >= 1 && AllHex(p) && (|p| > 1 ==> p[1] != 'x' && p[1] != 'X')
    ensures ParseIntHex(p) == Some(HexValue(p) as int)
    ensures ParseIntHex("0x" + p) == Some(HexValue(p) as int)
  {
    assert !IsSpace(p[0]) && p[0..] == p;
    ParseIntHexUnsigned(p, 0);
    DfuseMemoryMap.ParseAddressCapture(p);
  }

  // ---------------------------------------------------------------------------
  // The interface summary

  /** The mode an alternate's protocol names. */
  function ModeName(protocol: int): (mode: string)
    ensures mode == "Runtime" <==> protocol == 0x01
    ensures mode == "DFU" <==> protocol == 0x02
    ensures mode == "Unknown" <==> protocol != 0x01 && protocol != 0x02
  {
    if protocol == 0x01 then "Runtime" else if protocol == 0x02 then "DFU" else "Unknown"
  }

  /** `formatDFUSummary`: the mode, then the details, after `prefix` (the
      dfu-util page has none, the mbed page writes "Found "). */
  function FormatDfuSummary(prefix: string, device: Dfu.UsbDeviceInfo, settings: Dfu.InterfaceSettings): string {
    prefix + (ModeName(settings.alternate.interfaceProtocol) + ": [")
    + Bracketed(PadZeros(ToHexString(device.vendorId), 4), PadZeros(ToHexString(device.productId), 4))
    + SummaryNumbers(device, settings)
  }

  /** The bracket after the mode holds the vendor ID as `hex4` writes it, a
      colon and the product ID likewise, and each reads back with
      `parseInt(…, 16)` when it is not negative. */
  lemma SummaryIds(prefix: string, device: Dfu.UsbDeviceInfo, settings: Dfu.InterfaceSettings)
    ensures var info := FormatDfuSummary(prefix, device, settings);
            var vendor := PadZeros(ToHexString(device.vendorId), 4);
            var product := PadZeros(ToHexString(device.productId), 4);
            && IdsAt(info, prefix, |prefix| + |ModeName(settings.alternate.interfaceProtocol)| + 3, vendor, product)
            && (device.vendorId >= 0 ==> ParseIntHex(vendor) == Some(device.vendorId))
            && (device.productId >= 0 ==> ParseIntHex(product) == Some(device.productId))
  {
    var vendor := PadZeros(ToHexString(device.vendorId), 4);
    var product := PadZeros(ToHexString(device.productId), 4);
    IdReadsBack(device.vendorId);
    IdReadsBack(device.productId);
    SummaryLayout(prefix, ModeName(settings.alternate.interfaceProtocol), vendor, product, SummaryNumbers(device, settings));
  }

  /** A USB ID as `hex4` writes it reads back, when it is not negative. */
  lemma IdReadsBack(n: int)
    ensures n >= 0 ==> ParseIntHex(PadZeros(ToHexString(n), 4)) == Some(n)
  {
    if n >= 0 {
      PaddedHexReadsBack(n, 4);
    }
  }

  /** The vendor and product IDs, a colon between them, and the closing bracket. */
  function Bracketed(vendor: string, product: string): (b: string)
    ensures |b| == |vendor| + |product| + 2
    ensures b[..|vendor|] == vendor && b[|vendor|] == ':'
    ensures b[|vendor| + 1..|vendor| + 1 + |product|] == product && b[|vendor| + 1 + |product|] == ']'
  {
    var b := vendor + ":" + product + "]";
    assert b[..|vendor|] == vendor;
    assert b[|vendor| + 1..|vendor| + 1 + |product|] == product;
    b
  }

  /** `info` starts with `prefix`, and from `at` on it holds `vendor`, a
      colon, `product` and a closing bracket, the opening bracket just before. */
  predicate IdsAt(info: string, prefix: string, at: int, vendor: string, product: string) {
    && |prefix| < at && at + |vendor| + |product| + 2 <= |info|
    && info[..|prefix|] == prefix
    && info[at - 1] == '[' && info[at + |vendor|] == ':' && info[at + |vendor| + 1 + |product|] == ']'
    && info[at..at + |vendor|] == vendor
    && info[at + |vendor| + 1..at + |vendor| + 1 + |product|] == product
  }

  lemma SummaryLayout(prefix: string, mode: string, vendor: string, product: string, tail: string)
    ensures IdsAt(prefix + (mode + ": [") + Bracketed(vendor, product) + tail, prefix, |prefix| + |mode| + 3, vendor, product)
  {
    var head := prefix + (mode + ": [");
    var ids := Bracketed(vendor, product);
    var info := head + ids + tail;
    assert info[..|head|] == head;
    assert info[..|prefix|] == head[..|prefix|];
    assert info[|head|..|head| + |ids|] == ids;
    assert info[|head| + |vendor|] == ids[|vendor|];
    assert info[|head| + |vendor| + 1 + |product|] == ids[|vendor| + 1 + |product|];
    assert info[|head|..|head| + |vendor|] == ids[..|vendor|];
    assert info[|head| + |vendor| + 1..|head| + |vendor| + 1 + |product|] == ids[|vendor| + 1..|vendor| + 1 + |product|];
  }

  /** The configuration, interface and alternate numbers, the product name and
      the serial number. */
  function SummaryNumbers(device: Dfu.UsbDeviceInfo, settings: Dfu.InterfaceSettings): string {
    " cfg=" + ToDecimalString(settings.configuration.configurationValue)
    + ", intf=" + ToDecimalString(settings.intf.interfaceNumber)
    + ", alt=" + ToDecimalString(settings.alternate.alternateSetting)
    + ", name=\"" + device.productName + "\" serial=\"" + device.serialNumber + "\""
  }

  predicate StartsWith(s: string, p: string) {
    |p| <= |s| && s[..|p|] == p
  }

  /** The word after the prefix tells the protocol: "Runtime: [" exactly for
      protocol 1, "DFU: [" exactly for protocol 2, "Unknown: [" otherwise. */
  lemma SummaryMode(prefix: string, device: Dfu.UsbDeviceInfo, settings: Dfu.InterfaceSettings)
    ensures var info := FormatDfuSummary(prefix, device, settings);
            var protocol := settings.alternate.interfaceProtocol;
            && StartsWith(info, prefix)
            && (StartsWith(info[|prefix|..], "Runtime: [") <==> protocol == 0x01)
            && (StartsWith(info[|prefix|..], "DFU: [") <==> protocol == 0x02)
            && (StartsWith(info[|prefix|..], "Unknown: [") <==> protocol != 0x01 && protocol != 0x02)
  {
    var info := FormatDfuSummary(prefix, device, settings);
    var mode := ModeName(settings.alternate.interfaceProtocol);
    var ids := Bracketed(PadZeros(ToHexString(device.vendorId), 4), PadZeros(ToHexString(device.productId), 4));
    HeadWords(prefix, mode + ": [", ids, SummaryNumbers(device, settings));
    ModeWord(mode, info[|prefix|..]);
  }

  /** A text made of a prefix, a word and the rest starts with both. */
  lemma HeadWords(prefix: string, word: string, mid: string, tail: string)
    ensures var info := prefix + word + mid + tail;
            StartsWith(info, prefix) && StartsWith(info[|prefix|..], word)
  {
    var info := prefix + word + mid + tail;
    assert info[..|prefix|] == prefix;
    assert info[|prefix|..][..|word|] == word;
  }

  lemma ModeWord(mode: string, rest: string)
    requires mode == "Runtime" || mode == "DFU" || mode == "Unknown"
    requires StartsWith(rest, mode + ": [")
    ensures && (StartsWith(rest, "Runtime: [") <==> mode == "Runtime")
            && (StartsWith(rest, "DFU: [") <==> mode == "DFU")
            && (StartsWith(rest, "Unknown: [") <==> mode == "Unknown")
  {
    var word := mode + ": [";
    assert rest[..|word|] == word;
    assert rest[0] == mode[0];
    if |rest| >= 10 {
      assert rest[..10][0] == rest[0];
    }
    assert |rest| >= 6 ==> rest[..6][0] == rest[0];
  }

  // ---------------------------------------------------------------------------
  // The DFU functional descriptor

  /** The fields `parseConfigurationDescriptor` gives a DFU functional descriptor. */
  datatype FunctionalDescriptor = FunctionalDescriptor(
    bmAttributes: bv8,
    wDetachTimeOut: int,
    wTransferSize: int,
    bcdDFUVersion: int)

  /** One parsed descriptor: its type, and the functional-descriptor fields
      when the parser produced them (`hasOwnProperty("bcdDFUVersion")`). */
  datatype Descriptor = Descriptor(bDescriptorType: int, functional: Option<FunctionalDescriptor>)

  datatype ConfigurationDescriptor = ConfigurationDescriptor(bConfigurationValue: int, descriptors: seq<Descriptor>)

  /** The properties object `getDFUDescriptorProperties` resolves with. */
  datatype DfuProperties = DfuProperties(
    willDetach: bool,
    manifestationTolerant: bool,
    canUpload: bool,
    canDnload: bool,
    transferSize: int,
    detachTimeOut: int,
    dfuVersion: int)

  /** What the promise resolves with: the properties, the empty object `{}`,
      or `undefined` (the error handler returns nothing). */
  datatype DescriptorProperties = Found(properties: DfuProperties) | EmptyObject | Undefined

  predicate IsFunctional(d: Descriptor) {
    d.bDescriptorType == 0x21 && d.functional.Some?
  }

  /** `(bm & mask) != 0`. */
  function HasBit(bm: bv8, mask: bv8): bool {
    bm & mask != 0
  }

  function DecodeAttributes(fd: FunctionalDescriptor): DfuProperties {
    DfuProperties(
      HasBit(fd.bmAttributes, 0x08), HasBit(fd.bmAttributes, 0x04),
      HasBit(fd.bmAttributes, 0x02), HasBit(fd.bmAttributes, 0x01),
      fd.wTransferSize, fd.wDetachTimeOut, fd.bcdDFUVersion)
  }

  /** The attribute byte as section 4.1.3 lays it out: bitWillDetach is bit 3,
      bitManifestationTolerant bit 2, bitCanUpload bit 1, bitCanDnload bit 0. */
  function EncodeAttributes(p: DfuProperties): (bm: bv8)
    ensures bm & 0xF0 == 0
  {
    (if p.willDetach then 0x08 else 0) | (if p.manifestationTolerant then 0x04 else 0)
    | (if p.canUpload then 0x02 else 0) | (if p.canDnload then 0x01 else 0)
  }

  /** The decode reads each capability from its own bit, and copies the other
      fields. */
  lemma DecodeEncode(p: DfuProperties)
    ensures var fd := FunctionalDescriptor(EncodeAttributes(p), p.detachTimeOut, p.transferSize, p.dfuVersion);
            DecodeAttributes(fd) == p
  {
  }

  /** The decode keeps the low four bits of the attribute byte and ignores the
      reserved high bits. */
  lemma EncodeDecode(fd: FunctionalDescriptor)
    ensures EncodeAttributes(DecodeAttributes(fd)) == fd.bmAttributes & 0x0F
  {

  }

  /** The index of the first DFU functional descriptor, `|descs|` when there is none. */
  function FirstFunctional(descs: seq<Descriptor>): (k: nat)
    ensures k <= |descs|
    ensures forall j :: 0 <= j < k ==> !IsFunctional(descs[j])
    ensures k < |descs| ==> IsFunctional(descs[k])
  {
    if descs == [] then 0
    else if IsFunctional(descs[0]) then 0
    else 1 + FirstFunctional(descs[1..])
  }

  /** `getDFUDescriptorProperties` once configuration descriptor 0 has been read
      and parsed (`read` is None when the read rejects): the first functional
      descriptor is decoded, provided the descriptor is that of the selected
      configuration. */
  method GetDfuDescriptorProperties(read: Option<ConfigurationDescriptor>, settings: Dfu.InterfaceSettings)
    returns (r: DescriptorProperties)
    ensures read.None? ==> r == Undefined
    ensures read.Some? ==> r != Undefined
    ensures read.Some? && read.value.bConfigurationValue != settings.configuration.configurationValue ==>
              r == EmptyObject
    ensures read.Some? && read.value.bConfigurationValue == settings.configuration.configurationValue ==>
              var descs := read.value.descriptors; var k := FirstFunctional(descs);
              && (r == EmptyObject <==> forall j :: 0 <= j < |descs| ==> !IsFunctional(descs[j]))
              && (k < |descs| ==> r == Found(DecodeAttributes(descs[k].functional.value)))
  {
    if read.None? {
      return Undefined;
    }
    var configDesc := read.value;
    var funcDesc: Option<FunctionalDescriptor> := None;
    var configValue := settings.configuration.configurationValue;
    if configDesc.bConfigurationValue == configValue {
      var descs := configDesc.descriptors;
      var i := 0;
      while i < |descs|
        invariant 0 <= i <= |descs|
        invariant forall j :: 0 <= j < i ==> !IsFunctional(descs[j])
        invariant funcDesc.None?
      {
        if descs[i].bDescriptorType == 0x21 && descs[i].functional.Some? {
          assert FirstFunctional(descs) == i;
          funcDesc := descs[i].functional;
          break;
        }
        i := i + 1;
      }
    }
    if funcDesc.Some? {
      r := Found(DecodeAttributes(funcDesc.value));
    } else {
      r := EmptyObject;
    }
  }
}
