# webdfu: a verified model of the DFU and DfuSe drivers

This project models the driver core of webdfu in Dafny. webdfu is a browser implementation of USB Device
Firmware Upgrade (DFU 1.1) over WebUSB, with ST's DfuSe extension. It covers:

- **the base driver** (`dfu-util/dfu.js`): the search for DFU interfaces in a device's descriptor tree,
  the `open` sequence, the class-specific control requests with the decoding of
  their replies, and the generic upload loop;
- **the DfuSe driver** (`dfuse.js`):
  - the memory map parsed from an alternate setting's interface string (`@Name/0xADDR/count*size<unit><flag>,...`);
  - the segment and sector lookups;
  - the special commands carried in DNLOAD block 0;
  - `erase`, `do_download` and `do_upload`;
- **the logic of the two pages** (`dfu-util/dfu-util.js`, `mbed-download/mbed-download.js`) that is not
  page wiring:
  - hexadecimal padding;
  - the interface summary;
  - the decoding of the DFU functional descriptor;
  - the choice of the DfuSe driver;
  - the memory-map summary;
  - the start-address field's handler;
  - the vendor ID read from the query string.

USB is not simulated. A `Transport.Usb` value is an oracle: total functions from the trace of requests sent so
far to the device's answer. Every I/O operation returns a `Step` (the trace it extends, and a result or a
`Failure`), so what may be sent and in what order is stated exactly. `DfuseTransfer.Target` models how a DfuSe
device takes those requests (its address pointer and its memory). That model states what a download leaves in
the device's memory.

Layout:

| file | module | what it models |
|---|---|---|
| wrappers.dfy, transport.dfy | `Wrappers`, `Transport` | Option and Result, bytes, the USB oracle, events, failures |
| js_text.dfy | `JsText` | the parts of JavaScript's string and number library the core uses |
| arith.dfy | `Arith` | division facts the sector arithmetic needs |
| dfu.dfy | `Dfu` | `dfu-util/dfu.js` |
| memory_map.dfy | `DfuseMemoryMap` | `parseMemoryDescriptor` |
| lookup.dfy | `DfuseLookup` | segment, sector, read-size and erase arithmetic, as specification functions |
| dfuse_commands.dfy | `DfuseCommands` | `dfuseCommand` and the erase commands |
| dfuse_transfer.dfy | `DfuseTransfer` | `do_download` and `do_upload` as functions, and the device side of a download |
| dfuse.dfy | `Dfuse` | the `dfuse.Device` class, whose methods are proved against the functions above |
| dfu_pages.dfy | `DfuPages` | the helpers both pages share |
| dfu_util_page.dfy | `DfuUtilPage` | the dfu-util page's driver choice, memory summary and start-address field |
| mbed_download_page.dfy | `MbedDownloadPage` | the mbed page's `getVidFromQueryString` |

## Model

| member | source | states |
|---|---|---|
| Dfu.ConfigurationMatchesMembers | dfu-util/dfu.js:20-40 | the settings found are exactly the DFU alternates of the given configurations |
| Dfu.FindDeviceDfuInterfaces | dfu-util/dfu.js:20-40 | the result lists the DFU alternates in configuration, interface, alternate order. A setting is in it exactly when it names an alternate of class 0xFE, subclass 1, protocol 1 or 2, sitting in the interface and configuration it names |
| Dfu.OpenSteps | dfu-util/dfu.js:57-84 | `open` opens the device first; it selects the configuration iff the current one differs; it claims the interface iff it is unclaimed or the configuration changes (a new configuration releases every claim); it selects the alternate iff it differs from the current one, or from the default alternate 0 after a new configuration; the calls lead to the target state |
| Dfu.OpenIsIdempotent | dfu-util/dfu.js:57-84 | after a successful `open`, a second one only opens the device |
| Dfu.RunOpsSpec | dfu-util/dfu.js:57-84 | a chain of calls issues a prefix of them; it succeeds iff every call is accepted; on failure it rejects with the refusal of the last call issued, in the state the calls before it reached |
| Dfu.OpenReachesTarget | dfu-util/dfu.js:57-84 | against a device that refuses nothing, `open` succeeds bound to the configuration, interface and alternate of its settings |
| Dfu.OpenChainRunsPlan | dfu-util/dfu.js:57-84 | the promise chain of `open`, step by step, is the run of the planned calls |
| Dfu.Device.Open | dfu-util/dfu.js:57-84 | each step reads the WebUSB handle as the step before left it; the method updates the handle as WebUSB does (a new configuration drops the claim and resets the alternate to 0) and returns exactly what the run of the planned calls gives |
| Dfu.RequestOut | dfu-util/dfu.js:132-148 | one class OUT transfer to the interface; resolves iff the status is "ok", otherwise rejects with the status |
| Dfu.RequestIn | dfu-util/dfu.js:150-166 | one class IN transfer; resolves with the received data iff the status is "ok", otherwise rejects with the status |
| Dfu.Detach | dfu-util/dfu.js:168-170 | DETACH (0) with wValue 1000 and no data |
| Dfu.Download | dfu-util/dfu.js:172-174 | DNLOAD (1) of the data with the block number as wValue |
| Dfu.Upload | dfu-util/dfu.js:178-180 | UPLOAD (2) of the length with the block number as wValue |
| Dfu.ClearStatus | dfu-util/dfu.js:182-184 | CLRSTATUS (4) with no data |
| Dfu.Abort | dfu-util/dfu.js:208-210 | ABORT (6) with no data |
| Dfu.DecodeStatus | dfu-util/dfu.js:189-195 | a reply of five bytes or more decodes to bStatus, the 24-bit little-endian poll timeout and bState; a shorter one is a RangeError |
| Dfu.DecodeEncodeStatus | dfu-util/dfu.js:191-195 | decoding inverts a device's six-byte status: the timeout survives the 32-bit read and the 0xFFFFFF mask |
| Dfu.GetStatus | dfu-util/dfu.js:188-199 | GETSTATUS of 6 bytes; a rejected transfer becomes "DFU GETSTATUS failed", an accepted one is decoded |
| Dfu.DecodeState | dfu-util/dfu.js:201-206 | the state is the first byte of the reply, a RangeError when the reply is empty |
| Dfu.GetState | dfu-util/dfu.js:201-206 | GETSTATE of 1 byte; a rejected transfer becomes "DFU GETSTATE failed" |
| Dfu.DoUpload | dfu-util/dfu.js:212-230 | as written: the loop asks for blocks 0, 0, 1, 2, ...; it keeps every reply's bytes; it ends with the concatenated image after the first short reply, or with the error of the first rejected transfer |
| Dfu.DoUploadFrom | dfu-util/dfu.js:212-230 | the same loop with request k carrying block `first + k`: the corrected loop, which Dfuse.Device.DoUploadIntended runs from block 2 |
| Dfu.FullBlocksLength | dfu-util/dfu.js:218-226 | full blocks hold a whole number of transfers |
| Dfu.UploadImageLength | dfu-util/dfu.js:218-226 | a completed image is n-1 full transfers plus a remainder below the transfer size, when no reply is longer than asked |
| DfuseMemoryMap.Multiplier | dfuse.js:35-40 | ' ' and 'B' are 1, 'K' 1024, 'M' 1048576 |
| DfuseMemoryMap.FlagBits | dfuse.js:52-58 | the letters a..g are the properties 1..7: readable is bit 0 (a c e g), erasable bit 1 (b c f g), writable bit 2 (d e f g) |
| DfuseMemoryMap.EntryAt | dfuse.js:45 | a match of the entry expression at an index ends after it and captures a valid unit and flag |
| DfuseMemoryMap.FindEntry | dfuse.js:48 | an entry `exec` finds lies at or after `lastIndex`, inside the text, with a valid unit and flag |
| DfuseMemoryMap.BlockAt | dfuse.js:42 | a block match captures one to eight hexadecimal digits of address |
| DfuseMemoryMap.FindBlock | dfuse.js:44 | a block `exec` finds lies at or after `lastIndex` and captures one to eight hexadecimal digits |
| DfuseMemoryMap.ParseAddressCapture | dfuse.js:46 | `parseInt` of the capture "0x" + digits, base 16, is the value of the digits |
| DfuseMemoryMap.LayoutShape | dfuse.js:53-61 | the segments of a block are laid end to end from its address: one per entry, each as its entry describes, the last ending the total extent after the address |
| DfuseMemoryMap.LayoutEntriesStep | dfuse.js:48-61 | one turn of the inner loop makes the entry found into the next segment at the running address |
| DfuseMemoryMap.SegmentsFromStep | dfuse.js:44-63 | the outer loop lays out each block found at its parsed address and continues after the match |
| DfuseMemoryMap.ParseDescriptor | dfuse.js:24-66 | iff the descriptor does not start with '@' or has no '/', the result is "Not a DfuSe memory descriptor"; otherwise the name is the trimmed text between '@' and the first '/', and the segments are those of the blocks after it |
| DfuseMemoryMap.ParseMemoryDescriptor | dfuse.js:24-66 | the method with its two nested `exec` loops computes `ParseDescriptor` |
| DfuseMemoryMap.ParseContiguousSegments | dfuse.js:45-62 | the inner loop advances the running address by each segment's extent, giving the layout of the block's entries |
| DfuseMemoryMap.ParseDescriptorWf | dfuse.js:49-61 | every parsed segment has a non-negative sector size and spans a whole number of sectors |
| JsText.Trim | dfuse.js:30 | `trim` drops exactly the white space at both ends |
| JsText.IndexOf | dfuse.js:25 | `indexOf` is the first position of the character, -1 iff it is absent |
| JsText.ToHexStringShape | dfu-util/dfu-util.js:6 | `toString(16)` writes a minus sign exactly for a negative number, then lower-case digits with no leading zero unless the number is 0 |
| JsText.ParseIntHexCases | dfu-util/dfu-util.js:363 | `parseInt(s, 16)`: empty or blank text, or text whose first character is not a sign or a digit, is NaN; a negative result had a minus sign; digits without a `0x` prefix are read to the first character that is not one |
| JsText.ParseIntHexOfToHexString | dfu-util/dfu-util.js:363 | `parseInt(n.toString(16), 16)` is `n` for every integer, negative ones included |
| DfuseCommands.Le32 | dfuse.js:86 | `setUint32(1, param, true)` stores the four little-endian bytes of the parameter modulo 2^32 |
| DfuseCommands.CommandPayload | dfuse.js:69-89 | with neither argument the payload is [command, 0]; length 1 and 4 give 2 and 5 bytes; a missing or negative length is a RangeError; any other length is "Don't know how to handle data of len" |
| DfuseCommands.DfuseCommand | dfuse.js:68-101 | the payload goes out as DNLOAD of block 0; a rejected transfer is reported with the command; then the device is polled until it leaves dfuDNBUSY; a non-OK status throws a ReferenceError, because the message names an undeclared variable |
| DfuseCommands.AddressCommandSucceeds | dfuse.js:83-100 | a 4-byte command that succeeds sends exactly its DNLOAD and its wait; a failing one fails with a transfer, poll or status error |
| DfuseCommands.EraseSectors | dfuse.js:209 | an erase that succeeds sends exactly the sectors' ERASE_SECTOR commands, in order; a failure is one of an ERASE_SECTOR command's failures |
| DfuseCommands.EraseSucceeds | dfuse.js:184-214 | an erase that succeeds found both ends in the map and sent one command per sector of the walk, in order |
| DfuseCommands.EraseTurn | dfuse.js:196-205 | a turn of the erase loop works in a segment holding the address; a gap ends the walk; a segment that is not erasable is skipped to its end |
| DfuseLookup.SegmentAtIsFirst | dfuse.js:108-112 | the lookup returns the first segment holding the address |
| DfuseLookup.SegmentAtNone | dfuse.js:108-114 | the lookup finds nothing iff no segment holds the address |
| DfuseLookup.SegmentAtDisjoint | dfuse.js:108-112 | in a disjoint map the lookup returns the segment holding the address |
| DfuseLookup.FirstWritableIsFirst | dfuse.js:148-154 | the result is the first writable segment, none iff there is no writable segment |
| DfuseLookup.SectorBounds | dfuse.js:126-127 | the sector around an address holds it, is one sector long and starts a whole number of sectors into the segment |
| DfuseLookup.SectorWithinSegment | dfuse.js:126-140 | in a parsed segment, the sector around an address it holds lies inside the segment |
| DfuseLookup.MaxReadUnmapped | dfuse.js:157-182 | an address in no segment gives a read size of 0 |
| DfuseLookup.MaxReadUnreadable | dfuse.js:166-170 | when the segment the lookup finds is not readable, the read size is 0 |
| DfuseLookup.MaxReadSound | dfuse.js:157-182 | in a disjoint map every byte of the allowed read lies in a readable segment |
| DfuseLookup.MaxReadCoversRun | dfuse.js:163-178 | in a disjoint map without empty segments, a read that starts in a readable segment runs at least to the end of the readable segments laid end to end after it, and stops exactly there when the next segment abuts the run and is not readable |
| DfuseLookup.MaxReadCoversSegment | dfuse.js:163-168 | in a disjoint map without empty segments, a read may run at least to the end of the readable segment it starts in |
| DfuseLookup.MaxReadEmptyLeader | dfuse.js:171-177 | an empty unreadable segment at the start address ("0*1Kb") makes the read size 0 even though the address is readable |
| DfuseLookup.EraseWalkSound | dfuse.js:195-213 | every sector the loop erases starts a sector of an erasable segment and lies below the end address |
| DfuseLookup.EraseWalkOrdered | dfuse.js:195-213 | in a disjoint map the erased sectors strictly increase and are not below the start |
| DfuseLookup.EraseWalkComplete | dfuse.js:195-213 | in a disjoint map with no gap, every sector of an erasable segment the range touches is erased |
| DfuseLookup.EraseRangeSpec | dfuse.js:184-214 | `erase` fails before sending anything iff the start or the last byte is outside the map; otherwise the plan is sound, ordered and complete over the sector-aligned range |
| DfuseTransfer.DownloadSpec | dfuse.js:216-232 | no map is "No memory map available" before anything is sent; a start that cannot be resolved is its error, also before anything is sent; a download that succeeds had a map and a start |
| DfuseTransfer.StartOf | dfuse.js:226-232 | the start address when set (an error without a map), otherwise the first segment's start; no map or no segments is a TypeError |
| DfuseTransfer.ChunkStep | dfuse.js:239-260 | an accepted chunk is SET_ADDRESS, DNLOAD of block 2 of the next min(left, xferSize) bytes, and a wait for dfuDNLOAD_IDLE; failures are download errors or the state and status |
| DfuseTransfer.ProgramChunks | dfuse.js:237-263 | the chunk loop fails only with a rejected transfer or a bad state or status after a chunk |
| DfuseTransfer.ProgramChunksTrace | dfuse.js:237-263 | when every chunk is accepted the events are the chunks of the image, in order at increasing addresses |
| DfuseTransfer.ProgramChunksNext | dfuse.js:250-260 | one accepted chunk moves the loop on from the next count and address |
| DfuseTransfer.ProgramChunksStop | dfuse.js:251-257 | a rejected chunk ends the loop with its error |
| DfuseTransfer.Manifest | dfuse.js:266-278 | SET_ADDRESS back to the start, an empty DNLOAD of block 0, then a wait for dfuMANIFEST whose failure is only logged |
| DfuseTransfer.DownloadTrace | dfuse.js:216-279 | a successful download sends the erase commands of the plan, the chunks and the manifestation, in that order |
| DfuseTransfer.WriteContents | dfuse.js:245-247 | a write reads back byte for byte and changes nothing outside its run |
| DfuseTransfer.ChunksTarget | dfuse.js:237-263 | a DfuSe device that takes the chunk events holds the rest of the image at consecutive addresses |
| DfuseTransfer.EraseTarget | dfuse.js:209 | erase commands leave the pointer and memory of the device model unchanged; the model does not record erasure |
| DfuseTransfer.ManifestTarget | dfuse.js:268-269 | manifestation writes nothing |
| DfuseTransfer.DownloadEventsTarget | dfuse.js:233-269 | a device that takes the events of a download holds the image at the start address |
| DfuseTransfer.DownloadWritesImage | dfuse.js:216-279 | after a successful download the device holds the image written at the start address, when the image fits below 2^32; that nothing else changed holds in the device model, which ignores erasure |
| DfuseTransfer.AbortToIdleStep | dfuse.js:293 | one abort-to-idle event, whose failure passes through |
| DfuseTransfer.UploadSetup | dfuse.js:281-296 | resolve the start, read the state, abort to idle unless already idle, SET_ADDRESS, abort to idle |
| DfuseTransfer.UploadSetupPointer | dfuse.js:291-296 | after the setup the device's pointer is at the start address (mod 2^32) and its memory is untouched |
| DfuseTransfer.UploadAsWrittenSkips | dfuse.js:298-300 | after the setup, with the base loop's block numbers, the first three requests read no memory and request k reads k-3 transfers past the start address |
| DfuseTransfer.UploadReadsFromStart | dfuse.js:298-300 | with blocks counted up from 2, request k reads k transfers past the start address |
| Dfuse.FindSegment | dfuse.js:108-114 | the loop returns the first segment holding the address |
| Dfuse.Device.Create | dfuse.js:12-19 | the map is parsed from a non-empty interface name, whose parse error is thrown; the start address is unset; the map satisfies the device invariant |
| Dfuse.Device.GetSegment | dfuse.js:103-115 | "No memory map information available" without a map, otherwise the first segment holding the address |
| Dfuse.Device.GetFirstWritableSegment | dfuse.js:143-155 | the same error without a map, otherwise the first writable segment |
| Dfuse.Device.GetMaxReadSize | dfuse.js:157-182 | the same error without a map, otherwise the read size the specification function gives |
| Dfuse.Device.Resolve | dfuse.js:118-124 | the segment a sector function uses: the one given, "outside of memory map" for null, otherwise the lookup's, which holds the address |
| Dfuse.Device.GetSectorStart | dfuse.js:117-128 | the sector boundary at or below the address, less than a sector below it, aligned to the segment |
| Dfuse.Device.GetSectorEnd | dfuse.js:130-141 | the next sector boundary above the address, inside a looked-up segment |
| Dfuse.Device.SectorSpan | dfuse.js:117-141 | the two functions fail together and bracket exactly one sector |
| Dfuse.Device.Erase | dfuse.js:184-214 | the method sends what the erase specification gives, including its lookup errors |
| Dfuse.Device.EraseFrom | dfuse.js:195-213 | the loop carries out the erase walk; a gap ends it with a TypeError |
| Dfuse.Device.DoDownload | dfuse.js:216-279 | the method is the download specification: no map is "No memory map available", then start, erase, chunks and manifestation |
| Dfuse.Device.WriteChunks | dfuse.js:237-263 | the chunk loop computes `ProgramChunks` |
| Dfuse.Device.WriteChunk | dfuse.js:239-260 | one pass computes `ChunkStep` |
| Dfuse.Device.Manifestation | dfuse.js:266-278 | computes `Manifest` |
| Dfuse.Device.UploadStart | dfuse.js:281-296 | the method computes the setup function: start resolved, abort to idle unless idle, SET_ADDRESS, abort to idle |
| Dfuse.Device.DoUpload | dfuse.js:281-301 | as written: the setup, then the base loop with blocks 0, 0, 1, 2, ...; a failing setup returns its error with no upload; a rejected reply ends it with that reply's status; it completes on the first short reply; the first three requests read no memory and request k reads k-3 transfers past the start |
| Dfuse.Device.DoUploadIntended | dfuse.js:281-301 | as intended: the same setup and loop with blocks counted from 2, so request k reads k transfers past the start |
| DfuPages.PadZeros | dfu-util/dfu-util.js:7-9 | padding keeps the text as its suffix and prefixes only zeros, to the width or not at all |
| DfuPages.Hex4 | dfu-util/dfu-util.js:5-11 | the loop pads `toString(16)` with zeros to four characters (the mbed page's `hex4` is the same code) |
| DfuPages.HexAddr8 | dfu-util/dfu-util.js:13-19 | "0x" and `toString(16)` padded to eight characters |
| DfuPages.PaddedHexReadsBack | dfu-util/dfu-util.js:5-19 | `parseInt(…, 16)` of the padded text, with or without "0x", is the number again |
| DfuPages.ModeName | dfu-util/dfu-util.js:41-46 | "Runtime" iff protocol 1, "DFU" iff protocol 2, otherwise "Unknown" |
| DfuPages.SummaryIds | dfu-util/dfu-util.js:36-54 | the summary starts with the prefix; after the mode's "[" come the vendor ID as `hex4` writes it, a colon, the product ID and "]"; each ID reads back with `parseInt(…, 16)` when it is not negative |
| DfuPages.SummaryMode | dfu-util/dfu-util.js:36-54 | the summary starts with the page's prefix, followed by "Runtime: [", "DFU: [" or "Unknown: [" exactly as the protocol says; the mbed page uses the prefix "Found " |
| DfuPages.DecodeEncode | dfu-util/dfu-util.js:95-104 | each of the four flags is decoded from its own bit of bmAttributes (0x08, 0x04, 0x02, 0x01), so decoding an encoding gives the properties back (the mbed page decodes the same way) |
| DfuPages.EncodeDecode | dfu-util/dfu-util.js:95-104 | decoding then encoding keeps exactly the low four bits of bmAttributes |
| DfuPages.FirstFunctional | dfu-util/dfu-util.js:87-92 | the first descriptor of type 0x21 with the DFU fields |
| DfuPages.GetDfuDescriptorProperties | dfu-util/dfu-util.js:78-111 | a failed read gives undefined; a configuration mismatch or no functional descriptor gives `{}`; otherwise the decoded first functional descriptor (the mbed page's copy is the same code) |
| DfuUtilPage.SelectDriver | dfu-util/dfu-util.js:263-264 | the DfuSe driver replaces the plain one iff the descriptor was found with version 0x011a in DFU mode; its map is parsed from the interface name and its start address is unset |
| DfuUtilPage.TotalSizeOfLayout | dfu-util/dfu-util.js:266-269 | the total size of a block's segments is the sum of its entries' extents |
| DfuUtilPage.SumSizes | dfu-util/dfu-util.js:266-269 | the loop sums `end - start` over the segments |
| DfuUtilPage.AccessSummaryShape | dfu-util/dfu-util.js:272-285 | "inaccessible" iff no flag is set; starts with "readable" iff readable; ends with "writable" iff writable |
| DfuUtilPage.PropertySummary | dfu-util/dfu-util.js:272-285 | the pushes, the join and the fallback build the access summary |
| DfuUtilPage.SegmentText | dfu-util/dfu-util.js:287 | the line of one segment: start and last address in eight hexadecimal digits, then the access summary |
| DfuUtilPage.SegmentLineStart | dfu-util/dfu-util.js:287 | the line's first address reads back as the segment's start |
| DfuUtilPage.AppendSegmentLines | dfu-util/dfu-util.js:271-288 | the loop appends the segments' lines in order |
| DfuUtilPage.MemorySummary | dfu-util/dfu-util.js:265-288 | the header names the region and its total size, then one line per segment |
| DfuUtilPage.StartAddressChanged | dfu-util/dfu-util.js:361-377 | text that is not hexadecimal is invalid; without a DfuSe map any number is accepted; inside the map the start address and the upload maximum are set; outside it "Address outside of memory map", nothing set |
| DfuUtilPage.SummaryStartAccepted | dfu-util/dfu-util.js:287 | a segment start as the summary writes it is accepted by the start-address field |
| MbedDownloadPage.CaptureEnd | mbed-download/mbed-download.js:136 | the capture takes one to four digits, greedily |
| MbedDownloadPage.FirstVidMatch | mbed-download/mbed-download.js:136 | `exec` finds the leftmost match |
| MbedDownloadPage.GetVidFromQueryString | mbed-download/mbed-download.js:135-142 | "" iff nothing matches `[&?]vid=0x<hex>`; otherwise the leftmost match's "0x" and one to four digits, cut short only where the digits end |

## Left out

- Progress and log output (`logProgress`, `logDebug`, `logInfo`, `logWarning`, `logError`, `console.log`) is user interface; it is not modelled. Where dfuse.js only logs (a start address outside the map, a failed wait for dfuMANIFEST), the model goes on as the source does.
- Promises, `async`/`await`, timers and the page's event loop are not modelled: each operation runs to completion on the answers the oracle gives.
- `poll_until`, `poll_until_idle` and `abortToIdle` are not defined in the driver files: they are single trace events whose results the oracle gives. The status and state constants `dfu.STATUS_OK`, `dfu.dfuIDLE`, `dfu.dfuDNBUSY`, `dfu.dfuDNLOAD_IDLE` and `dfu.dfuMANIFEST` are not defined there either; they are the `DfuseCommands.Codes` parameter.
- Dfu.RequestOut: a transfer that completes is taken to have written its whole payload (`bytesWritten` is the data's length), so the chunk loop always makes progress.
- Dfuse.Device.DoDownload: requires a positive transfer size. With 0 the source sends empty chunks forever.
- Dfuse.Device.WriteChunks: requires a positive transfer size, for the same reason.
- Dfu.DoUpload: the replies are a finite list, and when it runs out the loop is reported as still waiting.
- Dfu.DoUpload: the UPLOAD requests are given by their block numbers, not added to a trace.
- Dfu.DoUpload: the Blob is the concatenated bytes.
- `do_upload`'s `max_size` argument is ignored by the base loop it is passed to; the model has no such argument.
- DfuseTransfer.DownloadWritesImage: holds only when the image ends below 2^32, because SET_ADDRESS carries a 32-bit address.
- `dfuseCommand` builds its payload in an `ArrayBuffer` through a `DataView`; the model builds the byte sequence directly.
- `dfu.parseConfigurationDescriptor` is not part of the driver files, and `readConfigurationDescriptor` is commented out (dfu-util/dfu.js:91-130), so the call at dfu-util/dfu-util.js:81 throws a TypeError in the code as shipped. DfuPages.GetDfuDescriptorProperties models the function as it would run with a reader: the parsed configuration descriptor is an input, and a failed read is `None`.
- `fixInterfaceNames` reads string descriptors through `readInterfaceNames`, which is not part of the model. It assigns a name only where `intf.name === null` (dfu-util/dfu-util.js:68), but the settings `findDeviceDfuInterfaces` builds have no `name` (dfu-util/dfu.js:27-31), so the name stays undefined and `new dfuse.Device` (dfuse.js:16) parses no memory map in the code as shipped. The model keeps the name as an input (`Dfu.InterfaceSettings.name`, `None` from the search) so that the map parse is reachable.
- Dfu.OpenSteps, Dfu.Device.Open: the handle model keeps the claim and the alternate of the one interface `open` works on. The source looks that interface up as `configuration.interfaces[intfNumber]`, an array index; the model takes it to be the interface numbered `intfNumber`, which holds when the interfaces are numbered 0, 1, ... in order. An index past the end, which throws a TypeError in the source, is not modelled. A configuration just selected is taken to have no claimed interface and alternate 0 current, as WebUSB resets them.
- JavaScript numbers are doubles, exact only for integers below 2^53 in magnitude; the model's integers are unbounded. This matters where the source multiplies or adds addresses and sizes (the sector size and the segment extents at dfuse.js:51, 55 and 61) and where `parseInt` reads a long hexadecimal start address (dfu-util/dfu-util.js:363): results of 2^53 or more would be rounded in the source and are exact in the model.
- The page wiring is not modelled:
  - the DOM fields and buttons;
  - the wiring of the descriptor properties into the transfer-size field, the manifestation flag and the disabled buttons (dfu-util/dfu-util.js:247-261).
- `niceSize` divides floating point numbers; it is a parameter of `DfuUtilPage.MemorySummary`.
- DfuUtilPage.StartAddressChanged: a plain `dfu.Device` (one with no `memoryInfo`) is passed as a null device, which behaves the same way.
- The transport oracle answers a control transfer with a WebUSB status only: "ok", "stall" or "babble" (`Transport.UsbStatus`). A transfer whose promise WebUSB itself rejects, such as a `DOMException` for a disconnected device, is folded into a status other than "ok". `requestOut` and `requestIn` take the same path for it, but in the source the rejected value is the exception and not a status.
- `findAllDfuInterfaces` and `close` call `navigator.usb` directly. They are not modelled.
- mbed-download/mbed-compile-api.js and SimpleSecureHTTPServer.py are not part of this model: they compile and serve firmware.
- JavaScript strings are UTF-16 code units and Dafny strings are Unicode scalar values. Every character the core inspects lies in the Basic Multilingual Plane, where the two agree.

## Findings

| source | as written | input that shows it | evidently intended | confidence | as-written member | corrected member |
|---|---|---|---|---|---|---|
| dfu-util/dfu.js:212-229, dfuse.js:298-300 | The base `do_upload(xfer_size)` takes no first-block argument, so the 2 that the DfuSe `do_upload` passes is dropped. Its loop sends `transaction` and then `transaction++`, so the block numbers are 0, 0, 1, 2, .... A DfuSe device then answers the first three requests with no memory, and the fourth reads the start address. | an upload of at least four full transfers from a DfuSe device: requests 0 to 2 carry blocks 0, 0 and 1 | blocks counted up from the first block the caller gives (2 for DfuSe), so request k reads k transfers past the start address | high (not executed) | Dfu.DoUpload, Dfuse.Device.DoUpload, DfuseTransfer.UploadAsWrittenSkips | Dfu.DoUploadFrom, Dfuse.Device.DoUploadIntended, DfuseTransfer.UploadReadsFromStart |
