/** The WebUSB side of the driver, which the model does not implement: a device
    is an oracle that answers each control transfer, each call of the polling
    helpers and each abort-to-idle, given the whole trace of events so far
    (ending with the event being answered). Every I/O operation of the model
    returns the trace it extends, so the order of the requests on the wire can
    be stated and proved. */
module Transport {
  import opened Wrappers

  type byte = x: int | 0 <= x < 256

  /** The `status` field of a WebUSB transfer result. */
  datatype UsbStatus = StatusOk | Stall | Babble

  /** The result of `controlTransferIn`: its status and the bytes received. */
  datatype InTransfer = InTransfer(status: UsbStatus, data: seq<byte>)

  /** The device status a GETSTATUS request decodes to. */
  datatype DfuStatus = DfuStatus(status: int, pollTimeout: int, state: int)

  /** What an (unmodelled) polling helper waits for: `poll_until(state => state !=
      s)`, `poll_until_idle(s)`, or `poll_until(state => state == s)`. */
  datatype PollGoal = StateIsNot(state: int) | IdleIn(state: int) | StateIs(state: int)

  /** One step on the wire, in the order the driver takes it. The setup packet of
      every control transfer is class-specific and addressed to the interface
      `index`. */
  datatype Event =
    | ControlOut(request: int, value: int, index: int, data: seq<byte>)
    | ControlIn(request: int, value: int, index: int, length: int)
    | PollUntil(goal: PollGoal)
    | AbortToIdle

  /** The device: how it answers the last event of a trace. */
  datatype Usb = Usb(
    outStatus: seq<Event> -> UsbStatus,
    inReply: seq<Event> -> InTransfer,
    poll: seq<Event> -> Result<DfuStatus, string>,
    abort: seq<Event> -> Result<(), string>)

  /** The calls `open` makes on the WebUSB device object. */
  datatype UsbOp =
    | OpenDevice
    | SelectConfiguration(configurationValue: int)
    | ClaimInterface(interfaceNumber: int)
    | SelectAlternateInterface(interfaceNumber: int, alternateSetting: int)

  /** The errors the core throws or lets through, one constructor per message. */
  datatype Failure =
    | TransferFailed(status: UsbStatus)          // a request rejected with the transfer's status
    | GetStatusFailed                            // "DFU GETSTATUS failed"
    | GetStateFailed                             // "DFU GETSTATE failed"
    | RangeError                                 // a DataView or ArrayBuffer access out of range
    | TypeError                                  // a property read on null or undefined
    | ReferenceError                             // a read of an undeclared variable
    | Raised(message: string)                    // whatever an unmodelled helper throws
    | NotDfuseDescriptor(descriptor: string)     // "Not a DfuSe memory descriptor: ..."
    | NoMemoryMapInformation                     // "No memory map information available"
    | NoMemoryMap                                // "No memory map available"
    | OutsideMemoryMap(address: int)             // "Address ... outside of memory map"
    | UnsupportedLength(length: int)             // "Don't know how to handle data of len ..."
    | CommandError(command: int, cause: Failure) // "Error during special DfuSe command ..."
    | DownloadError(cause: Failure)              // "Error during DfuSe download: ..."
    | DownloadStatus(dfuState: int, dfuStatus: int) // "DFU DOWNLOAD failed state=..., status=..."
    | ManifestationError(cause: Failure)         // "Error during DfuSe manifestation: ..."

  /** An I/O step: the trace after it and what it resolved or rejected with. */
  datatype Step<T> = Step(trace: seq<Event>, result: Result<T, Failure>)
}
