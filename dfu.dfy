/** The base USB DFU 1.1 driver (dfu-util/dfu.js): finding DFU interfaces in a
    device's descriptor tree, the idempotent `open` sequence, the class-specific
    control requests and the decoding of their replies, and the generic upload loop. */
module Dfu {
  import opened Wrappers
  import opened Transport
  import Arith

  /** Class-specific request codes (section 3 of the DFU 1.1 specification). */
  const DETACH := 0x00
  const DNLOAD := 0x01
  const UPLOAD := 0x02
  const GETSTATUS := 0x03
  const CLRSTATUS := 0x04
  const GETSTATE := 0x05
  const ABORT := 6

  /** The wValue the driver asks the device to wait before detaching, in milliseconds. */
  const DETACH_TIMEOUT := 1000

  // ---------------------------------------------------------------------------
  // The descriptor tree WebUSB exposes, and the DFU interfaces in it

  datatype Alternate = Alternate(
    alternateSetting: int,
    interfaceClass: int,
    interfaceSubclass: int,
    interfaceProtocol: int)

  datatype Interface = Interface(interfaceNumber: int, alternates: seq<Alternate>)

  datatype Configuration = Configuration(configurationValue: int, interfaces: seq<Interface>)

  datatype UsbDeviceInfo = UsbDeviceInfo(
    vendorId: int,
    productId: int,
    productName: string,
    serialNumber: string,
    configurations: seq<Configuration>)

  /** The settings object of one DFU alternate. `name` is the interface
      string; the search does not set it, and the page's `fixInterfaceNames`
      assigns it only where it is `null`, so on the settings the search builds
      it stays unset (`None`). */
  datatype InterfaceSettings = InterfaceSettings(
    configuration: Configuration,
    intf: Interface,
    alternate: Alternate,
    name: Option<string>)

  /** Application-specific class 0xFE, subclass 0x01 (DFU), protocol 1 (run-time)
      or 2 (DFU mode). */
  predicate IsDfuAlternate(alt: Alternate) {
    alt.interfaceClass == 0xFE && alt.interfaceSubclass == 0x01
    && (alt.interfaceProtocol == 0x01 || alt.interfaceProtocol == 0x02)
  }

  /** `s` names a DFU alternate of `device` that sits in the interface and
      configuration it claims to. */
  predicate IsDfuSettingOf(device: UsbDeviceInfo, s: InterfaceSettings) {
    && s.configuration in device.configurations
    && s.intf in s.configuration.interfaces
    && s.alternate in s.intf.alternates
    && IsDfuAlternate(s.alternate)
    && s.name.None?
  }

  /** The DFU alternates among `alts`, in order. */
  function AlternateMatches(c: Configuration, i: Interface, alts: seq<Alternate>): seq<InterfaceSettings> {
    if alts == [] then []
    else
      var alt := alts[|alts| - 1];
      AlternateMatches(c, i, alts[..|alts| - 1])
      + (if IsDfuAlternate(alt) then [InterfaceSettings(c, i, alt, None)] else [])
  }

  /** The DFU alternates of the interfaces `intfs` of `c`, interface by interface. */
  function InterfaceMatches(c: Configuration, intfs: seq<Interface>): seq<InterfaceSettings> {
    if intfs == [] then []
    else
      var i := intfs[|intfs| - 1];
      InterfaceMatches(c, intfs[..|intfs| - 1]) + AlternateMatches(c, i, i.alternates)
  }

  /** The DFU alternates of the configurations `confs`, configuration by configuration. */
  function ConfigurationMatches(confs: seq<Configuration>): seq<InterfaceSettings> {
    if confs == [] then []
    else
      var c := confs[|confs| - 1];
      ConfigurationMatches(confs[..|confs| - 1]) + InterfaceMatches(c, c.interfaces)
  }

  lemma {:induction false} AlternateMatchesMembers(c: Configuration, i: Interface, alts: seq<Alternate>)
    ensures forall s :: s in AlternateMatches(c, i, alts) <==>
      s.configuration == c && s.intf == i && s.alternate in alts && IsDfuAlternate(s.alternate) && s.name.None?
  {
    if alts != [] {
      var init := alts[..|alts| - 1];
      AlternateMatchesMembers(c, i, init);
      assert alts == init + [alts[|alts| - 1]];
    }
  }

  lemma {:induction false} InterfaceMatchesMembers(c: Configuration, intfs: seq<Interface>)
    ensures forall s :: s in InterfaceMatches(c, intfs) <==>
      s.configuration == c && s.intf in intfs && s.alternate in s.intf.alternates
      && IsDfuAlternate(s.alternate) && s.name.None?
  {
    if intfs != [] {
      var init, i := intfs[..|intfs| - 1], intfs[|intfs| - 1];
      InterfaceMatchesMembers(c, init);
      AlternateMatchesMembers(c, i, i.alternates);
      assert intfs == init + [i];
    }
  }

  lemma {:induction false} ConfigurationMatchesMembers(confs: seq<Configuration>)
    ensures forall s :: s in ConfigurationMatches(confs) <==>
      s.configuration in confs && s.intf in s.configuration.interfaces
      && s.alternate in s.intf.alternates && IsDfuAlternate(s.alternate) && s.name.None?
  {
    if confs != [] {
      var init, c := confs[..|confs| - 1], confs[|confs| - 1];
      ConfigurationMatchesMembers(init);
      InterfaceMatchesMembers(c, c.interfaces);
      assert confs == init + [c];
    }
  }

  /** findDeviceDfuInterfaces: every DFU alternate of the device and nothing
      else, in configuration, interface, alternate order. */
  method FindDeviceDfuInterfaces(device: UsbDeviceInfo) returns (interfaces: seq<InterfaceSettings>)
    ensures interfaces == ConfigurationMatches(device.configurations)
    ensures forall s :: s in interfaces <==> IsDfuSettingOf(device, s)
  {
    interfaces := [];
    var confs := device.configurations;
    for ci := 0 to |confs|
      invariant interfaces == ConfigurationMatches(confs[..ci])
    {
      var conf := confs[ci];
      var intfs := conf.interfaces;
      for ii := 0 to |intfs|
        invariant interfaces == ConfigurationMatches(confs[..ci]) + InterfaceMatches(conf, intfs[..ii])
      {
        var intf := intfs[ii];
        var alts := intf.alternates;
        for ai := 0 to |alts|
          invariant interfaces == ConfigurationMatches(confs[..ci]) + InterfaceMatches(conf, intfs[..ii])
                                  + AlternateMatches(conf, intf, alts[..ai])
        {
          var alt := alts[ai];
          assert alts[..ai + 1][..ai] == alts[..ai];
          if IsDfuAlternate(alt) {
            interfaces := interfaces + [InterfaceSettings(conf, intf, alt, None)];
          }
        }
        assert alts[..|alts|] == alts;
        assert intfs[..ii + 1][..ii] == intfs[..ii];
      }
      assert intfs[..|intfs|] == intfs;
      assert confs[..ci + 1][..ci] == confs[..ci];
    }
    assert confs[..|confs|] == confs;
    ConfigurationMatchesMembers(confs);
  }

  // ---------------------------------------------------------------------------
  // open(): configuration, claim and alternate, each only when needed

  /** The part of the WebUSB device's state that `open` looks at: the active
      configuration's value (null before one is selected), and whether the DFU
      interface of that configuration is claimed and its active alternate
      setting (or null). */
  datatype HandleState = HandleState(configuration: Option<int>, claimed: bool, alternate: Option<int>)

  /** The alternate setting WebUSB gives an interface of a newly selected
      configuration. */
  const DEFAULT_ALTERNATE := 0

  /** What a WebUSB call that succeeds does to that state. Selecting a
      configuration brings in that configuration's interfaces, unclaimed and at
      their default alternate setting. */
  function ApplyOp(st: HandleState, op: UsbOp): HandleState {
    match op
    case OpenDevice => st
    case SelectConfiguration(v) => HandleState(Some(v), false, Some(DEFAULT_ALTERNATE))
    case ClaimInterface(_) => st.(claimed := true)
    case SelectAlternateInterface(_, a) => st.(alternate := Some(a))
  }

  function ApplyOps(st: HandleState, ops: seq<UsbOp>): HandleState
    decreases |ops|
  {
    if ops == [] then st else ApplyOps(ApplyOp(st, ops[0]), ops[1..])
  }

  /** The state an `open` of `settings` is after. */
  function OpenTarget(settings: InterfaceSettings): HandleState {
    HandleState(Some(settings.configuration.configurationValue), true,
                Some(settings.alternate.alternateSetting))
  }

  /** Whether each step of `open` is taken, decided as its code decides it: the
      configuration from the state it starts in, the claim and the alternate
      from the state the steps before them leave, which they read again. */
  predicate NeedsConfiguration(st: HandleState, settings: InterfaceSettings) {
    st.configuration.None? || st.configuration.value != settings.configuration.configurationValue
  }

  predicate NeedsClaim(st: HandleState) {
    !st.claimed
  }

  predicate NeedsAlternate(st: HandleState, settings: InterfaceSettings) {
    st.alternate.None? || st.alternate.value != settings.alternate.alternateSetting
  }

  /** The calls `open` makes from state `st`, when none of them fails. A
      configuration change always brings a claim, and an alternate selection
      unless the target alternate is the default one. */
  function OpenSteps(st: HandleState, settings: InterfaceSettings): (ops: seq<UsbOp>)
    ensures |ops| >= 1 && ops[0] == OpenDevice
    ensures ApplyOps(st, ops) == OpenTarget(settings)
    ensures SelectConfiguration(settings.configuration.configurationValue) in ops
            <==> st.configuration != Some(settings.configuration.configurationValue)
    ensures ClaimInterface(settings.intf.interfaceNumber) in ops
            <==> !st.claimed || st.configuration != Some(settings.configuration.configurationValue)
    ensures SelectAlternateInterface(settings.intf.interfaceNumber, settings.alternate.alternateSetting) in ops
            <==> if st.configuration != Some(settings.configuration.configurationValue)
                 then settings.alternate.alternateSetting != DEFAULT_ALTERNATE
                 else st.alternate != Some(settings.alternate.alternateSetting)
  {
    var confValue := settings.configuration.configurationValue;
    var intfNumber := settings.intf.interfaceNumber;
    var altSetting := settings.alternate.alternateSetting;
    var s1 := if NeedsConfiguration(st, settings) then [SelectConfiguration(confValue)] else [];
    var st1 := ApplyOps(st, s1);
    var s2 := if NeedsClaim(st1) then [ClaimInterface(intfNumber)] else [];
    var st2 := ApplyOps(st1, s2);
    var s3 := if NeedsAlternate(st2, settings) then [SelectAlternateInterface(intfNumber, altSetting)] else [];
    var ops := [OpenDevice] + s1 + s2 + s3;
    ApplyOpsFourSteps(st, [OpenDevice], s1, s2, s3);
    ops
  }

  lemma ApplyOpsFourSteps(st: HandleState, s0: seq<UsbOp>, s1: seq<UsbOp>, s2: seq<UsbOp>, s3: seq<UsbOp>)
    requires |s0| <= 1 && |s1| <= 1 && |s2| <= 1 && |s3| <= 1
    ensures ApplyOps(st, s0 + s1 + s2 + s3)
            == ApplyOps(ApplyOps(ApplyOps(ApplyOps(st, s0), s1), s2), s3)
  {
    ApplyOpsAppend(st, s0 + s1 + s2, s3);
    ApplyOpsAppend(st, s0 + s1, s2);
    ApplyOpsAppend(st, s0, s1);
  }

  lemma {:induction false} ApplyOpsAppend(st: HandleState, a: seq<UsbOp>, b: seq<UsbOp>)
    ensures ApplyOps(st, a + b) == ApplyOps(ApplyOps(st, a), b)
    decreases |a|
  {
    if a == [] {
      assert a + b == b;
    } else {
      assert (a + b)[0] == a[0];
      assert (a + b)[1..] == a[1..] + b;
      ApplyOpsAppend(ApplyOp(st, a[0]), a[1..], b);
    }
  }

  /** A second `open` after a successful one selects and claims nothing. */
  lemma OpenIsIdempotent(st: HandleState, settings: InterfaceSettings)
    ensures OpenSteps(ApplyOps(st, OpenSteps(st, settings)), settings) == [OpenDevice]
  {
  }

  /** How a sequence of WebUSB calls ends: the calls made, the state they leave,
      and the rejection of the first call the device refuses, if any. */
  datatype OpenRun = OpenRun(result: Result<(), Failure>, issued: seq<UsbOp>, state: HandleState)

  /** The calls `ops` made one after another from `st`, stopping at the first one
      `refusal` rejects; the promise chain of `open` behaves this way. */
  function RunOps(st: HandleState, ops: seq<UsbOp>, refusal: UsbOp -> Option<string>): OpenRun
    decreases |ops|
  {
    if ops == [] then OpenRun(Ok(()), [], st)
    else match refusal(ops[0])
      case Some(msg) => OpenRun(Err(Raised(msg)), [ops[0]], st)
      case None =>
        var run := RunOps(ApplyOp(st, ops[0]), ops[1..], refusal);
        run.(issued := [ops[0]] + run.issued)
  }

  /** A run issues a prefix of its calls, each accepted but the last; it succeeds
      exactly when every call is accepted, and then it is in the state all of them
      lead to; otherwise it rejects with the last call's refusal, in the state
      the calls before it lead to. */
  lemma {:induction false} RunOpsSpec(st: HandleState, ops: seq<UsbOp>, refusal: UsbOp -> Option<string>)
    ensures var run := RunOps(st, ops, refusal);
            var n := |run.issued|;
            && n <= |ops| && run.issued == ops[..n]
            && (forall k :: 0 <= k < n - 1 ==> refusal(ops[k]).None?)
            && (run.result.Ok? <==> n == |ops| && forall k :: 0 <= k < |ops| ==> refusal(ops[k]).None?)
            && (run.result.Ok? ==> run.state == ApplyOps(st, ops))
            && (run.result.Err? ==> n >= 1 && refusal(ops[n - 1]).Some?
                                    && run.result.error == Raised(refusal(ops[n - 1]).value)
                                    && run.state == ApplyOps(st, ops[..n - 1]))
    decreases |ops|
  {
    if ops != [] && refusal(ops[0]).None? {
      var st1 := ApplyOp(st, ops[0]);
      RunOpsSpec(st1, ops[1..], refusal);
      var run1 := RunOps(st1, ops[1..], refusal);
      var n1 := |run1.issued|;
      assert ops[..n1 + 1] == [ops[0]] + ops[1..][..n1];
      forall k | 0 <= k < |ops| && run1.result.Ok? ensures refusal(ops[k]).None? {
        if k > 0 { assert ops[k] == ops[1..][k - 1]; }
      }
      if run1.result.Err? {
        assert ops[..n1] == [ops[0]] + ops[1..][..n1 - 1];
      }
    }
  }

  /** Against a device that refuses nothing, `open` ends bound to its alternate. */
  lemma OpenReachesTarget(st: HandleState, settings: InterfaceSettings, refusal: UsbOp -> Option<string>)
    requires forall op :: refusal(op).None?
    ensures RunOps(st, OpenSteps(st, settings), refusal)
            == OpenRun(Ok(()), OpenSteps(st, settings), OpenTarget(settings))
  {
    var ops := OpenSteps(st, settings);
    RunOpsSpec(st, ops, refusal);
    var run := RunOps(st, ops, refusal);
    assert forall k :: 0 <= k < |ops| ==> refusal(ops[k]).None?;
    var u: () := run.result.value;
    assert u == ();
    assert ops[..|ops|] == ops;
  }

  /** A run continued by at most one more call, made only when `needed`. */
  function Then(run: OpenRun, needed: bool, op: UsbOp, refusal: UsbOp -> Option<string>): OpenRun {
    if run.result.Err? || !needed then run
    else match refusal(op)
      case Some(msg) => OpenRun(Err(Raised(msg)), run.issued + [op], run.state)
      case None => OpenRun(Ok(()), run.issued + [op], ApplyOp(run.state, op))
  }

  /** Running `a` and then `b` is running `a + b`. */
  lemma {:induction false} RunOpsAppend(st: HandleState, a: seq<UsbOp>, op: UsbOp, refusal: UsbOp -> Option<string>)
    ensures RunOps(st, a + [op], refusal) == Then(RunOps(st, a, refusal), true, op, refusal)
    decreases |a|
  {
    if a == [] {
      assert a + [op] == [op];
    } else {
      assert (a + [op])[0] == a[0];
      assert (a + [op])[1..] == a[1..] + [op];
      if refusal(a[0]).None? {
        RunOpsAppend(ApplyOp(st, a[0]), a[1..], op, refusal);
        var run1 := RunOps(ApplyOp(st, a[0]), a[1..], refusal);
        assert [a[0]] + (run1.issued + [op]) == ([a[0]] + run1.issued) + [op];
      }
    }
  }

  /** The chain of `open`, written step by step as its code is: each step looks
      at the state the steps before it leave. */
  function OpenChain(st: HandleState, settings: InterfaceSettings, refusal: UsbOp -> Option<string>): OpenRun {
    var confValue := settings.configuration.configurationValue;
    var intfNumber := settings.intf.interfaceNumber;
    var altSetting := settings.alternate.alternateSetting;
    var r0 := Then(OpenRun(Ok(()), [], st), true, OpenDevice, refusal);
    var r1 := Then(r0, NeedsConfiguration(r0.state, settings), SelectConfiguration(confValue), refusal);
    var r2 := Then(r1, NeedsClaim(r1.state), ClaimInterface(intfNumber), refusal);
    Then(r2, NeedsAlternate(r2.state, settings), SelectAlternateInterface(intfNumber, altSetting), refusal)
  }

  /** One planned step more: if the run so far succeeded, its state is the one the
      plan so far leads to, and the run of the longer plan is the run continued by
      that step. */
  lemma RunOpsStep(st: HandleState, p: seq<UsbOp>, s: seq<UsbOp>, refusal: UsbOp -> Option<string>)
    requires |s| <= 1
    ensures var run := RunOps(st, p, refusal);
            RunOps(st, p + s, refusal)
            == if s == [] then run else Then(run, true, s[0], refusal)
    ensures var run := RunOps(st, p, refusal);
            run.result.Ok? ==> run.state == ApplyOps(st, p)
  {
    RunOpsSpec(st, p, refusal);
    assert p[..|p|] == p;
    if s == [] {
      assert p + s == p;
    } else {
      assert s == [s[0]];
      RunOpsAppend(st, p, s[0], refusal);
    }
  }

  /** The step-by-step chain of `open` is the run of the planned calls. */
  lemma OpenChainRunsPlan(st: HandleState, settings: InterfaceSettings, refusal: UsbOp -> Option<string>)
    ensures OpenChain(st, settings, refusal) == RunOps(st, OpenSteps(st, settings), refusal)
  {
    var confValue := settings.configuration.configurationValue;
    var intfNumber := settings.intf.interfaceNumber;
    var altSetting := settings.alternate.alternateSetting;
    var s1 := if NeedsConfiguration(st, settings) then [SelectConfiguration(confValue)] else [];
    var st1 := ApplyOps(st, s1);
    var s2 := if NeedsClaim(st1) then [ClaimInterface(intfNumber)] else [];
    var st2 := ApplyOps(st1, s2);
    var s3 := if NeedsAlternate(st2, settings) then [SelectAlternateInterface(intfNumber, altSetting)] else [];
    var p0: seq<UsbOp> := [OpenDevice];
    var p1 := p0 + s1;
    var p2 := p1 + s2;
    assert p2 + s3 == OpenSteps(st, settings);
    RunOpsStep(st, [], p0, refusal);
    assert [] + p0 == p0;
    assert RunOps(st, [], refusal) == OpenRun(Ok(()), [], st);
    var r0 := Then(OpenRun(Ok(()), [], st), true, OpenDevice, refusal);
    assert RunOps(st, p0, refusal) == r0;
    var r1 := Then(r0, NeedsConfiguration(r0.state, settings), SelectConfiguration(confValue), refusal);
    RunOpsStep(st, p0, s1, refusal);
    assert RunOps(st, p1, refusal) == r1;
    ApplyOpsAppend(st, p0, s1);
    var r2 := Then(r1, NeedsClaim(r1.state), ClaimInterface(intfNumber), refusal);
    RunOpsStep(st, p1, s2, refusal);
    assert RunOps(st, p2, refusal) == r2;
    ApplyOpsAppend(st, p1, s2);
    RunOpsStep(st, p2, s3, refusal);
  }

  /** The WebUSB device object; only the state `open` inspects is modelled. */
  class UsbHandle {
    var configuration: Option<int>
    var claimed: bool
    var alternate: Option<int>

    constructor (configuration: Option<int>, claimed: bool, alternate: Option<int>)
      ensures State() == HandleState(configuration, claimed, alternate)
    {
      this.configuration, this.claimed, this.alternate := configuration, claimed, alternate;
    }

    function State(): HandleState
      reads this
    {
      HandleState(configuration, claimed, alternate)
    }
  }

  /** dfu.Device: a WebUSB device bound to one DFU alternate. */
  class Device {
    const handle: UsbHandle
    const settings: InterfaceSettings

    constructor (handle: UsbHandle, settings: InterfaceSettings)
      ensures this.handle == handle && this.settings == settings
    {
      this.handle, this.settings := handle, settings;
    }

    /** open(): the WebUSB calls of `OpenSteps` in order, stopping at the first
        one the device refuses (`refusal(op)` is the rejection it gives). Each
        step reads the handle's state again, as the source re-reads
        `device_.configuration.interfaces[intfNumber]`. */
    method Open(refusal: UsbOp -> Option<string>) returns (r: Result<(), Failure>, issued: seq<UsbOp>)
      modifies handle
      ensures OpenRun(r, issued, handle.State())
              == RunOps(old(handle.State()), OpenSteps(old(handle.State()), settings), refusal)
    {
      ghost var st0 := handle.State();
      OpenChainRunsPlan(st0, settings, refusal);
      var confValue := settings.configuration.configurationValue;
      var altSetting := settings.alternate.alternateSetting;
      var intfNumber := settings.intf.interfaceNumber;
      ghost var run := Then(OpenRun(Ok(()), [], st0), true, OpenDevice, refusal);

      issued := [OpenDevice];
      if refusal(OpenDevice).Some? {
        return Err(Raised(refusal(OpenDevice).value)), issued;
      }
      assert run == OpenRun(Ok(()), issued, handle.State());
      run := Then(run, NeedsConfiguration(handle.State(), settings), SelectConfiguration(confValue), refusal);
      if handle.configuration.None? || handle.configuration.value != confValue {
        issued := issued + [SelectConfiguration(confValue)];
        if refusal(SelectConfiguration(confValue)).Some? {
          return Err(Raised(refusal(SelectConfiguration(confValue)).value)), issued;
        }
        handle.configuration, handle.claimed, handle.alternate := Some(confValue), false, Some(DEFAULT_ALTERNATE);
      }
      assert run == OpenRun(Ok(()), issued, handle.State());
      run := Then(run, NeedsClaim(handle.State()), ClaimInterface(intfNumber), refusal);
      if !handle.claimed {
        issued := issued + [ClaimInterface(intfNumber)];
        if refusal(ClaimInterface(intfNumber)).Some? {
          return Err(Raised(refusal(ClaimInterface(intfNumber)).value)), issued;
        }
        handle.claimed := true;
      }
      assert run == OpenRun(Ok(()), issued, handle.State());
      run := Then(run, NeedsAlternate(handle.State(), settings), SelectAlternateInterface(intfNumber, altSetting), refusal);
      if handle.alternate.None? || handle.alternate.value != altSetting {
        issued := issued + [SelectAlternateInterface(intfNumber, altSetting)];
        if refusal(SelectAlternateInterface(intfNumber, altSetting)).Some? {
          return Err(Raised(refusal(SelectAlternateInterface(intfNumber, altSetting)).value)), issued;
        }
        handle.alternate := Some(altSetting);
      }
      r := Ok(());
    }
  }

  // ---------------------------------------------------------------------------
  // Control requests and the decoding of their replies

  /** requestOut: resolves with the number of bytes written exactly when the
      transfer's status is "ok", and otherwise rejects with that status. A control
      transfer that completes writes its whole payload. */
  function RequestOut(usb: Usb, trace: seq<Event>, intf: int, request: int, data: seq<byte>, value: int): (s: Step<nat>)
    ensures s.trace == trace + [ControlOut(request, value, intf, data)]
    ensures s.result.Ok? <==> usb.outStatus(s.trace) == StatusOk
    ensures s.result.Ok? ==> s.result.value == |data|
    ensures s.result.Err? ==> s.result.error == TransferFailed(usb.outStatus(s.trace))
  {
    var t := trace + [ControlOut(request, value, intf, data)];
    match usb.outStatus(t)
    case StatusOk => Step(t, Ok(|data|))
    case other => Step(t, Err(TransferFailed(other)))
  }

  /** requestIn: resolves with the bytes received exactly when the status is
      "ok", and otherwise rejects with that status. */
  function RequestIn(usb: Usb, trace: seq<Event>, intf: int, request: int, length: int, value: int): (s: Step<seq<byte>>)
    ensures s.trace == trace + [ControlIn(request, value, intf, length)]
    ensures s.result.Ok? <==> usb.inReply(s.trace).status == StatusOk
    ensures s.result.Ok? ==> s.result.value == usb.inReply(s.trace).data
    ensures s.result.Err? ==> s.result.error == TransferFailed(usb.inReply(s.trace).status)
  {
    var t := trace + [ControlIn(request, value, intf, length)];
    var reply := usb.inReply(t);
    match reply.status
    case StatusOk => Step(t, Ok(reply.data))
    case other => Step(t, Err(TransferFailed(other)))
  }

  /** detach: DETACH with wValue 1000 and no data. */
  function Detach(usb: Usb, trace: seq<Event>, intf: int): (s: Step<nat>)
    ensures s.trace == trace + [ControlOut(0x00, 1000, intf, [])]
  {
    RequestOut(usb, trace, intf, DETACH, [], DETACH_TIMEOUT)
  }

  /** download: DNLOAD of `data` with the block number as wValue. */
  function Download(usb: Usb, trace: seq<Event>, intf: int, data: seq<byte>, blockNum: int): (s: Step<nat>)
    ensures s.trace == trace + [ControlOut(0x01, blockNum, intf, data)]
  {
    RequestOut(usb, trace, intf, DNLOAD, data, blockNum)
  }

  /** upload: UPLOAD of `length` bytes with the block number as wValue. */
  function Upload(usb: Usb, trace: seq<Event>, intf: int, length: int, blockNum: int): (s: Step<seq<byte>>)
    ensures s.trace == trace + [ControlIn(0x02, blockNum, intf, length)]
  {
    RequestIn(usb, trace, intf, UPLOAD, length, blockNum)
  }

  function ClearStatus(usb: Usb, trace: seq<Event>, intf: int): (s: Step<nat>)
    ensures s.trace == trace + [ControlOut(0x04, 0, intf, [])]
  {
    RequestOut(usb, trace, intf, CLRSTATUS, [], 0)
  }

  function Abort(usb: Usb, trace: seq<Event>, intf: int): (s: Step<nat>)
    ensures s.trace == trace + [ControlOut(0x06, 0, intf, [])]
  {
    RequestOut(usb, trace, intf, ABORT, [], 0)
  }

  /** DataView.getUint32(offset, true) over four bytes. */
  function Uint32Le(b: seq<byte>): nat
    requires |b| == 4
  {
    b[0] as int + 0x100 * b[1] as int + 0x1_0000 * b[2] as int + 0x100_0000 * b[3] as int
  }

  /** The GETSTATUS reply (section 6.1.2 of the DFU 1.1 specification):
      bStatus, a 24-bit little-endian bwPollTimeout, bState. The driver reads
      bytes 1 to 4 as one 32-bit word and masks it with 0xFFFFFF, so a reply
      shorter than five bytes is a RangeError. */
  function DecodeStatus(data: seq<byte>): (r: Result<DfuStatus, Failure>)
    ensures r.Ok? <==> |data| >= 5
    ensures r.Err? ==> r.error == RangeError
    ensures r.Ok? ==> && r.value.status == data[0]
                      && r.value.pollTimeout == data[1] as int + 0x100 * data[2] as int + 0x1_0000 * data[3] as int
                      && 0 <= r.value.pollTimeout < 0x100_0000
                      && r.value.state == data[4]
  {
    if |data| < 5 then Err(RangeError)
    else
      MaskLow24(data[1..5]);
      Ok(DfuStatus(data[0], Uint32Le(data[1..5]) % 0x100_0000, data[4]))
  }

  /** The 0xFFFFFF mask keeps the three low bytes of the word. */
  lemma MaskLow24(w: seq<byte>)
    requires |w| == 4
    ensures Uint32Le(w) % 0x100_0000 == w[0] as int + 0x100 * w[1] as int + 0x1_0000 * w[2] as int
  {
    var low := w[0] as int + 0x100 * w[1] as int + 0x1_0000 * w[2] as int;
    Arith.DivModUnique(Uint32Le(w), 0x100_0000, w[3], low);
  }

  /** The six bytes a device sends for a status (the last one is iString). */
  function EncodeStatus(st: DfuStatus, iString: byte): seq<byte>
    requires 0 <= st.status < 256 && 0 <= st.pollTimeout < 0x100_0000 && 0 <= st.state < 256
  {
    [st.status, st.pollTimeout % 0x100, (st.pollTimeout / 0x100) % 0x100,
     st.pollTimeout / 0x1_0000, st.state, iString]
  }

  /** Decoding inverts the device's encoding: the timeout survives the 32-bit read
      and mask even though the fourth byte of that word is bState. */
  lemma DecodeEncodeStatus(st: DfuStatus, iString: byte)
    requires 0 <= st.status < 256 && 0 <= st.pollTimeout < 0x100_0000 && 0 <= st.state < 256
    ensures DecodeStatus(EncodeStatus(st, iString)) == Ok(st)
  {
    var t := st.pollTimeout;
    assert t == t % 0x100 + 0x100 * ((t / 0x100) % 0x100) + 0x1_0000 * (t / 0x1_0000);
  }

  /** getStatus: GETSTATUS of six bytes; a rejected transfer is "DFU GETSTATUS failed". */
  function GetStatus(usb: Usb, trace: seq<Event>, intf: int): (s: Step<DfuStatus>)
    ensures s.trace == trace + [ControlIn(0x03, 0, intf, 6)]
    ensures var reply := usb.inReply(s.trace);
            && (reply.status != StatusOk ==> s.result == Err(GetStatusFailed))
            && (reply.status == StatusOk ==> s.result == DecodeStatus(reply.data))
  {
    var rin := RequestIn(usb, trace, intf, GETSTATUS, 6, 0);
    match rin.result
    case Err(_) => Step(rin.trace, Err(GetStatusFailed))
    case Ok(data) => Step(rin.trace, DecodeStatus(data))
  }

  /** The GETSTATE reply: its first byte, a RangeError when it is empty. */
  function DecodeState(data: seq<byte>): (r: Result<int, Failure>)
    ensures r.Ok? <==> |data| >= 1
    ensures r.Ok? ==> r.value == data[0] && 0 <= r.value < 256
    ensures r.Err? ==> r.error == RangeError
  {
    if |data| < 1 then Err(RangeError) else Ok(data[0])
  }

  /** getState: GETSTATE of one byte; a rejected transfer is "DFU GETSTATE failed". */
  function GetState(usb: Usb, trace: seq<Event>, intf: int): (s: Step<int>)
    ensures s.trace == trace + [ControlIn(0x05, 0, intf, 1)]
    ensures var reply := usb.inReply(s.trace);
            && (reply.status != StatusOk ==> s.result == Err(GetStateFailed))
            && (reply.status == StatusOk ==> s.result == DecodeState(reply.data))
  {
    var rin := RequestIn(usb, trace, intf, GETSTATE, 1, 0);
    match rin.result
    case Err(_) => Step(rin.trace, Err(GetStateFailed))
    case Ok(data) => Step(rin.trace, DecodeState(data))
  }

  // ---------------------------------------------------------------------------
  // do_upload: read blocks until a short one arrives

  /** How the upload loop ends: with the image, with a rejected request, or, when
      the supplied replies run out, still waiting for the reply to its last request. */
  datatype UploadOutcome = Complete(image: seq<byte>) | Rejected(error: Failure) | Awaiting(received: seq<byte>)

  /** The bytes of the replies, one after another. */
  function Concat(replies: seq<InTransfer>): seq<byte> {
    if replies == [] then [] else Concat(replies[..|replies| - 1]) + replies[|replies| - 1].data
  }

  /** Every reply is an accepted transfer of exactly `xferSize` bytes. */
  predicate FullBlocks(replies: seq<InTransfer>, xferSize: int) {
    forall k :: 0 <= k < |replies| ==> replies[k].status == StatusOk && |replies[k].data| == xferSize
  }

  /** The block numbers the upload loop puts in wValue: the first request and the
      second both use block 0, because the first is issued with `transaction` and
      every later one with `transaction++`. */
  predicate UploadBlockNumbers(blockNums: seq<int>) {
    forall k :: 0 <= k < |blockNums| ==> blockNums[k] == if k == 0 then 0 else k - 1
  }

  /** do_upload: `replies[k]` answers the k-th UPLOAD request. The loop asks for
      `xferSize` bytes at a time, keeps every reply's bytes, and stops after the
      first reply whose length is not `xferSize` or at the first rejection.
      `blockNums` are the block numbers of the requests it issued. */
  method DoUpload(xferSize: int, replies: seq<InTransfer>) returns (outcome: UploadOutcome, blockNums: seq<int>)
    ensures 1 <= |blockNums| <= |replies| + 1
    ensures UploadBlockNumbers(blockNums)
    ensures FullBlocks(replies[..|blockNums| - 1], xferSize)
    ensures outcome.Awaiting? <==> |blockNums| == |replies| + 1
    ensures outcome.Awaiting? ==> outcome.received == Concat(replies)
    ensures outcome.Rejected? ==> var last := replies[|blockNums| - 1];
              last.status != StatusOk && outcome.error == TransferFailed(last.status)
    ensures outcome.Complete? ==> var last := replies[|blockNums| - 1];
              last.status == StatusOk && |last.data| != xferSize
              && outcome.image == Concat(replies[..|blockNums|])
  {
    var transaction := 0;
    var image: seq<byte> := [];
    blockNums := [transaction];
    var k := 0;
    while k < |replies|
      invariant 0 <= k <= |replies|
      invariant |blockNums| == k + 1 && transaction == k
      invariant UploadBlockNumbers(blockNums)
      invariant FullBlocks(replies[..k], xferSize)
      invariant image == Concat(replies[..k])
    {
      var result := replies[k];
      UploadStep(replies, k, xferSize);
      if result.status != StatusOk {
        return Rejected(TransferFailed(result.status)), blockNums;
      }
      if |result.data| > 0 {
        image := image + result.data;
      }
      if |result.data| != xferSize {
        return Complete(image), blockNums;
      }
      UploadBlockNumbersNext(blockNums);
      blockNums := blockNums + [transaction];
      transaction := transaction + 1;
      k := k + 1;
    }
    assert replies[..k] == replies;
    outcome := Awaiting(image);
  }

  /** The facts one turn of the upload loop needs about the reply it takes: the
      replies so far grow by it, and it is a full block when it is accepted with
      `xferSize` bytes. */
  lemma UploadStep(replies: seq<InTransfer>, k: nat, xferSize: int)
    requires k < |replies| && FullBlocks(replies[..k], xferSize)
    ensures Concat(replies[..k + 1]) == Concat(replies[..k]) + replies[k].data
    ensures replies[k].status == StatusOk && |replies[k].data| == xferSize ==> FullBlocks(replies[..k + 1], xferSize)
  {
    assert replies[..k + 1][..k] == replies[..k];
  }

  /** The next request of the upload loop carries one less than its position. */
  lemma UploadBlockNumbersNext(blockNums: seq<int>)
    requires |blockNums| >= 1 && UploadBlockNumbers(blockNums)
    ensures UploadBlockNumbers(blockNums + [|blockNums| - 1])
  {
  }

  /** Block numbers that start at `first` and go up by one per request. */
  predicate BlockNumbersFrom(blockNums: seq<int>, first: int) {
    forall k :: 0 <= k < |blockNums| ==> blockNums[k] == first + k
  }

  /** The corrected upload loop: request k carries `firstBlock + k`.
      `Dfuse.Device.DoUploadIntended` runs it from block 2. The replies are
      taken as in `DoUpload`. */
  method DoUploadFrom(xferSize: int, firstBlock: int, replies: seq<InTransfer>)
    returns (outcome: UploadOutcome, blockNums: seq<int>)
    ensures 1 <= |blockNums| <= |replies| + 1
    ensures BlockNumbersFrom(blockNums, firstBlock)
    ensures FullBlocks(replies[..|blockNums| - 1], xferSize)
    ensures outcome.Awaiting? <==> |blockNums| == |replies| + 1
    ensures outcome.Awaiting? ==> outcome.received == Concat(replies)
    ensures outcome.Rejected? ==> var last := replies[|blockNums| - 1];
              last.status != StatusOk && outcome.error == TransferFailed(last.status)
    ensures outcome.Complete? ==> var last := replies[|blockNums| - 1];
              last.status == StatusOk && |last.data| != xferSize
              && outcome.image == Concat(replies[..|blockNums|])
  {
    var transaction := firstBlock;
    var image: seq<byte> := [];
    blockNums := [transaction];
    transaction := transaction + 1;
    var k := 0;
    while k < |replies|
      invariant 0 <= k <= |replies|
      invariant |blockNums| == k + 1 && transaction == firstBlock + k + 1
      invariant BlockNumbersFrom(blockNums, firstBlock)
      invariant FullBlocks(replies[..k], xferSize)
      invariant image == Concat(replies[..k])
    {
      var result := replies[k];
      UploadStep(replies, k, xferSize);
      if result.status != StatusOk {
        return Rejected(TransferFailed(result.status)), blockNums;
      }
      if |result.data| > 0 {
        image := image + result.data;
      }
      if |result.data| != xferSize {
        return Complete(image), blockNums;
      }
      blockNums := blockNums + [transaction];
      transaction := transaction + 1;
      k := k + 1;
    }
    assert replies[..k] == replies;
    outcome := Awaiting(image);
  }

  /** A run of full blocks holds a whole number of transfers. */
  lemma {:induction false} FullBlocksLength(replies: seq<InTransfer>, xferSize: int)
    requires FullBlocks(replies, xferSize)
    ensures |Concat(replies)| == |replies| * xferSize
  {
    if replies != [] {
      var init := replies[..|replies| - 1];
      assert FullBlocks(init, xferSize) by {
        forall k | 0 <= k < |init| ensures init[k] == replies[k] { }
      }
      FullBlocksLength(init, xferSize);
      assert |replies| * xferSize == |init| * xferSize + xferSize;
    }
  }

  /** An image ends with one short transfer: its length is a whole number of
      transfers plus a remainder below the transfer size, when the device never
      answers with more than it was asked for. */
  lemma UploadImageLength(replies: seq<InTransfer>, xferSize: int, n: nat)
    requires 1 <= n <= |replies|
    requires FullBlocks(replies[..n - 1], xferSize)
    requires replies[n - 1].status == StatusOk && |replies[n - 1].data| != xferSize
    requires |replies[n - 1].data| <= xferSize
    ensures var rem := |Concat(replies[..n])| - (n - 1) * xferSize; 0 <= rem < xferSize
  {
    FullBlocksLength(replies[..n - 1], xferSize);
    assert replies[..n][..n - 1] == replies[..n - 1];
  }
}
