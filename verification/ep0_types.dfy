/** The state the DWC3 controller driver keeps for its control endpoint
    (ep0): which phase of a control transfer it is in, which event it waits
    for next, the USB device state and the few controller register fields
    the standard requests program, the endpoints' flags, and the requests
    queued on ep0.

    Control transfers follow chapter 8 and 9 of the USB 2.0 specification: a
    SETUP packet, an optional DATA stage and a STATUS stage. The controller
    reports "transfer not ready" when the host wants the next stage and
    "transfer complete" when a stage is done. */
module Ep0Types {
  import opened Wrappers

  // ---------------------------------------------------------------------
  // Setup packets (section 9.3 of the USB 2.0 specification)

  /** The eight bytes of a SETUP packet, with the 16-bit fields already in
      host order. */
  datatype Ctrl = Ctrl(requestType: U8, request: U8, value: U16, index: U16, length: U16)

  /** Bit 7 of bmRequestType: the data stage goes device-to-host. */
  predicate DirIn(c: Ctrl) {
    c.requestType >= 0x80
  }

  /** Bits 6..5 of bmRequestType: 0 for a standard request. */
  function RequestType(c: Ctrl): (t: nat)
    ensures t < 4
  {
    (c.requestType / 32) % 4
  }

  /** Bits 4..0 of bmRequestType: the recipient. */
  function Recipient(c: Ctrl): (r: nat)
    ensures r < 32
  {
    c.requestType % 32
  }

  const RECIP_DEVICE := 0
  const RECIP_INTERFACE := 1
  const RECIP_ENDPOINT := 2

  /** Standard request codes: table 9-4 of the USB 2.0 specification, and
      SET_SEL and SET_ISOCH_DELAY of the USB 3.x specification. */
  const REQ_GET_STATUS := 0
  const REQ_CLEAR_FEATURE := 1
  const REQ_SET_FEATURE := 3
  const REQ_SET_ADDRESS := 5
  const REQ_SET_CONFIGURATION := 9
  const REQ_SET_SEL := 0x30
  const REQ_SET_ISOCH_DELAY := 0x31

  /** Feature selectors: table 9-6 of the USB 2.0 specification and their
      USB 3.x additions. */
  const FEATURE_ENDPOINT_HALT := 0
  const FEATURE_FUNCTION_SUSPEND := 0
  const FEATURE_REMOTE_WAKEUP := 1
  const FEATURE_TEST_MODE := 2
  const FEATURE_U1_ENABLE := 48
  const FEATURE_U2_ENABLE := 49
  const FEATURE_LTM_ENABLE := 50

  /** The value a gadget driver's setup handler returns to ask for the
      status stage to wait until it queues a request itself. */
  const DELAYED_STATUS := 0x7fff

  /** The device states of section 9.1 of the USB 2.0 specification, as the
      gadget framework numbers them. */
  datatype UsbState =
    | NotAttached | Attached | Powered | Reconnecting | Unauthenticated
    | Default | Address | Configured | Suspended

  // ---------------------------------------------------------------------
  // Driver state

  /** The phase of the control transfer under way. */
  datatype Ep0State = Unconnected | SetupPhase | DataPhase | StatusPhase

  /** The "transfer not ready" or "transfer complete" event expected next. */
  datatype NextEvent = Unknown | Complete | NrdyData | NrdyStatus

  /** Where the control transfer stands: the phase, the next expected
      event, whether there is a data stage and its direction, whether the
      gadget driver delayed the status stage, whether a zero-length packet
      still has to end an IN data stage, whether the data stage went
      through the bounce buffer, and whether a SETUP packet is pending. */
  datatype Phase = Phase(
    state: Ep0State,
    next: NextEvent,
    threeStage: bool,
    expectIn: bool,
    delayedStatus: bool,
    zlpRequired: bool,
    bounced: bool,
    setupPending: bool)

  /** Two phases agree on whether there is a data stage and on its
      direction. */
  predicate SameStages(p: Phase, q: Phase) {
    p.threeStage == q.threeStage && p.expectIn == q.expectIn
  }

  /** The U1/U2 bits of the device control register: initiate and accept
      transitions to the U1 and U2 low-power link states. */
  datatype Dctl = Dctl(initU1: bool, initU2: bool, acceptU1: bool, acceptU2: bool)

  /** The exit latencies the host sends with Set SEL. */
  datatype Sel = Sel(u1sel: nat, u1pel: nat, u2sel: nat, u2pel: nat)

  /** The device as the standard requests see it: its USB state and speed,
      the status bits it reports, whether U1/U2 is disabled on this board
      and whether a module parameter overrides that, the device control
      register bits, the device address programmed in the configuration
      register, test mode, the isochronous delay, the Set SEL latencies and
      the periodic parameter last programmed, and ep0's maximum packet. */
  datatype Device = Device(
    usb: UsbState,
    superSpeed: bool,
    selfPowered: bool,
    remoteWakeup: bool,
    u1u2Disable: bool,
    u1u2Override: bool,
    dctl: Dctl,
    address: nat,
    testMode: bool,
    testModeNr: nat,
    isochDelay: nat,
    sel: Sel,
    periodicParam: nat,
    maxPacket: nat)

  /** An endpoint's flags: enabled, halted, wedged (a halt the host may not
      clear), busy with a started transfer, waiting for a request to start
      the data stage (and in which direction), and whether the controller
      holds a transfer resource for it. */
  datatype Ep = Ep(enabled: bool, stall: bool, wedge: bool, busy: bool,
                   pendingRequest: bool, dirIn: bool, resource: bool)

  /** The flags an endpoint is reset to: enabled and nothing else. */
  function EnabledOnly(e: Ep): (e': Ep)
    ensures e'.enabled && !e'.stall && !e'.wedge && !e'.busy && !e'.pendingRequest && !e'.dirIn
    ensures e'.resource == e.resource
  {
    Ep(true, false, false, false, false, false, e.resource)
  }

  /** What a request on ep0 is for: a gadget driver's own, the driver's
      reply to Get Status carrying the status word, or the buffer that
      receives Set SEL's data. */
  datatype ReqKind = GadgetReq(id: nat) | StatusReply(word: nat) | SelReq

  datatype Req = Req(kind: ReqKind, length: nat, zero: bool, actual: nat)

  /** A request handed back to its owner with a status. */
  datatype Giveback = Giveback(req: Req, status: int)

  /** The kinds of control transfer block the driver starts. */
  datatype TrbKind = SetupTrb | DataTrb | Status2Trb | Status3Trb

  /** The transfer last started: endpoint, length and kind. */
  datatype Trb = Trb(ep: nat, len: nat, kind: TrbKind)

  /** The controller: the control transfer's phase, the device, the
      physical endpoints (absent ones are None), the requests queued on ep0,
      the last transfer started, and every request given back so far. */
  datatype Dwc = Dwc(
    phase: Phase,
    dev: Device,
    eps: seq<Option<Ep>>,
    queue: seq<Req>,
    trb: Option<Trb>,
    log: seq<Giveback>)

  /** The controller has 32 physical endpoints. */
  const NUM_EPS := 32

  /** Both directions of ep0 exist, and ep0's maximum packet is not zero. */
  predicate DwcOk(d: Dwc) {
    |d.eps| == NUM_EPS && d.eps[0].Some? && d.eps[1].Some? && d.dev.maxPacket > 0
  }
}
