/** The standard requests the controller driver answers itself, from
    chapter 9 of the USB 2.0 specification (Get Status, Clear and Set
    Feature, Set Address, Set Configuration) and its USB 3.x additions (Set
    SEL, Set Isochronous Delay). Everything else goes to the gadget driver,
    whose answer is the parameter `setupRet`. */
module Ep0Requests {
  import opened Wrappers
  import opened Ep0Types
  import opened Ep0Transfer

  /** A request handler's result (0, a negative error number, or the
      gadget driver's answer) and the controller afterwards. */
  datatype Handled = Handled(ret: int, d: Dwc)

  /** The physical endpoint a wIndex names: its endpoint number (bits 3..0)
      doubled, plus one for the IN direction (bit 7). */
  function PhysEp(index: U16): (n: nat)
    ensures n < NUM_EPS
  {
    (index % 16) * 2 + (if (index / 128) % 2 == 1 then 1 else 0)
  }

  /** Two wIndex values name the same physical endpoint exactly when they
      agree on endpoint number and direction. */
  lemma PhysEpInjective(i1: U16, i2: U16)
    ensures PhysEp(i1) == PhysEp(i2) <==> i1 % 16 == i2 % 16 && (i1 / 128) % 2 == (i2 / 128) % 2
  {
  }

  /** The endpoint a wIndex names, provided it exists and is enabled. */
  function WIndexToDep(eps: seq<Option<Ep>>, index: U16): (r: Option<nat>)
    requires |eps| == NUM_EPS
    ensures r.Some? <==> eps[PhysEp(index)].Some? && eps[PhysEp(index)].value.enabled
    ensures r.Some? ==> r.value == PhysEp(index) && r.value / 2 == index % 16
                        && (r.value % 2 == 1 <==> (index / 128) % 2 == 1)
  {
    var n := PhysEp(index);
    if eps[n].Some? && eps[n].value.enabled then Some(n) else None
  }

  // ---------------------------------------------------------------------
  // Get Status (section 9.4.5 of the USB 2.0 specification)

  /** The device status word: self-powered in bit 0; at SuperSpeed the U1
      and U2 enables in bits 2 and 3, otherwise remote wakeup in bit 1. */
  function DeviceStatus(dev: Device): (w: nat)
    ensures w < 16
  {
    (if dev.selfPowered then 1 else 0)
    + (if dev.superSpeed then (if dev.dctl.initU1 then 4 else 0) + (if dev.dctl.initU2 then 8 else 0)
       else if dev.remoteWakeup then 2 else 0)
  }

  /** Bit `k` of a status word. */
  predicate StatusBit(w: nat, k: nat)
    requires k < 4
  {
    (w / [1, 2, 4, 8][k]) % 2 == 1
  }

  /** Each bit of the device status word reports exactly its own condition. */
  lemma DeviceStatusBits(dev: Device)
    ensures StatusBit(DeviceStatus(dev), 0) <==> dev.selfPowered
    ensures StatusBit(DeviceStatus(dev), 1) <==> !dev.superSpeed && dev.remoteWakeup
    ensures StatusBit(DeviceStatus(dev), 2) <==> dev.superSpeed && dev.dctl.initU1
    ensures StatusBit(DeviceStatus(dev), 3) <==> dev.superSpeed && dev.dctl.initU2
  {
  }

  /** Get Status: the device answers with its status word, an interface
      request goes to the gadget driver, an endpoint (which must exist and
      be enabled) answers whether it is halted; the two-byte reply is queued
      on ep0. Any other recipient is refused. */
  function HandleStatus(d: Dwc, c: Ctrl, setupRet: int): (h: Handled)
    requires DwcOk(d)
    ensures DwcOk(h.d) && SameStages(h.d.phase, d.phase)
    ensures Recipient(c) == RECIP_INTERFACE ==> h == Handled(setupRet, d)
    ensures Recipient(c) !in {RECIP_DEVICE, RECIP_INTERFACE, RECIP_ENDPOINT} ==> h == Handled(-EINVAL, d)
    ensures Recipient(c) == RECIP_ENDPOINT && WIndexToDep(d.eps, c.index).None? ==> h == Handled(-EINVAL, d)
    ensures Recipient(c) == RECIP_DEVICE ==>
              h == Handled(0, Ep0Queue(d, Req(StatusReply(DeviceStatus(d.dev)), 2, false, 0)))
    ensures Recipient(c) == RECIP_ENDPOINT && WIndexToDep(d.eps, c.index).Some? ==>
              var halted := d.eps[PhysEp(c.index)].value.stall;
              h == Handled(0, Ep0Queue(d, Req(StatusReply(if halted then 1 else 0), 2, false, 0)))
  {
    var recip := Recipient(c);
    if recip == RECIP_DEVICE then
      Handled(0, Ep0Queue(d, Req(StatusReply(DeviceStatus(d.dev)), 2, false, 0)))
    else if recip == RECIP_INTERFACE then Handled(setupRet, d)
    else if recip == RECIP_ENDPOINT then
      match WIndexToDep(d.eps, c.index)
      case None => Handled(-EINVAL, d)
      case Some(n) =>
        Handled(0, Ep0Queue(d, Req(StatusReply(if d.eps[n].value.stall then 1 else 0), 2, false, 0)))
    else Handled(-EINVAL, d)
  }

  // ---------------------------------------------------------------------
  // Clear Feature and Set Feature (sections 9.4.1 and 9.4.9)

  /** U1/U2 link-state control may be changed: only when configured, at
      SuperSpeed, and not disabled on this board unless overridden. */
  predicate U1U2Allowed(dev: Device) {
    dev.usb == Configured && dev.superSpeed && (!dev.u1u2Disable || dev.u1u2Override)
  }

  /** Clear Feature (`on` false) or Set Feature (`on` true) addressed to
      the device. */
  function DeviceFeature(d: Dwc, c: Ctrl, on: bool): (h: Handled)
    requires DwcOk(d)
    ensures DwcOk(h.d) && h.d.eps == d.eps && h.d.phase == d.phase && h.d.queue == d.queue
    ensures h.ret == 0 || h.ret == -EINVAL
    ensures h.ret != 0 ==> h.d == d
    ensures c.value == FEATURE_REMOTE_WAKEUP ==> h == Handled(0, d.(dev := d.dev.(remoteWakeup := on)))
    ensures c.value == FEATURE_U1_ENABLE ==>
              (h.ret == 0 <==> U1U2Allowed(d.dev))
              && (h.ret == 0 ==> h.d.dev == d.dev.(dctl := d.dev.dctl.(initU1 := on)))
    ensures c.value == FEATURE_U2_ENABLE ==>
              (h.ret == 0 <==> U1U2Allowed(d.dev))
              && (h.ret == 0 ==> h.d.dev == d.dev.(dctl := d.dev.dctl.(initU2 := on)))
    ensures c.value == FEATURE_LTM_ENABLE ==> h.ret == -EINVAL
    ensures c.value == FEATURE_TEST_MODE ==>
              (h.ret == 0 <==> c.index % 256 == 0 && on)
              && (h.ret == 0 ==> h.d.dev == d.dev.(testMode := true, testModeNr := c.index / 256))
    ensures c.value !in {FEATURE_REMOTE_WAKEUP, FEATURE_U1_ENABLE, FEATURE_U2_ENABLE, FEATURE_TEST_MODE} ==> h.ret == -EINVAL
  {
    var dev := d.dev;
    if c.value == FEATURE_REMOTE_WAKEUP then Handled(0, d.(dev := dev.(remoteWakeup := on)))
    else if c.value == FEATURE_U1_ENABLE || c.value == FEATURE_U2_ENABLE then
      if dev.usb != Configured then Handled(-EINVAL, d)
      else if !dev.superSpeed then Handled(-EINVAL, d)
      else if dev.u1u2Disable && !dev.u1u2Override then Handled(-EINVAL, d)
      else if c.value == FEATURE_U1_ENABLE then Handled(0, d.(dev := dev.(dctl := dev.dctl.(initU1 := on))))
      else Handled(0, d.(dev := dev.(dctl := dev.dctl.(initU2 := on))))
    else if c.value == FEATURE_LTM_ENABLE then Handled(-EINVAL, d)
    else if c.value == FEATURE_TEST_MODE then
      if c.index % 256 != 0 then Handled(-EINVAL, d)
      else if !on then Handled(-EINVAL, d)
      else Handled(0, d.(dev := dev.(testModeNr := c.index / 256, testMode := true)))
    else Handled(-EINVAL, d)
  }

  /** Clear Feature or Set Feature for ENDPOINT_HALT: the endpoint must
      exist and be enabled; clearing the halt of a wedged endpoint succeeds
      without doing anything; otherwise the halt is set or cleared (clearing
      also lifts a wedge), and a failure of the controller command
      (`haltErr`) is reported as EINVAL. */
  function EndpointHalt(d: Dwc, c: Ctrl, on: bool, haltErr: int): (h: Handled)
    requires DwcOk(d)
    ensures DwcOk(h.d) && h.d.dev == d.dev && h.d.phase == d.phase && h.d.queue == d.queue
    ensures h.ret == 0 || h.ret == -EINVAL
    ensures h.ret != 0 ==> h.d == d
    ensures h.ret == 0 <==> WIndexToDep(d.eps, c.index).Some? && ((!on && d.eps[PhysEp(c.index)].value.wedge) || haltErr == 0)
    ensures WIndexToDep(d.eps, c.index).Some? && !on && d.eps[PhysEp(c.index)].value.wedge ==> h == Handled(0, d)
    ensures h.ret == 0 && !(!on && d.eps[PhysEp(c.index)].value.wedge) ==>
              var n := PhysEp(c.index);
              h.d.eps == d.eps[n := Some(d.eps[n].value.(stall := on, wedge := on && d.eps[n].value.wedge))]
  {
    match WIndexToDep(d.eps, c.index)
    case None => Handled(-EINVAL, d)
    case Some(n) =>
      var e := d.eps[n].value;
      if !on && e.wedge then Handled(0, d)
      else if haltErr != 0 then Handled(-EINVAL, d)
      else Handled(0, d.(eps := d.eps[n := Some(e.(stall := on, wedge := on && e.wedge))]))
  }

  /** Clear Feature or Set Feature: by recipient, the device's features,
      an interface's function suspend (which the gadget driver handles), or
      an endpoint's halt; anything else is refused. */
  function HandleFeature(d: Dwc, c: Ctrl, on: bool, setupRet: int, haltErr: int): (h: Handled)
    requires DwcOk(d)
    ensures DwcOk(h.d) && h.d.phase == d.phase && h.d.queue == d.queue
    ensures Recipient(c) == RECIP_DEVICE ==> h == DeviceFeature(d, c, on)
    ensures Recipient(c) == RECIP_INTERFACE ==>
              h == Handled(if c.value == FEATURE_FUNCTION_SUSPEND then setupRet else -EINVAL, d)
    ensures Recipient(c) == RECIP_ENDPOINT ==>
              h == if c.value == FEATURE_ENDPOINT_HALT then EndpointHalt(d, c, on, haltErr) else Handled(-EINVAL, d)
    ensures Recipient(c) !in {RECIP_DEVICE, RECIP_INTERFACE, RECIP_ENDPOINT} ==> h == Handled(-EINVAL, d)
  {
    var recip := Recipient(c);
    if recip == RECIP_DEVICE then DeviceFeature(d, c, on)
    else if recip == RECIP_INTERFACE then
      if c.value == FEATURE_FUNCTION_SUSPEND then Handled(if setupRet != 0 then setupRet else 0, d)
      else Handled(-EINVAL, d)
    else if recip == RECIP_ENDPOINT then
      if c.value == FEATURE_ENDPOINT_HALT then EndpointHalt(d, c, on, haltErr)
      else Handled(-EINVAL, d)
    else Handled(-EINVAL, d)
  }

  // ---------------------------------------------------------------------
  // Set Address, Set Configuration (sections 9.4.6 and 9.4.7)

  /** Set Address: an address above 127, or a request while configured, is
      refused; otherwise the address is programmed and the device is in the
      Address state, or back in the Default state for address 0. */
  function SetAddress(d: Dwc, c: Ctrl): (h: Handled)
    requires DwcOk(d)
    ensures DwcOk(h.d)
    ensures h.ret == 0 <==> c.value <= 127 && d.dev.usb != Configured
    ensures h.ret != 0 ==> h == Handled(-EINVAL, d)
    ensures h.ret == 0 ==> h.d == d.(dev := h.d.dev) && h.d.dev.address == c.value
                           && h.d.dev == d.dev.(address := c.value, usb := h.d.dev.usb)
                           && (h.d.dev.usb == Address <==> c.value != 0)
                           && (h.d.dev.usb == Default <==> c.value == 0)
  {
    if c.value > 127 then Handled(-EINVAL, d)
    else if d.dev.usb == Configured then Handled(-EINVAL, d)
    else Handled(0, d.(dev := d.dev.(address := c.value, usb := if c.value != 0 then Address else Default)))
  }

  /** Set Configuration, by device state: refused in the Default state. In
      the Address state the gadget driver decides; a nonzero configuration
      it accepts makes the device configured (at once, or when it queues
      its delayed status) and, unless U1/U2 is disabled without override,
      lets the link accept U1 and U2. In the Configured state the gadget
      driver decides, and configuration 0 it accepts takes the device back
      to the Address state. Other states refuse. */
  function SetConfig(d: Dwc, c: Ctrl, setupRet: int): (h: Handled)
    requires DwcOk(d)
    ensures DwcOk(h.d) && h.d == d.(dev := h.d.dev)
    ensures d.dev.usb !in {Address, Configured} ==> h == Handled(-EINVAL, d)
    ensures d.dev.usb in {Address, Configured} ==> h.ret == setupRet
    ensures h.d.dev.usb != d.dev.usb ==>
              (d.dev.usb == Address && c.value != 0 && setupRet == 0 && h.d.dev.usb == Configured)
              || (d.dev.usb == Configured && c.value == 0 && setupRet == 0 && h.d.dev.usb == Address)
    ensures d.dev.usb == Address && c.value != 0 && setupRet == 0 ==> h.d.dev.usb == Configured
    ensures d.dev.usb == Configured && c.value == 0 && setupRet == 0 ==> h.d.dev.usb == Address
    ensures h.d.dev.dctl != d.dev.dctl ==>
              d.dev.usb == Address && c.value != 0 && (setupRet == 0 || setupRet == DELAYED_STATUS)
              && (!d.dev.u1u2Disable || d.dev.u1u2Override)
              && h.d.dev.dctl == d.dev.dctl.(acceptU1 := true, acceptU2 := true)
    ensures d.dev.usb == Address && c.value != 0 && (setupRet == 0 || setupRet == DELAYED_STATUS)
            && (!d.dev.u1u2Disable || d.dev.u1u2Override) ==>
              h.d.dev.dctl == d.dev.dctl.(acceptU1 := true, acceptU2 := true)
  {
    var dev := d.dev;
    if dev.usb == Default then Handled(-EINVAL, d)
    else if dev.usb == Address then
      var ret := setupRet;
      if c.value != 0 && (ret == 0 || ret == DELAYED_STATUS) then
        var dev1 := if ret == 0 then dev.(usb := Configured) else dev;
        var dev2 := if !dev.u1u2Disable || dev.u1u2Override then dev1.(dctl := dev1.dctl.(acceptU1 := true, acceptU2 := true)) else dev1;
        Handled(ret, d.(dev := dev2))
      else Handled(ret, d)
    else if dev.usb == Configured then
      if c.value == 0 && setupRet == 0 then Handled(setupRet, d.(dev := dev.(usb := Address)))
      else Handled(setupRet, d)
    else Handled(-EINVAL, d)
  }

  // ---------------------------------------------------------------------
  // Set SEL, Set Isochronous Delay (USB 3.x)

  /** Set SEL: refused in the Default state and unless exactly six bytes
      follow; otherwise a request of one maximum packet is queued to receive
      them. */
  function SetSel(d: Dwc, c: Ctrl): (h: Handled)
    requires DwcOk(d)
    ensures DwcOk(h.d) && SameStages(h.d.phase, d.phase)
    ensures h.ret == 0 <==> d.dev.usb != Default && c.length == 6
    ensures h.ret != 0 ==> h == Handled(-EINVAL, d)
    ensures h.ret == 0 ==> h.d == Ep0Queue(d, Req(SelReq, d.dev.maxPacket, false, 0))
  {
    if d.dev.usb == Default then Handled(-EINVAL, d)
    else if c.length != 6 then Handled(-EINVAL, d)
    else Handled(0, Ep0Queue(d, Req(SelReq, d.dev.maxPacket, false, 0)))
  }

  /** The latency parameter programmed for periodic transfers: the U2 exit
      latency when U2 is initiated, overridden by the U1 exit latency when
      U1 is initiated; a value above 125 is programmed as 0. */
  function PeriodicParam(dctl: Dctl, sel: Sel): (p: nat)
    ensures p <= 125
    ensures dctl.initU1 && sel.u1pel <= 125 ==> p == sel.u1pel
    ensures !dctl.initU1 && dctl.initU2 && sel.u2pel <= 125 ==> p == sel.u2pel
    ensures !dctl.initU1 && !dctl.initU2 ==> p == 0
    ensures p != 0 ==> p == (if dctl.initU1 then sel.u1pel else sel.u2pel)
  {
    var param := if dctl.initU1 then sel.u1pel else if dctl.initU2 then sel.u2pel else 0;
    if param > 125 then 0 else param
  }

  /** A little-endian 16-bit field. */
  function Le16(lo: U8, hi: U8): (v: U16)
    ensures v % 256 == lo && v / 256 == hi
  {
    lo + 256 * hi
  }

  /** The Set SEL data has arrived: U1 SEL, U1 PEL, then U2 SEL and U2 PEL
      as little-endian 16-bit values; the periodic parameter follows from
      them. */
  function SetSelCmpl(dev: Device, buf: seq<U8>): (dev': Device)
    requires |buf| >= 6
    ensures dev'.sel == Sel(buf[0], buf[1], Le16(buf[2], buf[3]), Le16(buf[4], buf[5]))
    ensures dev' == dev.(sel := dev'.sel, periodicParam := PeriodicParam(dev.dctl, dev'.sel))
  {
    var sel := Sel(buf[0], buf[1], Le16(buf[2], buf[3]), Le16(buf[4], buf[5]));
    dev.(sel := sel, periodicParam := PeriodicParam(dev.dctl, sel))
  }

  /** Set Isochronous Delay: wIndex and wLength must be zero; the delay in
      wValue is stored. */
  function SetIsochDelay(d: Dwc, c: Ctrl): (h: Handled)
    requires DwcOk(d)
    ensures h.ret == 0 <==> c.index == 0 && c.length == 0
    ensures h.ret != 0 ==> h == Handled(-EINVAL, d)
    ensures h.ret == 0 ==> h.d == d.(dev := d.dev.(isochDelay := c.value))
  {
    if c.index != 0 || c.length != 0 then Handled(-EINVAL, d)
    else Handled(0, d.(dev := d.dev.(isochDelay := c.value)))
  }

  // ---------------------------------------------------------------------
  // Dispatch

  /** A standard request, dispatched on bRequest; anything the driver does
      not handle itself goes to the gadget driver. */
  function StdRequest(d: Dwc, c: Ctrl, setupRet: int, haltErr: int): (h: Handled)
    requires DwcOk(d)
    ensures DwcOk(h.d) && SameStages(h.d.phase, d.phase)
    ensures c.request == REQ_GET_STATUS ==> h == HandleStatus(d, c, setupRet)
    ensures c.request == REQ_CLEAR_FEATURE ==> h == HandleFeature(d, c, false, setupRet, haltErr)
    ensures c.request == REQ_SET_FEATURE ==> h == HandleFeature(d, c, true, setupRet, haltErr)
    ensures c.request == REQ_SET_ADDRESS ==> h == SetAddress(d, c)
    ensures c.request == REQ_SET_CONFIGURATION ==> h == SetConfig(d, c, setupRet)
    ensures c.request == REQ_SET_SEL ==> h == SetSel(d, c)
    ensures c.request == REQ_SET_ISOCH_DELAY ==> h == SetIsochDelay(d, c)
    ensures (c.request !in {REQ_GET_STATUS, REQ_CLEAR_FEATURE, REQ_SET_FEATURE, REQ_SET_ADDRESS,
                            REQ_SET_CONFIGURATION, REQ_SET_SEL, REQ_SET_ISOCH_DELAY}) ==> h == Handled(setupRet, d)
  {
    if c.request == REQ_GET_STATUS then HandleStatus(d, c, setupRet)
    else if c.request == REQ_CLEAR_FEATURE then HandleFeature(d, c, false, setupRet, haltErr)
    else if c.request == REQ_SET_FEATURE then HandleFeature(d, c, true, setupRet, haltErr)
    else if c.request == REQ_SET_ADDRESS then SetAddress(d, c)
    else if c.request == REQ_SET_CONFIGURATION then SetConfig(d, c, setupRet)
    else if c.request == REQ_SET_SEL then SetSel(d, c)
    else if c.request == REQ_SET_ISOCH_DELAY then SetIsochDelay(d, c)
    else Handled(setupRet, d)
  }

  // ---------------------------------------------------------------------
  // Requests in sequence

  /** An endpoint request for ENDPOINT_HALT on the endpoint wIndex names. */
  predicate HaltRequest(c: Ctrl) {
    Recipient(c) == RECIP_ENDPOINT && c.value == FEATURE_ENDPOINT_HALT
  }

  /** Set Feature(ENDPOINT_HALT) on an enabled endpoint, then Get Status
      for that endpoint: the status reply queued on ep0 reports the halt. */
  lemma HaltThenStatus(d: Dwc, c: Ctrl, g: Ctrl, setupRet: int)
    requires DwcOk(d) && HaltRequest(c) && WIndexToDep(d.eps, c.index).Some?
    requires Recipient(g) == RECIP_ENDPOINT && g.index == c.index
    ensures var h := HandleFeature(d, c, true, setupRet, 0);
            h.ret == 0
            && var s := HandleStatus(h.d, g, setupRet);
               s.ret == 0 && |s.d.queue| == |d.queue| + 1
               && s.d.queue[|d.queue|].kind == StatusReply(1) && s.d.queue[|d.queue|].length == 2
  {
    var h := HandleFeature(d, c, true, setupRet, 0);
    assert h == EndpointHalt(d, c, true, 0);
    var n := PhysEp(c.index);
    assert h.d.eps[n] == Some(d.eps[n].value.(stall := true));
    assert WIndexToDep(h.d.eps, g.index) == Some(n);
  }

  /** Clear Feature(ENDPOINT_HALT) undoes Set Feature(ENDPOINT_HALT) on an
      enabled endpoint that was neither halted nor wedged. */
  lemma HaltThenClear(d: Dwc, c: Ctrl, setupRet: int)
    requires DwcOk(d) && HaltRequest(c) && WIndexToDep(d.eps, c.index).Some?
    requires !d.eps[PhysEp(c.index)].value.stall && !d.eps[PhysEp(c.index)].value.wedge
    ensures var h := HandleFeature(d, c, true, setupRet, 0);
            h.ret == 0 && HandleFeature(h.d, c, false, setupRet, 0) == Handled(0, d)
  {
    var n := PhysEp(c.index);
    var h := HandleFeature(d, c, true, setupRet, 0);
    assert h.d.eps == d.eps[n := Some(d.eps[n].value.(stall := true))];
    var h2 := HandleFeature(h.d, c, false, setupRet, 0);
    assert h2.d.eps == h.d.eps[n := Some(h.d.eps[n].value.(stall := false, wedge := false))];
    assert h2.d.eps == d.eps;
  }

  /** Enumeration: from the Default state, Set Address with a nonzero
      address and then a Set Configuration with a nonzero configuration that
      the gadget driver accepts leave the device configured at that
      address. */
  lemma AddressThenConfigure(d: Dwc, a: Ctrl, c: Ctrl)
    requires DwcOk(d) && d.dev.usb == Default
    requires 0 < a.value <= 127 && c.value != 0
    ensures var h := SetAddress(d, a);
            h.ret == 0 && h.d.dev.usb == Address
            && var k := SetConfig(h.d, c, 0);
               k.ret == 0 && k.d.dev.usb == Configured && k.d.dev.address == a.value
  {
  }

  /** Set Configuration(0) accepted by the gadget driver undoes a
      configuration: the device is back in the Address state, at the same
      address. */
  lemma ConfigureThenUnconfigure(d: Dwc, c: Ctrl, z: Ctrl)
    requires DwcOk(d) && d.dev.usb == Address && c.value != 0 && z.value == 0
    ensures var k := SetConfig(d, c, 0);
            k.d.dev.usb == Configured
            && var u := SetConfig(k.d, z, 0);
               u.ret == 0 && u.d.dev.usb == Address && u.d.dev.address == d.dev.address
  {
  }

  /** Set SEL queues a buffer for the six bytes; when they arrive the exit
      latencies are stored and the periodic parameter derived from them,
      and nothing else about the device changes (in particular the U1/U2
      bits the parameter is chosen by). */
  lemma SelThenCompletion(d: Dwc, c: Ctrl, buf: seq<U8>)
    requires DwcOk(d) && d.dev.usb != Default && c.length == 6 && |buf| >= 6
    ensures var h := SetSel(d, c);
            h.ret == 0 && h.d.queue[|d.queue|].kind == SelReq
            && var dev := SetSelCmpl(h.d.dev, buf);
               dev.sel.u1sel == buf[0] && dev.sel.u1pel == buf[1]
               && dev.sel.u2sel == buf[2] as int + 256 * buf[3] as int
               && dev.sel.u2pel == buf[4] as int + 256 * buf[5] as int
               && dev.periodicParam <= 125 && dev.dctl == d.dev.dctl
               && dev == h.d.dev.(sel := dev.sel, periodicParam := dev.periodicParam)
  {
  }
}
