/** The phase machine of ep0: what the driver does on "transfer complete"
    for the SETUP, DATA and STATUS stages and on "transfer not ready" for
    the DATA and STATUS stages. */
module Ep0Phase {
  import opened Wrappers
  import opened Ep0Types
  import opened Ep0Transfer
  import opened Ep0Requests

  /** Deciding from a SETUP packet whether a data stage follows: without
      one, the status stage is next and goes IN after an OUT setup; with one,
      the data stage is next, in the direction bmRequestType announces. */
  function Stages(p: Phase, c: Ctrl): (p': Phase)
    ensures p'.threeStage <==> c.length != 0
    ensures p'.expectIn <==> c.length != 0 && DirIn(c)
    ensures p'.next == (if c.length == 0 then NrdyStatus else NrdyData)
    ensures p' == p.(threeStage := p'.threeStage, expectIn := p'.expectIn, next := p'.next)
  {
    if c.length == 0 then p.(threeStage := false, expectIn := false, next := NrdyStatus)
    else p.(threeStage := true, expectIn := DirIn(c), next := NrdyData)
  }

  /** A SETUP packet has arrived. Without a gadget driver it is refused.
      Otherwise the stages are decided, a standard request is handled (or
      passed on) and any other request goes to the gadget driver; a gadget
      driver asking to delay the status stage is remembered, and any
      negative result stalls ep0 and restarts. */
  function InspectSetup(d: Dwc, c: Ctrl, hasDriver: bool, setupRet: int, haltErr: int): (h: Handled)
    requires DwcOk(d)
    ensures DwcOk(h.d)
    ensures !hasDriver ==> h == Handled(-EINVAL, StallAndRestart(d))
    ensures hasDriver ==> h.ret == (if RequestType(c) == 0 then StdRequest(d.(phase := Stages(d.phase, c)), c, setupRet, haltErr).ret else setupRet)
    ensures h.ret < 0 ==> h.d.phase.state == SetupPhase && !h.d.phase.delayedStatus && h.d.phase.next == Complete
    ensures h.ret == DELAYED_STATUS ==> h.d.phase.delayedStatus
    ensures hasDriver && h.ret >= 0 ==>
              (h.d.phase.threeStage <==> c.length != 0) && (h.d.phase.expectIn <==> c.length != 0 && DirIn(c))
    ensures hasDriver && RequestType(c) != 0 && setupRet >= 0 ==>
              h.d == d.(phase := Stages(d.phase, c).(delayedStatus := d.phase.delayedStatus || setupRet == DELAYED_STATUS))
  {
    if !hasDriver then Handled(-EINVAL, StallAndRestart(d))
    else
      var d1 := d.(phase := Stages(d.phase, c));
      var h := if RequestType(c) == 0 then StdRequest(d1, c, setupRet, haltErr) else Handled(setupRet, d1);
      var d2 := if h.ret == DELAYED_STATUS then h.d.(phase := h.d.phase.(delayedStatus := true)) else h.d;
      if h.ret < 0 then Handled(h.ret, StallAndRestart(d2)) else Handled(h.ret, d2)
  }

  /** The request at the head of ep0's queue, completing an IN data stage
      of whole packets, asks for a trailing zero-length packet. */
  predicate ZlpNow(d: Dwc, epnum: nat)
    requires DwcOk(d) && d.queue != []
  {
    epnum == 1 && d.queue[0].zero && d.queue[0].length % d.dev.maxPacket == 0
  }

  /** The data stage is complete on endpoint `epnum`: the status stage is
      next. With no request queued nothing more happens. An IN request of
      whole packets that wants a zero-length packet defers completion to
      it. A stage the controller ended because a new SETUP packet came
      (`setupPendingTrb`) hands the request back with ECONNRESET. Otherwise
      the bytes moved (`remaining` of the transfer block left over) are
      added to the request; an IN stage that fell short stalls, anything
      else hands the request back done, and a whole-packet request that
      wants it gets its zero-length packet. */
  function CompleteData(d: Dwc, epnum: nat, setupPendingTrb: bool, remaining: nat): (d': Dwc)
    requires DwcOk(d) && (epnum == 0 || epnum == 1)
    ensures DwcOk(d')
    ensures d.queue == [] ==> d' == d.(phase := d.phase.(next := NrdyStatus))
    ensures d.queue != [] && setupPendingTrb ==>
              |d'.log| == |d.log| + 1 && d'.log[|d.log|].status == -ECONNRESET && d'.queue == d.queue[1..]
              && !d'.phase.zlpRequired && d'.phase.next == NrdyStatus
    ensures d.queue != [] && !setupPendingTrb && (d.phase.zlpRequired || ZlpNow(d, epnum)) ==>
              d'.phase == d.phase.(next := NrdyStatus, zlpRequired := true)
              && d'.log == d.log && d'.eps == d.eps && d'.trb == d.trb && d'.dev == d.dev
              && d'.queue == d.queue[0 := d.queue[0].(zero := d.queue[0].zero && !ZlpNow(d, epnum))]
    ensures d.queue != [] && !setupPendingTrb && !d.phase.zlpRequired && !ZlpNow(d, epnum) ==>
              d' == CountData(d.(phase := d.phase.(next := NrdyStatus)), epnum, remaining)
    ensures |d.log| <= |d'.log| <= |d.log| + 1 && d'.log[..|d.log|] == d.log
    ensures |d'.log| == |d.log| + 1 ==> d'.log[|d.log|].req.kind == d.queue[0].kind
  {
    var d1 := d.(phase := d.phase.(next := NrdyStatus));
    if d.queue == [] then d1
    else CompleteHead(d1, epnum, setupPendingTrb, remaining)
  }

  /** The data-stage completion once a request is queued: the head request
      is marked for a trailing zero-length packet when it asks for one on
      an IN stage, then either given back reset, left waiting for that
      packet, or accounted for. */
  function CompleteHead(d: Dwc, epnum: nat, setupPendingTrb: bool, remaining: nat): (d': Dwc)
    requires DwcOk(d) && (epnum == 0 || epnum == 1) && d.queue != []
    ensures DwcOk(d')
    ensures setupPendingTrb ==>
              |d'.log| == |d.log| + 1 && d'.log[|d.log|].status == -ECONNRESET && d'.queue == d.queue[1..]
              && !d'.phase.zlpRequired && d'.phase.next == d.phase.next
    ensures !setupPendingTrb && (d.phase.zlpRequired || ZlpNow(d, epnum)) ==>
              d'.phase == d.phase.(zlpRequired := true)
              && d'.log == d.log && d'.eps == d.eps && d'.trb == d.trb && d'.dev == d.dev
              && d'.queue == d.queue[0 := d.queue[0].(zero := d.queue[0].zero && !ZlpNow(d, epnum))]
    ensures !setupPendingTrb && !d.phase.zlpRequired && !ZlpNow(d, epnum) ==> d' == CountData(d, epnum, remaining)
    ensures |d.log| <= |d'.log| <= |d.log| + 1 && d'.log[..|d.log|] == d.log
    ensures |d'.log| == |d.log| + 1 ==> d'.log[|d.log|].req.kind == d.queue[0].kind
  {
    var r := d.queue[0];
    var zlpNow := ZlpNow(d, epnum);
    var q := d.queue[0 := r.(zero := r.zero && !zlpNow)];
    if setupPendingTrb then
      GiveBackHead(d.(queue := q, phase := d.phase.(zlpRequired := false)), -ECONNRESET)
    else if d.phase.zlpRequired || zlpNow then d.(queue := q, phase := d.phase.(zlpRequired := true))
    else CountData(d, epnum, remaining)
  }

  /** Accounting for the bytes a data stage moved and finishing it. */
  function CountData(d: Dwc, epnum: nat, remaining: nat): (d': Dwc)
    requires DwcOk(d) && (epnum == 0 || epnum == 1) && d.queue != []
    ensures DwcOk(d')
    ensures |d'.log| == |d.log| + 1 && d'.log[..|d.log|] == d.log && d'.log[|d.log|].req.kind == d.queue[0].kind
    ensures var r := d'.log[|d.log|].req;
            r == d.queue[0].(actual := r.actual)
            && r.actual == (d.queue[0].actual + Transferred(d.phase.bounced, d.queue[0].length, d.dev.maxPacket, remaining)) % U32_LIMIT
            && (d'.log[|d.log|].status == -ECONNRESET <==> epnum == 1 && r.actual < r.length)
            && (d'.log[|d.log|].status != -ECONNRESET ==> d'.log[|d.log|].status == 0)
    ensures d'.queue == d.queue[1..]
  {
    var r := d.queue[0];
    var moved := Transferred(d.phase.bounced, r.length, d.dev.maxPacket, remaining);
    var r1 := r.(actual := (r.actual + moved) % U32_LIMIT);
    var d1 := d.(queue := d.queue[0 := r1]);
    if epnum == 1 && r1.actual < r1.length then StallAndRestart(d1)
    else
      var d2 := GiveBackHead(d1, 0);
      if r1.length % d.dev.maxPacket == 0 && r1.length != 0 && r1.zero then
        StartTrans(d2.(phase := d2.phase.(next := Complete)), epnum, 0, DataTrb)
      else d2
  }

  /** The bytes a data stage moved, in 32-bit arithmetic: through the bounce
      buffer, the padded transfer size less what is left, but no more than
      the request asked for; otherwise the request's length less what is
      left. */
  function Transferred(bounced: bool, length: nat, maxp: nat, remaining: nat): (t: nat)
    requires maxp > 0
    ensures t < U32_LIMIT
    ensures bounced && remaining <= length ==> t <= length
    ensures !bounced && remaining <= length < U32_LIMIT ==> t == length - remaining
  {
    if bounced then
      var size := length + (maxp - length % maxp);
      var moved := (size - remaining) % U32_LIMIT;
      if length < moved then length % U32_LIMIT else moved
    else (length - remaining) % U32_LIMIT
  }

  /** The status stage is complete: the request queued for it is handed
      back done; a requested test mode is entered, and if the controller
      refuses it (`testModeOk` false) ep0 stalls; ep0 then returns to the
      SETUP phase, armed for the next SETUP packet. */
  function CompleteStatus(d: Dwc, testModeOk: bool): (d': Dwc)
    requires DwcOk(d)
    ensures DwcOk(d')
    ensures d'.phase.state == SetupPhase
    ensures d'.dev == d.dev
    ensures d.queue != [] ==> |d'.log| >= |d.log| + 1 && d'.log[|d.log|] == Giveback(d.queue[0], 0)
    ensures d.dev.testMode && !testModeOk ==> d'.phase.next == Complete && d'.trb == Some(Trb(0, 8, SetupTrb))
    ensures !d.eps[0].value.busy ==> d'.phase.next == Complete && d'.trb == Some(Trb(0, 8, SetupTrb))
  {
    var d1 := if d.queue != [] then GiveBackHead(d, 0) else d;
    if d.dev.testMode && !testModeOk then StallAndRestart(d1)
    else
      OutStart(d1.(phase := d1.phase.(state := SetupPhase)))
  }

  /** A "transfer complete" event on ep0 endpoint `epnum`: the endpoint is
      no longer busy and holds no transfer resource, no SETUP is pending,
      and the phase decides what completed. */
  function XferComplete(d: Dwc, epnum: nat, c: Ctrl, hasDriver: bool, setupRet: int, haltErr: int,
                        setupPendingTrb: bool, remaining: nat, testModeOk: bool): (d': Dwc)
    requires DwcOk(d) && (epnum == 0 || epnum == 1)
    ensures DwcOk(d')
    ensures d.phase.state == StatusPhase ==> d'.phase.state == SetupPhase
    ensures d.phase.state == Unconnected ==> d'.phase.state == Unconnected
    ensures d.phase.state == SetupPhase && !hasDriver ==> d'.phase.state == SetupPhase && d'.phase.next == Complete
  {
    var e := d.eps[epnum].value;
    var d1 := d.(eps := d.eps[epnum := Some(e.(busy := false, resource := false))],
                 phase := d.phase.(setupPending := false));
    match d.phase.state
    case SetupPhase => InspectSetup(d1, c, hasDriver, setupRet, haltErr).d
    case DataPhase => CompleteData(d1, epnum, setupPendingTrb, remaining)
    case StatusPhase => CompleteStatus(d1, testModeOk)
    case Unconnected => d1
  }

  /** Ending a started data stage: the controller gives up the endpoint's
      transfer resource. */
  function EndControlData(d: Dwc, epnum: nat): (d': Dwc)
    requires DwcOk(d) && (epnum == 0 || epnum == 1)
    ensures DwcOk(d') && !d'.eps[epnum].value.resource
    ensures d' == d.(eps := d'.eps) && d'.eps == d.eps[epnum := Some(d.eps[epnum].value.(resource := false))]
  {
    d.(eps := d.eps[epnum := Some(d.eps[epnum].value.(resource := false))])
  }

  /** What a "transfer not ready" event says the host wants. */
  datatype NotReady = ControlData | ControlStatus | OtherStatus

  /** A "transfer not ready" event on ep0 endpoint `epnum`; a SETUP packet
      is now pending. For the data stage it is ignored while waiting for a
      transfer to complete; in the wrong direction the started data stage
      is ended and ep0 stalls; a zero-length packet still owed is sent. For
      the status stage it is ignored unless the status stage is what is
      expected; then ep0 is in the status phase, and the status stage
      starts unless the gadget driver delayed it and has queued nothing
      yet. */
  function XferNotReady(d: Dwc, epnum: nat, status: NotReady): (d': Dwc)
    requires DwcOk(d) && (epnum == 0 || epnum == 1)
    ensures DwcOk(d') && d'.phase.setupPending
    ensures status == ControlStatus && d.phase.next != NrdyStatus ==> d' == d.(phase := d.phase.(setupPending := true))
    ensures status == ControlStatus && d.phase.next == NrdyStatus ==>
              d'.phase.state == StatusPhase && !d'.phase.zlpRequired
              && (d.phase.delayedStatus && d.queue == [] ==> d'.phase.delayedStatus && d'.trb == d.trb)
              && (!(d.phase.delayedStatus && d.queue == []) ==> !d'.phase.delayedStatus)
              && (!(d.phase.delayedStatus && d.queue == []) && !d.eps[epnum].value.busy ==>
                    d'.trb == Some(Trb(epnum, 0, if d.phase.threeStage then Status3Trb else Status2Trb)))
    ensures status == ControlData && d.phase.next == Complete ==> d' == d.(phase := d.phase.(setupPending := true))
    ensures status == ControlData && d.phase.next != Complete && (if d.phase.expectIn then 1 else 0) != epnum ==>
              d'.phase.state == SetupPhase && d'.phase.next == Complete
    ensures status == ControlData && d.phase.next != Complete && (if d.phase.expectIn then 1 else 0) == epnum ==>
              !d'.phase.zlpRequired && d'.queue == d.queue && d'.log == d.log && d'.dev == d.dev
              && (!d.phase.zlpRequired ==> d' == d.(phase := d.phase.(setupPending := true)))
              && (d.phase.zlpRequired && !d.eps[epnum].value.busy ==>
                    d'.trb == Some(Trb(epnum, 0, DataTrb)) && d'.phase.next == Complete)
    ensures status == OtherStatus ==> d' == d.(phase := d.phase.(setupPending := true))
  {
    var d1 := d.(phase := d.phase.(setupPending := true));
    match status
    case ControlData =>
      if d.phase.next == Complete then d1 else DataNotReady(d1, epnum)
    case ControlStatus =>
      if d.phase.next != NrdyStatus then d1 else StatusNotReady(d1, epnum)
    case OtherStatus => d1
  }

  /** The data-stage half of the above, once the SETUP packet is marked
      pending. */
  function DataNotReady(d: Dwc, epnum: nat): (d': Dwc)
    requires DwcOk(d) && (epnum == 0 || epnum == 1) && d.phase.setupPending && d.phase.next != Complete
    ensures DwcOk(d') && d'.phase.setupPending
    ensures (if d.phase.expectIn then 1 else 0) != epnum ==> d'.phase.state == SetupPhase && d'.phase.next == Complete
    ensures (if d.phase.expectIn then 1 else 0) == epnum ==>
              !d'.phase.zlpRequired && d'.queue == d.queue && d'.log == d.log && d'.dev == d.dev
              && (!d.phase.zlpRequired ==> d' == d)
              && (d.phase.zlpRequired && !d.eps[epnum].value.busy ==>
                    d'.trb == Some(Trb(epnum, 0, DataTrb)) && d'.phase.next == Complete)
  {
    var expected := if d.phase.expectIn then 1 else 0;
    if expected != epnum then StallAndRestart(EndControlData(d, expected))
    else if d.phase.zlpRequired then
      StartTrans(d.(phase := d.phase.(zlpRequired := false)), epnum, 0, DataTrb)
    else d
  }

  /** The status-stage half of the above, once the SETUP packet is marked
      pending. */
  function StatusNotReady(d: Dwc, epnum: nat): (d': Dwc)
    requires DwcOk(d) && (epnum == 0 || epnum == 1) && d.phase.setupPending && d.phase.next == NrdyStatus
    ensures DwcOk(d') && d'.phase.setupPending
    ensures d'.phase.state == StatusPhase && !d'.phase.zlpRequired
    ensures d.phase.delayedStatus && d.queue == [] ==> d'.phase.delayedStatus && d'.trb == d.trb
    ensures !(d.phase.delayedStatus && d.queue == []) ==> !d'.phase.delayedStatus
    ensures !(d.phase.delayedStatus && d.queue == []) && !d.eps[epnum].value.busy ==>
              d'.trb == Some(Trb(epnum, 0, if d.phase.threeStage then Status3Trb else Status2Trb))
  {
    var d2 := d.(phase := d.phase.(zlpRequired := false, state := StatusPhase));
    if d2.phase.delayedStatus && d2.queue == [] then d2
    else DoControlStatus(d2.(phase := d2.phase.(delayedStatus := false)), epnum)
  }

  // ---------------------------------------------------------------------
  // Whole control transfers

  /** After a stall, a "transfer not ready" for a data stage is ignored
      until the next SETUP packet has arrived. */
  lemma StallIgnoresDataNotReady(d: Dwc, epnum: nat)
    requires DwcOk(d) && (epnum == 0 || epnum == 1)
    ensures var s := StallAndRestart(d);
            XferNotReady(s, epnum, ControlData) == s.(phase := s.phase.(setupPending := true))
  {
  }

  /** A two-stage control transfer the gadget driver accepts: the SETUP
      stage completes on ep0 OUT, the host then asks for the status stage on
      ep0 IN, which the driver starts; when it completes, ep0 is back in the
      SETUP phase with a SETUP transfer armed. */
  lemma TwoStageTransfer(d: Dwc, c: Ctrl, setupRet: int)
    requires DwcOk(d) && d.phase.state == SetupPhase && !d.eps[1].value.busy && !d.dev.testMode
    requires c.length == 0 && RequestType(c) != 0 && setupRet >= 0 && setupRet != DELAYED_STATUS
    requires !d.phase.delayedStatus
    ensures var d1 := XferComplete(d, 0, c, true, setupRet, 0, false, 0, true);
            d1.phase.next == NrdyStatus && !d1.phase.threeStage
            && var d2 := XferNotReady(d1, 1, ControlStatus);
               d2.phase.state == StatusPhase && d2.trb == Some(Trb(1, 0, Status2Trb))
               && var d3 := XferComplete(d2, 1, c, true, setupRet, 0, false, 0, true);
                  d3.phase.state == SetupPhase && d3.trb == Some(Trb(0, 8, SetupTrb)) && d3.phase.next == Complete
  {
    var d1 := XferComplete(d, 0, c, true, setupRet, 0, false, 0, true);
    var d2 := XferNotReady(d1, 1, ControlStatus);
    assert !d2.eps[0].value.busy;
  }

  /** A bounced OUT stage whose leftover is within the padding counts
      exactly the request's length. */
  lemma BouncedTransferred(length: nat, maxp: nat, remaining: nat)
    requires maxp > 0 && length % maxp != 0 && length + maxp < U32_LIMIT
    requires remaining <= maxp - length % maxp
    ensures Transferred(true, length, maxp, remaining) == length
  {
    var size := length + (maxp - length % maxp);
    assert length <= size - remaining < U32_LIMIT;
  }

  /** A status stage the gadget driver delayed: when the host asks for it
      before the gadget driver has queued anything, ep0 waits in the status
      phase; the gadget driver's request then starts it and the device is
      configured. */
  lemma DelayedStatusWaitsForGadget(d: Dwc, r: Req)
    requires DwcOk(d) && d.phase.next == NrdyStatus && d.phase.delayedStatus && d.queue == []
    requires !d.eps[0].value.pendingRequest && !d.eps[0].value.busy && !d.phase.expectIn
    ensures var d1 := XferNotReady(d, 1, ControlStatus);
            d1.phase.state == StatusPhase && d1.phase.delayedStatus && d1.trb == d.trb
            && var q := GadgetQueue(d1, r, true);
               q.0 == 0 && !q.1.phase.delayedStatus && q.1.dev.usb == Configured
               && (!d.eps[1].value.busy ==>
                     q.1.trb == Some(Trb(1, 0, if d.phase.threeStage then Status3Trb else Status2Trb)))
  {
  }

  /** A three-stage OUT transfer whose length is not a whole number of
      packets: the gadget driver's request starts the data stage through
      the bounce buffer, padded to whole packets; when it completes with no
      more left over than the padding, the request is given back with all
      its bytes and the bounce mark is gone, so the next data stage is
      counted directly again. */
  lemma BouncedOutStage(d: Dwc, r: Req, c: Ctrl, remaining: nat)
    requires DwcOk(d) && d.queue == [] && d.phase.threeStage && !d.phase.expectIn
    requires !d.phase.delayedStatus && !d.phase.zlpRequired
    requires !d.eps[0].value.pendingRequest && !d.eps[0].value.busy
    requires r.length % d.dev.maxPacket != 0 && r.length + d.dev.maxPacket < U32_LIMIT
    requires remaining <= d.dev.maxPacket - r.length % d.dev.maxPacket
    ensures var d1 := Ep0Queue(d, r);
            d1.phase.state == DataPhase && d1.phase.bounced
            && d1.trb == Some(Trb(0, RoundUp(r.length, d.dev.maxPacket), DataTrb))
            && var d2 := XferComplete(d1, 0, c, true, 0, 0, false, remaining, true);
               d2.log == d.log + [Giveback(r.(actual := r.length), 0)]
               && !d2.phase.bounced && d2.phase.next == NrdyStatus && d2.queue == []
  {
    var maxp := d.dev.maxPacket;
    var d1 := Ep0Queue(d, r);
    assert d1.queue == [r.(actual := 0)];
    var e := d1.eps[0].value;
    var d1' := d1.(eps := d1.eps[0 := Some(e.(busy := false, resource := false))],
                   phase := d1.phase.(setupPending := false));
    BouncedTransferred(r.length, maxp, remaining);
  }

  /** An IN data stage of whole packets whose request asks for a trailing
      zero-length packet: its first completion gives nothing back and waits;
      the host's next "transfer not ready" for the data stage sends the
      zero-length packet; its completion gives the request back with every
      byte counted. */
  lemma ZeroLengthPacketEndsInStage(d: Dwc, c: Ctrl, remaining: nat)
    requires DwcOk(d) && d.phase.state == DataPhase && d.phase.expectIn && d.phase.threeStage
    requires !d.phase.zlpRequired && !d.phase.bounced
    requires |d.queue| == 1 && d.queue[0].zero && d.queue[0].actual == 0
    requires d.queue[0].length != 0 && d.queue[0].length % d.dev.maxPacket == 0 && d.queue[0].length < U32_LIMIT
    requires !d.eps[1].value.busy && d.phase.next == Complete
    ensures var d1 := XferComplete(d, 1, c, true, 0, 0, false, remaining, true);
            d1.log == d.log && d1.phase.zlpRequired && d1.phase.next == NrdyStatus
            && var d2 := XferNotReady(d1, 1, ControlData);
               d2.trb == Some(Trb(1, 0, DataTrb)) && !d2.phase.zlpRequired
               && var d3 := XferComplete(d2, 1, c, true, 0, 0, false, 0, true);
                  d3.log == d.log + [Giveback(d.queue[0].(zero := false, actual := d.queue[0].length), 0)]
  {
    var d1 := XferComplete(d, 1, c, true, 0, 0, false, remaining, true);
    assert d1.queue == [d.queue[0].(zero := false)];
    var d2 := XferNotReady(d1, 1, ControlData);
    assert d2.queue == d1.queue && d2.phase.state == DataPhase;
    assert Transferred(false, d.queue[0].length, d.dev.maxPacket, 0) == d.queue[0].length;
  }
}
