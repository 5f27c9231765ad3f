/** Starting transfers on ep0, queueing requests on it, and the stall that
    ends a failed control transfer and restarts from the SETUP stage.

    Return values follow the kernel's convention here: an error is a
    negative error number. */
module Ep0Transfer {
  import opened Wrappers
  import opened Ep0Types
  import opened Arith

  /** Starting a transfer on endpoint `epnum`: nothing happens while the
      endpoint is busy; otherwise the transfer block is set up, the endpoint
      becomes busy with a transfer resource, and the next event expected is
      the transfer's completion. The controller command itself is taken to
      succeed. */
  function StartTrans(d: Dwc, epnum: nat, len: nat, kind: TrbKind): (d': Dwc)
    requires DwcOk(d) && epnum < NUM_EPS && d.eps[epnum].Some?
    ensures DwcOk(d') && d'.dev == d.dev && d'.queue == d.queue && d'.log == d.log
    ensures |d'.eps| == |d.eps| && forall k :: 0 <= k < NUM_EPS && k != epnum ==> d'.eps[k] == d.eps[k]
    ensures d'.eps[epnum].Some? && d'.eps[epnum].value.busy
    ensures d.eps[epnum].value.busy ==> d' == d
    ensures !d.eps[epnum].value.busy ==>
              d'.trb == Some(Trb(epnum, len, kind)) && d'.phase == d.phase.(next := Complete)
              && d'.eps[epnum].value == d.eps[epnum].value.(busy := true, resource := true)
  {
    var e := d.eps[epnum].value;
    if e.busy then d
    else d.(eps := d.eps[epnum := Some(e.(busy := true, resource := true))],
            trb := Some(Trb(epnum, len, kind)),
            phase := d.phase.(next := Complete))
  }

  /** Arming ep0 for the next SETUP packet: unless ep0 OUT is still busy,
      an eight-byte setup transfer starts on it and its completion is the
      next event; nothing else changes. */
  function OutStart(d: Dwc): (d': Dwc)
    requires DwcOk(d)
    ensures DwcOk(d') && d'.dev == d.dev && d'.queue == d.queue && d'.log == d.log
    ensures forall k :: 1 <= k < NUM_EPS ==> d'.eps[k] == d.eps[k]
    ensures d'.eps[0].Some? && d'.eps[0].value.busy
    ensures d.eps[0].value.busy ==> d' == d
    ensures !d.eps[0].value.busy ==>
              d'.trb == Some(Trb(0, 8, SetupTrb)) && d'.phase == d.phase.(next := Complete)
              && d'.eps[0].value == d.eps[0].value.(busy := true, resource := true)
  {
    StartTrans(d, 0, 8, SetupTrb)
  }

  /** Handing the request at the head of ep0's queue back with `status`.
      The gadget layer's give-back (in gadget.c, which is not part of this
      model) also drops the bounce-buffer mark, since every request here is
      given back on ep0. */
  function GiveBackHead(d: Dwc, status: int): (d': Dwc)
    requires d.queue != []
    ensures d'.queue == d.queue[1..] && d'.log == d.log + [Giveback(d.queue[0], status)]
    ensures !d'.phase.bounced
    ensures d' == d.(queue := d'.queue, log := d'.log, phase := d.phase.(bounced := false))
  {
    d.(queue := d.queue[1..], log := d.log + [Giveback(d.queue[0], status)],
       phase := d.phase.(bounced := false))
  }

  /** Stalling ep0 and restarting: both directions of ep0 are reset to
      "enabled" (which also clears the halt just issued), a delayed status
      is forgotten, the request at the head of the queue is handed back
      with ECONNRESET, and ep0 goes back to the SETUP phase, armed for the
      next SETUP packet. */
  function StallAndRestart(d: Dwc): (d': Dwc)
    requires DwcOk(d)
    ensures DwcOk(d') && d'.dev == d.dev
    ensures d'.phase.state == SetupPhase && !d'.phase.delayedStatus && d'.phase.next == Complete
    ensures d'.phase == d.phase.(state := SetupPhase, delayedStatus := false, next := Complete,
                                 bounced := d.phase.bounced && d.queue == [])
    ensures d'.eps[1] == Some(EnabledOnly(d.eps[1].value))
    ensures d'.eps[0] == Some(EnabledOnly(d.eps[0].value).(busy := true, resource := true))
    ensures forall k :: 2 <= k < NUM_EPS ==> d'.eps[k] == d.eps[k]
    ensures d'.trb == Some(Trb(0, 8, SetupTrb))
    ensures d.queue == [] ==> d'.queue == [] && d'.log == d.log
    ensures d.queue != [] ==> d'.queue == d.queue[1..] && d'.log == d.log + [Giveback(d.queue[0], -ECONNRESET)]
  {
    var eps := d.eps[1 := Some(EnabledOnly(d.eps[1].value))];
    var eps := eps[0 := Some(EnabledOnly(d.eps[0].value))];
    var d1 := d.(eps := eps, phase := d.phase.(delayedStatus := false));
    var d2 := if d1.queue != [] then GiveBackHead(d1, -ECONNRESET) else d1;
    OutStart(d2.(phase := d2.phase.(state := SetupPhase)))
  }

  /** `n` rounded up to a multiple of `m`. */
  function RoundUp(n: nat, m: nat): (r: nat)
    requires m > 0
    ensures r % m == 0 && n <= r < n + m
  {
    if n % m == 0 then n
    else
      var q := n / m;
      assert n + (m - n % m) == m * (q + 1) by { MulSplit(m, q, 1); }
      MultipleMod(m, q + 1);
      n + (m - n % m)
  }

  /** Starting the data stage on endpoint `epnum` for the request last
      queued: a zero-length stage directly; a stage on ep0 OUT whose length
      is not a multiple of the maximum packet through the bounce buffer,
      rounded up to whole packets; otherwise straight from the request, an
      IN request of whole packets being marked to end with a zero-length
      packet. Mapping the buffer for DMA is taken to succeed. */
  function DoControlData(d: Dwc, epnum: nat): (d': Dwc)
    requires DwcOk(d) && d.queue != [] && (epnum == 0 || epnum == 1)
    ensures DwcOk(d') && d'.dev == d.dev && d'.log == d.log
    ensures |d'.queue| == |d.queue| && d'.queue[..|d.queue| - 1] == d.queue[..|d.queue| - 1]
    ensures var r, r' := d.queue[|d.queue| - 1], d'.queue[|d.queue| - 1];
            r' == r.(zero := r'.zero)
            && (r'.zero <==> r.zero || (epnum == 1 && r.length != 0 && r.length % d.dev.maxPacket == 0))
    ensures d'.eps[epnum].value.busy
    ensures forall k :: 0 <= k < NUM_EPS && k != epnum ==> d'.eps[k] == d.eps[k]
    ensures !d.eps[epnum].value.busy ==>
              var r := d.queue[|d.queue| - 1];
              d'.trb.Some? && d'.trb.value.ep == epnum && d'.trb.value.kind == DataTrb
              && d'.trb.value.len == RoundUp(r.length, if epnum == 0 && r.length % d.dev.maxPacket != 0 then d.dev.maxPacket else 1)
              && d'.phase.next == Complete
    ensures var r := d.queue[|d.queue| - 1];
            d'.phase.bounced <==> d.phase.bounced || (epnum == 0 && r.length != 0 && r.length % d.dev.maxPacket != 0)
    ensures d'.phase.next == (if d.eps[epnum].value.busy then d.phase.next else Complete)
    ensures d'.phase == d.phase.(bounced := d'.phase.bounced, next := d'.phase.next)
  {
    var last := |d.queue| - 1;
    var r := d.queue[last];
    var maxp := d.dev.maxPacket;
    if r.length == 0 then StartTrans(d, epnum, 0, DataTrb)
    else if r.length % maxp != 0 && epnum == 0 then
      StartTrans(d.(phase := d.phase.(bounced := true)), epnum, RoundUp(r.length, maxp), DataTrb)
    else
      var d1 := if epnum != 0 && r.length % maxp == 0 then d.(queue := d.queue[last := r.(zero := true)]) else d;
      assert RoundUp(r.length, 1) == r.length;
      StartTrans(d1, epnum, r.length, DataTrb)
  }

  /** Starting the status stage on endpoint `epnum`: unless the endpoint is
      busy, a zero-length transfer of the status kind that matches the
      number of stages starts on it and its completion is the next event;
      nothing else changes. */
  function DoControlStatus(d: Dwc, epnum: nat): (d': Dwc)
    requires DwcOk(d) && (epnum == 0 || epnum == 1)
    ensures DwcOk(d') && d'.dev == d.dev && d'.queue == d.queue && d'.log == d.log
    ensures forall k :: 0 <= k < NUM_EPS && k != epnum ==> d'.eps[k] == d.eps[k]
    ensures d'.eps[epnum].Some? && d'.eps[epnum].value.busy
    ensures d.eps[epnum].value.busy ==> d' == d
    ensures !d.eps[epnum].value.busy ==>
              d'.trb == Some(Trb(epnum, 0, if d.phase.threeStage then Status3Trb else Status2Trb))
              && d'.phase == d.phase.(next := Complete)
              && d'.eps[epnum].value == d.eps[epnum].value.(busy := true, resource := true)
  {
    StartTrans(d, epnum, 0, if d.phase.threeStage then Status3Trb else Status2Trb)
  }

  /** Queueing request `r` on ep0. It is appended to the queue with
      nothing transferred yet; then, if a
      "transfer not ready" for the data stage came before any request, the
      data stage starts now (when still in the data phase); else, if the
      gadget driver had delayed the status stage, the device is now
      configured and the status stage starts (when already in the status
      phase); else, for a transfer with a data stage, the data phase begins
      in the direction the SETUP packet announced. */
  function Ep0Queue(d: Dwc, r: Req): (d': Dwc)
    requires DwcOk(d)
    ensures DwcOk(d') && d'.log == d.log && SameStages(d'.phase, d.phase)
    ensures |d'.queue| == |d.queue| + 1 && d'.queue[..|d.queue|] == d.queue
    ensures d'.queue[|d.queue|] == r.(actual := 0, zero := d'.queue[|d.queue|].zero)
    ensures d.eps[0].value.pendingRequest ==>
              d'.phase.state == d.phase.state && d'.dev == d.dev
              && (d.phase.state == DataPhase ==> !d'.eps[0].value.pendingRequest && !d'.eps[0].value.dirIn)
              && (d.phase.state != DataPhase ==> d' == d.(queue := d.queue + [r.(actual := 0)]))
    ensures d.eps[0].value.pendingRequest && d.phase.state == DataPhase ==>
              DataStarted(d, d', if d.eps[0].value.dirIn then 1 else 0)
    ensures !d.eps[0].value.pendingRequest && d.phase.delayedStatus ==>
              !d'.phase.delayedStatus && d'.dev == d.dev.(usb := Configured) && d'.phase.state == d.phase.state
              && (d.phase.state == StatusPhase && !d.eps[if d.phase.expectIn then 0 else 1].value.busy ==>
                    d'.trb == Some(Trb(if d.phase.expectIn then 0 else 1, 0, if d.phase.threeStage then Status3Trb else Status2Trb)))
    ensures !d.eps[0].value.pendingRequest && !d.phase.delayedStatus ==>
              d'.dev == d.dev
              && (d.phase.threeStage ==> d'.phase.state == DataPhase && DataStarted(d, d', if d.phase.expectIn then 1 else 0))
              && (!d.phase.threeStage ==> d' == d.(queue := d.queue + [r.(actual := 0)]))
  {
    var d1 := d.(queue := d.queue + [r.(actual := 0)]);
    if d.eps[0].value.pendingRequest then QueuePending(d1)
    else if d.phase.delayedStatus then QueueDelayed(d1)
    else if d.phase.threeStage then QueueThreeStage(d1)
    else d1
  }

  /** The data stage is under way on endpoint `epnum`: the endpoint is
      busy, and unless it already was, a data transfer was started on it and
      its completion is the next event. */
  predicate DataStarted(d: Dwc, d': Dwc, epnum: nat)
    requires |d.eps| == |d'.eps| == NUM_EPS && epnum < NUM_EPS
  {
    d'.eps[epnum].Some? && d'.eps[epnum].value.busy
    && (d.eps[epnum].Some? && !d.eps[epnum].value.busy ==>
          d'.trb.Some? && d'.trb.value.ep == epnum && d'.trb.value.kind == DataTrb && d'.phase.next == Complete)
  }

  /** A data stage the host already asked for starts with the request just
      queued, if ep0 is still in the data phase. */
  function QueuePending(d: Dwc): (d': Dwc)
    requires DwcOk(d) && d.queue != [] && d.eps[0].value.pendingRequest
    ensures DwcOk(d') && d'.log == d.log && d'.dev == d.dev && d'.phase.state == d.phase.state
    ensures SameStages(d'.phase, d.phase)
    ensures |d'.queue| == |d.queue| && d'.queue[..|d.queue| - 1] == d.queue[..|d.queue| - 1]
    ensures d'.queue[|d.queue| - 1] == d.queue[|d.queue| - 1].(zero := d'.queue[|d.queue| - 1].zero)
    ensures d.phase.state == DataPhase ==> !d'.eps[0].value.pendingRequest && !d'.eps[0].value.dirIn
    ensures d.phase.state == DataPhase ==> DataStarted(d, d', if d.eps[0].value.dirIn then 1 else 0)
    ensures d.phase.state != DataPhase ==> d' == d
  {
    if d.phase.state != DataPhase then d
    else
      var d2 := DoControlData(d, if d.eps[0].value.dirIn then 1 else 0);
      d2.(eps := d2.eps[0 := Some(d2.eps[0].value.(pendingRequest := false, dirIn := false))])
  }

  /** The status stage the gadget driver delayed may go ahead: the device
      is configured, and the status stage starts if the host asked for it. */
  function QueueDelayed(d: Dwc): (d': Dwc)
    requires DwcOk(d) && d.phase.delayedStatus
    ensures DwcOk(d') && d'.log == d.log && d'.queue == d.queue && SameStages(d'.phase, d.phase)
    ensures !d'.phase.delayedStatus && d'.dev == d.dev.(usb := Configured) && d'.phase.state == d.phase.state
    ensures d.phase.state == StatusPhase && !d.eps[if d.phase.expectIn then 0 else 1].value.busy ==>
              d'.trb == Some(Trb(if d.phase.expectIn then 0 else 1, 0, if d.phase.threeStage then Status3Trb else Status2Trb))
  {
    var d2 := d.(phase := d.phase.(delayedStatus := false), dev := d.dev.(usb := Configured));
    if d.phase.state == StatusPhase then DoControlStatus(d2, if d.phase.expectIn then 0 else 1) else d2
  }

  /** A transfer with a data stage enters the data phase and starts it in
      the announced direction. */
  function QueueThreeStage(d: Dwc): (d': Dwc)
    requires DwcOk(d) && d.queue != []
    ensures DwcOk(d') && d'.log == d.log && d'.dev == d.dev && SameStages(d'.phase, d.phase)
    ensures |d'.queue| == |d.queue| && d'.queue[..|d.queue| - 1] == d.queue[..|d.queue| - 1]
    ensures d'.queue[|d.queue| - 1] == d.queue[|d.queue| - 1].(zero := d'.queue[|d.queue| - 1].zero)
    ensures d'.phase.state == DataPhase && DataStarted(d, d', if d.phase.expectIn then 1 else 0)
  {
    var epnum := if d.phase.expectIn then 1 else 0;
    var d2 := DoControlData(d.(phase := d.phase.(state := DataPhase)), epnum);
    d2.(eps := d2.eps[0 := Some(d2.eps[0].value.(dirIn := false))])
  }

  /** The gadget driver queueing `r` on ep0: refused with ESHUTDOWN while
      ep0 has no descriptor (it is disabled) and with EBUSY while a request
      is already queued, since ep0 has a single transfer block. */
  function GadgetQueue(d: Dwc, r: Req, hasDesc: bool): (res: (int, Dwc))
    requires DwcOk(d)
    ensures res.0 == 0 || res.0 == -ESHUTDOWN || res.0 == -EBUSY
    ensures res.0 == -ESHUTDOWN <==> !hasDesc
    ensures res.0 == -EBUSY <==> hasDesc && d.queue != []
    ensures res.0 != 0 ==> res.1 == d
    ensures res.0 == 0 ==> res.1 == Ep0Queue(d, r) && res.1.queue[0] == r.(actual := 0, zero := res.1.queue[0].zero)
  {
    if !hasDesc then (-ESHUTDOWN, d)
    else if d.queue != [] then (-EBUSY, d)
    else (0, Ep0Queue(d, r))
  }
}
