/** GEM activity tracking: which rings are still using a buffer object.

    An object remembers, per ring, the last request that reads it and, for
    the whole object, the last request that writes it. Its `active` mask
    names exactly the rings that have a read request outstanding; the model
    keeps that bitmask as the set of rings whose bit is set. Waiting for
    rendering waits on those requests and retires them. */
module GemActivity {
  import opened Wrappers
  import opened GemRequests

  /** The activity part of a buffer object. */
  datatype Activity = Activity(
    active: set<RingId>,
    lastRead: seq<Option<Request>>,
    lastWrite: Option<Request>,
    lastFenced: Option<Request>)

  /** The bookkeeping invariant the driver's debug checks enforce: a ring is
      active exactly when it has an outstanding read request, read slots hold
      requests of their own ring, and a recorded write belongs to an active
      ring. */
  ghost predicate ActivityOk(a: Activity) {
    |a.lastRead| == NUM_RINGS
    && (forall r: RingId :: r in a.active <==> a.lastRead[r].Some?)
    && (forall r: RingId :: a.lastRead[r].Some? ==> a.lastRead[r].value.ring == r)
    && (a.lastWrite.Some? ==> a.lastWrite.value.ring in a.active)
  }

  /** No ring has anything outstanding. */
  ghost predicate Idle(a: Activity) {
    a.active == {} && a.lastWrite.None?
    && forall r: RingId :: r < |a.lastRead| ==> a.lastRead[r].None?
  }

  /** A freshly created object is idle. */
  function Inactive(): (a: Activity)
    ensures ActivityOk(a) && Idle(a)
  {
    Activity({}, seq(NUM_RINGS, _ => None), None, None)
  }

  /** Marking the object as read by `req`: its ring becomes active and the
      ring's read slot holds `req`. */
  function MoveToActive(a: Activity, req: Request): (a': Activity)
    requires ActivityOk(a)
    ensures ActivityOk(a')
    ensures a'.lastRead[req.ring] == Some(req) && req.ring in a'.active
    ensures forall r: RingId :: r != req.ring ==> a'.lastRead[r] == a.lastRead[r]
    ensures a'.lastWrite == a.lastWrite
  {
    a.(active := a.active + {req.ring},
       lastRead := a.lastRead[req.ring := Some(req)])
  }

  /** Forgetting the write request once it is known complete; the driver
      insists the write's ring is still active. */
  function RetireWrite(a: Activity): (a': Activity)
    requires a.lastWrite.Some? && a.lastWrite.value.ring in a.active
    ensures a'.lastWrite.None? && a' == a.(lastWrite := None)
  {
    a.(lastWrite := None)
  }

  /** Retiring ring `r`'s read: its slot is emptied, a write on the same ring
      is forgotten too, and the ring leaves `active`; the last fence request
      is dropped once nothing is active. */
  function RetireRead(a: Activity, r: RingId): (a': Activity)
    requires ActivityOk(a) && a.lastRead[r].Some?
    ensures ActivityOk(a')
    ensures a'.lastRead == a.lastRead[r := None]
    ensures a'.active == a.active - {r}
    ensures a'.lastWrite == (if a.lastWrite.Some? && a.lastWrite.value.ring == r then None else a.lastWrite)
    ensures a'.active == {} <==> forall s: RingId :: a'.lastRead[s].None?
    ensures a'.lastFenced == (if a'.active == {} then None else a.lastFenced)
  {
    var a1 := a.(lastRead := a.lastRead[r := None]);
    var a2 := if a1.lastWrite.Some? && a1.lastWrite.value.ring == r then RetireWrite(a1) else a1;
    var a3 := a2.(active := a2.active - {r});
    assert a3.active != {} ==> exists s: RingId :: s in a3.active;
    if a3.active != {} then a3 else a3.(lastFenced := None)
  }

  /** What a wait leaves behind: its return (0 or an error number), the
      object's activity and the rings' request FIFOs. */
  datatype Waited = Waited(ret: int, act: Activity, queues: seq<seq<Request>>)

  /** Each FIFO afterwards is what retiring left of the one before. */
  ghost predicate Shrunk(queues: seq<seq<Request>>, queues': seq<seq<Request>>) {
    |queues'| == |queues|
    && forall r :: 0 <= r < |queues| ==> |queues'[r]| <= |queues[r]| && queues'[r] == queues[r][|queues[r]| - |queues'[r]|..]
  }

  lemma ShrunkTrans(q1: seq<seq<Request>>, q2: seq<seq<Request>>, q3: seq<seq<Request>>)
    requires Shrunk(q1, q2) && Shrunk(q2, q3)
    ensures Shrunk(q1, q3)
  {
    forall r | 0 <= r < |q1|
      ensures q3[r] == q1[r][|q1[r]| - |q3[r]|..]
    {
      assert q2[r][|q2[r]| - |q3[r]|..] == q1[r][|q1[r]| - |q3[r]|..];
    }
  }

  /** Retiring on ring `req.ring` every request up to `req`. */
  function RetireUptoOn(queues: seq<seq<Request>>, req: Request): (q: seq<seq<Request>>)
    requires |queues| == NUM_RINGS
    ensures Shrunk(queues, q) && q == queues[req.ring := RetireUpto(queues[req.ring], req)]
  {
    queues[req.ring := RetireUpto(queues[req.ring], req)]
  }

  /** A blocking wait for one request (wedge check included): on success the
      request and all before it on its ring are retired. */
  function WaitRequest(queues: seq<seq<Request>>, req: Request, wait: Request -> WaitResult): (w: (int, seq<seq<Request>>))
    requires |queues| == NUM_RINGS
    ensures w.0 == 0 <==> wait(req).Signalled?
    ensures w.0 != 0 ==> w.0 == wait(req).Errno() && w.1 == queues
    ensures w.0 == 0 ==> w.1 == RetireUptoOn(queues, req)
  {
    if !wait(req).Signalled? then (wait(req).Errno(), queues) else (0, RetireUptoOn(queues, req))
  }

  /** What waiting for the reads from ring `from` on promises: the rings
      before `from` are untouched; on success every ring from `from` on has
      no read left, so the object is idle when the earlier rings had none
      either; a failure is the error of the wait for some outstanding read
      from `from` on. */
  ghost predicate ReadsWaited(a: Activity, queues: seq<seq<Request>>, from: nat, wait: Request -> WaitResult, w: Waited)
    requires ActivityOk(a) && from <= NUM_RINGS
  {
    ActivityOk(w.act) && Shrunk(queues, w.queues)
    && (forall r: RingId :: r < from ==> w.act.lastRead[r] == a.lastRead[r])
    && (w.ret == 0 ==> forall r: RingId :: from <= r ==> w.act.lastRead[r].None?)
    && (w.ret == 0 && (forall r: RingId :: r < from ==> a.lastRead[r].None?) ==> Idle(w.act))
    && (w.ret != 0 ==> exists r: RingId :: from <= r && a.lastRead[r].Some? && !wait(a.lastRead[r].value).Signalled? && w.ret == wait(a.lastRead[r].value).Errno())
  }

  /** Waiting, in ring order from `from`, for every outstanding read and
      retiring each as it completes; the first failure stops the walk. */
  function WaitReads(a: Activity, queues: seq<seq<Request>>, from: nat, wait: Request -> WaitResult): (w: Waited)
    requires ActivityOk(a) && |queues| == NUM_RINGS && from <= NUM_RINGS
    ensures ReadsWaited(a, queues, from, wait, w)
    decreases NUM_RINGS - from, 1
  {
    if from == NUM_RINGS then
      assert a.active == {} && a.lastWrite.None? ==> Idle(a);
      IdleWhenNoReads(a);
      Waited(0, a, queues)
    else if a.lastRead[from].None? then
      WaitReads(a, queues, from + 1, wait)
    else WaitReadAt(a, queues, from, wait)
  }

  /** The step of the above at a ring with an outstanding read. */
  function WaitReadAt(a: Activity, queues: seq<seq<Request>>, from: nat, wait: Request -> WaitResult): (w: Waited)
    requires ActivityOk(a) && |queues| == NUM_RINGS && from < NUM_RINGS && a.lastRead[from].Some?
    ensures ReadsWaited(a, queues, from, wait, w)
    decreases NUM_RINGS - from, 0
  {
    var req := a.lastRead[from].value;
    var (ret, queues1) := WaitRequest(queues, req, wait);
    if ret != 0 then Waited(ret, a, queues)
    else
      var a1 := RetireRead(a, from);
      var w := WaitReads(a1, queues1, from + 1, wait);
      ShrunkTrans(queues, queues1, w.queues);
      Waited(w.ret, w.act, w.queues)
  }

  lemma IdleWhenNoReads(a: Activity)
    requires ActivityOk(a)
    ensures (forall r: RingId :: a.lastRead[r].None?) ==> Idle(a)
  {
    if forall r: RingId :: a.lastRead[r].None? {
      assert forall s :: s in a.active ==> a.lastRead[s].Some?;
    }
  }

  /** Waiting for rendering to the object to finish, blocking: for a
      read-only access only the last write matters, otherwise every ring's
      last read. Completed requests are retired as they are found done. */
  function WaitRendering(a: Activity, queues: seq<seq<Request>>, readonly: bool, wait: Request -> WaitResult): (w: Waited)
    requires ActivityOk(a) && |queues| == NUM_RINGS
    ensures ActivityOk(w.act) && Shrunk(queues, w.queues)
    ensures a.active == {} ==> w == Waited(0, a, queues)
    ensures readonly && w.ret == 0 ==> w.act.lastWrite.None?
    ensures readonly && w.ret != 0 ==> w.act == a && w.queues == queues
    ensures !readonly && w.ret == 0 ==> Idle(w.act)
    ensures w.ret != 0 ==> exists req :: !wait(req).Signalled? && wait(req).Errno() == w.ret && (Some(req) in a.lastRead || Some(req) == a.lastWrite)
  {
    if a.active == {} then Waited(0, a, queues)
    else if readonly then
      if a.lastWrite.None? then Waited(0, a, queues)
      else
        var req := a.lastWrite.value;
        var (ret, queues1) := WaitRequest(queues, req, wait);
        if ret != 0 then Waited(ret, a, queues)
        else
          var i := req.ring;
          if a.lastRead[i] == Some(req) then Waited(0, RetireRead(a, i), queues1)
          else Waited(0, RetireWrite(a), queues1)
    else
      var w := WaitReads(a, queues, 0, wait);
      assert w.ret != 0 ==> exists req :: !wait(req).Signalled? && wait(req).Errno() == w.ret && Some(req) in a.lastRead by {
        if w.ret != 0 {
          var r: RingId :| a.lastRead[r].Some? && !wait(a.lastRead[r].value).Signalled? && w.ret == wait(a.lastRead[r].value).Errno();
          assert Some(a.lastRead[r].value) == a.lastRead[r];
        }
      }
      w
  }

  /** Retiring only ever empties slots: each read slot and the write slot
      of `a'` is what it was in `a` or empty. */
  ghost predicate OnlyEmptied(a: Activity, a': Activity)
    requires |a.lastRead| == NUM_RINGS && |a'.lastRead| == NUM_RINGS
  {
    (forall r: RingId :: a'.lastRead[r] == a.lastRead[r] || a'.lastRead[r].None?)
    && (a'.lastWrite == a.lastWrite || a'.lastWrite.None?)
  }

  lemma OnlyEmptiedTrans(a1: Activity, a2: Activity, a3: Activity)
    requires |a1.lastRead| == NUM_RINGS && |a2.lastRead| == NUM_RINGS && |a3.lastRead| == NUM_RINGS
    requires OnlyEmptied(a1, a2) && OnlyEmptied(a2, a3)
    ensures OnlyEmptied(a1, a3)
  {
  }

  /** Retiring one request that a wait has seen complete, on the object's
      side (its read slot or its write slot) and on the ring's side. */
  function RetireRequest(a: Activity, queues: seq<seq<Request>>, req: Request): (w: Waited)
    requires ActivityOk(a) && |queues| == NUM_RINGS
    ensures ActivityOk(w.act) && Shrunk(queues, w.queues) && w.ret == 0
    ensures w.act.lastRead[req.ring] != Some(req) && w.act.lastWrite != Some(req)
    ensures OnlyEmptied(a, w.act)
  {
    var a' := if a.lastRead[req.ring] == Some(req) then RetireRead(a, req.ring)
              else if a.lastWrite == Some(req) then RetireWrite(a)
              else a;
    Waited(0, a', RetireUptoOn(queues, req))
  }

  /** The requests a wait must cover: every outstanding read from ring `from` on. */
  function OutstandingReads(a: Activity, from: nat): (reqs: seq<Request>)
    requires ActivityOk(a) && from <= NUM_RINGS
    ensures forall k :: 0 <= k < |reqs| ==> a.lastRead[reqs[k].ring] == Some(reqs[k]) && from <= reqs[k].ring
    ensures forall r: RingId :: from <= r && a.lastRead[r].Some? ==> a.lastRead[r].value in reqs
    decreases NUM_RINGS - from
  {
    if from == NUM_RINGS then []
    else
      var rest := OutstandingReads(a, from + 1);
      match a.lastRead[from]
      case None => rest
      case Some(req) => [req] + rest
  }

  /** The first failure among waits for `reqs`, in order, or 0. */
  function FirstFailure(reqs: seq<Request>, wait: Request -> WaitResult): (ret: int)
    ensures ret == 0 <==> forall k :: 0 <= k < |reqs| ==> wait(reqs[k]).Signalled?
    ensures ret != 0 ==> exists k :: 0 <= k < |reqs| && !wait(reqs[k]).Signalled? && ret == wait(reqs[k]).Errno()
  {
    if |reqs| == 0 then 0
    else if !wait(reqs[0]).Signalled? then
      var e := wait(reqs[0]).Errno();
      assert e != 0;
      e
    else
      var ret := FirstFailure(reqs[1..], wait);
      assert ret != 0 ==> exists k :: 0 <= k < |reqs| && !wait(reqs[k]).Signalled? && ret == wait(reqs[k]).Errno() by {
        if ret != 0 {
          var k :| 0 <= k < |reqs[1..]| && !wait(reqs[1..][k]).Signalled? && ret == wait(reqs[1..][k]).Errno();
          assert reqs[1..][k] == reqs[k + 1];
        }
      }
      ret
  }

  /** Retiring each of `reqs` in order; no slot is ever refilled. */
  function RetireAll(a: Activity, queues: seq<seq<Request>>, reqs: seq<Request>): (w: Waited)
    requires ActivityOk(a) && |queues| == NUM_RINGS
    ensures ActivityOk(w.act) && Shrunk(queues, w.queues) && w.ret == 0
    ensures OnlyEmptied(a, w.act)
    decreases |reqs|
  {
    if |reqs| == 0 then Waited(0, a, queues)
    else
      var w1 := RetireRequest(a, queues, reqs[0]);
      var w := RetireAll(w1.act, w1.queues, reqs[1..]);
      ShrunkTrans(queues, w1.queues, w.queues);
      OnlyEmptiedTrans(a, w1.act, w.act);
      w
  }

  /** After retiring `reqs`, none of them is left in the object's slots. */
  lemma {:induction false} RetireAllRemoves(a: Activity, queues: seq<seq<Request>>, reqs: seq<Request>)
    requires ActivityOk(a) && |queues| == NUM_RINGS
    ensures forall k :: 0 <= k < |reqs| ==>
              RetireAll(a, queues, reqs).act.lastRead[reqs[k].ring] != Some(reqs[k])
              && RetireAll(a, queues, reqs).act.lastWrite != Some(reqs[k])
    decreases |reqs|
  {
    if |reqs| > 0 {
      var w1 := RetireRequest(a, queues, reqs[0]);
      var w := RetireAll(w1.act, w1.queues, reqs[1..]);
      assert RetireAll(a, queues, reqs) == w;
      RetireAllRemoves(w1.act, w1.queues, reqs[1..]);
      forall k | 0 <= k < |reqs|
        ensures w.act.lastRead[reqs[k].ring] != Some(reqs[k]) && w.act.lastWrite != Some(reqs[k])
      {
        if k > 0 {
          assert reqs[k] == reqs[1..][k - 1];
        }
      }
    }
  }

  /** Retiring every outstanding read leaves the object idle. */
  lemma RetiringAllReadsIdles(a: Activity, queues: seq<seq<Request>>)
    requires ActivityOk(a) && |queues| == NUM_RINGS
    ensures Idle(RetireAll(a, queues, OutstandingReads(a, 0)).act)
  {
    var reqs := OutstandingReads(a, 0);
    var a' := RetireAll(a, queues, reqs).act;
    RetireAllRemoves(a, queues, reqs);
    forall r: RingId ensures a'.lastRead[r].None? {
      if a.lastRead[r].Some? {
        var k :| 0 <= k < |reqs| && reqs[k] == a.lastRead[r].value;
        assert a'.lastRead[reqs[k].ring] != Some(reqs[k]);
      }
    }
    IdleWhenNoReads(a');
  }

  /** Waiting for rendering without holding the device lock: the requests are
      collected after a single wedge check, all waited for, and retired only
      if every wait succeeded; any failure leaves everything as it was. */
  function WaitRenderingNonblocking(a: Activity, queues: seq<seq<Request>>, readonly: bool,
                                    wedge: WaitResult, wait: Request -> WaitResult): (w: Waited)
    requires ActivityOk(a) && |queues| == NUM_RINGS
    ensures ActivityOk(w.act) && Shrunk(queues, w.queues)
    ensures a.active == {} ==> w == Waited(0, a, queues)
    ensures w.ret != 0 ==> w.act == a && w.queues == queues
    ensures a.active != {} && !wedge.Signalled? ==> w.ret == wedge.Errno()
    ensures readonly && w.ret == 0 ==> w.act.lastWrite.None?
    ensures !readonly && w.ret == 0 ==> Idle(w.act)
  {
    if a.active == {} then Waited(0, a, queues)
    else if !wedge.Signalled? then Waited(wedge.Errno(), a, queues)
    else if readonly then
      if a.lastWrite.None? then Waited(0, a, queues)
      else
        var ret := FirstFailure([a.lastWrite.value], wait);
        if ret != 0 then Waited(ret, a, queues)
        else
          RetireAllRemoves(a, queues, [a.lastWrite.value]);
          RetireAll(a, queues, [a.lastWrite.value])
    else
      var reqs := OutstandingReads(a, 0);
      var ret := FirstFailure(reqs, wait);
      if ret != 0 then Waited(ret, a, queues)
      else
        RetiringAllReadsIdles(a, queues);
        RetireAll(a, queues, reqs)
  }

  // ---------------------------------------------------------------------
  // Retiring a ring

  /** The second half of retiring a ring: walking the ring's active list from
      its head, every object whose read request on the ring has left the FIFO
      has that read retired; the walk stops at the first object whose
      request is still queued. */
  function SweepActiveList(r: RingId, list: seq<Activity>, queue: seq<Request>): (swept: nat)
    requires forall k :: 0 <= k < |list| ==> ActivityOk(list[k]) && |list[k].lastRead| == NUM_RINGS && list[k].lastRead[r].Some?
    ensures swept <= |list|
    ensures forall k :: 0 <= k < swept ==> list[k].lastRead[r].value !in queue
    ensures swept < |list| ==> list[swept].lastRead[r].value in queue
  {
    if |list| == 0 || list[0].lastRead[r].value in queue then 0
    else 1 + SweepActiveList(r, list[1..], queue)
  }

  /** The first `n` objects of `list` with ring `r`'s read retired. */
  function RetireReads(r: RingId, list: seq<Activity>, n: nat): (out: seq<Activity>)
    requires n <= |list|
    requires forall k :: 0 <= k < |list| ==> ActivityOk(list[k]) && list[k].lastRead[r].Some?
    ensures |out| == n && forall k :: 0 <= k < n ==> out[k] == RetireRead(list[k], r)
  {
    seq(n, k requires 0 <= k < n => RetireRead(list[k], r))
  }

  /** Retiring ring `r`: its completed requests leave the FIFO, then the
      objects at the head of its active list that no longer have a queued
      read on it are retired. The result holds the new FIFO, the swept
      objects' new activity and the objects left on the list. */
  function RetireRequestsRing(r: RingId, queue: seq<Request>, hw: Seqno, list: seq<Activity>): (res: (seq<Request>, seq<Activity>, seq<Activity>))
    requires forall k :: 0 <= k < |list| ==> ActivityOk(list[k]) && |list[k].lastRead| == NUM_RINGS && list[k].lastRead[r].Some?
    ensures res.0 == RetireRing(queue, hw)
    ensures |res.1| + |res.2| == |list| && res.2 == list[|res.1|..]
    ensures forall k :: 0 <= k < |res.1| ==>
              res.1[k] == RetireRead(list[k], r) && list[k].lastRead[r].value !in res.0
    ensures res.2 != [] ==> res.2[0].lastRead[r].value in res.0
  {
    var queue' := RetireRing(queue, hw);
    var n := SweepActiveList(r, list, queue');
    (queue', RetireReads(r, list, n), list[n..])
  }
}
