/** GEM requests: each ring keeps the requests it has been given in a FIFO,
    each carrying a 32-bit sequence number, and the hardware reports the
    sequence number it has reached. A request is complete when the reported
    number has passed its own, compared modulo 2^32.

    Retiring releases completed requests from the head of a ring's FIFO: all
    that are complete (`RetireRing`), or all up to a given one after a wait
    for it has succeeded (`RetireUpto`). */
module GemRequests {
  import opened Wrappers

  /** Render, video, blitter, video-enhancement and second video ring. */
  const NUM_RINGS := 5
  type RingId = r: int | 0 <= r < NUM_RINGS

  /** Sequence numbers are `u32`. */
  const SEQNO_LIMIT: int := U32_LIMIT
  const HALF_SEQNO: int := 0x8000_0000
  type Seqno = U32

  datatype Request = Request(ring: RingId, seqno: Seqno)

  /** How a wait for the GPU ends: the awaited work finished, the sleep was
      interrupted by a signal, or the GPU is wedged (terminally, or while a
      reset is still pending). */
  datatype WaitResult = Signalled | Interrupted | Wedged(terminal: bool) {
    /** The error number a failed wait returns. */
    function Errno(): int
      requires !Signalled?
    {
      match this
      case Interrupted => ERESTARTSYS
      case Wedged(terminal) => if terminal then EIO else EAGAIN
    }
  }

  /** `seq1` is at or after `seq2`: their 32-bit difference, read as a signed
      number, is not negative (the completion test of the driver header,
      which is not part of this model). */
  predicate Passed(seq1: Seqno, seq2: Seqno) {
    (seq1 - seq2) % SEQNO_LIMIT < HALF_SEQNO
  }

  /** The hardware, having reached `hw`, has finished `req`. */
  predicate Completed(req: Request, hw: Seqno) {
    Passed(hw, req.seqno)
  }

  /** No request is queued twice. */
  ghost predicate Distinct(queue: seq<Request>) {
    forall i, j :: 0 <= i < j < |queue| ==> queue[i] != queue[j]
  }

  /** Retiring a ring's requests: the longest completed prefix of the FIFO is
      released, in order, stopping at the first incomplete request. */
  function RetireRing(queue: seq<Request>, hw: Seqno): (rest: seq<Request>)
    ensures |rest| <= |queue| && rest == queue[|queue| - |rest|..]
    ensures forall i :: 0 <= i < |queue| - |rest| ==> Completed(queue[i], hw)
    ensures rest != [] ==> !Completed(rest[0], hw)
  {
    if queue == [] || !Completed(queue[0], hw) then queue
    else
      var rest := RetireRing(queue[1..], hw);
      assert queue[1..][|queue| - 1 - |rest|..] == queue[|queue| - |rest|..];
      assert forall i :: 1 <= i < |queue| - |rest| ==> queue[i] == queue[1..][i - 1];
      rest
  }

  /** The position of the first occurrence of `req`. */
  function IndexOf(queue: seq<Request>, req: Request): (i: nat)
    requires req in queue
    ensures i < |queue| && queue[i] == req && req !in queue[..i]
  {
    if queue[0] == req then 0
    else
      var i := IndexOf(queue[1..], req);
      assert queue[1..][..i] == queue[1..i + 1];
      i + 1
  }

  /** Popping the head of the FIFO until `req` itself has gone. */
  function PopThrough(queue: seq<Request>, req: Request): (rest: seq<Request>)
    requires req in queue
    ensures rest == queue[IndexOf(queue, req) + 1..]
  {
    if queue[0] == req then queue[1..]
    else PopThrough(queue[1..], req)
  }

  /** Retiring every request up to and including `req`, which a successful
      wait for `req` allows; a request already retired changes nothing. */
  function RetireUpto(queue: seq<Request>, req: Request): (rest: seq<Request>)
    ensures req !in queue ==> rest == queue
    ensures req in queue ==> rest == queue[IndexOf(queue, req) + 1..]
    ensures Distinct(queue) ==> req !in rest && Distinct(rest)
  {
    if req !in queue then queue else PopThrough(queue, req)
  }

  /** The distance from `base` forward to `s` in the 32-bit sequence space. */
  function Ahead(base: Seqno, s: Seqno): Seqno {
    (s - base) % SEQNO_LIMIT
  }

  /** The ring emitted the queued requests in order after `base`: their
      distances from `base` are positive, strictly increasing and within half
      the sequence space. */
  ghost predicate EmittedAfter(queue: seq<Request>, base: Seqno) {
    (forall i :: 0 <= i < |queue| ==> 0 < Ahead(base, queue[i].seqno) < HALF_SEQNO)
    && (forall i, j :: 0 <= i < j < |queue| ==> Ahead(base, queue[i].seqno) < Ahead(base, queue[j].seqno))
  }

  lemma SubMod(x: int, y: int)
    ensures (x % SEQNO_LIMIT - y % SEQNO_LIMIT) % SEQNO_LIMIT == (x - y) % SEQNO_LIMIT
  {
    var qx, qy := x / SEQNO_LIMIT, y / SEQNO_LIMIT;
    assert x == qx * SEQNO_LIMIT + x % SEQNO_LIMIT;
    assert y == qy * SEQNO_LIMIT + y % SEQNO_LIMIT;
    assert x - y == (x % SEQNO_LIMIT - y % SEQNO_LIMIT) + (qx - qy) * SEQNO_LIMIT;
  }

  /** With the hardware less than half the sequence space past `base`, a
      request emitted after `base` is complete exactly when the hardware has
      gone at least as far as the request. */
  lemma CompletedIffReached(base: Seqno, hw: Seqno, s: Seqno)
    requires Ahead(base, hw) < HALF_SEQNO && 0 < Ahead(base, s) < HALF_SEQNO
    ensures Passed(hw, s) <==> Ahead(base, s) <= Ahead(base, hw)
  {
    var h, d := Ahead(base, hw), Ahead(base, s);
    SubMod(hw - base, s - base);
    assert (hw - s) % SEQNO_LIMIT == (h - d) % SEQNO_LIMIT;
    if d <= h {
      assert (h - d) % SEQNO_LIMIT == h - d;
    } else {
      assert (h - d) % SEQNO_LIMIT == h - d + SEQNO_LIMIT;
    }
  }

  /** Retirement is FIFO-complete: for requests emitted in order, what is left
      after retiring holds no completed request, so the first incomplete
      request never hides a completed one behind it. */
  lemma RetireRingLeavesNoneCompleted(queue: seq<Request>, base: Seqno, hw: Seqno)
    requires EmittedAfter(queue, base) && Ahead(base, hw) < HALF_SEQNO
    ensures forall i :: 0 <= i < |RetireRing(queue, hw)| ==> !Completed(RetireRing(queue, hw)[i], hw)
  {
    var rest := RetireRing(queue, hw);
    if rest != [] {
      var k := |queue| - |rest|;
      forall i | 0 <= i < |rest| ensures !Completed(rest[i], hw) {
        assert rest[i] == queue[k + i] && rest[0] == queue[k];
        if i > 0 {
          assert Ahead(base, queue[k].seqno) < Ahead(base, queue[k + i].seqno);
          IncompleteBeyond(base, hw, rest[0].seqno, rest[i].seqno);
        }
      }
    }
  }

  /** A request emitted after an incomplete one is incomplete too. */
  lemma IncompleteBeyond(base: Seqno, hw: Seqno, s0: Seqno, s: Seqno)
    requires Ahead(base, hw) < HALF_SEQNO && 0 < Ahead(base, s0) <= Ahead(base, s) < HALF_SEQNO
    requires !Passed(hw, s0)
    ensures !Passed(hw, s)
  {
    CompletedIffReached(base, hw, s0);
    CompletedIffReached(base, hw, s);
  }
}
