/** The GEM sequence-number allocator. Sequence number 0 is reserved to mean
    "no sequence number", so when the 32-bit counter wraps the rings are
    idled, every request is retired and numbering restarts at 1. */
module GemSeqno {
  import opened Wrappers
  import opened GemRequests

  /** One ring: its request FIFO and the sequence number its hardware status
      page reports. */
  datatype Ring = Ring(queue: seq<Request>, hw: Seqno)

  /** The device-wide allocator state and the rings. */
  datatype Device = Device(rings: seq<Ring>, next: Seqno, last: Seqno)

  /** Restarting numbering at `seqno`: every ring idles (which may fail as a
      wait does), all requests are retired, and each ring's hardware status
      is rewritten to `seqno`. */
  function InitSeqno(dev: Device, seqno: Seqno, idle: WaitResult): (r: Result<Device>)
    ensures idle.Signalled? <==> r.Ok?
    ensures r.Ok? ==> r.value.next == dev.next && r.value.last == dev.last
                      && |r.value.rings| == |dev.rings|
                      && forall i :: 0 <= i < |dev.rings| ==> r.value.rings[i] == Ring([], seqno)
    ensures r.Err? ==> r.errno == idle.Errno()
  {
    if !idle.Signalled? then Err(idle.Errno())
    else Ok(dev.(rings := seq(|dev.rings|, _ => Ring([], seqno))))
  }

  /** Handing out the next sequence number. */
  function GetSeqno(dev: Device, idle: WaitResult): (r: Result<(Device, Seqno)>)
    ensures r.Ok? ==> var (dev', s) := r.value;
                      s != 0 && s == (if dev.next == 0 then 1 else dev.next)
                      && dev'.last == s && dev'.next == (s + 1) % SEQNO_LIMIT
    // Only the wrap, which has to idle the rings, can fail.
    ensures r.Err? <==> dev.next == 0 && !idle.Signalled?
    ensures r.Ok? && dev.next != 0 ==> r.value.0.rings == dev.rings
  {
    var dev1 :- if dev.next == 0 then InitSeqno(dev, 0, idle) else Ok(dev);
    var dev2 := if dev.next == 0 then dev1.(next := 1) else dev1;
    var s := dev2.next;
    Ok((dev2.(last := s, next := (s + 1) % SEQNO_LIMIT), s))
  }

  /** Forcing the next sequence number, as the debugfs knob does: 0 is
      refused; otherwise the rings restart just below it and `last` is set
      one below it, skipping the reserved 0. */
  function SetSeqno(dev: Device, seqno: Seqno, idle: WaitResult): (r: Result<Device>)
    ensures seqno == 0 ==> r == Err(EINVAL)
    ensures seqno != 0 ==> (r.Ok? <==> idle.Signalled?)
    ensures r.Ok? ==> r.value.next == seqno
                      && r.value.last == (if seqno == 1 then SEQNO_LIMIT - 1 else seqno - 1)
                      && forall i :: 0 <= i < |r.value.rings| ==> r.value.rings[i].hw == seqno - 1
  {
    if seqno == 0 then Err(EINVAL)
    else
      var dev1 :- InitSeqno(dev, seqno - 1, idle);
      var last := if seqno - 1 == 0 then SEQNO_LIMIT - 1 else seqno - 1;
      Ok(dev1.(next := seqno, last := last))
  }

  /** After forcing a number, the next allocation hands out exactly that number. */
  lemma SetThenGet(dev: Device, seqno: Seqno, idle: WaitResult)
    requires SetSeqno(dev, seqno, idle).Ok?
    ensures GetSeqno(SetSeqno(dev, seqno, idle).value, idle).Ok?
    ensures GetSeqno(SetSeqno(dev, seqno, idle).value, idle).value.1 == seqno
  {
  }

  /** `k` successive allocations, each wrap idling successfully. */
  function Draw(dev: Device, k: nat): (r: seq<Seqno>)
    ensures |r| == k
    decreases k
  {
    if k == 0 then []
    else
      var (dev', s) := GetSeqno(dev, Signalled).value;
      [s] + Draw(dev', k - 1)
  }

  /** Allocation cycles through 1 .. 2^32 - 1 in order, never handing out 0. */
  lemma {:induction false} DrawCycles(dev: Device, k: nat)
    ensures forall i :: 0 <= i < k ==> Draw(dev, k)[i] == Cycle(dev, i)
    decreases k
  {
    if k > 0 {
      var (dev', s) := GetSeqno(dev, Signalled).value;
      assert Draw(dev, k) == [s] + Draw(dev', k - 1);
      DrawCycles(dev', k - 1);
      forall i | 0 <= i < k
        ensures Draw(dev, k)[i] == Cycle(dev, i)
      {
        CycleStep(dev, i);
        if i > 0 {
          assert Draw(dev, k)[i] == Cycle(dev', i - 1);
        }
      }
    }
  }

  /** The first allocation hands out the start of the cycle, and the cycle
      seen after it is the old one moved on by one place. */
  lemma CycleStep(dev: Device, i: nat)
    ensures i == 0 ==> Cycle(dev, 0) == GetSeqno(dev, Signalled).value.1
    ensures i > 0 ==> Cycle(GetSeqno(dev, Signalled).value.0, i - 1) == Cycle(dev, i)
  {
    if i > 0 {
      NextStart(dev);
      ModShift(Start(dev), i - 1);
    }
  }

  /** Where the allocator's cycle currently stands: the number it hands out next. */
  function Start(dev: Device): Seqno {
    if dev.next == 0 then 1 else dev.next
  }

  /** The number the `i`-th allocation from now hands out. */
  function Cycle(dev: Device, i: nat): int {
    (Start(dev) - 1 + i) % (SEQNO_LIMIT - 1) + 1
  }

  /** One allocation moves the cycle on by one place. */
  lemma NextStart(dev: Device)
    ensures Start(GetSeqno(dev, Signalled).value.0) - 1 == Start(dev) % (SEQNO_LIMIT - 1)
  {
  }

  lemma ModShift(a: nat, j: nat)
    ensures (a % (SEQNO_LIMIT - 1) + j) % (SEQNO_LIMIT - 1) == (a + j) % (SEQNO_LIMIT - 1)
  {
    var n := SEQNO_LIMIT - 1;
    var q := a / n;
    assert a == q * n + a % n;
    assert a + j == (a % n + j) + q * n;
  }

  /** Within 2^32 - 1 allocations no sequence number is handed out twice. */
  lemma DrawDistinct(dev: Device, k: nat)
    requires k <= SEQNO_LIMIT - 1
    ensures forall i, j :: 0 <= i < j < k ==> Draw(dev, k)[i] != Draw(dev, k)[j]
    ensures forall i :: 0 <= i < k ==> Draw(dev, k)[i] != 0
  {
    DrawCycles(dev, k);
    forall i, j | 0 <= i < j < k ensures Draw(dev, k)[i] != Draw(dev, k)[j] {
      ModDistinct(Start(dev) - 1 + i, Start(dev) - 1 + j, SEQNO_LIMIT - 1);
    }
  }

  /** Numbers less than `n` apart leave different remainders modulo `n`. */
  lemma ModDistinct(x: int, y: int, n: int)
    requires n > 0 && 0 < y - x < n
    ensures x % n != y % n
  {
    var d := y / n - x / n;
    assert y % n - x % n == (y - x) - d * n;
    MulGap(d, n);
  }

  /** A multiple of a positive `n` is never strictly between 0 and `n`. */
  lemma MulGap(d: int, n: int)
    requires n > 0
    ensures d * n <= 0 || d * n >= n
  {
    if d >= 1 {
      assert d * n == (d - 1) * n + n;
    }
  }

}
