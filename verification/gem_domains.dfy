/** GEM coherency domains of a buffer object.

    An object's read domains say which caches may hold valid copies of it;
    its write domain, when not empty, is the single place holding its latest
    contents. The CPU-visible domains are CPU (through the CPU cache) and GTT
    (through the aperture); the others belong to the GPU. Moving an object to
    the CPU or GTT domain waits for rendering, flushes the old write domain
    and updates the masks. */
module GemDomains {
  import opened Wrappers
  import opened GemRequests
  import opened GemActivity

  /** A 32-bit domain mask, kept as the set of its bits that are set: `|` is
      union, `&` is intersection and a zero mask is the empty set. */
  type Bit = b: nat | b < 32
  type Mask = set<Bit>

  const DOMAIN_CPU: Mask := {0}          // 0x01
  const DOMAIN_RENDER: Mask := {1}       // 0x02
  const DOMAIN_SAMPLER: Mask := {2}      // 0x04
  const DOMAIN_COMMAND: Mask := {3}      // 0x08
  const DOMAIN_INSTRUCTION: Mask := {4}  // 0x10
  const DOMAIN_VERTEX: Mask := {5}       // 0x20
  const DOMAIN_GTT: Mask := {6}          // 0x40
  /** Render, sampler, command, instruction and vertex: the GPU's own caches (0x3e). */
  const GPU_DOMAINS: Mask := {1, 2, 3, 4, 5}

  /** The purgeability advice an object carries. */
  const MADV_WILLNEED := 0
  const MADV_DONTNEED := 1
  const MADV_PURGED := 2

  /** An object's read-domain and write-domain masks. */
  datatype Domains = Domains(read: Mask, write: Mask)

  /** Where an object's memory lives, as far as cache flushing cares:
      `coherent` is whether the CPU cache is coherent for it (the device has a
      last-level cache shared with the GPU, or the object's cache level is not
      uncached); `pinDisplay` whether it is being scanned out. */
  datatype Placement = Placement(coherent: bool, pinDisplay: bool, stolen: bool, phys: bool)

  /** The backing storage: whether there is a shmem file behind the object,
      whether its pages are acquired, how often they are pinned, and the
      purgeability advice. */
  datatype Backing = Backing(hasFilp: bool, hasPages: bool, pinCount: nat, madv: int)

  /** The state of a buffer object that the modelled operations read or change. */
  datatype Obj = Obj(
    dom: Domains,
    dirty: bool,
    cacheDirty: bool,
    place: Placement,
    store: Backing,
    act: Activity)

  /** The write domain is empty, CPU or GTT (GPU writes are flushed when the
      batch ends), and a nonempty write domain is the only read domain. */
  predicate DomainsOk(d: Domains) {
    (d.write == {} || d.write == DOMAIN_CPU || d.write == DOMAIN_GTT)
    && (d.write != {} ==> d.read == d.write)
  }

  /** Pages are pinned only while present, and the advice is one of the three. */
  predicate BackingOk(b: Backing) {
    (!b.hasPages ==> b.pinCount == 0) && MADV_WILLNEED <= b.madv <= MADV_PURGED
  }

  /** Everything the driver keeps true of an object between operations. */
  ghost predicate ObjOk(o: Obj) {
    DomainsOk(o.dom) && BackingOk(o.store) && ActivityOk(o.act)
  }

  /** A CPU write must be flushed out of the CPU cache by hand when the cache
      is not coherent for the object, or when the object is being scanned out. */
  predicate CpuWriteNeedsClflush(p: Placement) {
    !p.coherent || p.pinDisplay
  }

  /** Flushing the object's lines out of the CPU cache. Nothing is done for an
      object without pages, or one in stolen or physical memory; when the
      cache is coherent and the flush is not forced, the flush is only
      remembered as owed. Returns whether lines were flushed and the new
      cache-dirty flag. */
  function Clflush(o: Obj, force: bool): (r: (bool, bool))
    ensures r.0 <==> o.store.hasPages && !o.place.stolen && !o.place.phys && (force || !o.place.coherent)
    ensures r.0 ==> !r.1
    ensures !r.0 ==> r.1 == (o.cacheDirty || (o.store.hasPages && !o.place.stolen && !o.place.phys))
  {
    if !o.store.hasPages then (false, o.cacheDirty)
    else if o.place.stolen || o.place.phys then (false, o.cacheDirty)
    else if !force && o.place.coherent then (false, true)
    else (true, false)
  }

  /** Flushing the CPU write domain flushes the cache exactly when a CPU write
      needs it. */
  lemma CpuFlushIffNeeded(o: Obj)
    requires o.store.hasPages && !o.place.stolen && !o.place.phys
    ensures Clflush(o, o.place.pinDisplay).0 <==> CpuWriteNeedsClflush(o.place)
  {
  }

  /** Leaving the GTT write domain: writes through the aperture need no flush. */
  function FlushGttWriteDomain(o: Obj): (o': Obj)
    ensures o.dom.write == DOMAIN_GTT ==> o' == o.(dom := o.dom.(write := {}))
    ensures o.dom.write != DOMAIN_GTT ==> o' == o
  {
    if o.dom.write != DOMAIN_GTT then o else o.(dom := o.dom.(write := {}))
  }

  /** Leaving the CPU write domain: the CPU cache is flushed (forced while the
      object is on display) and the write domain emptied. */
  function FlushCpuWriteDomain(o: Obj): (o': Obj)
    ensures o.dom.write != DOMAIN_CPU ==> o' == o
    ensures o.dom.write == DOMAIN_CPU ==> o' == o.(dom := o.dom.(write := {}), cacheDirty := o'.cacheDirty)
    ensures o.dom.write == DOMAIN_CPU && o.store.hasPages && !o.place.stolen && !o.place.phys ==>
              o'.cacheDirty == !CpuWriteNeedsClflush(o.place)
  {
    if o.dom.write != DOMAIN_CPU then o
    else o.(dom := o.dom.(write := {}), cacheDirty := Clflush(o, o.place.pinDisplay).1)
  }

  /** Acquiring the backing pages: nothing to do when present; refused with
      EFAULT for an object marked purgeable; otherwise the backing store's
      answer `storeErr` (0 for success) decides. */
  function GetPages(b: Backing, storeErr: int): (r: Result<Backing>)
    ensures r.Ok? <==> b.hasPages || (b.madv == MADV_WILLNEED && storeErr == 0)
    ensures r.Ok? ==> r.value == b.(hasPages := true)
    ensures !b.hasPages && b.madv != MADV_WILLNEED ==> r == Err(EFAULT)
    ensures r.Err? && b.madv == MADV_WILLNEED ==> r.errno == storeErr
  {
    if b.hasPages then Ok(b)
    else if b.madv != MADV_WILLNEED then Err(EFAULT)
    else if storeErr != 0 then Err(storeErr)
    else Ok(b.(hasPages := true))
  }

  /** The masks after a move to `target` (GTT or CPU) once the old write
      domain is flushed: `target` joins the read domains and, for a write,
      becomes the only read domain and the write domain. */
  function Enter(d: Domains, target: Mask, write: bool): (d': Domains)
    requires d.write == {} && (target == DOMAIN_GTT || target == DOMAIN_CPU)
    ensures DomainsOk(d') && target <= d'.read
    ensures write ==> d'.read == target && d'.write == target
    ensures !write ==> d'.read == d.read + target && d'.write == {}
  {
    if write then Domains(target, target) else Domains(d.read + target, {})
  }

  /** The outcome of a domain change: the return (0 or an error number), the
      object afterwards and the rings' request FIFOs afterwards. */
  datatype Moved = Moved(ret: int, obj: Obj, queues: seq<seq<Request>>)

  /** Moving the object to the GTT read domain, and to the GTT write domain
      when `write`: a no-op if GTT is already the write domain; otherwise wait
      for rendering (only for the last write when reading), acquire the pages,
      flush the CPU write domain and update the masks; a write marks the
      contents dirty. */
  function SetToGttDomain(o: Obj, queues: seq<seq<Request>>, write: bool,
                          wait: Request -> WaitResult, storeErr: int): (m: Moved)
    requires ObjOk(o) && |queues| == NUM_RINGS
    ensures ObjOk(m.obj) && Shrunk(queues, m.queues)
    ensures o.dom.write == DOMAIN_GTT ==> m == Moved(0, o, queues)
    ensures m.ret != 0 ==> m.obj.dom == o.dom
    ensures o.dom.write != DOMAIN_GTT && m.ret == 0 ==>
              m.obj.store.hasPages && DOMAIN_GTT <= m.obj.dom.read
              && (write ==> m.obj.dom == Domains(DOMAIN_GTT, DOMAIN_GTT) && m.obj.dirty && Idle(m.obj.act))
              && (!write ==> m.obj.dom == Domains(o.dom.read + DOMAIN_GTT, {}) && m.obj.act.lastWrite.None?)
  {
    if o.dom.write == DOMAIN_GTT then Moved(0, o, queues)
    else
      var w := WaitRendering(o.act, queues, !write, wait);
      var o1 := o.(act := w.act);
      if w.ret != 0 then Moved(w.ret, o1, w.queues)
      else
        match GttAfterWait(o1, write, storeErr)
        case Err(e) => Moved(e, o1, w.queues)
        case Ok(o2) => Moved(0, o2, w.queues)
  }

  /** The part of a move to the GTT domain after rendering is done. */
  function GttAfterWait(o: Obj, write: bool, storeErr: int): (r: Result<Obj>)
    requires DomainsOk(o.dom) && BackingOk(o.store) && o.dom.write != DOMAIN_GTT
    ensures r.Ok? <==> GetPages(o.store, storeErr).Ok?
    ensures r.Err? ==> r.errno != 0
    ensures r.Ok? ==> DomainsOk(r.value.dom) && BackingOk(r.value.store) && r.value.act == o.act
    ensures r.Ok? ==> r.value.store.hasPages && DOMAIN_GTT <= r.value.dom.read
    ensures r.Ok? && write ==> r.value.dom == Domains(DOMAIN_GTT, DOMAIN_GTT) && r.value.dirty
    ensures r.Ok? && !write ==> r.value.dom == Domains(o.dom.read + DOMAIN_GTT, {})
  {
    var b :- GetPages(o.store, storeErr);
    var o2 := FlushCpuWriteDomain(o.(store := b));
    Ok(o2.(dom := Enter(o2.dom, DOMAIN_GTT, write), dirty := o2.dirty || write))
  }

  /** Moving the object to the CPU read domain, and to the CPU write domain
      when `write`: a no-op if CPU is already the write domain; otherwise wait
      for rendering, flush the GTT write domain, flush the CPU cache if CPU
      was not a valid read domain, and update the masks. */
  function SetToCpuDomain(o: Obj, queues: seq<seq<Request>>, write: bool,
                          wait: Request -> WaitResult): (m: Moved)
    requires ObjOk(o) && |queues| == NUM_RINGS
    ensures ObjOk(m.obj) && Shrunk(queues, m.queues)
    ensures o.dom.write == DOMAIN_CPU ==> m == Moved(0, o, queues)
    ensures m.ret != 0 ==> m.obj.dom == o.dom
    ensures o.dom.write != DOMAIN_CPU && m.ret == 0 ==>
              DOMAIN_CPU <= m.obj.dom.read
              && (write ==> m.obj.dom == Domains(DOMAIN_CPU, DOMAIN_CPU) && Idle(m.obj.act))
              && (!write ==> m.obj.dom == Domains(o.dom.read + DOMAIN_CPU, {}) && m.obj.act.lastWrite.None?)
  {
    if o.dom.write == DOMAIN_CPU then Moved(0, o, queues)
    else
      var w := WaitRendering(o.act, queues, !write, wait);
      var o1 := o.(act := w.act);
      if w.ret != 0 then Moved(w.ret, o1, w.queues)
      else Moved(0, CpuAfterWait(o1, write), w.queues)
  }

  /** The part of a move to the CPU domain after rendering is done. */
  function CpuAfterWait(o: Obj, write: bool): (o': Obj)
    requires DomainsOk(o.dom) && o.dom.write != DOMAIN_CPU
    ensures DomainsOk(o'.dom) && o'.store == o.store && o'.act == o.act
    ensures DOMAIN_CPU <= o'.dom.read
    ensures write ==> o'.dom == Domains(DOMAIN_CPU, DOMAIN_CPU)
    ensures !write ==> o'.dom == Domains(o.dom.read + DOMAIN_CPU, {})
  {
    var o2 := FlushGttWriteDomain(o);
    var o3 := if o2.dom.read * DOMAIN_CPU == {} then o2.(cacheDirty := Clflush(o2, false).1) else o2;
    o3.(dom := Enter(o3.dom, DOMAIN_CPU, write))
  }

  /** The set-domain ioctl's argument check: only CPU-visible domains may be
      asked for, and a write domain must be the one and only read domain. */
  function CheckSetDomainArgs(readDomains: Mask, writeDomain: Mask): (r: Option<int>)
    ensures r.Some? ==> r.value == EINVAL
    ensures r.None? <==>
              writeDomain * GPU_DOMAINS == {} && readDomains * GPU_DOMAINS == {}
              && (writeDomain != {} ==> readDomains == writeDomain)
  {
    if writeDomain * GPU_DOMAINS != {} then Some(EINVAL)
    else if readDomains * GPU_DOMAINS != {} then Some(EINVAL)
    else if writeDomain != {} && readDomains != writeDomain then Some(EINVAL)
    else None
  }

  /** The set-domain ioctl: check the arguments, take the device lock (whose
      interruptible acquisition may fail with `lockErr`), look the handle up,
      wait for rendering without the lock, then move the object to the GTT
      domain when GTT is among the read domains and to the CPU domain
      otherwise. The looked-up object comes back, changed, in the result. */
  function SetDomainIoctl(lookup: Option<Obj>, queues: seq<seq<Request>>,
                          readDomains: Mask, writeDomain: Mask, lockErr: int,
                          wedge: WaitResult, wait: Request -> WaitResult, storeErr: int): (r: (int, Option<Obj>, seq<seq<Request>>))
    requires lookup.Some? ==> ObjOk(lookup.value)
    requires |queues| == NUM_RINGS
    ensures CheckSetDomainArgs(readDomains, writeDomain).Some? ==> r == (EINVAL, lookup, queues)
    ensures CheckSetDomainArgs(readDomains, writeDomain).None? && lockErr == 0 && lookup.None? ==> r.0 == ENOENT
    ensures r.1.Some? <==> lookup.Some?
    ensures r.1.Some? ==> ObjOk(r.1.value)
    ensures r.0 == 0 && writeDomain != {} ==>
              r.1.Some? && r.1.value.dom.read == r.1.value.dom.write
              && r.1.value.dom.write == (if readDomains * DOMAIN_GTT != {} then DOMAIN_GTT else DOMAIN_CPU)
    ensures r.0 == 0 && readDomains * DOMAIN_GTT != {} ==> r.1.Some? && DOMAIN_GTT <= r.1.value.dom.read
  {
    if CheckSetDomainArgs(readDomains, writeDomain).Some? then (EINVAL, lookup, queues)
    else if lockErr != 0 then (lockErr, lookup, queues)
    else if lookup.None? then (ENOENT, lookup, queues)
    else
      var o := lookup.value;
      var w := WaitRenderingNonblocking(o.act, queues, writeDomain == {}, wedge, wait);
      var o1 := o.(act := w.act);
      if w.ret != 0 then (w.ret, Some(o1), w.queues)
      else
        var m := if readDomains * DOMAIN_GTT != {} then SetToGttDomain(o1, w.queues, writeDomain != {}, wait, storeErr)
                 else SetToCpuDomain(o1, w.queues, writeDomain != {}, wait);
        (m.ret, Some(m.obj), m.queues)
  }
}
