/** The lifetime of a GEM buffer object's bindings and backing storage:
    creating an object, unbinding one of its address-space bindings (VMAs),
    the purgeability advice of the madvise ioctl, and releasing the pages.

    Every allocated binding holds one pin on the object's pages, so an object
    with bindings keeps its pages; an object whose advice is "purged" has lost
    its contents for good and can never have pages again. */
module GemObject {
  import opened Wrappers
  import opened GemRequests
  import opened GemActivity
  import opened GemDomains

  /** A binding of the object into an address space: its identity, whether
      its range node is allocated, how often it is pinned, whether it is the
      normal view of the global GTT (the one fences and CPU mappings go
      through), and whether an execbuffer reservation list still holds it. */
  datatype Vma = Vma(id: nat, hasNode: bool, pinCount: nat, ggttNormal: bool, reserved: bool)

  /** An object together with its bindings, whether it is currently mappable
      and fenceable through the aperture, and whether it sits on the
      device's list of unbound objects. */
  datatype Bo = Bo(obj: Obj, vmas: seq<Vma>, mapAndFenceable: bool, onUnboundList: bool)

  /** The number of bindings whose range node is allocated. */
  function Allocated(vmas: seq<Vma>): (n: nat)
    ensures n <= |vmas|
    ensures n == 0 <==> forall k :: 0 <= k < |vmas| ==> !vmas[k].hasNode
  {
    if vmas == [] then 0
    else Allocated(vmas[..|vmas| - 1]) + (if vmas[|vmas| - 1].hasNode then 1 else 0)
  }

  lemma {:induction false} AllocatedSplit(a: seq<Vma>, b: seq<Vma>)
    ensures Allocated(a + b) == Allocated(a) + Allocated(b)
    decreases |b|
  {
    if b == [] {
      assert a + b == a;
    } else {
      var b' := b[..|b| - 1];
      assert (a + b)[..|a + b| - 1] == a + b';
      assert (a + b)[|a + b| - 1] == b[|b| - 1];
      AllocatedSplit(a, b');
    }
  }

  /** The count split around position `i`. */
  lemma AllocatedAround(vmas: seq<Vma>, i: nat)
    requires i < |vmas|
    ensures Allocated(vmas) == Allocated(vmas[..i]) + (if vmas[i].hasNode then 1 else 0) + Allocated(vmas[i + 1..])
  {
    var a, v, r := vmas[..i], vmas[i], vmas[i + 1..];
    assert Allocated([v]) == (if v.hasNode then 1 else 0) by {
      assert [v][..0] == [];
    }
    AllocatedSplit(a, [v]);
    AllocatedSplit(a + [v], r);
    SplitAround(vmas, i);
  }

  /** A sequence is its prefix, the element at `i`, and its suffix. */
  lemma SplitAround<T>(s: seq<T>, i: nat)
    requires i < |s|
    ensures s == s[..i] + [s[i]] + s[i + 1..]
  {
  }

  /** Binding identities are distinct, and each allocated binding holds one
      pin on the pages. */
  ghost predicate BoOk(b: Bo) {
    ObjOk(b.obj) && DistinctIds(b.vmas) && Allocated(b.vmas) <= b.obj.store.pinCount
  }

  /** The position of the binding `id`, if the object has it. */
  function Locate(vmas: seq<Vma>, id: nat): (r: Option<nat>)
    ensures r.Some? ==> r.value < |vmas| && vmas[r.value].id == id
    ensures r.None? <==> forall k :: 0 <= k < |vmas| ==> vmas[k].id != id
  {
    if vmas == [] then None
    else if vmas[0].id == id then Some(0)
    else
      match Locate(vmas[1..], id)
      case None => None
      case Some(k) => Some(k + 1)
  }

  /** Destroying a binding whose node has been released: it leaves the
      object's list, unless a reservation list still holds it as a
      placeholder. */
  function Destroy(vmas: seq<Vma>, i: nat): (vmas': seq<Vma>)
    requires i < |vmas|
    ensures vmas[i].reserved ==> vmas' == vmas[i := vmas[i].(hasNode := false)]
    ensures !vmas[i].reserved ==> vmas' == vmas[..i] + vmas[i + 1..]
  {
    if vmas[i].reserved then vmas[i := vmas[i].(hasNode := false)]
    else vmas[..i] + vmas[i + 1..]
  }

  /** Destroying binding `i` takes it out of the allocated count. */
  lemma DestroyCounts(vmas: seq<Vma>, i: nat)
    requires i < |vmas|
    ensures Allocated(Destroy(vmas, i)) == Allocated(vmas) - (if vmas[i].hasNode then 1 else 0)
  {
    AllocatedAround(vmas, i);
    var d := Destroy(vmas, i);
    if vmas[i].reserved {
      AllocatedAround(d, i);
      assert d[..i] == vmas[..i] && d[i + 1..] == vmas[i + 1..];
    } else {
      AllocatedSplit(vmas[..i], vmas[i + 1..]);
    }
  }

  /** No two bindings of an object share an identity. */
  ghost predicate DistinctIds(vmas: seq<Vma>) {
    forall i, j :: 0 <= i < j < |vmas| ==> vmas[i].id != vmas[j].id
  }

  /** Destroying a binding keeps the identities distinct, and a binding no
      reservation list holds is gone afterwards. */
  lemma DestroyDistinct(vmas: seq<Vma>, i: nat)
    requires i < |vmas| && DistinctIds(vmas)
    ensures DistinctIds(Destroy(vmas, i))
    ensures !vmas[i].reserved ==> forall k :: 0 <= k < |Destroy(vmas, i)| ==> Destroy(vmas, i)[k].id != vmas[i].id
  {
    var d := Destroy(vmas, i);
    if !vmas[i].reserved {
      assert forall k :: 0 <= k < |d| ==> d[k] == vmas[if k < i then k else k + 1];
    }
  }

  /** Finishing GTT access before the aperture mapping goes away: an object
      readable through the GTT loses GTT from its read and write domains. */
  function FinishGtt(o: Obj): (o': Obj)
    requires DomainsOk(o.dom)
    ensures DomainsOk(o'.dom) && !(DOMAIN_GTT <= o'.dom.read)
    ensures o'.dom.read == o.dom.read - DOMAIN_GTT && o'.dom.write == o.dom.write - DOMAIN_GTT
    ensures o' == o.(dom := o'.dom)
  {
    if !(DOMAIN_GTT <= o.dom.read) then
      assert 6 !in o.dom.read && 6 !in o.dom.write;
      assert o.dom.read - DOMAIN_GTT == o.dom.read && o.dom.write - DOMAIN_GTT == o.dom.write;
      o
    else o.(dom := Domains(o.dom.read - DOMAIN_GTT, o.dom.write - DOMAIN_GTT))
  }

  /** The outcome of an unbind: the return, the object with its bindings
      afterwards, and the rings' request FIFOs afterwards. */
  datatype Unbound = Unbound(ret: int, bo: Bo, queues: seq<seq<Request>>)

  /** Unbinding binding `id`: nothing to do when the object has no such
      binding; a binding without an allocated node is simply destroyed; a
      pinned one is refused with EBUSY. Otherwise the unbind waits for
      rendering when `waitFirst`, finishes GTT access and releases the fence
      (which may fail with `fenceErr`) for the normal GTT view, releases the
      node, destroys the binding, moves the object to the unbound list once
      it has no bindings left, and drops the binding's pin on the pages. */
  function Unbind(b: Bo, id: nat, waitFirst: bool, queues: seq<seq<Request>>,
                  wait: Request -> WaitResult, fenceErr: int): (u: Unbound)
    requires BoOk(b) && |queues| == NUM_RINGS
    ensures BoOk(u.bo) && Shrunk(queues, u.queues)
    ensures Locate(b.vmas, id).None? ==> u == Unbound(0, b, queues)
    ensures u.ret == 0 ==> forall k :: 0 <= k < |u.bo.vmas| && u.bo.vmas[k].id == id ==> !u.bo.vmas[k].hasNode
  {
    match Locate(b.vmas, id)
    case None => Unbound(0, b, queues)
    case Some(i) => UnbindAt(b, i, waitFirst, queues, wait, fenceErr)
  }

  /** Unbinding the binding at position `i`. */
  function UnbindAt(b: Bo, i: nat, waitFirst: bool, queues: seq<seq<Request>>,
                    wait: Request -> WaitResult, fenceErr: int): (u: Unbound)
    requires BoOk(b) && |queues| == NUM_RINGS && i < |b.vmas|
    ensures BoOk(u.bo) && Shrunk(queues, u.queues)
    ensures !b.vmas[i].hasNode ==> u == Unbound(0, b.(vmas := Destroy(b.vmas, i)), queues)
    ensures b.vmas[i].hasNode && b.vmas[i].pinCount > 0 ==> u == Unbound(EBUSY, b, queues)
    ensures u.ret != 0 ==> u.bo.vmas == b.vmas && u.bo.obj.store == b.obj.store
    ensures u.ret == 0 ==> u.bo.vmas == Destroy(b.vmas, i)
    ensures u.ret == 0 && b.vmas[i].hasNode ==>
              u.bo.obj.store == b.obj.store.(pinCount := b.obj.store.pinCount - 1)
              && (waitFirst ==> Idle(u.bo.obj.act))
              && (u.bo.vmas == [] ==> u.bo.onUnboundList)
              && (b.vmas[i].ggttNormal ==> !u.bo.mapAndFenceable && !(DOMAIN_GTT <= u.bo.obj.dom.read))
  {
    var v := b.vmas[i];
    if !v.hasNode then
      DestroyCounts(b.vmas, i);
      DestroyDistinct(b.vmas, i);
      Unbound(0, b.(vmas := Destroy(b.vmas, i)), queues)
    else if v.pinCount > 0 then Unbound(EBUSY, b, queues)
    else UnbindIdle(b, i, waitFirst, queues, wait, fenceErr)
  }

  /** Unbinding an allocated, unpinned binding: rendering is waited for
      first when `waitFirst`, and a failed wait leaves the bindings and the
      pages alone. */
  function UnbindIdle(b: Bo, i: nat, waitFirst: bool, queues: seq<seq<Request>>,
                      wait: Request -> WaitResult, fenceErr: int): (u: Unbound)
    requires BoOk(b) && |queues| == NUM_RINGS && i < |b.vmas|
    requires b.vmas[i].hasNode && b.vmas[i].pinCount == 0
    ensures BoOk(u.bo) && Shrunk(queues, u.queues)
    ensures u.ret != 0 ==> u.bo.vmas == b.vmas && u.bo.obj.store == b.obj.store
    ensures u.ret == 0 ==> u.bo.vmas == Destroy(b.vmas, i)
                           && u.bo.obj.store == b.obj.store.(pinCount := b.obj.store.pinCount - 1)
                           && (waitFirst ==> Idle(u.bo.obj.act))
                           && (u.bo.vmas == [] ==> u.bo.onUnboundList)
                           && (b.vmas[i].ggttNormal ==> !u.bo.mapAndFenceable && !(DOMAIN_GTT <= u.bo.obj.dom.read))
  {
    var w := if waitFirst then WaitRendering(b.obj.act, queues, false, wait) else Waited(0, b.obj.act, queues);
    if w.ret != 0 then Unbound(w.ret, b.(obj := b.obj.(act := w.act)), w.queues)
    else
      var r := Release(b, i, w.act, fenceErr);
      Unbound(r.0, r.1, w.queues)
  }

  /** The part of an unbind after rendering is done, with activity `act`. */
  function Release(b: Bo, i: nat, act: Activity, fenceErr: int): (r: (int, Bo))
    requires BoOk(b) && ActivityOk(act) && i < |b.vmas|
    requires b.vmas[i].hasNode && b.vmas[i].pinCount == 0
    ensures BoOk(r.1) && r.1.obj.act == act
    ensures r.0 != 0 ==> r.1.vmas == b.vmas && r.1.obj.store == b.obj.store
    ensures r.0 == 0 ==> r.1.vmas == Destroy(b.vmas, i)
                         && r.1.obj.store == b.obj.store.(pinCount := b.obj.store.pinCount - 1)
                         && (r.1.vmas == [] ==> r.1.onUnboundList)
    ensures b.vmas[i].ggttNormal ==> !(DOMAIN_GTT <= r.1.obj.dom.read)
    ensures r.0 == 0 && b.vmas[i].ggttNormal ==> !r.1.mapAndFenceable
  {
    var v := b.vmas[i];
    DestroyCounts(b.vmas, i);
    DestroyDistinct(b.vmas, i);
    var o1 := b.obj.(act := act);
    var o2 := if v.ggttNormal then FinishGtt(o1) else o1;
    if v.ggttNormal && fenceErr != 0 then (fenceErr, b.(obj := o2))
    else
      var vmas' := Destroy(b.vmas, i);
      var o3 := o2.(store := o2.store.(pinCount := o2.store.pinCount - 1));
      (0, Bo(o3, vmas', if v.ggttNormal then false else b.mapAndFenceable, b.onUnboundList || vmas' == []))
  }

  /** Unbinding is idempotent: once an unbind has succeeded, unbinding the
      same binding again succeeds and changes nothing. */
  lemma UnbindTwice(b: Bo, id: nat, waitFirst: bool, queues: seq<seq<Request>>,
                    wait: Request -> WaitResult, fenceErr: int)
    requires BoOk(b) && |queues| == NUM_RINGS
    requires Unbind(b, id, waitFirst, queues, wait, fenceErr).ret == 0
    ensures var u := Unbind(b, id, waitFirst, queues, wait, fenceErr);
            Unbind(u.bo, id, waitFirst, u.queues, wait, fenceErr) == Unbound(0, u.bo, u.queues)
  {
    var u := Unbind(b, id, waitFirst, queues, wait, fenceErr);
    match Locate(u.bo.vmas, id)
    case None =>
    case Some(k) =>
      var vs := u.bo.vmas;
      assert !vs[k].hasNode && vs[k].reserved;
      assert vs[k := vs[k].(hasNode := false)] == vs;
  }

  /** Whether any binding of the object is pinned. */
  predicate AnyPinned(vmas: seq<Vma>) {
    exists k :: 0 <= k < |vmas| && vmas[k].pinCount > 0
  }

  /** Discarding the backing storage at once: only an object backed by a
      shmem file can be truncated, and it is then purged. */
  function Truncate(s: Backing): (s': Backing)
    ensures s'.madv == (if s.hasFilp then MADV_PURGED else s.madv)
    ensures s' == s.(madv := s'.madv)
  {
    if s.hasFilp then s.(madv := MADV_PURGED) else s
  }

  /** Releasing the pages of an object that no longer has them in use: an
      object marked "don't need" is then truncated, a purged one stays
      purged, and one still needed keeps its advice. */
  function Invalidate(s: Backing): (s': Backing)
    ensures s'.madv == MADV_PURGED <==> s.madv == MADV_PURGED || (s.madv == MADV_DONTNEED && s.hasFilp)
    ensures s'.madv != MADV_PURGED ==> s'.madv == s.madv
    ensures s' == s.(madv := s'.madv)
  {
    if s.madv == MADV_DONTNEED then Truncate(s)
    else s
  }

  /** Putting the pages: nothing to do without pages; refused with EBUSY
      while they are pinned; otherwise they are released and the advice
      decides whether the storage is discarded. */
  function PutPages(s: Backing): (r: (int, Backing))
    requires BackingOk(s)
    ensures r.0 == 0 || r.0 == EBUSY
    ensures r.0 == EBUSY <==> s.hasPages && s.pinCount > 0
    ensures r.0 == EBUSY ==> r.1 == s
    ensures r.0 == 0 ==> !r.1.hasPages && BackingOk(r.1)
    ensures r.0 == 0 && s.hasPages ==> r.1 == Invalidate(s.(hasPages := false))
    ensures !s.hasPages ==> r == (0, s)
  {
    if !s.hasPages then (0, s)
    else if s.pinCount > 0 then (EBUSY, s)
    else (0, Invalidate(s.(hasPages := false)))
  }

  /** On devices that keep the pages of tiled objects pinned (`quirk`), a
      needed object's pages carry one pin beyond those of its bindings. */
  ghost predicate QuirkPinned(b: Bo, tiled: bool, quirk: bool) {
    b.obj.store.hasPages && tiled && quirk && b.obj.store.madv == MADV_WILLNEED
    ==> b.obj.store.pinCount > Allocated(b.vmas)
  }

  /** The madvise ioctl on a looked-up object `lookup`: only "will need" and
      "don't need" may be asked for (EINVAL); then the device lock
      (`lockErr`), the handle (ENOENT) and a pinned binding (EINVAL) may
      refuse. On devices that keep the pages of tiled objects pinned
      (`quirk`), a needed object's pages carry one extra pin, moved with the
      advice. A purged object stays purged; a "don't need" object without
      pages is truncated at once. The third result says whether the contents
      are still retained. */
  function Madvise(lookup: Option<Bo>, madv: int, lockErr: int, tiled: bool, quirk: bool): (r: (int, Option<Bo>, bool))
    requires lookup.Some? ==> BoOk(lookup.value)
    requires (lookup.Some? && lookup.value.obj.store.hasPages && tiled && quirk
              && lookup.value.obj.store.madv == MADV_WILLNEED) ==> lookup.value.obj.store.pinCount >= 1
    ensures r.1.Some? <==> lookup.Some?
    ensures madv != MADV_WILLNEED && madv != MADV_DONTNEED ==> r.0 == EINVAL && r.1 == lookup
    ensures r.0 != 0 ==> r.1 == lookup
    ensures r.0 == 0 <==> (madv == MADV_WILLNEED || madv == MADV_DONTNEED) && lockErr == 0
                          && lookup.Some? && !AnyPinned(lookup.value.vmas)
    ensures r.0 == 0 && QuirkPinned(lookup.value, tiled, quirk) ==> BoOk(r.1.value) && QuirkPinned(r.1.value, tiled, quirk)
    ensures r.0 == 0 ==> r.1.value.vmas == lookup.value.vmas
                         && r.1.value.obj == lookup.value.obj.(store := r.1.value.obj.store)
    ensures r.0 == 0 ==> var s, s' := lookup.value.obj.store, r.1.value.obj.store;
              s'.hasPages == s.hasPages && s'.hasFilp == s.hasFilp
              && (s.madv == MADV_PURGED ==> s'.madv == MADV_PURGED)
              && (s.madv != MADV_PURGED ==>
                    s'.madv == madv || (s'.madv == MADV_PURGED && madv == MADV_DONTNEED && !s.hasPages && s.hasFilp))
              && (s.hasPages && tiled && quirk ==>
                    s'.pinCount == s.pinCount - (if s.madv == MADV_WILLNEED then 1 else 0) + (if madv == MADV_WILLNEED then 1 else 0))
              && (!(s.hasPages && tiled && quirk) ==> s'.pinCount == s.pinCount)
    ensures r.0 == 0 ==> (r.2 <==> r.1.value.obj.store.madv != MADV_PURGED)
  {
    if madv != MADV_WILLNEED && madv != MADV_DONTNEED then (EINVAL, lookup, false)
    else if lockErr != 0 then (lockErr, lookup, false)
    else if lookup.None? then (ENOENT, lookup, false)
    else
      var b := lookup.value;
      if AnyPinned(b.vmas) then (EINVAL, lookup, false)
      else
        var s := b.obj.store;
        var s3 := Advise(s, madv, tiled && quirk);
        (0, Some(b.(obj := b.obj.(store := s3))), s3.madv != MADV_PURGED)
  }

  /** The backing store after advice `madv` is accepted: with `pinTiled`, a
      populated object gives up the pin its "will need" advice held and takes
      one for the new advice; a purged object stays purged, and a "don't
      need" object without pages is truncated at once. */
  function Advise(s: Backing, madv: int, pinTiled: bool): (s': Backing)
    requires BackingOk(s) && (madv == MADV_WILLNEED || madv == MADV_DONTNEED)
    requires s.hasPages && pinTiled && s.madv == MADV_WILLNEED ==> s.pinCount >= 1
    ensures BackingOk(s')
    ensures s'.hasPages == s.hasPages && s'.hasFilp == s.hasFilp
    ensures s.madv == MADV_PURGED ==> s'.madv == MADV_PURGED
    ensures s.madv != MADV_PURGED ==>
              s'.madv == madv || (s'.madv == MADV_PURGED && madv == MADV_DONTNEED && !s.hasPages && s.hasFilp)
    ensures s.hasPages && pinTiled ==>
              s'.pinCount == s.pinCount - (if s.madv == MADV_WILLNEED then 1 else 0) + (if madv == MADV_WILLNEED then 1 else 0)
    ensures !(s.hasPages && pinTiled) ==> s'.pinCount == s.pinCount
  {
    var s1 := if s.hasPages && pinTiled then
                var unpinned := if s.madv == MADV_WILLNEED then s.(pinCount := s.pinCount - 1) else s;
                if madv == MADV_WILLNEED then unpinned.(pinCount := unpinned.pinCount + 1) else unpinned
              else s;
    var s2 := if s1.madv != MADV_PURGED then s1.(madv := madv) else s1;
    if s2.madv == MADV_DONTNEED && !s2.hasPages then Truncate(s2) else s2
  }

  /** Creating an object: if the allocation succeeds, it starts in the CPU
      read and write domain, idle, without pages, backed by a shmem file and
      needed; its CPU cache is coherent exactly when the device has a
      last-level cache shared with the GPU. */
  function AllocObject(allocOk: bool, hasLlc: bool): (r: Option<Bo>)
    ensures r.Some? <==> allocOk
    ensures r.Some? ==> BoOk(r.value) && r.value.vmas == []
    ensures r.Some? ==> var o := r.value.obj;
              o.dom == Domains(DOMAIN_CPU, DOMAIN_CPU) && Idle(o.act)
              && o.store == Backing(true, false, 0, MADV_WILLNEED)
              && o.place.coherent == hasLlc && !o.place.pinDisplay
  {
    if !allocOk then None
    else
      var o := Obj(Domains(DOMAIN_CPU, DOMAIN_CPU), false, false,
                   Placement(hasLlc, false, false, false),
                   Backing(true, false, 0, MADV_WILLNEED), Inactive());
      Some(Bo(o, [], false, false))
  }

  /** Purging is for good: after "don't need" and the release of its pages a
      shmem-backed object is purged, later advice cannot revive it, and its
      pages can no longer be acquired. */
  lemma PurgedForGood(b: Bo, lockErr: int, tiled: bool, quirk: bool, storeErr: int)
    requires BoOk(b) && QuirkPinned(b, tiled, quirk) && !AnyPinned(b.vmas) && b.obj.store.hasFilp
    requires b.obj.store.hasPages ==> b.obj.store.pinCount == 0
    ensures var m := Madvise(Some(b), MADV_DONTNEED, 0, tiled, quirk);
            m.0 == 0 && (var p := PutPages(m.1.value.obj.store);
              p.0 == 0 && p.1.madv == MADV_PURGED
              && GetPages(p.1, storeErr) == Err(EFAULT)
              && (var b' := m.1.value.(obj := m.1.value.obj.(store := p.1));
                  Madvise(Some(b'), MADV_WILLNEED, lockErr, tiled, quirk).2 == false))
  {
    var b' := DontNeedThenRelease(b, tiled, quirk);
    PurgedStaysPurged(b', lockErr, tiled, quirk);
  }

  /** "Don't need" followed by the release of the pages leaves a shmem-backed
      object purged and without pages; the result is that object. */
  lemma DontNeedThenRelease(b: Bo, tiled: bool, quirk: bool) returns (b': Bo)
    requires BoOk(b) && QuirkPinned(b, tiled, quirk) && !AnyPinned(b.vmas) && b.obj.store.hasFilp
    requires b.obj.store.hasPages ==> b.obj.store.pinCount == 0
    ensures var m := Madvise(Some(b), MADV_DONTNEED, 0, tiled, quirk);
            m.0 == 0 && (var p := PutPages(m.1.value.obj.store);
              p.0 == 0 && b' == m.1.value.(obj := m.1.value.obj.(store := p.1)))
    ensures BoOk(b') && b'.obj.store.madv == MADV_PURGED && !b'.obj.store.hasPages
  {
    var m := Madvise(Some(b), MADV_DONTNEED, 0, tiled, quirk);
    var s := m.1.value.obj.store;
    assert s == Advise(b.obj.store, MADV_DONTNEED, tiled && quirk);
    assert s.hasPages ==> s.pinCount == 0;
    var p := PutPages(s);
    b' := m.1.value.(obj := m.1.value.obj.(store := p.1));
  }

  /** A purged object without pages refuses to be revived: "will need"
      reports the contents lost, and its pages cannot be acquired. */
  lemma PurgedStaysPurged(b: Bo, lockErr: int, tiled: bool, quirk: bool)
    requires BoOk(b) && b.obj.store.madv == MADV_PURGED && !b.obj.store.hasPages
    ensures Madvise(Some(b), MADV_WILLNEED, lockErr, tiled, quirk).2 == false
  {
  }
}
