/** GEM placement arithmetic: object-size rounding at creation, the bounds
    checks of the pread and pwrite ioctls, the fence region size and
    alignment older chips need for tiled objects, and whether a binding
    satisfies a pin request. */
module GemLayout {
  import opened Wrappers
  import opened Bits

  const PAGE_SIZE := 4096

  /** Pin-request flags (the driver header, which is not part of this model,
      fixes these bits): the binding must be CPU-mappable through the
      aperture, or must start at or above the offset carried in the flags'
      page-aligned bits. */
  const PIN_MAPPABLE_BIT := 0
  const PIN_OFFSET_BIAS_BIT := 3

  lemma PageIsPow2()
    ensures IsPow2(PAGE_SIZE)
  {
    assert IsPow2(1) && IsPow2(2) && IsPow2(4) && IsPow2(8) && IsPow2(16) && IsPow2(32) && IsPow2(64);
    assert IsPow2(128) && IsPow2(256) && IsPow2(512) && IsPow2(1024) && IsPow2(2048) && IsPow2(4096);
  }

  // ---------------------------------------------------------------------
  // Creation

  /** The create ioctl's size handling: the requested `u64` size is rounded
      up to whole pages (wrapping to 0 near the top of the range) and 0 is
      refused; object allocation (`allocOk`) and handle creation (`handleErr`,
      0 for success) may still fail. On success the rounded size comes back. */
  function Create(size: U64, allocOk: bool, handleErr: int): (r: Result<U64>)
    ensures r.Ok? <==> 0 < size <= U64_LIMIT - PAGE_SIZE && allocOk && handleErr == 0
    ensures r.Ok? ==> r.value % PAGE_SIZE == 0 && size <= r.value < size + PAGE_SIZE
    ensures (size == 0 || size > U64_LIMIT - PAGE_SIZE) ==> r == Err(EINVAL)
    ensures 0 < size <= U64_LIMIT - PAGE_SIZE && !allocOk ==> r == Err(ENOMEM)
  {
    var rounded := ((size + (PAGE_SIZE - 1)) % U64_LIMIT) / PAGE_SIZE * PAGE_SIZE;
    if rounded == 0 then Err(EINVAL)
    else if !allocOk then Err(ENOMEM)
    else if handleErr != 0 then Err(handleErr)
    else Ok(rounded)
  }

  // ---------------------------------------------------------------------
  // pread / pwrite

  /** What the ioctls need of a looked-up object. */
  datatype Target = Target(size: U64, hasFilp: bool)

  /** Where the checks of a pread or pwrite leave the call: nothing to do,
      on to the copy, or failed. */
  datatype Access = NothingToDo | Copy | Refused(errno: int)

  /** The checks pread and pwrite make before copying: an empty transfer
      succeeds at once; then the user buffer must be accessible (`userOk`),
      the device lock taken (`lockErr`), the handle found, the range inside
      the object, and the object backed by a shmem file. */
  function CheckAccess(offset: U64, size: U64, userOk: bool, lockErr: int, lookup: Option<Target>): (a: Access)
    ensures size == 0 <==> a == NothingToDo
    ensures a == Copy <==>
              size != 0 && userOk && lockErr == 0 && lookup.Some?
              && offset + size <= lookup.value.size && lookup.value.hasFilp
    ensures size != 0 && !userOk ==> a == Refused(EFAULT)
    ensures size != 0 && userOk && lockErr == 0 && lookup.None? ==> a == Refused(ENOENT)
    ensures size != 0 && userOk && lockErr != 0 ==> a == Refused(lockErr)
    ensures size != 0 && userOk && lockErr == 0 && lookup.Some? && offset + size > lookup.value.size ==> a == Refused(EINVAL)
    ensures (size != 0 && userOk && lockErr == 0 && lookup.Some? && offset + size <= lookup.value.size
             && !lookup.value.hasFilp) ==> a == Refused(EINVAL)
  {
    if size == 0 then NothingToDo
    else if !userOk then Refused(EFAULT)
    else if lockErr != 0 then Refused(lockErr)
    else if lookup.None? then Refused(ENOENT)
    else if offset > lookup.value.size || size > lookup.value.size - offset then Refused(EINVAL)
    else if !lookup.value.hasFilp then Refused(EINVAL)
    else Copy
  }

  /** The copy paths pwrite may take. */
  datatype WritePath = GttFast | Phys | Shmem

  /** The pwrite copy: the fast path through the aperture is tried for an
      untiled object not in the CPU write domain whose CPU writes would need
      flushing; when it was not tried, or failed with EFAULT or ENOSPC, the
      physical or shmem path does the copy. `fastRet` is what the fast path
      would return. */
  function PwritePath(untiled: bool, cpuWriteDomain: bool, needsClflush: bool, phys: bool, fastRet: int): (p: WritePath)
    ensures p == GttFast <==>
              untiled && !cpuWriteDomain && needsClflush && fastRet != EFAULT && fastRet != ENOSPC
    ensures p == Phys <==> p != GttFast && phys
  {
    var ret := if untiled && !cpuWriteDomain && needsClflush then fastRet else EFAULT;
    if ret != EFAULT && ret != ENOSPC then GttFast
    else if phys then Phys
    else Shmem
  }

  /** Creating an object with a size the create ioctl handed back gives
      that size again: rounding to whole pages is idempotent. */
  lemma CreateAgain(size: U64)
    requires Create(size, true, 0).Ok?
    ensures Create(Create(size, true, 0).value, true, 0) == Create(size, true, 0)
  {
    var r := Create(size, true, 0).value;
    var r2 := Create(r, true, 0);
    assert r2.Ok?;
    assert r2.value % PAGE_SIZE == 0 && r <= r2.value < r + PAGE_SIZE;
    assert r2.value == r by {
      var k1, k2 := r / PAGE_SIZE, r2.value / PAGE_SIZE;
      assert r == k1 * PAGE_SIZE && r2.value == k2 * PAGE_SIZE;
      assert k1 <= k2 < k1 + 1;
    }
  }

  /** Any nonempty part of a range pread or pwrite would copy passes the
      same checks. */
  lemma SubRangeAccess(offset: U64, size: U64, offset2: U64, size2: U64, lockErr: int, lookup: Option<Target>)
    requires CheckAccess(offset, size, true, lockErr, lookup) == Copy
    requires offset <= offset2 && offset2 + size2 <= offset + size && size2 != 0
    ensures CheckAccess(offset2, size2, true, lockErr, lookup) == Copy
  {
  }

  /** A fast path that failed with EFAULT or ENOSPC leaves pwrite exactly
      where it would have been had the fast path not been tried. */
  lemma FailedFastPathFallsBack(cpuWriteDomain: bool, needsClflush: bool, phys: bool, fastRet: int, other: int)
    requires fastRet == EFAULT || fastRet == ENOSPC
    ensures PwritePath(true, cpuWriteDomain, needsClflush, phys, fastRet) == PwritePath(false, false, false, phys, other)
  {
  }

  // ---------------------------------------------------------------------
  // Fence regions

  /** The first fence size tried on generation 3 (1 MiB) and earlier (512 KiB). */
  function FenceStart(gen: int): nat {
    if gen == 3 then 1024 * 1024 else 512 * 1024
  }

  /** Doubling `g` until it covers `size`. */
  function Grow(g: nat, size: nat): (r: nat)
    requires IsPow2(g)
    ensures IsPow2(r) && r >= size && r >= g
    ensures r == g || r / 2 < size
    decreases size - g
  {
    if g < size then
      var r := Grow(2 * g, size);
      assert IsPow2(2 * g) by { assert (2 * g) / 2 == g; }
      r
    else g
  }

  lemma StartIsPow2(gen: int)
    ensures IsPow2(FenceStart(gen))
  {
    assert Pow2(3) == 8 && Pow2(4) == 16;
    Pow2Add(4, 4);
    Pow2Add(8, 8);
    Pow2Add(16, 3);
    Pow2Add(16, 4);
    Pow2IsPow2(19);
    Pow2IsPow2(20);
    assert Pow2(19) == 524288;
    assert Pow2(20) == 1048576;
    assert IsPow2(524288);
    assert IsPow2(1048576);
    if gen == 3 {
      assert FenceStart(gen) == 1048576;
    } else {
      assert FenceStart(gen) == 524288;
    }
  }

  /** The size of the fence region an object needs: its own size from
      generation 4 on or when untiled; otherwise the smallest power of two
      from the generation's start that covers it. */
  function FenceSize(gen: int, size: U32, tiled: bool): (r: nat)
    ensures !(gen < 4 && tiled) ==> r == size
    ensures gen < 4 && tiled ==>
              IsPow2(r) && r >= size && r >= FenceStart(gen)
              && (r == FenceStart(gen) || r / 2 < size)
  {
    if gen >= 4 || !tiled then size
    else
      StartIsPow2(gen);
      Grow(FenceStart(gen), size)
  }

  /** The fence-size computation as the driver runs it, doubling a `u32`.
      For a tiled object above 2 GiB on generation 3 or earlier the `u32`
      doubling would wrap to 0 and never end, so such sizes are excluded. */
  method GttSize(gen: int, size: U32, tiled: bool) returns (r: U32)
    requires gen >= 4 || !tiled || size <= 0x8000_0000
    ensures r == FenceSize(gen, size, tiled)
  {
    if gen >= 4 || !tiled {
      return size;
    }
    StartIsPow2(gen);
    r := if gen == 3 then 1024 * 1024 else 512 * 1024;
    while r < size
      invariant IsPow2(r)
      invariant Grow(r, size) == Grow(FenceStart(gen), size)
      decreases size - r
    {
      assert IsPow2(2 * r) by { assert (2 * r) / 2 == r; }
      r := 2 * r;
    }
  }

  /** The alignment a binding needs: a page, unless a fence register must
      cover a tiled object on generation 3 or earlier (G33 exempts unfenced
      bindings), in which case the fence size. */
  function FenceAlignment(gen: int, isG33: bool, size: U32, tiled: bool, fenced: bool): (a: nat)
    ensures gen >= 4 || (!fenced && isG33) || !tiled ==> a == PAGE_SIZE
    ensures !(gen >= 4 || (!fenced && isG33) || !tiled) ==> IsPow2(a) && a >= size && a == FenceSize(gen, size, tiled)
  {
    if gen >= 4 || (!fenced && isG33) || !tiled then PAGE_SIZE else FenceSize(gen, size, tiled)
  }

  /** The alignment computation as the driver runs it. */
  method GttAlignment(gen: int, isG33: bool, size: U32, tiled: bool, fenced: bool) returns (a: U32)
    requires gen >= 4 || !tiled || size <= 0x8000_0000
    ensures a == FenceAlignment(gen, isG33, size, tiled, fenced)
  {
    if gen >= 4 || (!fenced && isG33) || !tiled {
      return 4096;
    }
    a := GttSize(gen, size, tiled);
  }

  // ---------------------------------------------------------------------
  // Pin requests

  /** A binding is misplaced for a pin request when its start fails the
      alignment mask `alignment - 1`, when the request wants a mappable
      binding and the object is not mappable and fenceable there, or when the
      request sets a minimum offset (the flags' page-aligned bits) and the
      binding starts below it. For a power-of-two alignment the mask test is
      the remainder test. */
  function Misplaced(start: U64, alignment: U32, flags: U64, mapAndFenceable: bool): (m: bool)
    ensures (alignment == 0 || IsPow2(alignment)) ==>
              (m <==> (alignment != 0 && start % alignment != 0)
                      || (Bit(flags, PIN_MAPPABLE_BIT) && !mapAndFenceable)
                      || (Bit(flags, PIN_OFFSET_BIAS_BIT) && start < flags / PAGE_SIZE * PAGE_SIZE))
  {
    var misaligned := alignment != 0 && And(start, alignment - 1) != 0;
    assert IsPow2(alignment) ==> (misaligned <==> alignment != 0 && start % alignment != 0) by {
      if IsPow2(alignment) { AndPow2Mask(start, alignment); }
    }
    misaligned
    || (Bit(flags, PIN_MAPPABLE_BIT) && !mapAndFenceable)
    || (Bit(flags, PIN_OFFSET_BIAS_BIT) && start < flags / PAGE_SIZE * PAGE_SIZE)
  }

  /** The fence alignment is always a power of two. */
  lemma AlignmentIsPow2(gen: int, isG33: bool, size: U32, tiled: bool, fenced: bool)
    ensures IsPow2(FenceAlignment(gen, isG33, size, tiled, fenced))
  {
    PageIsPow2();
  }

  /** Whether a binding at `start` of `nodeSize` bytes lets the object be
      both fenced (the node is exactly the fence region and starts on the
      fence alignment) and mapped (the fence region ends inside the mappable
      aperture, the `u64` sum wrapping). */
  method MapAndFenceable(gen: int, isG33: bool, objSize: U32, tiled: bool,
                         start: U64, nodeSize: U64, mappableEnd: U64) returns (mf: bool)
    requires gen >= 4 || !tiled || objSize <= 0x8000_0000
    ensures mf ==> nodeSize == FenceSize(gen, objSize, tiled) >= objSize
    ensures mf <==>
              nodeSize == FenceSize(gen, objSize, tiled)
              && start % FenceAlignment(gen, isG33, objSize, tiled, true) == 0
              && (start + FenceSize(gen, objSize, tiled)) % U64_LIMIT <= mappableEnd
  {
    var fenceSize := GttSize(gen, objSize, tiled);
    var fenceAlignment := GttAlignment(gen, isG33, objSize, tiled, true);
    AlignmentIsPow2(gen, isG33, objSize, tiled, true);
    AndPow2Mask(start, fenceAlignment);
    var aligned := And(start, fenceAlignment - 1) == 0;
    assert aligned <==> start % fenceAlignment == 0;
    var fenceable := nodeSize == fenceSize && aligned;
    var mappable := (start + fenceSize) % U64_LIMIT <= mappableEnd;
    assert fenceable == (nodeSize == FenceSize(gen, objSize, tiled)
                         && start % FenceAlignment(gen, isG33, objSize, tiled, true) == 0);
    mf := mappable && fenceable;
  }

  /** A binding placed on the fence alignment satisfies a mappable pin
      request at that alignment once the object is mappable and fenceable. */
  lemma FenceableNotMisplaced(gen: int, isG33: bool, objSize: U32, tiled: bool, start: U64, flags: U64)
    requires !Bit(flags, PIN_OFFSET_BIAS_BIT)
    requires start % FenceAlignment(gen, isG33, objSize, tiled, true) == 0
    requires FenceAlignment(gen, isG33, objSize, tiled, true) < U32_LIMIT
    ensures !Misplaced(start, FenceAlignment(gen, isG33, objSize, tiled, true), flags, true)
  {
    AlignmentIsPow2(gen, isG33, objSize, tiled, true);
  }
}
