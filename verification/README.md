# Four kernel cores in Dafny

This project models four independent, sequential pieces of a Linux kernel
tree. It proves properties of each model.

- **i915 GEM bookkeeping** (`drivers/gpu/drm/i915/i915_gem.c`). Covers:
  - the read and write coherency domains of a buffer object and their transitions;
  - the per-ring read requests and the write request an object waits on;
  - the per-ring request FIFOs and the sequence-number allocator;
  - the unbind and madvise guards;
  - fence size and alignment, `vma_misplaced`;
  - the create, pread, pwrite and set-domain argument checks.
- **ARM LPAE I/O page tables** (`drivers/iommu/io-pgtable-arm.c`). This is the
  long-descriptor translation table format of section D4.3 of the ARM
  Architecture Reference Manual for ARMv8-A. Covers:
  - the geometry of a table and the page-size restriction;
  - descriptor construction;
  - the mapping count kept in a table descriptor's ignored bits;
  - map, unmap and `iova_to_phys` over a recursive table of descriptor slots.
- **DWC3 control endpoint** (`drivers/usb/dwc3/ep0.c`). Covers:
  - the SETUP / DATA / STATUS phase machine;
  - the standard requests of chapter 9 of the USB 2.0 specification: Get Status, Set Address, Set/Clear Feature and Set Configuration;
  - the USB 3.x Set SEL and Set Isochronous Delay requests.
- **quota2 netfilter match** (`net/netfilter/xt_quota2.c`). Covers:
  - the per-packet decision;
  - rule validation;
  - the registry of named, reference-counted counters.

Hardware, locks and I/O are abstracted:

- A wait, a lookup, an allocation, a lock or the gadget driver's `setup`
  callback becomes a parameter. The parameter carries the outcome, for
  example `wait: Request -> WaitResult`, `allocOk`, `lockErr` or `setupRet`.
  The model covers every outcome.
- Register contents (DCTL, the hardware seqno) become plain fields.
- Bit masks become either sets of bit positions or naturals read through
  `Bits.Bit`.
- Fixed-width wrap-around is written out: `% U64_LIMIT`, `% SEQNO_LIMIT`,
  `% TBLCNT_LIMIT`.

Layout:

| file | module | contents |
|---|---|---|
| `wrappers.dfy` | `Wrappers` | `Option` and `Result` |
| `arith.dfy` | `Arith` | division and modulo facts |
| `bits.dfy` | `Bits` | powers of two, `Bit`, shifts, and/or on naturals |
| `gem_requests.dfy` | `GemRequests` | requests, seqno comparison, FIFO retirement |
| `gem_seqno.dfy` | `GemSeqno` | the seqno allocator |
| `gem_activity.dfy` | `GemActivity` | an object's read and write requests, waits, retirement |
| `gem_domains.dfy` | `GemDomains` | coherency domains and flushes |
| `gem_layout.dfy` | `GemLayout` | create rounding, access checks, fences, placement |
| `gem_object.dfy` | `GemObject` | VMAs, unbind, backing store, madvise |
| `lpae_pte.dfy` | `LpaePte` | descriptor bits, table count, `prot_to_pte`, `init_pte` |
| `lpae_geometry.dfy` | `LpaeGeometry` | page-size restriction, geometry, table allocation |
| `lpae_table.dfy` | `LpaeTable` | the table tree: map, unmap, translate |
| `lpae_props.dfy` | `LpaeProps` | round trips and frame properties of map and unmap |
| `lpae_split.dfy` | `LpaeSplit` | splitting a block, and unmapping one page inside it |
| `ep0_types.dfy` | `Ep0Types` | control requests, endpoints, device and phase state |
| `ep0_transfer.dfy` | `Ep0Transfer` | starting transfers, stall and restart, queueing |
| `ep0_requests.dfy` | `Ep0Requests` | standard request handling |
| `ep0_phase.dfy` | `Ep0Phase` | the phase machine's event handlers |
| `quota2.dfy` | `Quota2` | decision, validation, counter registry |

Constants defined in headers outside these four files are written into the
models with their header values. These headers are not part of this model:

- `xt_quota2.h`: the flag bits and the name length;
- `i915_drm.h`: domains, madvise states and pin flags;
- `ch9.h` and the dwc3 `core.h`: request codes, feature selectors, states and TRB kinds.

## Model

| member | source | states |
|---|---|---|
| `GemRequests.RetireRing` | drivers/gpu/drm/i915/i915_gem.c:2971-2982 | retiring a ring removes a prefix of its FIFO and keeps the rest in order; every removed request is completed; the first remaining one is not |
| `GemRequests.IndexOf` | drivers/gpu/drm/i915/i915_gem.c:1440-1448 | the position of the first occurrence of a request in the FIFO |
| `GemRequests.PopThrough` | drivers/gpu/drm/i915/i915_gem.c:1440-1448 | popping through a request leaves exactly the requests after its first occurrence |
| `GemRequests.RetireUpto` | drivers/gpu/drm/i915/i915_gem.c:1432-1451 | a request not in the FIFO leaves it unchanged; otherwise everything up to and including it is removed; on a FIFO without duplicates the request is gone and the rest stays duplicate-free |
| `GemRequests.CompletedIffReached` | drivers/gpu/drm/i915/i915_gem.c:2971-2982 | for seqnos within half the u32 range ahead of a base, the wrapping `i915_seqno_passed` test agrees with plain order |
| `GemRequests.IncompleteBeyond` | drivers/gpu/drm/i915/i915_gem.c:2971-2982 | a request emitted after an incomplete one is itself incomplete |
| `GemRequests.RetireRingLeavesNoneCompleted` | drivers/gpu/drm/i915/i915_gem.c:2971-2982 | on a FIFO emitted in seqno order, no completed request survives retirement |
| `GemSeqno.InitSeqno` | drivers/gpu/drm/i915/i915_gem.c:2552-2575 | fails exactly when idling the GPU fails, with its error; otherwise every ring's FIFO is emptied and its hardware seqno set, with the allocator untouched |
| `GemSeqno.GetSeqno` | drivers/gpu/drm/i915/i915_gem.c:2604-2619 | the handed-out seqno is never 0 (0 wraps to 1); `last_seqno` becomes it and `next_seqno` the following one mod 2^32; only the wrap, which must idle the rings, can fail |
| `GemSeqno.SetSeqno` | drivers/gpu/drm/i915/i915_gem.c:2577-2601 | 0 is rejected with EINVAL; otherwise it succeeds iff idling succeeds and sets `next_seqno` to the value, `last_seqno` to the one before it (skipping 0) and each ring's hardware seqno to value - 1 |
| `GemSeqno.SetThenGet` | drivers/gpu/drm/i915/i915_gem.c:2577-2619 | after a successful `set_seqno(s)` the next `get_seqno` returns `s` |
| `GemSeqno.Draw` | drivers/gpu/drm/i915/i915_gem.c:2604-2619 | drawing k seqnos in a row yields k of them |
| `GemSeqno.DrawCycles` | drivers/gpu/drm/i915/i915_gem.c:2604-2619 | the i-th drawn seqno is the start advanced by i through the nonzero u32 values |
| `GemSeqno.CycleStep` | drivers/gpu/drm/i915/i915_gem.c:2604-2619 | one draw advances the cycle by one step |
| `GemSeqno.NextStart` | drivers/gpu/drm/i915/i915_gem.c:2604-2619 | the draw after `s` starts at the nonzero successor of `s` |
| `GemSeqno.DrawDistinct` | drivers/gpu/drm/i915/i915_gem.c:2604-2619 | up to 2^32 - 1 consecutive draws are pairwise distinct and never 0 |
| `GemActivity.Inactive` | drivers/gpu/drm/i915/i915_gem.c:4485-4536 | a new object is idle: no ring active, no read or write request |
| `GemActivity.MoveToActive` | drivers/gpu/drm/i915/i915_gem.c:2488-2505 | the request becomes the object's read request on its ring and the ring becomes active; other rings and the write request are untouched |
| `GemActivity.RetireWrite` | drivers/gpu/drm/i915/i915_gem.c:2508-2515 | clears the write request and nothing else |
| `GemActivity.RetireRead` | drivers/gpu/drm/i915/i915_gem.c:2518-2549 | clears that ring's read slot and its active bit, the write request if it was on that ring, and the fence request once no ring is active; `active` is empty iff no read slot is left |
| `GemActivity.RetireUptoOn` | drivers/gpu/drm/i915/i915_gem.c:1432-1451 | retiring up to a request only shortens that request's ring FIFO |
| `GemActivity.WaitRequest` | drivers/gpu/drm/i915/i915_gem.c:1458-1485 | succeeds iff the wait is signalled, then retires up to the request; a failed wait returns its errno and changes nothing |
| `GemActivity.WaitReads` | drivers/gpu/drm/i915/i915_gem.c:1512-1522 | waits on each ring's read request from a given ring on, retiring each: earlier rings are untouched; on success no read is left from that ring on (the object is idle if none was before it); a failure is the errno of a failed wait on one of those reads; FIFOs only shrink |
| `GemActivity.WaitReadAt` | drivers/gpu/drm/i915/i915_gem.c:1512-1522 | one step of that loop, on a ring that has a read request |
| `GemActivity.IdleWhenNoReads` | drivers/gpu/drm/i915/i915_gem.c:2518-2549 | an object with no read request left is idle |
| `GemActivity.WaitRendering` | drivers/gpu/drm/i915/i915_gem.c:1492-1527 | an inactive object returns 0 at once; a readonly wait that succeeds leaves no write request, a full wait that succeeds leaves the object idle; a readonly failure changes nothing; any error is the errno of a failed wait on one of the object's requests |
| `GemActivity.RetireRequest` | drivers/gpu/drm/i915/i915_gem.c:1530-1541 | afterwards the request is neither the object's read request on its ring nor its write request, and only slots were emptied |
| `GemActivity.OutstandingReads` | drivers/gpu/drm/i915/i915_gem.c:1565-1585 | collects exactly the object's read requests from a given ring on |
| `GemActivity.FirstFailure` | drivers/gpu/drm/i915/i915_gem.c:1587-1593 | 0 iff every wait is signalled, else the errno of a failed one |
| `GemActivity.RetireAll` | drivers/gpu/drm/i915/i915_gem.c:1595-1600 | retiring the collected requests only empties slots and shortens FIFOs |
| `GemActivity.RetireAllRemoves` | drivers/gpu/drm/i915/i915_gem.c:1595-1600 | after retiring a list of requests, none of them is left in a read or write slot |
| `GemActivity.RetiringAllReadsIdles` | drivers/gpu/drm/i915/i915_gem.c:1565-1600 | retiring all outstanding read requests leaves the object idle |
| `GemActivity.WaitRenderingNonblocking` | drivers/gpu/drm/i915/i915_gem.c:1547-1602 | like `WaitRendering`: 0 at once when inactive, a wedged GPU's error when active, no change on failure, no write request after a readonly success and idle after a full one |
| `GemActivity.SweepActiveList` | drivers/gpu/drm/i915/i915_gem.c:2984-2997 | the longest prefix of the ring's active list whose read request is no longer queued, stopping at the first still queued |
| `GemActivity.RetireReads` | drivers/gpu/drm/i915/i915_gem.c:2984-2997 | retires that ring's read on each of the first n objects |
| `GemActivity.RetireRequestsRing` | drivers/gpu/drm/i915/i915_gem.c:2962-3008 | the FIFO is retired as in `RetireRing`; the active list splits into retired objects (each with its read on the ring retired and no longer queued) and the untouched rest, whose head is still queued |
| `GemDomains.Clflush` | drivers/gpu/drm/i915/i915_gem.c:3650-3685 | flushes iff the object has pages, is neither stolen nor phys, and is forced or not coherent; a flush leaves the cache clean, otherwise the dirty flag records a skipped flush |
| `GemDomains.CpuFlushIffNeeded` | drivers/gpu/drm/i915/i915_gem.c:56-62 | with pages present, a flush forced by display pinning happens exactly when `cpu_write_needs_clflush` says so |
| `GemDomains.FlushGttWriteDomain` | drivers/gpu/drm/i915/i915_gem.c:3689-3714 | only a GTT write domain is flushed, and then only the write domain is cleared |
| `GemDomains.FlushCpuWriteDomain` | drivers/gpu/drm/i915/i915_gem.c:3718-3736 | only a CPU write domain is flushed; it clears the write domain and leaves the cache dirty exactly when no clflush was needed |
| `GemDomains.GetPages` | drivers/gpu/drm/i915/i915_gem.c:2460-2486 | present pages succeed at once; a purgeable or purged object fails with EFAULT; otherwise the backing-store outcome decides |
| `GemDomains.Enter` | drivers/gpu/drm/i915/i915_gem.c:3787-3797 | entering a domain adds it to the read domains; for a write, read == write == target; the write-domain invariant holds after |
| `GemDomains.SetToGttDomain` | drivers/gpu/drm/i915/i915_gem.c:3745-3804 | returns at once when the GTT is already the write domain; otherwise on success pages are present and GTT is a read domain, a write makes read == write == GTT with the object dirty and idle, a read only adds GTT and leaves no write request; on failure the domains are unchanged |
| `GemDomains.GttAfterWait` | drivers/gpu/drm/i915/i915_gem.c:3766-3797 | the part after the wait: fails exactly when getting the pages fails, else moves the domains as above |
| `GemDomains.SetToCpuDomain` | drivers/gpu/drm/i915/i915_gem.c:4100-4142 | returns at once when the CPU is already the write domain; otherwise on success CPU is a read domain, a write makes read == write == CPU with the object idle, a read adds CPU and leaves no write request; failure keeps the domains |
| `GemDomains.CpuAfterWait` | drivers/gpu/drm/i915/i915_gem.c:4113-4140 | the part after the wait: CPU joins the read domains, and a write makes it the only read and write domain |
| `GemDomains.CheckSetDomainArgs` | drivers/gpu/drm/i915/i915_gem.c:1625-1635 | the arguments pass iff neither mask names a GPU domain and a nonzero write domain equals the read domains; otherwise EINVAL |
| `GemDomains.SetDomainIoctl` | drivers/gpu/drm/i915/i915_gem.c:1615-1672 | bad arguments give EINVAL with no change; a missing object gives ENOENT; a successful write leaves read == write == GTT if GTT was asked for, else CPU; a successful GTT read leaves GTT a read domain; the object invariant holds throughout |
| `GemLayout.Create` | drivers/gpu/drm/i915/i915_gem.c:374-401 | size 0 (or one that would overflow when rounded) is EINVAL; otherwise the size is rounded up to whole pages, at least the request and less than one page more; allocation and handle failures are reported |
| `GemLayout.CreateAgain` | drivers/gpu/drm/i915/i915_gem.c:374-401 | creating with a size that create has already rounded gives the same size again |
| `GemLayout.CheckAccess` | drivers/gpu/drm/i915/i915_gem.c:691-722 | size 0 does nothing; otherwise EFAULT for a bad user buffer, the lock's error, ENOENT for a missing object, EINVAL past the object's end or for an object without a backing file; the copy happens exactly when every check passes |
| `GemLayout.SubRangeAccess` | drivers/gpu/drm/i915/i915_gem.c:691-722 | a copy allowed for a range is allowed for every nonempty range inside it |
| `GemLayout.PwritePath` | drivers/gpu/drm/i915/i915_gem.c:1086-1100 | the GTT fast path is taken iff the object is untiled, not in the CPU write domain and needs a clflush, and the fast path did not fail with EFAULT or ENOSPC; otherwise phys objects take the phys path |
| `GemLayout.FailedFastPathFallsBack` | drivers/gpu/drm/i915/i915_gem.c:1086-1100 | a GTT fast path failing with EFAULT or ENOSPC takes the same path as an object that never qualified for it |
| `GemLayout.Grow` | drivers/gpu/drm/i915/i915_gem.c:1996-1999 | the doubling loop ends at a power of two at least the size and the start, and no smaller doubling would do |
| `GemLayout.StartIsPow2` | drivers/gpu/drm/i915/i915_gem.c:1992-1995 | the loop starts at a power of two, 1 MiB on gen 3 and 512 KiB before |
| `GemLayout.FenceSize` | drivers/gpu/drm/i915/i915_gem.c:1983-2001 | gen 4+ or untiled objects keep their size; otherwise the smallest power of two at least the size and the generation's start |
| `GemLayout.GttSize` | drivers/gpu/drm/i915/i915_gem.c:1983-2001 | the u32 loop computes `FenceSize` |
| `GemLayout.FenceAlignment` | drivers/gpu/drm/i915/i915_gem.c:2011-2027 | 4096 for gen 4+, for untiled objects and for unfenced G33 access; otherwise the fence size, a power of two at least the size |
| `GemLayout.GttAlignment` | drivers/gpu/drm/i915/i915_gem.c:2011-2027 | the u32 computation agrees with `FenceAlignment` |
| `GemLayout.Misplaced` | drivers/gpu/drm/i915/i915_gem.c:4204-4220 | misplaced iff misaligned, or mappable is required but the binding is not map-and-fenceable, or an offset bias is required and the start lies below it |
| `GemLayout.AlignmentIsPow2` | drivers/gpu/drm/i915/i915_gem.c:2011-2027 | every alignment handed out is a power of two |
| `GemLayout.MapAndFenceable` | drivers/gpu/drm/i915/i915_gem.c:4222-4243 | map-and-fenceable iff the node has the fence size, starts fence-aligned and ends inside the mappable aperture |
| `GemLayout.FenceableNotMisplaced` | drivers/gpu/drm/i915/i915_gem.c:4204-4243 | a fence-aligned, map-and-fenceable binding without an offset bias is never misplaced for the fence alignment |
| `GemObject.Locate` | drivers/gpu/drm/i915/i915_gem.c:3357-3423 | finds the binding with a given id, or proves there is none |
| `GemObject.Destroy` | drivers/gpu/drm/i915/i915_gem.c:4656-4673 | a reserved binding only loses its node; any other is removed from the list |
| `GemObject.DestroyCounts` | drivers/gpu/drm/i915/i915_gem.c:4656-4673 | destroying a binding lowers the count of allocated nodes by one iff it had a node |
| `GemObject.DestroyDistinct` | drivers/gpu/drm/i915/i915_gem.c:4656-4673 | destroying keeps binding ids distinct, and a removed id is gone |
| `GemObject.FinishGtt` | drivers/gpu/drm/i915/i915_gem.c:3333-3355 | GTT leaves both the read and write domains and nothing else changes |
| `GemObject.Unbind` | drivers/gpu/drm/i915/i915_gem.c:3357-3423 | an unknown binding returns 0 with no change; success leaves no allocated node for that id; FIFOs only shrink |
| `GemObject.UnbindAt` | drivers/gpu/drm/i915/i915_gem.c:3357-3423 | an unallocated node is destroyed at once with 0; a pinned one gives EBUSY with no change; failure keeps the bindings and pages; success destroys the binding, drops a pages pin, idles the object if asked to wait, marks it unbound when no binding is left, and for a normal GGTT binding clears map-and-fenceable and the GTT domain |
| `GemObject.UnbindIdle` | drivers/gpu/drm/i915/i915_gem.c:3374-3423 | the same for an allocated, unpinned binding |
| `GemObject.Release` | drivers/gpu/drm/i915/i915_gem.c:3387-3423 | the part after the wait, as above |
| `GemObject.UnbindTwice` | drivers/gpu/drm/i915/i915_gem.c:3357-3423 | unbinding the same id again after a success is a no-op returning 0 |
| `GemObject.Truncate` | drivers/gpu/drm/i915/i915_gem.c:2136-2150 | an object with a backing file becomes purged; nothing else changes |
| `GemObject.Invalidate` | drivers/gpu/drm/i915/i915_gem.c:2154-2170 | the object ends purged iff it was purged or was DONTNEED with a backing file; otherwise its state is unchanged |
| `GemObject.PutPages` | drivers/gpu/drm/i915/i915_gem.c:2295-2326 | no pages is a no-op; pinned pages give EBUSY with no change; otherwise the pages are released and a DONTNEED object is purged |
| `GemObject.Madvise` | drivers/gpu/drm/i915/i915_gem.c:4404-4458 | an invalid advice gives EINVAL; it succeeds iff the advice is valid, the lock is taken, the object exists and no binding is pinned; a purged object stays purged; DONTNEED without pages purges at once; the tiling-quirk pin follows the WILLNEED state; `retained` is true iff the object is not purged |
| `GemObject.Advise` | drivers/gpu/drm/i915/i915_gem.c:4429-4450 | the state change on a valid advice, as above |
| `GemObject.AllocObject` | drivers/gpu/drm/i915/i915_gem.c:4485-4536 | a new object is in the CPU read and write domains, idle, unbound, WILLNEED with a backing file and no pages, coherent iff the device has an LLC |
| `GemObject.PurgedForGood` | drivers/gpu/drm/i915/i915_gem.c:4404-4458 | DONTNEED followed by releasing the pages purges the object; its pages can no longer be obtained (EFAULT) and a later WILLNEED reports it not retained |
| `GemObject.DontNeedThenRelease` | drivers/gpu/drm/i915/i915_gem.c:2295-2326 | DONTNEED followed by releasing the pages leaves a purged object without pages |
| `GemObject.PurgedStaysPurged` | drivers/gpu/drm/i915/i915_gem.c:4429-4456 | WILLNEED on a purged object reports it not retained |
| `LpaePte.IopteVal` | drivers/iommu/io-pgtable-arm.c:225-228 | clears exactly the reserved count bits |
| `LpaePte.BottomIgnored` | drivers/iommu/io-pgtable-arm.c:230-234 | bits 2..11 shifted down |
| `LpaePte.TopIgnored` | drivers/iommu/io-pgtable-arm.c:236-240 | bits 52..58 shifted down |
| `LpaePte.Tblcnt` | drivers/iommu/io-pgtable-arm.c:242-246 | the 17-bit count, bit j read from its reserved position |
| `LpaePte.CountField` | drivers/iommu/io-pgtable-arm.c:252-254 | places the count's bits at their reserved positions and nowhere else |
| `LpaePte.TblcntSet` | drivers/iommu/io-pgtable-arm.c:248-256 | leaves every non-reserved bit alone and stores the count mod 2^17 |
| `LpaePte.TblcntAdd` | drivers/iommu/io-pgtable-arm.c:266-272 | adds to the count mod 2^17, other bits unchanged |
| `LpaePte.TblcntSub` | drivers/iommu/io-pgtable-arm.c:258-264 | subtracts from the count mod 2^17, other bits unchanged |
| `LpaePte.TblcntRoundTrip` | drivers/iommu/io-pgtable-arm.c:217-256 | setting then reading the count round-trips below 2^17, and `iopte_val` is unchanged |
| `LpaePte.PteType` | drivers/iommu/io-pgtable-arm.c:175-176 | the type field is bits 0 and 1 |
| `LpaePte.PteToPfn` | drivers/iommu/io-pgtable-arm.c:185-186 | the address bits below 48 shifted down by the page shift |
| `LpaePte.PfnToIopte` | drivers/iommu/io-pgtable-arm.c:188-189 | a frame number shifted up, clipped to 48 bits |
| `LpaePte.OutputAddress` | drivers/iommu/io-pgtable-arm.c:598 | the output address bits of a descriptor, between the page shift and bit 48 |
| `LpaePte.PteProt` | drivers/iommu/io-pgtable-arm.c:178 | exactly the attribute bits of a descriptor |
| `LpaePte.S1Attrs` | drivers/iommu/io-pgtable-arm.c:410-427 | stage-1 attributes bit by bit |
| `LpaePte.S2MemAttrAsWritten` | drivers/iommu/io-pgtable-arm.c:434-440 | the stage-2 memory attribute the code builds: NC, or OIWB when cacheable, with the device bit absorbed |
| `LpaePte.S2DeviceIgnoredAsWritten` | drivers/iommu/io-pgtable-arm.c:434-440 | as written, the device flag makes no difference to the stage-2 attribute |
| `LpaePte.S2MemTypeAsWritten` | drivers/iommu/io-pgtable-arm.c:434-440 | as written, the memory type is 0xf when cacheable and 5 otherwise, never device |
| `LpaePte.S2MemType` | drivers/iommu/io-pgtable-arm.c:434-440 | the intended memory type: 1 exactly for device memory |
| `LpaePte.S2MemAttr` | drivers/iommu/io-pgtable-arm.c:434-440 | the memory type placed at bits 2..5 |
| `LpaePte.S2Attrs` | drivers/iommu/io-pgtable-arm.c:429-440 | stage-2 attributes bit by bit |
| `LpaePte.ProtToPte` | drivers/iommu/io-pgtable-arm.c:405-447 | the descriptor attributes of a protection, bit by bit per stage |
| `LpaePte.ProtToPteAttrs` | drivers/iommu/io-pgtable-arm.c:405-447 | only attribute bits are set; NOEXEC sets both XN bits; AF and shareability are left to `init_pte` |
| `LpaePte.ProtToPteStage1` | drivers/iommu/io-pgtable-arm.c:410-427 | stage 1: nG set, read-only iff not writable, unprivileged iff not PRIV, attribute index CACHE or DEV |
| `LpaePte.ProtToPteStage2` | drivers/iommu/io-pgtable-arm.c:428-433 | stage 2: HAP read iff READ, HAP write iff WRITE, no nG |
| `LpaePte.ProtToPteMemType` | drivers/iommu/io-pgtable-arm.c:434-440 | the corrected stage-2 memory type is device, write-back or non-cacheable |
| `LpaePte.LeafFlags` | drivers/iommu/io-pgtable-arm.c:293-298 | adds the valid bit, the page bit at the last level, AF and inner-shareable |
| `LpaePte.LeafPte` | drivers/iommu/io-pgtable-arm.c:282-299 | the leaf descriptor bit by bit |
| `LpaePte.InitPte` | drivers/iommu/io-pgtable-arm.c:276-312 | a valid entry is refused with EEXIST; otherwise a valid leaf of page type at the last level and block type above it, with AF, inner-shareable, NS under the quirk, the given attributes and the output address of `paddr` |
| `LpaeGeometry.HighestBelow` | drivers/iommu/io-pgtable-arm.c:782-783 | the highest page shift below the page size (`__fls`) |
| `LpaeGeometry.LowestFrom` | drivers/iommu/io-pgtable-arm.c:784-785 | the lowest page shift from the page size up (`__ffs`) |
| `LpaeGeometry.Granule` | drivers/iommu/io-pgtable-arm.c:780-787 | the CPU page size if supported, else the largest smaller size, else the smallest larger one; none iff the bitmap is empty |
| `LpaeGeometry.Family` | drivers/iommu/io-pgtable-arm.c:789-801 | the page and block sizes a 4K, 16K or 64K granule allows, none for other granules |
| `LpaeGeometry.RestrictPgsizes` | drivers/iommu/io-pgtable-arm.c:769-802 | keeps exactly the supported sizes of the chosen granule's family, and the granule itself iff it is 4K, 16K or 64K |
| `LpaeGeometry.RestrictIdempotent` | drivers/iommu/io-pgtable-arm.c:769-802 | restricting twice changes nothing |
| `LpaeGeometry.Derive` | drivers/iommu/io-pgtable-arm.c:825-833 | bits per level is the page shift minus 3 |
| `LpaeGeometry.LpaeAlloc` | drivers/iommu/io-pgtable-arm.c:804-843 | made exactly when the restricted bitmap holds a 4K, 16K or 64K granule, ias and oas are at most 48 and the chosen granule lies below ias; then the granule chosen for the CPU page size, the restricted bitmap and the geometry derived from them |
| `LpaeGeometry.AllocS1` | drivers/iommu/io-pgtable-arm.c:845-924 | a stage-1 table is made exactly when the LPAE setup succeeds and oas is one of the six output sizes; it then has the restricted configuration and the derived geometry |
| `LpaeGeometry.AllocS2` | drivers/iommu/io-pgtable-arm.c:926-1011 | a stage-2 table is made exactly when the LPAE setup succeeds and oas is one of the six output sizes; it then has the restricted configuration and the concatenated geometry |
| `LpaeGeometry.Alloc32` | drivers/iommu/io-pgtable-arm.c:1013-1045 | a 32-bit table is made exactly when ias is within the format's limit, oas is at most 40 and one of the six output sizes, and the setup of the 4K-only configuration succeeds; it always uses the 4K granule |
| `LpaeGeometry.AllocPgtable` | drivers/iommu/io-pgtable-arm.c:845-1045 | for each format, a table is made exactly when memory is available and that format's conditions above hold; no memory, a bad output size, ias over 48 or over the 32-bit bounds refuse; a table comes from the restricted configuration |
| `LpaeGeometry.LvlShift` | drivers/iommu/io-pgtable-arm.c:56-58 | the shift of level l is (3 - l) levels of bits plus the page shift |
| `LpaeGeometry.BlockSizeShift` | drivers/iommu/io-pgtable-arm.c:74-76 | the block size of a level is 2 to that level's shift |
| `LpaeGeometry.BlockSizeStep` | drivers/iommu/io-pgtable-arm.c:74-76 | a block is 2^bits_per_level blocks of the next level |
| `LpaeGeometry.IdxBits` | drivers/iommu/io-pgtable-arm.c:66-71 | below the start level a level indexes with bits_per_level bits |
| `LpaeGeometry.LvlIdx` | drivers/iommu/io-pgtable-arm.c:69-71 | the index is the address shifted by the level's shift, masked to its index bits, and below the table size |
| `LpaeGeometry.DeriveLevels` | drivers/iommu/io-pgtable-arm.c:828-832 | between 1 and 4 levels, and the pgd takes between 1 and bits_per_level bits |
| `LpaeGeometry.DeriveShift` | drivers/iommu/io-pgtable-arm.c:828-833 | the start level's shift plus the pgd bits is exactly ias |
| `LpaeGeometry.DerivePgd` | drivers/iommu/io-pgtable-arm.c:832-833 | the pgd holds 2^pgd_bits descriptors, which the start index can reach |
| `LpaeGeometry.RootFitsFrom` | drivers/iommu/io-pgtable-arm.c:66-71 | with those facts every address below 2^ias indexes inside the pgd, and the pgd covers the whole input range |
| `LpaeGeometry.LpaeAllocOk` | drivers/iommu/io-pgtable-arm.c:804-843 | the derived geometry is well formed for ias |
| `LpaeGeometry.ConcatenateOk` | drivers/iommu/io-pgtable-arm.c:939-947 | stage-2 concatenation keeps the geometry well formed |
| `LpaeGeometry.ConcatenatedFits` | drivers/iommu/io-pgtable-arm.c:939-947 | a concatenated pgd one level lower still covers ias |
| `LpaeGeometry.ConcatenatePgd` | drivers/iommu/io-pgtable-arm.c:942-945 | concatenation multiplies the pgd by one level's entries and widens the start index to match |
| `LpaeGeometry.AllocPgtableOk` | drivers/iommu/io-pgtable-arm.c:845-1045 | every table the allocators make has a well-formed geometry |
| `LpaeTable.EmptyTable` | drivers/iommu/io-pgtable-arm.c:383-385 | a zeroed table of n descriptors |
| `LpaeTable.TablePte` | drivers/iommu/io-pgtable-arm.c:391-393 | a new table descriptor has the table type |
| `LpaeTable.MapBranchAsWritten` | drivers/iommu/io-pgtable-arm.c:339-401 | as written, a non-zero entry that is not replaced is always followed as a table, never refused |
| `LpaeTable.MapBranchOf` | drivers/iommu/io-pgtable-arm.c:339-401 | the corrected branch (see Findings): installs a leaf iff the size is the level's block size and supported; refuses at the last level; allocates a table in a zero entry; descends through a table; refuses an existing leaf, where the code descends into it |
| `LpaeTable.MapIntoBlockAsWritten` | drivers/iommu/io-pgtable-arm.c:381-401 | a block met by a smaller mapping is descended into as written, refused as intended |
| `LpaeTable.MapSlot` | drivers/iommu/io-pgtable-arm.c:325-403 | the corrected map (see Findings): keeps the tree well formed; installs iff the status is 0 at a level taking this size; EEXIST leaves the entry and free pages unchanged and never happens on a zero entry; success means some level from here takes the size |
| `LpaeTable.MapInto` | drivers/iommu/io-pgtable-arm.c:380-402 | mapping through a table descriptor keeps it a table and installs nothing at this level; EEXIST changes nothing and cannot happen on an empty child entry; success means a lower level takes the size |
| `LpaeTable.MapTable` | drivers/iommu/io-pgtable-arm.c:335-336 | only the entry the address selects changes |
| `LpaeTable.SubBlocks` | drivers/iommu/io-pgtable-arm.c:601 | the split loop's offsets, one sub-block apart |
| `LpaeTable.SubBlockCount` | drivers/iommu/io-pgtable-arm.c:597-601 | that many sub-blocks make the block |
| `LpaeTable.Visited` | drivers/iommu/io-pgtable-arm.c:601-606 | the offsets the loop maps: all but the one starting at the skipped address |
| `LpaeTable.SplitOver` | drivers/iommu/io-pgtable-arm.c:601-619 | re-mapping the visited sub-blocks into the new table keeps the tree well formed, never gains free pages and returns a map status |
| `LpaeTable.SplitRemap` | drivers/iommu/io-pgtable-arm.c:596-619 | re-mapping a block's sub-blocks with its attributes keeps the tree well formed and never gains free pages |
| `LpaeTable.SplitBlkUnmapAsWritten` | drivers/iommu/io-pgtable-arm.c:584-624 | as written: reports either 0, keeping the block, or the next level's block size; the tree stays well formed |
| `LpaeTable.SplitBlk` | drivers/iommu/io-pgtable-arm.c:584-624 | the corrected split (no sub-block skipped) keeps the tree well formed and never gains free pages |
| `LpaeTable.PagesToClear` | drivers/iommu/io-pgtable-arm.c:658-661 | `min(size / entry_size, room)` |
| `LpaeTable.ZeroRange` | drivers/iommu/io-pgtable-arm.c:671-673 | zeroes exactly the given run of descriptors |
| `LpaeTable.SweepCount` | drivers/iommu/io-pgtable-arm.c:654-662 | the swept run fits the table, covers no more than the size, and is one page for a one-page unmap |
| `LpaeTable.Swept` | drivers/iommu/io-pgtable-arm.c:671-684 | the table either disappears (its count reached 0) or stays a table with exactly the run zeroed and every other entry kept |
| `LpaeTable.ClearPages` | drivers/iommu/io-pgtable-arm.c:654-686 | reports at most the size; a one-page unmap reports the page and zeroes its descriptor, or drops the table |
| `LpaeTable.UnmapSlot` | drivers/iommu/io-pgtable-arm.c:626-702 | the corrected unmap (see Findings): a zero entry unmaps nothing; the tree stays well formed; never more than the size is reported |
| `LpaeTable.UnmapTable` | drivers/iommu/io-pgtable-arm.c:635-636 | only the entry the address selects changes |
| `LpaeTable.NewPgtable` | drivers/iommu/io-pgtable-arm.c:909-913 | made iff the allocator succeeds; a well-formed table with a zeroed pgd, stage 1 iff the format is stage 1 |
| `LpaeTable.IovaToPhys` | drivers/iommu/io-pgtable-arm.c:734-767 | the walk from the start level: a zero entry gives 0, a leaf gives its output address OR the address bits below its level, a table descends; what it returns is pinned by `LpaeProps.NewPgtableEmpty` (0 everywhere), `LpaeProps.MapThenTranslate` (the mapped range) and `LpaeProps.UnmapAfterMap` (0 again) |
| `LpaeTable.Map` | drivers/iommu/io-pgtable-arm.c:449-464 | the corrected map: without read or write access it returns 0 and changes nothing; EEXIST changes nothing; the table stays well formed with the same shape |
| `LpaeTable.FitBelow` | drivers/iommu/io-pgtable-arm.c:717-720 | the largest fitting page shift below k |
| `LpaeTable.PgSize` | drivers/iommu/io-pgtable-arm.c:717-720 | the largest supported page that fits the size at the address: the result fits, and every fitting page is no larger; none exactly when no size fits |
| `LpaeTable.UnmapLoop` | drivers/iommu/io-pgtable-arm.c:713-727 | with the corrected split, the loop's total lies between what was done and the size |
| `LpaeTable.Unmap` | drivers/iommu/io-pgtable-arm.c:704-732 | the corrected unmap returns between 0 and size bytes and keeps the table well formed; the code as written can report more (Findings) |
| `LpaeProps.StepDown` | drivers/iommu/io-pgtable-arm.c:69-71 | an address shifted by a level's shift splits into the bits above the level and the level's index |
| `LpaeProps.SameEntry` | drivers/iommu/io-pgtable-arm.c:69-71 | two addresses agree above a level's shift iff they agree above the level and at its index |
| `LpaeProps.TopEmpty` | drivers/iommu/io-pgtable-arm.c:66-71 | an address below 2^ias has nothing above the start level |
| `LpaeProps.InstallLevel` | drivers/iommu/io-pgtable-arm.c:339 | a size some level takes is taken at a definite level |
| `LpaeProps.SameLeafSameEntry` | drivers/iommu/io-pgtable-arm.c:69-71 | addresses inside one leaf share every entry above it |
| `LpaeProps.MapSlotDescends` | drivers/iommu/io-pgtable-arm.c:380-402 | below the leaf level, map follows the existing table or a fresh zeroed one, using one page |
| `LpaeProps.MapSlotInstalls` | drivers/iommu/io-pgtable-arm.c:339-342 | at the leaf level the entry becomes the descriptor `init_pte` builds |
| `LpaeProps.WalkEmpty` | drivers/iommu/io-pgtable-arm.c:749-751 | a zeroed table translates to 0 |
| `LpaeProps.ZeroPgdEmpty` | drivers/iommu/io-pgtable-arm.c:734-767 | a table with a zeroed pgd translates every address to 0 |
| `LpaeProps.NewPgtableEmpty` | drivers/iommu/io-pgtable-arm.c:1184-1185 | a fresh table translates every address to 0 |
| `LpaeProps.MapTableWalk` | drivers/iommu/io-pgtable-arm.c:734-767 | after a successful map, addresses in the mapped leaf translate through it |
| `LpaeProps.MapSlotWalk` | drivers/iommu/io-pgtable-arm.c:734-767 | the same from one entry |
| `LpaeProps.LeafAddress` | drivers/iommu/io-pgtable-arm.c:764-766 | an aligned output address or'ed with the offset bits is their sum |
| `LpaeProps.MapThenTranslate` | drivers/iommu/io-pgtable-arm.c:1196-1210 | after a successful aligned `map(iova, paddr, size)`, `iova_to_phys(a) == paddr + (a - iova)` for every a in the range |
| `LpaeProps.RangeOffset` | drivers/iommu/io-pgtable-arm.c:764-766 | the translated address is the output address plus the offset |
| `LpaeProps.MapTableFrame` | drivers/iommu/io-pgtable-arm.c:325-403 | a map changes the translation of no address outside the mapped leaf |
| `LpaeProps.MapSlotFrame` | drivers/iommu/io-pgtable-arm.c:325-403 | the same from one entry |
| `LpaeProps.MapDescendFrame` | drivers/iommu/io-pgtable-arm.c:380-402 | the same through a table |
| `LpaeProps.MapKeepsOthers` | drivers/iommu/io-pgtable-arm.c:325-403 | a failed map changes no translation, and a successful one only those of addresses in the mapped leaf |
| `LpaeProps.MapTableAgain` | drivers/iommu/io-pgtable-arm.c:284-288 | mapping the same range twice fails the second time with EEXIST |
| `LpaeProps.MapSlotAgain` | drivers/iommu/io-pgtable-arm.c:284-288 | the same from one entry |
| `LpaeProps.MapTwice` | drivers/iommu/io-pgtable-arm.c:1202-1205 | a second map of a mapped range returns EEXIST and changes nothing |
| `LpaeProps.SmallerNotHere` | drivers/iommu/io-pgtable-arm.c:339-342 | a size only deeper levels take is found at a definite deeper level, and a smaller size is not taken here |
| `LpaeProps.MapTableInside` | drivers/iommu/io-pgtable-arm.c:325-403 | with the corrected branch, a smaller map inside a mapped leaf is refused with EEXIST, from a table |
| `LpaeProps.MapSlotInside` | drivers/iommu/io-pgtable-arm.c:339-401 | the same from one entry |
| `LpaeProps.MapInsideBlock` | drivers/iommu/io-pgtable-arm.c:449-464 | with the corrected branch, mapping a smaller size inside an existing mapping returns EEXIST and leaves the table unchanged |
| `LpaeProps.ShiftLess` | drivers/iommu/io-pgtable-arm.c:56-58 | deeper levels have smaller shifts and blocks |
| `LpaeProps.ClearMappedPage` | drivers/iommu/io-pgtable-arm.c:654-686 | clearing a mapped page reports one page and leaves the address untranslated |
| `LpaeProps.UnmapTableAfterMap` | drivers/iommu/io-pgtable-arm.c:626-702 | unmapping exactly what was mapped reports its size and leaves the range untranslated |
| `LpaeProps.UnmapWhole` | drivers/iommu/io-pgtable-arm.c:643-653 | an unmap of the level's block size clears the entry and reports the size |
| `LpaeProps.UnmapDown` | drivers/iommu/io-pgtable-arm.c:654-701 | below the block size, a table at the second-to-last level is swept, any other table is walked into |
| `LpaeProps.UnmapSlotAfterMap` | drivers/iommu/io-pgtable-arm.c:626-702 | the same round trip from one entry |
| `LpaeProps.UnmapBelowAfterMap` | drivers/iommu/io-pgtable-arm.c:654-701 | the same round trip when the leaf lies below the entry |
| `LpaeProps.UnmapThroughTable` | drivers/iommu/io-pgtable-arm.c:698-701 | the same round trip through a table above the second-to-last level |
| `LpaeProps.PgSizeExact` | drivers/iommu/io-pgtable-arm.c:717-720 | a supported, aligned page size is chosen as itself |
| `LpaeProps.UnmapOnePiece` | drivers/iommu/io-pgtable-arm.c:713-727 | an unmap done in one piece returns that piece's result |
| `LpaeProps.UnmapAfterMap` | drivers/iommu/io-pgtable-arm.c:1237-1243 | `unmap` of an aligned mapping of exactly that size returns the size, and the range then translates to 0 |
| `LpaeProps.BlockBaseAligned` | drivers/iommu/io-pgtable-arm.c:596 | the block's start is aligned to the next level's block size |
| `LpaeProps.SkipNeverMatches` | drivers/iommu/io-pgtable-arm.c:605-606 | an address off the sub-block grid never matches the loop's `continue` test |
| `LpaeProps.SplitSkipsNothing` | drivers/iommu/io-pgtable-arm.c:601-606 | so for such an address the split re-maps every sub-block |
| `LpaeProps.SplitRemapsAllAsWritten` | drivers/iommu/io-pgtable-arm.c:584-624 | as written, for an address off the sub-block grid the split builds the same table as the corrected split, which re-maps the whole block, yet reports the next level's block size as unmapped; when re-mapping fails it keeps the block and reports 0 |
| `LpaeProps.SplitOverreportsAsWritten` | drivers/iommu/io-pgtable-arm.c:584-624 | as written, a split for less than a sub-block reports more than was asked; the corrected unmap never does |
| `LpaeSplit.AddLeaf` | drivers/iommu/io-pgtable-arm.c:601-619 | one more sub-block leaf extends the prefix of leaves the split has built |
| `LpaeSplit.SplitStep` | drivers/iommu/io-pgtable-arm.c:601-619 | mapping the next sub-block into the new table succeeds and extends the prefix, using a page only for the table itself |
| `LpaeSplit.SplitOnce` | drivers/iommu/io-pgtable-arm.c:601-619 | one loop step of the split, with the rest of the loop unchanged |
| `LpaeSplit.SplitFrom` | drivers/iommu/io-pgtable-arm.c:601-619 | the rest of the loop succeeds and fills every entry of the new table with its sub-block leaf |
| `LpaeSplit.SplitBlkAll` | drivers/iommu/io-pgtable-arm.c:584-624 | the corrected split succeeds, uses one page, and fills the new table with one leaf per sub-block, each with the block's attributes and its slice of the output range |
| `LpaeSplit.SubLeafTranslates` | drivers/iommu/io-pgtable-arm.c:734-767 | an address translates through its sub-block leaf as through the block |
| `LpaeSplit.LeafEntryTranslates` | drivers/iommu/io-pgtable-arm.c:734-767 | the same from the sub-block entry one level down |
| `LpaeSplit.SplitEntryTranslates` | drivers/iommu/io-pgtable-arm.c:584-624 | so the split table translates every address exactly as the block did |
| `LpaeSplit.SamePageIdx` | drivers/iommu/io-pgtable-arm.c:69-71 | inside one second-to-last-level block, two addresses select the same last-level entry iff they lie in the same page |
| `LpaeSplit.SweepOne` | drivers/iommu/io-pgtable-arm.c:654-686 | sweeping one page of a full split table keeps it a table with only that entry zeroed |
| `LpaeSplit.UnmapPageInSplit` | drivers/iommu/io-pgtable-arm.c:654-701 | unmapping one page from a freshly split table reports the page, leaves it untranslated and keeps every other address translating as the block did |
| `LpaeSplit.UnmapPageInBlock` | drivers/iommu/io-pgtable-arm.c:626-702 | unmapping one page of a second-to-last-level block splits it with one page, reports the page, leaves it untranslated and keeps the rest of the block translated |
| `LpaeSplit.UnmapPageLeafAfterMap` | drivers/iommu/io-pgtable-arm.c:626-702 | after mapping a block at the second-to-last level, unmapping one page of it does that, from the block's entry |
| `LpaeSplit.UnmapPageThroughTable` | drivers/iommu/io-pgtable-arm.c:698-701 | the same through a table above the block |
| `LpaeSplit.UnmapPageSlotAfterMap` | drivers/iommu/io-pgtable-arm.c:626-702 | the same from any entry on the path |
| `LpaeSplit.UnmapPageTableAfterMap` | drivers/iommu/io-pgtable-arm.c:635-636 | the same from a table |
| `LpaeSplit.BlockWalk` | drivers/iommu/io-pgtable-arm.c:734-767 | after mapping a second-to-last-level block, each address in it translates to `paddr` plus its offset |
| `LpaeSplit.UnmapPageAfterMapBlock` | drivers/iommu/io-pgtable-arm.c:704-732 | after mapping a second-to-last-level block, unmapping one page inside it returns the page size and uses one page for the split; that page then translates to 0 and every other address of the block still to `paddr` plus its offset |
| `Ep0Types.EnabledOnly` | drivers/usb/dwc3/ep0.c:270-293 | an endpoint reset to only enabled: no stall, wedge, busy or pending flags |
| `Ep0Transfer.StartTrans` | drivers/usb/dwc3/ep0.c:65-111 | a busy endpoint is left alone; otherwise a TRB of that length and kind is started, the endpoint becomes busy with a resource, and the next event is COMPLETE; nothing else changes |
| `Ep0Transfer.OutStart` | drivers/usb/dwc3/ep0.c:320-329 | with ep0 free, an 8-byte SETUP TRB is started on ep0, ep0 becomes busy with a resource and the next event is COMPLETE; a busy ep0 is left alone; the device, queue, log and other endpoints never change |
| `Ep0Transfer.GiveBackHead` | drivers/usb/dwc3/ep0.c:288-291 | the head request leaves the queue and is given back with the status; the bounce flag is cleared, as the gadget layer's give-back does; nothing else changes |
| `Ep0Transfer.StallAndRestart` | drivers/usb/dwc3/ep0.c:270-293 | SETUP phase, no delayed status, next event COMPLETE; both ep0 directions reset to only enabled; a queued request is given back with ECONNRESET, which clears the bounce flag; a new 8-byte SETUP TRB is started on ep0 |
| `Ep0Transfer.RoundUp` | drivers/usb/dwc3/ep0.c:1043-1046 | rounds up to a multiple of the packet size |
| `Ep0Transfer.DoControlData` | drivers/usb/dwc3/ep0.c:1024-1079 | starts the data TRB on the data endpoint when it is free, its length rounded up to the packet size for an unaligned OUT on ep0, and sets the bounce flag exactly then; marks an aligned nonzero IN request as needing a ZLP; the device, log, other endpoints and other phase fields are unchanged |
| `Ep0Transfer.DoControlStatus` | drivers/usb/dwc3/ep0.c:1081-1108 | with the endpoint free, a zero-length status TRB of the three- or two-stage kind is started on it, the endpoint becomes busy with a resource and the next event is COMPLETE; a busy endpoint is left alone; nothing else changes |
| `Ep0Transfer.Ep0Queue` | drivers/usb/dwc3/ep0.c:113-215 | appends the request with `actual` reset to 0; a pending XferNotReady in DATA phase clears the pending flag and starts the data TRB in the pending direction; a delayed status sets CONFIGURED, clears the flag and starts the status TRB when in STATUS phase with the endpoint free; otherwise a three-stage transfer enters DATA phase and starts its data TRB in the expected direction, and a two-stage one only queues |
| `Ep0Transfer.QueuePending` | drivers/usb/dwc3/ep0.c:134-155 | in DATA phase the pending flag and direction are cleared and the data TRB is started in the pending direction; outside DATA phase nothing changes; the device, phase state and log are kept |
| `Ep0Transfer.QueueDelayed` | drivers/usb/dwc3/ep0.c:164-187 | a delayed status sets CONFIGURED, clears the flag and starts the status phase if it is due |
| `Ep0Transfer.QueueThreeStage` | drivers/usb/dwc3/ep0.c:189-212 | a three-stage transfer enters DATA phase and starts the data TRB on the endpoint of the expected direction |
| `Ep0Transfer.GadgetQueue` | drivers/usb/dwc3/ep0.c:217-268 | ESHUTDOWN iff there is no descriptor, EBUSY iff a request is already queued, each changing nothing; otherwise the request is queued with `actual` reset to 0 |
| `Ep0Requests.PhysEp` | drivers/usb/dwc3/ep0.c:337-341 | the physical endpoint number of a wIndex |
| `Ep0Requests.PhysEpInjective` | drivers/usb/dwc3/ep0.c:337-341 | two wIndex values name the same endpoint iff their number and direction agree |
| `Ep0Requests.WIndexToDep` | drivers/usb/dwc3/ep0.c:331-349 | the endpoint `((wIndex & 0xf) << 1) \| dirIN` if present and enabled, else none |
| `Ep0Requests.DeviceStatus` | drivers/usb/dwc3/ep0.c:380-397 | the device status word fits in four bits |
| `Ep0Requests.DeviceStatusBits` | drivers/usb/dwc3/ep0.c:380-397 | self-powered at bit 0; remote wakeup at bit 1 below SuperSpeed; U1 and U2 enabled at bits 2 and 3 at SuperSpeed |
| `Ep0Requests.HandleStatus` | drivers/usb/dwc3/ep0.c:368-430 | device: replies with the device status; interface: delegated; endpoint: EINVAL for an unknown endpoint, else replies with its halt bit; other recipients EINVAL |
| `Ep0Requests.DeviceFeature` | drivers/usb/dwc3/ep0.c:449-511 | remote wakeup is always set; U1/U2 enable needs CONFIGURED, SuperSpeed and no disable without override; LTM is refused; TEST_MODE needs a zero low byte and set, and records `wIndex >> 8`; others EINVAL |
| `Ep0Requests.EndpointHalt` | drivers/usb/dwc3/ep0.c:531-547 | succeeds iff the endpoint exists and either halt is cleared on a wedged endpoint, a no-op, or the halt command succeeds; otherwise EINVAL with nothing changed; on success the stall follows the request and clearing also clears the wedge |
| `Ep0Requests.HandleFeature` | drivers/usb/dwc3/ep0.c:432-553 | dispatches on the recipient: device features, delegated interface suspend, endpoint halt, EINVAL otherwise |
| `Ep0Requests.SetAddress` | drivers/usb/dwc3/ep0.c:555-584 | rejected above 127 or when CONFIGURED; otherwise the address is stored and the state becomes DEFAULT for 0 and ADDRESS otherwise |
| `Ep0Requests.SetConfig` | drivers/usb/dwc3/ep0.c:586-665 | EINVAL outside ADDRESS and CONFIGURED; otherwise the gadget's result; a successful nonzero configuration moves ADDRESS to CONFIGURED and a successful zero one moves CONFIGURED to ADDRESS, and no other state change happens; U1/U2 acceptance is switched on exactly for a nonzero configuration from ADDRESS that the gadget accepted (0 or delayed status) while U1/U2 is not disabled without override |
| `Ep0Requests.SetSel` | drivers/usb/dwc3/ep0.c:721-755 | rejected in DEFAULT or when wLength is not 6; otherwise queues a one-packet request for the timing data |
| `Ep0Requests.PeriodicParam` | drivers/usb/dwc3/ep0.c:700-712 | U1 PEL when U1 is enabled, else U2 PEL when U2 is, else 0; above 125 becomes 0 |
| `Ep0Requests.Le16` | drivers/usb/dwc3/ep0.c:697-698 | a little-endian 16-bit value from two bytes |
| `Ep0Requests.SetSelCmpl` | drivers/usb/dwc3/ep0.c:676-719 | stores the four timing values from the buffer and the periodic parameter derived from them |
| `Ep0Requests.SetIsochDelay` | drivers/usb/dwc3/ep0.c:757-777 | rejected when wIndex or wLength is nonzero; otherwise stores wValue |
| `Ep0Requests.StdRequest` | drivers/usb/dwc3/ep0.c:779-832 | dispatches each standard request to its handler and delegates the rest |
| `Ep0Requests.HaltThenStatus` | drivers/usb/dwc3/ep0.c:408-429 | after SET_FEATURE(ENDPOINT_HALT) succeeds, GET_STATUS for that endpoint queues a two-byte reply with the halt bit set |
| `Ep0Requests.HaltThenClear` | drivers/usb/dwc3/ep0.c:531-547 | on an endpoint neither stalled nor wedged, CLEAR_FEATURE(ENDPOINT_HALT) after SET_FEATURE restores the controller exactly |
| `Ep0Requests.AddressThenConfigure` | drivers/usb/dwc3/ep0.c:555-665 | from DEFAULT, SET_ADDRESS with a legal nonzero address and then an accepted nonzero SET_CONFIGURATION reach CONFIGURED with that address |
| `Ep0Requests.ConfigureThenUnconfigure` | drivers/usb/dwc3/ep0.c:586-665 | an accepted nonzero configuration from ADDRESS followed by configuration 0 returns to ADDRESS with the address kept |
| `Ep0Requests.SelThenCompletion` | drivers/usb/dwc3/ep0.c:676-755 | SET_SEL with wLength 6 outside DEFAULT queues the timing request, and its completion stores the six bytes as the four timing values with a periodic parameter of at most 125 |
| `Ep0Phase.Stages` | drivers/usb/dwc3/ep0.c:846-855 | wLength 0 is a two-stage transfer expecting OUT with next event NRDY_STATUS; otherwise three-stage, direction from bit 7, next event NRDY_DATA |
| `Ep0Phase.InspectSetup` | drivers/usb/dwc3/ep0.c:834-871 | no gadget driver stalls with EINVAL; standard requests are handled here and others delegated; any negative result stalls and restarts; DELAYED_STATUS sets the flag |
| `Ep0Phase.CompleteData` | drivers/usb/dwc3/ep0.c:874-954 | with nothing queued only the next event becomes NRDY_STATUS; with a SETUP pending the head is given back with ECONNRESET; when a ZLP is due it is deferred: the flag is set and the request is kept with nothing given back; otherwise the result is `CountData`'s |
| `Ep0Phase.CompleteHead` | drivers/usb/dwc3/ep0.c:894-954 | the same with a request queued: ECONNRESET with a SETUP pending, the ZLP deferral, otherwise `CountData` |
| `Ep0Phase.CountData` | drivers/usb/dwc3/ep0.c:916-943 | the head's `actual` grows by the bytes transferred (u32); a short IN transfer stalls with ECONNRESET, otherwise the request completes with 0 |
| `Ep0Phase.Transferred` | drivers/usb/dwc3/ep0.c:918-932 | bounced: at most the length; otherwise the length minus what remains |
| `Ep0Phase.CompleteStatus` | drivers/usb/dwc3/ep0.c:956-993 | always ends in SETUP phase with the device unchanged; a queued request is given back with 0; a refused test mode stalls and restarts; otherwise a new SETUP transfer is started when ep0 is free |
| `Ep0Phase.XferComplete` | drivers/usb/dwc3/ep0.c:995-1022 | STATUS returns to SETUP, an unconnected endpoint stays unconnected, and SETUP without a gadget driver stays in SETUP waiting for COMPLETE |
| `Ep0Phase.EndControlData` | drivers/usb/dwc3/ep0.c:1110-1130 | only the endpoint's transfer resource is released |
| `Ep0Phase.XferNotReady` | drivers/usb/dwc3/ep0.c:1132-1215 | always marks a SETUP packet pending; STATUS is ignored unless NRDY_STATUS is expected, else enters STATUS phase and starts the status TRB unless the status is delayed with nothing queued; a DATA event in the wrong direction stalls and restarts; in the right direction it starts the deferred zero-length data TRB when a ZLP is required, and clears the flag |
| `Ep0Phase.StallIgnoresDataNotReady` | drivers/usb/dwc3/ep0.c:1154-1157 | after a stall and restart, XferNotReady(DATA) is ignored |
| `Ep0Phase.TwoStageTransfer` | drivers/usb/dwc3/ep0.c:846-1022 | a two-stage request goes SETUP, NRDY_STATUS, STATUS phase with a two-stage status TRB, and back to SETUP with a new SETUP TRB |
| `Ep0Phase.DelayedStatusWaitsForGadget` | drivers/usb/dwc3/ep0.c:1204-1210 | a delayed status waits in STATUS phase until the gadget queues, which sets CONFIGURED and starts the status TRB |
| `Ep0Phase.BouncedOutStage` | drivers/usb/dwc3/ep0.c:916-1079 | an unaligned OUT data stage is bounced with a TRB rounded up to the packet size, and its completion gives the request back with `actual == length` and clears the bounce flag |
| `Ep0Phase.ZeroLengthPacketEndsInStage` | drivers/usb/dwc3/ep0.c:894-911 | an aligned IN data stage that asks for a ZLP completes in three steps: the data completion defers, the next DATA not-ready starts a zero-length TRB, and its completion gives the request back |
| `Quota2.CString` | net/netfilter/xt_quota2.c:246-247 | the name up to the first NUL |
| `Quota2.Decide` | net/netfilter/xt_quota2.c:283-320 | grow: the quota absorbs the cost with u64 wrap-around and matches iff nonzero, alerting on zero; countdown with quota ≥ len: matches, pays the cost unless NO_CHANGE, no alert; otherwise: no match, quota 0, alert iff it was nonzero; invert flips the match |
| `Quota2.CountdownNeverGrows` | net/netfilter/xt_quota2.c:304-317 | in countdown mode the quota never increases, and for len > 0 a zero quota stays zero and never matches un-inverted |
| `Quota2.PacketCountdownRefusesLargePacket` | net/netfilter/xt_quota2.c:305-308 | with PACKET, quota 10 and a 1500-byte packet, the code refuses and empties the quota |
| `Quota2.PacketCountdownWrapsOnEmptyPacket` | net/netfilter/xt_quota2.c:305-307 | with PACKET, quota 0 and an empty packet, the code wraps the quota to 2^64 - 1 |
| `Quota2.DecideIntended` | net/netfilter/xt_quota2.c:304-317 | the corrected decision: identical to the code in grow mode and in byte mode; in countdown it never grows the quota, matches before inversion iff the quota covers the cost (one in PACKET mode), and then pays it unless NO_CHANGE |
| `Quota2.CountdownBytesWithinBudget` | net/netfilter/xt_quota2.c:304-317 | in byte countdown, the bytes admitted plus the final quota never exceed the initial quota |
| `Quota2.CountdownPacketsWithinBudget` | net/netfilter/xt_quota2.c:304-317 | in corrected packet countdown, exactly min(packets, quota) packets are admitted and the rest of the quota remains |
| `Quota2.GrowCountsEveryByte` | net/netfilter/xt_quota2.c:291-299 | in byte grow mode the final quota is the initial one plus all bytes, mod 2^64 |
| `Quota2.Find` | net/netfilter/xt_quota2.c:199-206 | the first counter with the name, or none iff no counter has it |
| `Quota2.FindAppended` | net/netfilter/xt_quota2.c:207-209 | a new name appended is found at the end |
| `Quota2.GetCounter` | net/netfilter/xt_quota2.c:183-235 | an empty name gives an anonymous counter iff allocation succeeds; a named rule gets none when allocation fails; an existing name gives the same counter with one more reference and nothing else changed; a new name is appended with the rule's quota and one reference iff the procfs entry is made |
| `Quota2.Check` | net/netfilter/xt_quota2.c:237-259 | flags outside the mask or an illegal name are EINVAL; a legal rule is accepted exactly when its counter can be had, with the registry and counter getting it yields, and is otherwise ENOMEM; the stored name is NUL-terminated and the rest of the rule is kept |
| `Quota2.Destroy` | net/netfilter/xt_quota2.c:261-281 | anonymous counters leave the registry alone; a named one loses a reference and leaves the registry when the last reference goes |
| `Quota2.GetCounterKeepsRegistryOk` | net/netfilter/xt_quota2.c:183-235 | the registry keeps unique, nonempty names with positive references, and a shared counter is registered |
| `Quota2.DestroyKeepsRegistryOk` | net/netfilter/xt_quota2.c:261-281 | destroy keeps the registry well formed |
| `Quota2.CheckThenDestroy` | net/netfilter/xt_quota2.c:237-281 | destroying a rule just checked restores the registry |
| `Quota2.DestroyUndoesIncRef` | net/netfilter/xt_quota2.c:271-275 | destroy undoes an extra reference |
| `Quota2.DestroyUndoesAppend` | net/netfilter/xt_quota2.c:272-280 | destroy undoes the append of a new counter |
| `Quota2.StoreQuota` | net/netfilter/xt_quota2.c:296-315 | the rule's counter afterwards holds the new quota; a shared counter stays registered under its name and the registry keeps its length |
| `Quota2.ApplyAsWritten` | net/netfilter/xt_quota2.c:300-313 | as written, the alert is the decision's alert whether the counter is named or anonymous |
| `Quota2.AnonymousAlertOverruns` | net/netfilter/xt_quota2.c:154-177 | an anonymous counter at the alert point is logged into although it was allocated without the logging fields |
| `Quota2.Apply` | net/netfilter/xt_quota2.c:283-320 | the corrected packet step: the corrected decision's quota and match, and an alert only for a named counter |

## Left out

- I/O and hardware. Not modelled:
  - i915: backing-store page acquisition and copy paths, clflush and chipset flushes, bit-17 swizzling;
  - i915: IRQs, timeouts, workqueues and runtime PM;
  - i915: the drm_mm range search and eviction, and the fault handler.
  A wait is a `Request -> WaitResult` parameter.
- Not modelled for LPAE: physical allocation, `__va`/`__pa`, the flush and TLB callbacks, and the TCR, VTCR and MAIR register encodings.
  - A table descriptor's physical address is replaced by the child table it points to (`Slot.next`).
  - Freeing a table is not modelled.
  - Allocation failure is modelled by `free`, a count of pages still available.
- `arm_lpae_map_sg` and its map_state batching are not modelled. They are a performance path over the same `__arm_lpae_map`, which is modelled with `ms == NULL`.
- Not modelled for ep0: MMIO, DMA mapping, the bounce-buffer copy, TRB fields, spinlocks, tracing and debug counters, module parameters and the VBUS current work item (line 807).
  - A TRB is represented by its endpoint, length and kind.
  - The `setup` callback and `set_halt` are results passed in.
- Not modelled for quota2: procfs read and write, the uevent and work-queue alert (reduced to an `alert` flag), kmalloc and locking, module init and exit.
- `iommu_pgsize` is defined in `iommu.c`, which is not part of this model. `LpaeTable.PgSize` restates its contract: the largest supported page that fits. It returns none where the kernel would hit a BUG_ON.
- The seqno comparison `i915_seqno_passed` is defined in `i915_drv.h`, which is not part of this model. It is written out as the signed 32-bit difference.
- `GemLayout.GttSize`, `GemLayout.GttAlignment`, `GemLayout.MapAndFenceable`: on gen < 4 a tiled object must be at most 2 GiB. The u32 doubling loop of `i915_gem_get_gtt_size` would wrap to 0 for larger sizes and never end. Such objects cannot be fenced on those generations.
- `LpaeTable.Map`, `LpaeTable.Unmap`, `LpaeTable.IovaToPhys`: the address must be below 2^ias. The C walk would mask higher bits away; `io-pgtable` callers never pass such addresses.
- `LpaeTable.IovaToPhys`: the offset mask `(1 << ARM_LPAE_LVL_SHIFT(lvl, data)) - 1` (line 765) shifts a C `int`. The model uses an unbounded power of two. Every leaf level a restricted 4K, 16K or 64K bitmap allows has a shift of at most 30, so the two agree there. A leaf of 2 GiB or more, which only an unrestricted bitmap could ask for, would overflow the C shift.
- `LpaeGeometry.BlockSize`: `ARM_LPAE_BLOCK_SIZE` (lines 74-76) shifts a C `int`, which is undefined for the block sizes of level 0 with a 4K or 16K granule and of level 1 with a 16K or 64K granule. The model uses an unbounded power of two. No restricted bitmap holds those sizes, so no size the code compares against them is affected.
- `LpaeTable.UnmapSlot`: the `lvl == ARM_LPAE_MAX_LEVELS` guard (line 639) cannot fire in a well-formed tree and is not modelled.
- `LpaeTable.ClearPages`: the sweep at the second-to-last level zeroes the run without checking that each cleared descriptor was valid, and lowers the count by the run's length. The model does the same. Properties about the count after a sweep over unmapped pages are not stated.
- `Quota2.CountdownNeverGrows` excludes packet mode with quota 0, an empty packet and no NO_CHANGE: the code then wraps the quota to 2^64 - 1 (see `Quota2.PacketCountdownWrapsOnEmptyPacket`).
- `GemObject.Madvise` requires that a tiled object with pages under the swizzle quirk, in state WILLNEED, holds the pin the quirk takes. This is the invariant the code keeps; without it the unpin would underflow.
- `Ep0Transfer.DoControlData`, `Ep0Phase.CountData`: `ep0.c` tests alignment with `IS_ALIGNED` (lines 941 and 1035), a mask test that means divisibility only for a power-of-two maxpacket, and with `%` at line 899. The model uses `%` throughout and requires only a nonzero maxpacket, so it agrees with the code for the power-of-two maxpackets ep0 uses; for another maxpacket it follows line 899's divisibility test.
- `Ep0Phase.XferComplete` states only the phase transitions. The work done in each phase is stated by the handlers it dispatches to (`CompleteData`, `CompleteHead`, `CompleteStatus`), whose contracts cover the ZLP deferral and the data count.
- `Ep0Phase.CompleteData`, `Ep0Phase.CompleteHead`, `Ep0Phase.XferNotReady`: `zlp_required` is a file-static variable in `ep0.c` (line 876), shared by every controller. The model keeps it per controller, in `Phase.zlpRequired`; with one controller the two agree.
- `Ep0Transfer.GiveBackHead`: clearing the bounce flag is done by `dwc3_gadget_giveback` in `gadget.c`, which is not part of this model. The model clears it when the head request is given back, as that function does.
- `LpaeTable.Map`, `LpaeTable.MapSlot`, `LpaeTable.MapBranchOf`: these are the corrected map. A block in the way of a smaller mapping gives EEXIST. The code at lines 381-401 descends into the block instead; that version is `LpaeTable.MapBranchAsWritten` and `LpaeTable.MapIntoBlockAsWritten` (Findings).
- `LpaeTable.UnmapSlot`, `LpaeTable.UnmapLoop`, `LpaeTable.Unmap`: these are the corrected unmap. A block is split completely (`LpaeTable.SplitBlk`) and the unmap continues in the new table. The code at lines 599-623 skips one sub-block and reports the next level's block size; that version is `LpaeTable.SplitBlkUnmapAsWritten` (Findings). The bound "never more than the size" holds only for the corrected unmap.
- `LpaePte.ProtToPte`, `LpaePte.S2Attrs`, `LpaePte.S2MemAttr`: these use the corrected stage-2 memory type, where device memory gets type 1. The code at lines 434-440 ors the device bit into NC or OIWB; that version is `LpaePte.S2MemAttrAsWritten` and `LpaePte.S2MemTypeAsWritten` (Findings).
- `LpaePte.InitPte`: a valid descriptor in the way is a `BUG_ON` unless the self-test's `suppress_map_failures` is set (line 286). The model always returns EEXIST, which is what the code does when that flag is set; the crash is not modelled.
- `LpaeGeometry.LpaeAlloc`: rejects an ias at or below the granule's page shift. The code has no such test: `va_bits = cfg->ias - data->pg_shift` (line 828) is unsigned and would wrap, giving a meaningless level count. The model refuses such a configuration instead of modelling the wrap.
- `LpaeSplit.UnmapPageAfterMapBlock` covers a block at the second-to-last level and an unmap of one page. Splits over more than one level (a page inside a 1 GiB block) and larger partial unmaps are modelled by `LpaeTable.UnmapSlot` but have no lemma of their own.
- `GemActivity.WaitRenderingNonblocking` treats the lock being dropped and retaken around the waits as atomic, so the objects and requests cannot change in between.
- The text of `i915_gem.c` at lines 5224-5258 merges several function bodies and is not modelled.

## Findings

| source | as written | input that shows it | evidently intended | confidence | as-written member | corrected member |
|---|---|---|---|---|---|---|
| net/netfilter/xt_quota2.c:305-308 | in countdown mode the packet is admitted iff `quota >= skb->len`, even in PACKET mode where the quota counts packets | flags = PACKET, quota = 10, len = 1500: refused and the quota emptied | in PACKET mode admit iff at least one packet is left | not executed | `Quota2.PacketCountdownRefusesLargePacket` | `Quota2.CountdownPacketsWithinBudget` |
| net/netfilter/xt_quota2.c:161 | an anonymous counter is allocated only up to `list`, but `quota2_log` (lines 95-112) writes `last_prefix` and `last_iface` and schedules `work` on it when its quota runs out | an anonymous rule (empty name), quota 100, a 1500-byte packet in countdown mode | alert only for named counters | not executed | `Quota2.AnonymousAlertOverruns` | `Quota2.Apply` |
| drivers/iommu/io-pgtable-arm.c:434-440 | the stage-2 device attribute is or'ed into NC or OIWB, which already contain its bit, so device memory gets the NC or OIWB memory type | prot = READ \| DEVICE at stage 2: memory type 5 (normal non-cacheable), not 1 (device) | device memory gets memory type 1 | not executed | `LpaePte.S2DeviceIgnoredAsWritten` | `LpaePte.ProtToPteMemType` |
| drivers/iommu/io-pgtable-arm.c:381-401 | a non-zero entry that cannot take the leaf is always followed as a table, a block descriptor included | map 4K inside an existing 1 GiB block: the block's output memory is used as a page table | refuse with EEXIST | not executed | `LpaeTable.MapIntoBlockAsWritten` | `LpaeProps.MapInsideBlock` |
| drivers/iommu/io-pgtable-arm.c:599-623 | the split re-maps every next-level sub-block except one starting exactly at `iova`, and reports the sub-block size as unmapped | unmap 4K at a 4K-aligned but not 2M-aligned iova inside a 1 GiB block: nothing is unmapped but 2M is reported | split the block and continue the unmap in the new table, reporting what was unmapped | not executed | `LpaeProps.SplitRemapsAllAsWritten` | `LpaeSplit.UnmapPageAfterMapBlock` |

The split loop of `arm_lpae_split_blk_unmap` is modelled as a walk over the
sub-block offsets (`LpaeTable.SubBlocks`). Its `continue` is the
`LpaeTable.Visited` filter. `LpaeProps.SplitOverreportsAsWritten` shows the
second half of the last finding: the corrected `UnmapSlot` never reports more
than the requested size.
