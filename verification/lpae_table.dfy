/** The LPAE page table as a tree of descriptor slots, and the operations
    `io-pgtable-arm.c` performs on it: install a mapping, remove one, and
    translate an input address.  A slot holds the descriptor word; when
    the descriptor is a table descriptor, the slot also holds the table it
    points to, standing in for the physical address the word would carry. */
module LpaeTable {
  import opened Wrappers
  import opened Arith
  import opened Bits
  import opened LpaePte
  import opened LpaeGeometry

  datatype Slot = Slot(pte: nat, next: seq<Slot>)

  /** A zeroed descriptor. */
  const EMPTY: Slot := Slot(0, [])

  /** `SZ_2M`, below which the unmap loop passes the remaining length as
      it is. */
  const SZ_2M: nat := 0x20_0000

  /** What the walks read from `arm_lpae_io_pgtable` and its config: the
      geometry, the page size bitmap (as bit positions) and whether the
      non-secure quirk is set. */
  datatype Params = Params(g: Geometry, pgsizes: set<nat>, ns: bool)

  /** A table of `n` zeroed descriptors, as `__GFP_ZERO` hands out. */
  function EmptyTable(n: nat): (t: seq<Slot>)
    ensures |t| == n && forall j :: 0 <= j < n ==> t[j] == EMPTY
  {
    seq(n, _ => EMPTY)
  }

  /** A new table descriptor: the table type, and NSTABLE under the
      non-secure quirk. */
  function TablePte(ns: bool): (pte: nat)
    ensures pte < U64_LIMIT && PteType(pte) == PTE_TYPE_TABLE
    ensures Tblcnt(pte) == 0
  {
    var pte := if ns then Or(PTE_TYPE_TABLE, PTE_NSTABLE) else PTE_TYPE_TABLE;
    assert forall i: nat :: Bit(pte, i) == (i < 2 || (ns && i == 63)) by {
      forall i: nat
        ensures Bit(pte, i) == (i < 2 || (ns && i == 63))
      {
        SmallBits(i);
        FlagBits(i);
        BitOr(PTE_TYPE_TABLE, PTE_NSTABLE, i);
      }
    }
    WordFromBits(pte);
    assert Tblcnt(pte) == 0 by {
      forall j: nat
        ensures Bit(Tblcnt(pte), j) == Bit(0, j)
      {
        BitZero(j);
      }
      BitsEqual(Tblcnt(pte), 0);
    }
    pte
  }

  /** A table descriptor: valid, of table type, not a leaf. */
  predicate IsTable(pte: nat, lvl: nat)
  {
    lvl < MAX_LEVELS - 1 && pte < U64_LIMIT && PteType(pte) == PTE_TYPE_TABLE
  }

  // ---------------------------------------------------------------------
  // Well-formed tables

  /** Every slot is zero, a leaf, or a table descriptor above the last
      level whose table has a full page of descriptors, each well formed
      one level down. */
  ghost predicate SlotOk(s: Slot, lvl: nat, p: Params)
    requires lvl < MAX_LEVELS
    decreases MAX_LEVELS - lvl, 0
  {
    if s.pte == 0 || IsLeaf(s.pte, lvl) then s.next == []
    else IsTable(s.pte, lvl) && |s.next| == Pow2(p.g.bpl) && TableOk(s.next, NextLevel(lvl), p)
  }

  ghost predicate TableOk(t: seq<Slot>, lvl: nat, p: Params)
    requires lvl < MAX_LEVELS
    decreases MAX_LEVELS - lvl, 1
  {
    forall j :: 0 <= j < |t| ==> SlotOk(t[j], lvl, p)
  }

  lemma EmptyTableOk(n: nat, lvl: nat, p: Params)
    requires lvl < MAX_LEVELS
    ensures TableOk(EmptyTable(n), lvl, p)
  {
  }

  /** The levels a walk visits: from the start level to the last. */
  predicate WalkLevel(lvl: nat, p: Params)
  {
    Shaped(p.g) && Start(p.g) <= lvl < MAX_LEVELS
  }

  // ---------------------------------------------------------------------
  // Translation

  /** `arm_lpae_iova_to_phys` from table `t` at level `lvl`. */
  function Walk(t: seq<Slot>, iova: nat, lvl: nat, p: Params): nat
    requires WalkLevel(lvl, p) && TableOk(t, lvl, p) && LvlIdx(iova, lvl, p.g) < |t|
    decreases MAX_LEVELS - lvl, 1
  {
    WalkSlot(t[LvlIdx(iova, lvl, p.g)], iova, lvl, p)
  }

  /** The walk from the entry `iova` selects: 0 for a zero descriptor, the
      leaf's output address with the address bits below the level's shift
      for a leaf, and the next level for a table. */
  function WalkSlot(s: Slot, iova: nat, lvl: nat, p: Params): nat
    requires WalkLevel(lvl, p) && SlotOk(s, lvl, p)
    decreases MAX_LEVELS - lvl, 0
  {
    if s.pte == 0 then 0
    else if IsLeaf(s.pte, lvl) then
      Or(OutputAddress(s.pte, p.g.pgShift), And(iova, Pow2(LvlShift(lvl, p.g)) - 1))
    else Walk(s.next, iova, NextLevel(lvl), p)
  }

  // ---------------------------------------------------------------------
  // Mapping

  /** What `__arm_lpae_map` leaves behind: its return value (0 or a
      negative errno), the entry or table it worked on, whether it
      installed a leaf directly there (so the caller's table count goes
      up), and the pages still available for new tables. */
  datatype MapOut<T> = MapOut(status: int, out: T, installed: bool, free: nat)

  predicate MapStatus(st: int)
  {
    st == 0 || st == -EEXIST || st == -EINVAL || st == -ENOMEM
  }

  /** The way `__arm_lpae_map` goes at an entry: install a leaf, refuse
      to build a table at the last level, allocate a table in a zero
      entry, follow a table descriptor, or refuse because the entry
      already holds a leaf. */
  datatype MapBranch = InstallLeaf | NoTableAtLastLevel | AllocTable | Descend | LeafInTheWay

  /** The branch as the code chooses it: any non-zero entry that is not
      replaced by a leaf is followed as a table descriptor, a block
      descriptor included. */
  function MapBranchAsWritten(pte: nat, size: nat, lvl: nat, p: Params): (b: MapBranch)
    requires lvl < MAX_LEVELS && p.g.levels <= MAX_LEVELS
    ensures b != LeafInTheWay
  {
    if Installs(size, lvl, p) then InstallLeaf
    else if lvl >= MAX_LEVELS - 1 then NoTableAtLastLevel
    else if pte == 0 then AllocTable
    else Descend
  }

  /** The branch as evidently intended: a leaf in the way of a smaller
      mapping is refused with EEXIST, not dereferenced as a table. */
  function MapBranchOf(pte: nat, size: nat, lvl: nat, p: Params): (b: MapBranch)
    requires lvl < MAX_LEVELS && p.g.levels <= MAX_LEVELS
    ensures b == InstallLeaf <==> Installs(size, lvl, p)
    ensures b == NoTableAtLastLevel <==> !Installs(size, lvl, p) && lvl == MAX_LEVELS - 1
    ensures b == AllocTable <==> !Installs(size, lvl, p) && lvl < MAX_LEVELS - 1 && pte == 0
    ensures b == LeafInTheWay <==> !Installs(size, lvl, p) && lvl < MAX_LEVELS - 1 && pte != 0 && IsLeaf(pte, lvl)
    ensures b == Descend <==> !Installs(size, lvl, p) && lvl < MAX_LEVELS - 1 && pte != 0 && !IsLeaf(pte, lvl)
  {
    var b := MapBranchAsWritten(pte, size, lvl, p);
    if b == Descend && IsLeaf(pte, lvl) then LeafInTheWay else b
  }

  /** Where the two disagree: a block descriptor above the last level
      meeting a mapping smaller than the block.  The code follows it, so
      the next level's "table" is the memory the block maps. */
  lemma MapIntoBlockAsWritten(pte: nat, size: nat, lvl: nat, p: Params)
    requires lvl < MAX_LEVELS - 1 && p.g.levels <= MAX_LEVELS
    requires IsLeaf(pte, lvl) && !Installs(size, lvl, p)
    ensures MapBranchAsWritten(pte, size, lvl, p) == Descend
    ensures MapBranchOf(pte, size, lvl, p) == LeafInTheWay
  {
    assert PteType(pte) == PTE_TYPE_BLOCK;
  }

  /** `__arm_lpae_map` on the entry `s` that `iova` selects at level `lvl`,
      along the branch `MapBranchOf` picks.  A new table stays in place
      even when the mapping below it fails. */
  function MapSlot(s: Slot, iova: nat, paddr: nat, size: nat, prot: nat, lvl: nat, p: Params, free: nat): (r: MapOut<Slot>)
    requires WalkLevel(lvl, p) && AttrOnly(prot) && SlotOk(s, lvl, p)
    ensures SlotOk(r.out, lvl, p) && r.free <= free && MapStatus(r.status)
    ensures r.installed <==> r.status == 0 && Installs(size, lvl, p)
    ensures r.status == 0 && !r.installed ==> IsTable(r.out.pte, lvl)
    ensures r.status == -EEXIST ==> r.out == s && r.free == free
    ensures s.pte == 0 ==> r.status != -EEXIST
    ensures r.status == 0 ==> InstallsFrom(size, lvl, p)
    decreases MAX_LEVELS - lvl, 1
  {
    match MapBranchOf(s.pte, size, lvl, p)
    case InstallLeaf =>
      (match InitPte(s.pte, prot, p.ns, lvl, paddr, p.g.pgShift)
       case Err(_) => MapOut(-EEXIST, s, false, free)
       case Ok(pte) => MapOut(0, Slot(pte, []), true, free))
    case NoTableAtLastLevel => MapOut(-EINVAL, s, false, free)
    case AllocTable =>
      if free == 0 then MapOut(-ENOMEM, s, false, free)
      else
        EmptyTableOk(Pow2(p.g.bpl), NextLevel(lvl), p);
        MapInto(Slot(TablePte(p.ns), EmptyTable(Pow2(p.g.bpl))), iova, paddr, size, prot, lvl, p, free - 1)
    case LeafInTheWay => MapOut(-EEXIST, s, false, free)
    case Descend => MapInto(s, iova, paddr, size, prot, lvl, p, free)
  }

  /** `size == block_size && (size & pgsize_bitmap)`: the size is this
      level's block size, a power of two, so the bitmap test is the test
      of its one bit. */
  predicate Installs(size: nat, lvl: nat, p: Params)
    requires lvl < MAX_LEVELS && p.g.levels <= MAX_LEVELS
  {
    size == BlockSize(lvl, p.g) && LvlShift(lvl, p.g) in p.pgsizes
  }

  /** Some level from `lvl` on takes a leaf of `size` bytes. */
  predicate InstallsFrom(size: nat, lvl: nat, p: Params)
    requires p.g.levels <= MAX_LEVELS
    decreases MAX_LEVELS - lvl
  {
    lvl < MAX_LEVELS && (Installs(size, lvl, p) || InstallsFrom(size, NextLevel(lvl), p))
  }

  /** Map one level down through the table descriptor `t`, counting a leaf
      installed directly in its table. */
  function MapInto(t: Slot, iova: nat, paddr: nat, size: nat, prot: nat, lvl: nat, p: Params, free: nat): (r: MapOut<Slot>)
    requires WalkLevel(lvl, p) && AttrOnly(prot) && SlotOk(t, lvl, p) && IsTable(t.pte, lvl)
    ensures SlotOk(r.out, lvl, p) && IsTable(r.out.pte, lvl) && !r.installed
    ensures r.free <= free && MapStatus(r.status)
    ensures r.status == -EEXIST ==> r.out == t && r.free == free
    ensures t.next[LvlIdx(iova, NextLevel(lvl), p.g)].pte == 0 ==> r.status != -EEXIST
    ensures r.status == 0 ==> InstallsFrom(size, NextLevel(lvl), p)
    decreases MAX_LEVELS - lvl, 0
  {
    var sub := MapTable(t.next, iova, paddr, size, prot, NextLevel(lvl), p, free);
    var pte := if sub.installed then TblcntAdd(t.pte, 1) else t.pte;
    assert PteType(pte) == PTE_TYPE_TABLE by {
      assert Bit(pte, 0) == Bit(t.pte, 0) && Bit(pte, 1) == Bit(t.pte, 1);
    }
    MapOut(sub.status, Slot(pte, sub.out), false, sub.free)
  }

  /** `__arm_lpae_map` on table `t` at level `lvl`: only the entry `iova`
      selects changes. */
  function MapTable(t: seq<Slot>, iova: nat, paddr: nat, size: nat, prot: nat, lvl: nat, p: Params, free: nat): (r: MapOut<seq<Slot>>)
    requires WalkLevel(lvl, p) && AttrOnly(prot) && TableOk(t, lvl, p) && LvlIdx(iova, lvl, p.g) < |t|
    ensures |r.out| == |t| && TableOk(r.out, lvl, p) && r.free <= free && MapStatus(r.status)
    ensures r.installed <==> r.status == 0 && Installs(size, lvl, p)
    ensures forall j :: 0 <= j < |t| && j != LvlIdx(iova, lvl, p.g) ==> r.out[j] == t[j]
    ensures r.status == -EEXIST ==> r.out == t && r.free == free
    ensures t[LvlIdx(iova, lvl, p.g)].pte == 0 ==> r.status != -EEXIST
    ensures r.status == 0 ==> InstallsFrom(size, lvl, p)
    decreases MAX_LEVELS - lvl, 2
  {
    var idx := LvlIdx(iova, lvl, p.g);
    var r := MapSlot(t[idx], iova, paddr, size, prot, lvl, p, free);
    MapOut(r.status, t[idx := r.out], r.installed, r.free)
  }

  // ---------------------------------------------------------------------
  // Unmapping

  /** What `__arm_lpae_unmap` leaves behind: the bytes it reports
      unmapped, the entry or table it worked on, and the pages still
      available. */
  datatype UnmapOut<T> = UnmapOut(unmapped: nat, out: T, free: nat)

  /** The offsets from the block's start of its `n` sub-blocks of `sz`
      bytes, in the order the split loop visits them. */
  function SubBlocks(n: nat, sz: nat): (r: seq<nat>)
    ensures |r| == n && forall k :: 0 <= k < n ==> r[k] == k * sz
  {
    if n == 0 then [] else SubBlocks(n - 1, sz) + [(n - 1) * sz]
  }

  /** The number of next-level blocks in a block at level `lvl`: the
      split loop steps through the block one of them at a time. */
  function SubBlockCount(lvl: nat, p: Params): (n: nat)
    requires lvl < MAX_LEVELS
    ensures n * BlockSize(NextLevel(lvl), p.g) == BlockSize(lvl, p.g)
  {
    BlockSizeStep(lvl, p.g);
    MulComm(BlockSize(NextLevel(lvl), p.g), Pow2(p.g.bpl));
    Pow2(p.g.bpl)
  }

  /** The offsets the split loop maps: every one, in order, except that of
      the sub-block starting at `skip` (the loop's `continue`). */
  function Visited(offs: seq<nat>, base: nat, skip: Option<nat>): (r: seq<nat>)
    ensures forall x :: x in r <==> x in offs && skip != Some(base + x)
    ensures (forall k :: 0 <= k < |offs| ==> skip != Some(base + offs[k])) ==> r == offs
  {
    if offs == [] then []
    else (if skip == Some(base + offs[0]) then [] else [offs[0]]) + Visited(offs[1..], base, skip)
  }

  /** The address `off` bytes past `base`: where the split loop's
      sub-block at offset `off` starts, in the input and the output
      address spaces. */
  function Offset(base: nat, off: nat): nat
  {
    base + off
  }

  /** The sub-block loop of `arm_lpae_split_blk_unmap`: map the sub-block
      of `sz` bytes at each offset of `offs` from `base` into the one-entry
      table `table` at level `lvl`, at the same offset from the output
      address `paddr`.  It stops at the first failure. */
  function SplitOver(table: Slot, offs: seq<nat>, base: nat, paddr: nat, sz: nat, prot: nat, lvl: nat, p: Params, free: nat): (r: MapOut<Slot>)
    requires WalkLevel(lvl, p) && AttrOnly(prot) && SlotOk(table, lvl, p)
    ensures SlotOk(r.out, lvl, p) && r.free <= free && MapStatus(r.status)
    decreases |offs|
  {
    if offs == [] then MapOut(0, table, false, free)
    else
      var m := MapSlot(table, Offset(base, offs[0]), Offset(paddr, offs[0]), sz, prot, lvl, p, free);
      if m.status < 0 then MapOut(m.status, m.out, false, m.free)
      else SplitOver(m.out, offs[1..], base, paddr, sz, prot, lvl, p, m.free)
  }

  /** The block `s` covers at level `lvl` around `iova`: its first
      address (`iova & ~(blk_size - 1)`), its output address, and the size
      of the next level's blocks. */
  function BlockBase(iova: nat, lvl: nat, p: Params): nat
    requires lvl < MAX_LEVELS
  {
    var k := PTE_SIZE_SHIFT + (MAX_LEVELS - lvl) * p.g.bpl;
    Shl(Shr(iova, k), k)
  }

  /** Re-map every next-level block of the block `s` at level `lvl`
      around `iova` into a fresh table, with the block's attributes and
      output addresses, passing over the sub-block that starts at `skip`. */
  function SplitRemap(s: Slot, iova: nat, lvl: nat, skip: Option<nat>, p: Params, free: nat): (r: MapOut<Slot>)
    requires WalkLevel(lvl, p) && SlotOk(s, lvl, p) && IsLeaf(s.pte, lvl)
    ensures SlotOk(r.out, lvl, p) && r.free <= free && MapStatus(r.status)
  {
    var base := BlockBase(iova, lvl, p);
    var sz := BlockSize(NextLevel(lvl), p.g);
    var offs := Visited(SubBlocks(SubBlockCount(lvl, p), sz), base, skip);
    SplitOver(EMPTY, offs, base, OutputAddress(s.pte, p.g.pgShift), sz, PteProt(s.pte), lvl, p, free)
  }

  /** `arm_lpae_split_blk_unmap` as written: re-map every next-level block
      of the block except the one starting exactly at `iova`, install the
      new table, and report the next level's block size as unmapped.  A
      failed re-map leaves the block in place and reports nothing
      unmapped. */
  function SplitBlkUnmapAsWritten(s: Slot, iova: nat, lvl: nat, p: Params, free: nat): (r: UnmapOut<Slot>)
    requires WalkLevel(lvl, p) && SlotOk(s, lvl, p) && IsLeaf(s.pte, lvl)
    ensures SlotOk(r.out, lvl, p) && r.free <= free
    ensures r.unmapped == 0 || r.unmapped == BlockSize(NextLevel(lvl), p.g)
    ensures r.unmapped == 0 ==> r.out == s
  {
    var m := SplitRemap(s, iova, lvl, Some(iova), p, free);
    if m.status < 0 then UnmapOut(0, s, m.free)
    else UnmapOut(BlockSize(NextLevel(lvl), p.g), m.out, m.free)
  }

  /** The split the code evidently intends, first half: replace the block
      by a table of next-level blocks covering all of it, with the block's
      attributes and output addresses.  The unmap then continues inside
      that table (see `UnmapSlot`). */
  function SplitBlk(s: Slot, iova: nat, lvl: nat, p: Params, free: nat): (r: MapOut<Slot>)
    requires WalkLevel(lvl, p) && SlotOk(s, lvl, p) && IsLeaf(s.pte, lvl)
    ensures SlotOk(r.out, lvl, p) && r.free <= free && MapStatus(r.status)
  {
    SplitRemap(s, iova, lvl, None, p, free)
  }

  function Min(a: int, b: int): int
  {
    if a <= b then a else b
  }

  /** The number of page descriptors the sweep clears: as many as `size`
      covers, but no more than `room`. */
  function PagesToClear(size: nat, entrySize: nat, room: nat): (n: nat)
    requires entrySize > 0
    ensures n <= room && n <= size / entrySize && (n < room ==> n == size / entrySize)
  {
    Min(size / entrySize, room)
  }

  /** `entries` zeroed descriptors of `t` from `from` on. */
  function ZeroRange(t: seq<Slot>, from: nat, entries: nat): (r: seq<Slot>)
    requires from + entries <= |t|
    ensures |r| == |t|
    ensures forall j :: 0 <= j < |t| ==> r[j] == if from <= j < from + entries then EMPTY else t[j]
  {
    t[..from] + EmptyTable(entries) + t[from + entries..]
  }

  lemma ZeroRangeOk(t: seq<Slot>, from: nat, entries: nat, lvl: nat, p: Params)
    requires lvl < MAX_LEVELS && from + entries <= |t| && TableOk(t, lvl, p)
    ensures TableOk(ZeroRange(t, from, entries), lvl, p)
  {
  }

  /** How many page descriptors the sweep at the second-to-last level
      clears for `size` bytes from `iova`: as many whole pages as `size`
      covers, but not past the end of the table. */
  function SweepCount(iova: nat, size: nat, lvl: nat, p: Params): (n: nat)
    requires WalkLevel(lvl, p) && lvl == MAX_LEVELS - 2
    ensures LvlIdx(iova, NextLevel(lvl), p.g) + n <= Pow2(p.g.bpl)
    ensures n * Pow2(p.g.pgShift) <= size
    ensures size == Pow2(p.g.pgShift) ==> n == 1
  {
    var tl := LvlIdx(iova, NextLevel(lvl), p.g);
    var entrySize := Pow2(p.g.pgShift);
    BlockSizeShift(lvl, p.g);
    Pow2Add(p.g.bpl, p.g.pgShift);
    Pow2Div(p.g.bpl + p.g.pgShift, p.g.pgShift);
    var maxEntries := BlockSize(lvl, p.g) / entrySize;
    assert maxEntries == Pow2(p.g.bpl);
    assert tl < maxEntries;
    var entries := PagesToClear(size, entrySize, maxEntries - tl);
    MulNonneg(entries, entrySize);
    assert entries * entrySize <= size by {
      MulComm(entries, entrySize);
      MulMono(entrySize, entries, size / entrySize);
      MulComm(size / entrySize, entrySize);
      DivMulBelow(size, entrySize);
    }
    assert size == entrySize ==> entries == 1 by {
      if size == entrySize {
        ModUnique(size, entrySize, 1, 0);
      }
    }
    entries
  }

  /** The table entry `s` with `n` page descriptors from `tl` on zeroed and
      taken off its count; dropped once the count reaches zero. */
  function Swept(s: Slot, tl: nat, n: nat, lvl: nat, p: Params): (r: Slot)
    requires WalkLevel(lvl, p) && lvl < MAX_LEVELS - 1 && SlotOk(s, lvl, p) && IsTable(s.pte, lvl)
    requires tl + n <= |s.next|
    ensures SlotOk(r, lvl, p)
    ensures r == EMPTY || (IsTable(r.pte, lvl) && |r.next| == |s.next| &&
      forall j :: 0 <= j < |s.next| ==> r.next[j] == if tl <= j < tl + n then EMPTY else s.next[j])
  {
    var pte := TblcntSub(s.pte, n);
    assert PteType(pte) == PTE_TYPE_TABLE by {
      assert Bit(pte, 0) == Bit(s.pte, 0) && Bit(pte, 1) == Bit(s.pte, 1);
    }
    ZeroRangeOk(s.next, tl, n, NextLevel(lvl), p);
    if Tblcnt(pte) == 0 then EMPTY
    else Slot(pte, ZeroRange(s.next, tl, n))
  }

  /** The branch of `__arm_lpae_unmap` for a table at the second-to-last
      level: zero the page descriptors from `iova`'s on, as many as `size`
      covers but not past the end of the table, take them off the table's
      count, and drop the table when the count reaches zero. */
  function ClearPages(s: Slot, iova: nat, size: nat, lvl: nat, p: Params, free: nat): (r: UnmapOut<Slot>)
    requires WalkLevel(lvl, p) && lvl == MAX_LEVELS - 2 && SlotOk(s, lvl, p) && IsTable(s.pte, lvl)
    ensures SlotOk(r.out, lvl, p) && r.free == free && r.unmapped <= size
    ensures size == Pow2(p.g.pgShift) ==>
      r.unmapped == size && (r.out == EMPTY ||
        (LvlIdx(iova, NextLevel(lvl), p.g) < |r.out.next| && r.out.next[LvlIdx(iova, NextLevel(lvl), p.g)] == EMPTY))
  {
    var tl := LvlIdx(iova, NextLevel(lvl), p.g);
    var n := SweepCount(iova, size, lvl, p);
    MulNonneg(n, Pow2(p.g.pgShift));
    assert size == Pow2(p.g.pgShift) ==> n * Pow2(p.g.pgShift) == size by {
      if size == Pow2(p.g.pgShift) {
        assert n == 1;
      }
    }
    UnmapOut(n * Pow2(p.g.pgShift), Swept(s, tl, n, lvl, p), free)
  }

  /** `__arm_lpae_unmap` on the entry `s` that `iova` selects at level
      `lvl`: nothing for a zero entry; clear the entry when `size` is this
      level's block size; clear pages in one sweep at the second-to-last
      level; split a larger block; otherwise continue one level down.  A
      block is split by the corrected `SplitBlk`, and the unmap goes on in
      the table that replaces it. */
  function UnmapSlot(s: Slot, iova: nat, size: nat, lvl: nat, p: Params, free: nat): (r: UnmapOut<Slot>)
    requires WalkLevel(lvl, p) && SlotOk(s, lvl, p)
    ensures SlotOk(r.out, lvl, p) && r.free <= free && r.unmapped <= size
    ensures s.pte == 0 ==> r.unmapped == 0 && r.out == s
    decreases MAX_LEVELS - lvl, if IsLeaf(s.pte, lvl) then 2 else 1
  {
    if s.pte == 0 then UnmapOut(0, s, free)
    else if size == BlockSize(lvl, p.g) then UnmapOut(size, EMPTY, free)
    else if lvl == MAX_LEVELS - 2 && !IsLeaf(s.pte, lvl) then ClearPages(s, iova, size, lvl, p, free)
    else if IsLeaf(s.pte, lvl) then
      var sp := SplitBlk(s, iova, lvl, p, free);
      if sp.status < 0 || !IsTable(sp.out.pte, lvl) then UnmapOut(0, s, sp.free)
      else UnmapSlot(sp.out, iova, size, lvl, p, sp.free)
    else
      var r := UnmapTable(s.next, iova, size, NextLevel(lvl), p, free);
      UnmapOut(r.unmapped, Slot(s.pte, r.out), r.free)
  }

  /** `__arm_lpae_unmap` on table `t` at level `lvl`: only the entry `iova`
      selects changes. */
  function UnmapTable(t: seq<Slot>, iova: nat, size: nat, lvl: nat, p: Params, free: nat): (r: UnmapOut<seq<Slot>>)
    requires WalkLevel(lvl, p) && TableOk(t, lvl, p) && LvlIdx(iova, lvl, p.g) < |t|
    ensures |r.out| == |t| && TableOk(r.out, lvl, p) && r.free <= free && r.unmapped <= size
    ensures forall j :: 0 <= j < |t| && j != LvlIdx(iova, lvl, p.g) ==> r.out[j] == t[j]
    decreases MAX_LEVELS - lvl, 3
  {
    var idx := LvlIdx(iova, lvl, p.g);
    var r := UnmapSlot(t[idx], iova, size, lvl, p, free);
    UnmapOut(r.unmapped, t[idx := r.out], r.free)
  }

  // ---------------------------------------------------------------------
  // Whole page tables

  /** An `arm_lpae_io_pgtable`: its parameters, the input address size,
      whether it is a stage-1 table, the pgd, and the number of pages the
      allocator can still hand out for new tables. */
  datatype Pgtable = Pgtable(p: Params, ias: nat, stage1: bool, pgd: seq<Slot>, free: nat)

  ghost predicate PgtableOk(pt: Pgtable)
  {
    GeoOk(pt.p.g, pt.ias) && BitmapOk(pt.p.pgsizes) && |pt.pgd| == PgdEntries(pt.p.g) && TableOk(pt.pgd, Start(pt.p.g), pt.p)
  }

  /** Every input address of `ias` bits selects an entry of the pgd. */
  lemma RootIdx(pt: Pgtable, iova: nat)
    requires PgtableOk(pt) && iova < Pow2(pt.ias)
    ensures WalkLevel(Start(pt.p.g), pt.p) && LvlIdx(iova, Start(pt.p.g), pt.p.g) < |pt.pgd|
  {
  }

  /** `alloc_io_pgtable` for `fmt` with a zeroed pgd: refused exactly when
      the allocator refuses, and otherwise a well-formed table with the
      restricted page sizes.  `ns` is the non-secure quirk; `free` the
      pages available for tables later on. */
  function NewPgtable(fmt: Format, cfg: Cfg, pageShift: nat, memOk: bool, ns: bool, free: nat): (r: Option<Pgtable>)
    requires BitmapOk(cfg.pgsizes)
    ensures r.Some? <==> AllocPgtable(fmt, cfg, pageShift, memOk).Some?
    ensures r.Some? ==> PgtableOk(r.value) && r.value.ias == cfg.ias && r.value.free == free
    ensures r.Some? ==> (r.value.stage1 <==> fmt == Arm64S1 || fmt == Arm32S1)
    ensures r.Some? ==> forall j :: 0 <= j < |r.value.pgd| ==> r.value.pgd[j] == EMPTY
  {
    match AllocPgtable(fmt, cfg, pageShift, memOk)
    case None => None
    case Some(st) =>
      AllocPgtableOk(fmt, cfg, pageShift, memOk);
      var p := Params(st.g, st.cfg.pgsizes, ns);
      EmptyTableOk(PgdEntries(st.g), Start(st.g), p);
      Some(Pgtable(p, cfg.ias, fmt == Arm64S1 || fmt == Arm32S1, EmptyTable(PgdEntries(st.g)), free))
  }

  /** `arm_lpae_iova_to_phys`: 0 where the walk meets a zero entry. What
      it returns after a map or an unmap is stated in LpaeProps. */
  function IovaToPhys(pt: Pgtable, iova: nat): (pa: nat)
    requires PgtableOk(pt) && iova < Pow2(pt.ias)
    ensures LvlIdx(iova, Start(pt.p.g), pt.p.g) < |pt.pgd|
    ensures pt.pgd[LvlIdx(iova, Start(pt.p.g), pt.p.g)].pte == 0 ==> pa == 0
  {
    RootIdx(pt, iova);
    Walk(pt.pgd, iova, Start(pt.p.g), pt.p)
  }

  /** A page table after an operation, with the operation's result. */
  datatype After = After(ret: int, pt: Pgtable)

  /** The same table shape: parameters, input size and stage. */
  predicate SameShape(a: Pgtable, b: Pgtable)
  {
    a.p == b.p && a.ias == b.ias && a.stage1 == b.stage1
  }

  /** `arm_lpae_map`: nothing to do without read or write access;
      otherwise map with the descriptor attributes of `prot` from the
      start level. */
  function Map(pt: Pgtable, iova: nat, paddr: nat, size: nat, prot: Prot): (r: After)
    requires PgtableOk(pt) && iova < Pow2(pt.ias)
    ensures PgtableOk(r.pt) && SameShape(r.pt, pt) && r.pt.free <= pt.free && MapStatus(r.ret)
    ensures !prot.read && !prot.write ==> r == After(0, pt)
    ensures r.ret == -EEXIST ==> r.pt == pt
  {
    if !(prot.read || prot.write) then After(0, pt)
    else
      RootIdx(pt, iova);
      ProtToPteAttrs(pt.stage1, prot);
      var m := MapTable(pt.pgd, iova, paddr, size, ProtToPte(pt.stage1, prot), Start(pt.p.g), pt.p, pt.free);
      After(m.status, pt.(pgd := m.out, free := m.free))
  }

  /** A supported page shift `k` for a piece of `size` bytes at `iova`:
      the page fits in the size and `iova` is aligned to it. */
  predicate Fits(pgsizes: set<nat>, iova: nat, size: nat, k: nat)
  {
    k in pgsizes && Pow2(k) <= size && iova % Pow2(k) == 0
  }

  /** The largest fitting page shift below `k`. */
  function FitBelow(pgsizes: set<nat>, iova: nat, size: nat, k: nat): (r: Option<nat>)
    ensures r.Some? ==> r.value < k && Fits(pgsizes, iova, size, r.value)
    ensures forall j: nat :: j < k && Fits(pgsizes, iova, size, j) ==> r.Some? && j <= r.value
  {
    if k == 0 then None
    else if Fits(pgsizes, iova, size, k - 1) then Some(k - 1)
    else FitBelow(pgsizes, iova, size, k - 1)
  }

  /** Every fitting page of a restricted bitmap is no larger than the one
      the search from shift 64 picks. */
  lemma FitBelowLargest(pgsizes: set<nat>, iova: nat, size: nat)
    requires BitmapOk(pgsizes)
    ensures forall k :: Fits(pgsizes, iova, size, k) ==>
      FitBelow(pgsizes, iova, size, 64).Some? && Pow2(k) <= Pow2(FitBelow(pgsizes, iova, size, 64).value)
  {
    var f := FitBelow(pgsizes, iova, size, 64);
    forall k | Fits(pgsizes, iova, size, k)
      ensures f.Some? && Pow2(k) <= Pow2(f.value)
    {
      assert k < 64;
      Pow2Mono(k, f.value);
    }
  }

  /** `iommu_pgsize`: the largest supported page size that fits `size`
      bytes at `iova`.  None stands for the kernel's BUG_ON when none
      does. */
  function PgSize(pgsizes: set<nat>, iova: nat, size: nat): (r: Option<nat>)
    requires BitmapOk(pgsizes)
    ensures r.Some? ==> exists k :: Fits(pgsizes, iova, size, k) && r.value == Pow2(k)
    ensures r.Some? ==> 0 < r.value <= size
    ensures r.None? <==> forall k :: !Fits(pgsizes, iova, size, k)
    ensures forall k :: Fits(pgsizes, iova, size, k) ==> r.Some? && Pow2(k) <= r.value
  {
    FitBelowLargest(pgsizes, iova, size);
    match FitBelow(pgsizes, iova, size, 64)
    case None => None
    case Some(k) => Some(Pow2(k))
  }

  /** The loop of `arm_lpae_unmap`: unmap up to 2M at a time as it comes,
      larger pieces in the largest page size that fits, until `size` bytes
      are done or a piece unmaps nothing.  `done` counts the bytes so
      far. */
  function UnmapLoop(pt: Pgtable, iova: nat, size: nat, done: nat): (r: After)
    requires PgtableOk(pt) && iova + (size - done) <= Pow2(pt.ias) && done <= size
    ensures PgtableOk(r.pt) && SameShape(r.pt, pt) && r.pt.free <= pt.free
    ensures done <= r.ret <= size
    decreases size - done
  {
    if done >= size then After(done, pt)
    else
      var remaining := size - done;
      var piece := if remaining < SZ_2M then Some(remaining) else PgSize(pt.p.pgsizes, iova, remaining);
      if piece.None? then After(done, pt)
      else
        RootIdx(pt, iova);
        var u := UnmapTable(pt.pgd, iova, piece.value, Start(pt.p.g), pt.p, pt.free);
        var pt' := pt.(pgd := u.out, free := u.free);
        if u.unmapped == 0 then After(done, pt')
        else UnmapLoop(pt', iova + u.unmapped, size, done + u.unmapped)
  }

  /** `arm_lpae_unmap`: the number of bytes unmapped, at most `size`. */
  function Unmap(pt: Pgtable, iova: nat, size: nat): (r: After)
    requires PgtableOk(pt) && iova + size <= Pow2(pt.ias)
    ensures PgtableOk(r.pt) && SameShape(r.pt, pt) && r.pt.free <= pt.free
    ensures 0 <= r.ret <= size
  {
    UnmapLoop(pt, iova, size, 0)
  }
}
