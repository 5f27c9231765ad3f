/** What the LPAE table operations promise together: a successful map
    translates its whole range to the mapped output range and leaves every
    other address alone, a second map of the same range is refused, an
    unmap after a map removes exactly that range, and a fresh table
    translates nothing. */
module LpaeProps {
  import opened Wrappers
  import opened Arith
  import opened Bits
  import opened LpaePte
  import opened LpaeGeometry
  import opened LpaeTable

  // ---------------------------------------------------------------------
  // Addresses and levels

  /** The address bits above what a table at level `lvl` resolves. */
  function Above(x: nat, lvl: nat, p: Params): (h: nat)
    requires WalkLevel(lvl, p)
    ensures h == x / Pow2(LvlShift(lvl, p.g) + IdxBits(lvl, p.g))
  {
    ShrIsDiv(x, LvlShift(lvl, p.g) + IdxBits(lvl, p.g));
    Shr(x, LvlShift(lvl, p.g) + IdxBits(lvl, p.g))
  }

  /** The address bits from a level's shift up are the bits above its
      table followed by its index. */
  lemma StepDown(x: nat, lvl: nat, p: Params)
    requires WalkLevel(lvl, p)
    ensures x / Pow2(LvlShift(lvl, p.g)) == Above(x, lvl, p) * Pow2(IdxBits(lvl, p.g)) + LvlIdx(x, lvl, p.g)
  {
    var sh, w := LvlShift(lvl, p.g), IdxBits(lvl, p.g);
    Pow2Add(sh, w);
    DivSplit(x, Pow2(sh), Pow2(w));
  }

  /** Two addresses in the same entry of a table at `lvl` have the same
      bits above the next level's table. */
  lemma AboveNext(x: nat, lvl: nat, p: Params)
    requires WalkLevel(lvl, p) && lvl < MAX_LEVELS - 1
    ensures WalkLevel(NextLevel(lvl), p) && Above(x, NextLevel(lvl), p) == x / Pow2(LvlShift(lvl, p.g))
  {
    MulSplit(p.g.bpl, MAX_LEVELS - 2 - lvl, 1);
    MulComm(p.g.bpl, MAX_LEVELS - 2 - lvl);
    MulComm(p.g.bpl, MAX_LEVELS - 1 - lvl);
  }

  /** Addresses in the same entry at `lvl` select the same entry. */
  lemma SameEntry(a: nat, b: nat, lvl: nat, p: Params)
    requires WalkLevel(lvl, p)
    ensures a / Pow2(LvlShift(lvl, p.g)) == b / Pow2(LvlShift(lvl, p.g)) <==>
            Above(a, lvl, p) == Above(b, lvl, p) && LvlIdx(a, lvl, p.g) == LvlIdx(b, lvl, p.g)
  {
    StepDown(a, lvl, p);
    StepDown(b, lvl, p);
    var sh, w := LvlShift(lvl, p.g), IdxBits(lvl, p.g);
    Pow2Add(sh, w);
    DivDiv(a, Pow2(sh), Pow2(w));
    DivDiv(b, Pow2(sh), Pow2(w));
  }

  /** No address of `ias` bits reaches above the pgd. */
  lemma TopEmpty(p: Params, ias: nat, x: nat)
    requires Shaped(p.g) && Covers(p.g, ias) && x < Pow2(ias)
    ensures WalkLevel(Start(p.g), p) && Above(x, Start(p.g), p) == 0
  {
    BelowIsZero(x, ias, LvlShift(Start(p.g), p.g) + IdxBits(Start(p.g), p.g));
  }

  /** An address of `ias` bits has nothing above bit `k` once `ias <= k`. */
  lemma BelowIsZero(x: nat, ias: nat, k: nat)
    requires x < Pow2(ias) && ias <= k
    ensures x / Pow2(k) == 0
  {
    Pow2Mono(ias, k);
    ModUnique(x, Pow2(k), 0, x);
  }

  /** Deeper levels resolve lower address bits. */
  lemma ShiftMono(l: nat, m: nat, g: Geometry)
    requires l <= m < MAX_LEVELS && g.levels <= MAX_LEVELS
    ensures LvlShift(m, g) <= LvlShift(l, g)
  {
    MulMono(g.bpl, MAX_LEVELS - 1 - m, MAX_LEVELS - 1 - l);
    MulComm(g.bpl, MAX_LEVELS - 1 - m);
    MulComm(g.bpl, MAX_LEVELS - 1 - l);
  }

  /** The level that takes a leaf of `size` bytes, at or below `lvl`. */
  lemma InstallLevel(size: nat, lvl: nat, p: Params) returns (L: nat)
    requires p.g.levels <= MAX_LEVELS && InstallsFrom(size, lvl, p)
    ensures lvl <= L < MAX_LEVELS && Installs(size, L, p)
    decreases MAX_LEVELS - lvl
  {
    if Installs(size, lvl, p) {
      L := lvl;
    } else {
      L := InstallLevel(size, NextLevel(lvl), p);
    }
  }

  /** Addresses in the same leaf of `size` bytes, installed at or below
      `lvl`, are in the same entry at `lvl`. */
  lemma SameLeafSameEntry(a: nat, b: nat, size: nat, lvl: nat, p: Params)
    requires WalkLevel(lvl, p) && InstallsFrom(size, lvl, p)
    requires size > 0 && a / size == b / size
    ensures a / Pow2(LvlShift(lvl, p.g)) == b / Pow2(LvlShift(lvl, p.g))
    ensures LvlIdx(a, lvl, p.g) == LvlIdx(b, lvl, p.g)
  {
    var L := InstallLevel(size, lvl, p);
    BlockSizeShift(L, p.g);
    ShiftMono(lvl, L, p.g);
    DivCoarser(a, b, LvlShift(L, p.g), LvlShift(lvl, p.g));
    SameEntry(a, b, lvl, p);
  }

  /** A map that takes no leaf at `lvl` and does not fail there goes on
      through a table descriptor: the entry's own, or a new one over an
      empty table that uses up one page. */
  lemma MapSlotDescends(s: Slot, iova: nat, paddr: nat, size: nat, prot: nat, lvl: nat, p: Params, free: nat)
      returns (t0: Slot, f0: nat)
    requires WalkLevel(lvl, p) && AttrOnly(prot) && SlotOk(s, lvl, p) && !Installs(size, lvl, p)
    requires lvl < MAX_LEVELS - 1 && !IsLeaf(s.pte, lvl) && (s.pte != 0 || free > 0)
    ensures IsTable(t0.pte, lvl) && SlotOk(t0, lvl, p)
    ensures s.pte != 0 ==> t0 == s && f0 == free
    ensures s.pte == 0 ==> t0 == Slot(TablePte(p.ns), EmptyTable(Pow2(p.g.bpl))) && f0 == free - 1
    ensures MapSlot(s, iova, paddr, size, prot, lvl, p, free) == MapInto(t0, iova, paddr, size, prot, lvl, p, f0)
  {
    if s.pte == 0 {
      t0, f0 := Slot(TablePte(p.ns), EmptyTable(Pow2(p.g.bpl))), free - 1;
      EmptyTableOk(Pow2(p.g.bpl), NextLevel(lvl), p);
    } else {
      t0, f0 := s, free;
    }
  }

  /** A map that succeeds where the size is a block of this level leaves
      a valid leaf there. */
  lemma MapSlotInstalls(s: Slot, iova: nat, paddr: nat, size: nat, prot: nat, lvl: nat, p: Params, free: nat)
      returns (pte: nat)
    requires WalkLevel(lvl, p) && AttrOnly(prot) && SlotOk(s, lvl, p) && Installs(size, lvl, p)
    requires MapSlot(s, iova, paddr, size, prot, lvl, p, free).status == 0
    ensures pte != 0 && Bit(pte, PTE_VALID_BIT) && IsLeaf(pte, lvl)
    ensures pte == InitPte(s.pte, prot, p.ns, lvl, paddr, p.g.pgShift).value
    ensures MapSlot(s, iova, paddr, size, prot, lvl, p, free).out == Slot(pte, [])
  {
    var init := InitPte(s.pte, prot, p.ns, lvl, paddr, p.g.pgShift);
    assert init.Ok?;
    pte := init.value;
    if pte == 0 {
      BitZero(PTE_VALID_BIT);
    }
  }

  // ---------------------------------------------------------------------
  // An empty table

  lemma WalkEmpty(n: nat, a: nat, lvl: nat, p: Params)
    requires WalkLevel(lvl, p) && LvlIdx(a, lvl, p.g) < n
    ensures TableOk(EmptyTable(n), lvl, p) && Walk(EmptyTable(n), a, lvl, p) == 0
  {
    EmptyTableOk(n, lvl, p);
  }

  /** A page table whose pgd is all zero translates every address to 0. */
  lemma ZeroPgdEmpty(pt: Pgtable, a: nat)
    requires PgtableOk(pt) && a < Pow2(pt.ias)
    requires forall j :: 0 <= j < |pt.pgd| ==> pt.pgd[j] == EMPTY
    ensures IovaToPhys(pt, a) == 0
  {
    RootIdx(pt, a);
    assert pt.pgd[LvlIdx(a, Start(pt.p.g), pt.p.g)] == EMPTY;
  }

  /** A new page table translates every address to 0. */
  lemma NewPgtableEmpty(fmt: Format, cfg: Cfg, pageShift: nat, memOk: bool, ns: bool, free: nat, a: nat)
    requires BitmapOk(cfg.pgsizes) && NewPgtable(fmt, cfg, pageShift, memOk, ns, free).Some?
    requires a < Pow2(cfg.ias)
    ensures IovaToPhys(NewPgtable(fmt, cfg, pageShift, memOk, ns, free).value, a) == 0
  {
    ZeroPgdEmpty(NewPgtable(fmt, cfg, pageShift, memOk, ns, free).value, a);
  }

  // ---------------------------------------------------------------------
  // Map, then translate

  /** After a successful map, an address in the mapped leaf walks to the
      leaf's output address with the address bits below the leaf. */
  lemma MapTableWalk(t: seq<Slot>, iova: nat, paddr: nat, size: nat, prot: nat, lvl: nat, p: Params, free: nat, a: nat)
    requires WalkLevel(lvl, p) && AttrOnly(prot) && TableOk(t, lvl, p) && LvlIdx(iova, lvl, p.g) < |t|
    requires MapTable(t, iova, paddr, size, prot, lvl, p, free).status == 0
    requires size > 0 && a / size == iova / size
    ensures LvlIdx(a, lvl, p.g) == LvlIdx(iova, lvl, p.g)
    ensures Walk(MapTable(t, iova, paddr, size, prot, lvl, p, free).out, a, lvl, p)
         == Or(OutputAddress(paddr, p.g.pgShift), And(a, size - 1))
    decreases MAX_LEVELS - lvl, 1
  {
    SameLeafSameEntry(a, iova, size, lvl, p);
    var idx := LvlIdx(iova, lvl, p.g);
    MapSlotWalk(t[idx], iova, paddr, size, prot, lvl, p, free, a);
  }

  /** The walk ends at a leaf with its output address and the offset
      inside the leaf. */
  lemma LeafWalk(e: Slot, x: nat, l: nat, p: Params)
    requires WalkLevel(l, p) && SlotOk(e, l, p) && e.pte != 0 && IsLeaf(e.pte, l)
    ensures WalkSlot(e, x, l, p) == Or(OutputAddress(e.pte, p.g.pgShift), And(x, Pow2(LvlShift(l, p.g)) - 1))
  {
  }

  /** The same for a leaf whose output address is that of `q`. */
  lemma LeafWalkTo(e: Slot, x: nat, l: nat, p: Params, q: nat)
    requires WalkLevel(l, p) && SlotOk(e, l, p) && e.pte != 0 && IsLeaf(e.pte, l)
    requires OutputAddress(e.pte, p.g.pgShift) == OutputAddress(q, p.g.pgShift)
    ensures WalkSlot(e, x, l, p) == Or(OutputAddress(q, p.g.pgShift), And(x, Pow2(LvlShift(l, p.g)) - 1))
  {
    LeafWalk(e, x, l, p);
  }

  /** The same with the leaf's size written as the level's block size. */
  lemma BlockLeafWalk(e: Slot, x: nat, l: nat, p: Params, size: nat)
    requires WalkLevel(l, p) && SlotOk(e, l, p) && e.pte != 0 && IsLeaf(e.pte, l) && size == BlockSize(l, p.g)
    ensures WalkSlot(e, x, l, p) == Or(OutputAddress(e.pte, p.g.pgShift), And(x, size - 1))
  {
    LeafWalk(e, x, l, p);
    BlockSizeShift(l, p.g);
  }

  /** The walk goes on through a table entry to the next level. */
  lemma TableWalk(e: Slot, x: nat, l: nat, p: Params)
    requires WalkLevel(l, p) && SlotOk(e, l, p) && IsTable(e.pte, l)
    ensures WalkSlot(e, x, l, p) == Walk(e.next, x, NextLevel(l), p)
  {
  }

  /** A leaf installed at this level translates every address of its
      block. */
  lemma InstalledWalk(s: Slot, iova: nat, paddr: nat, size: nat, prot: nat, lvl: nat, p: Params, free: nat, a: nat)
    requires WalkLevel(lvl, p) && AttrOnly(prot) && SlotOk(s, lvl, p) && Installs(size, lvl, p)
    requires MapSlot(s, iova, paddr, size, prot, lvl, p, free).status == 0
    ensures WalkSlot(MapSlot(s, iova, paddr, size, prot, lvl, p, free).out, a, lvl, p)
         == Or(OutputAddress(paddr, p.g.pgShift), And(a, size - 1))
  {
    var r := MapSlot(s, iova, paddr, size, prot, lvl, p, free);
    var init := InitPte(s.pte, prot, p.ns, lvl, paddr, p.g.pgShift);
    assert init.Ok? && r.out == Slot(init.value, []) && init.value != 0;
    BlockLeafWalk(r.out, a, lvl, p, size);
  }

  lemma MapSlotWalk(s: Slot, iova: nat, paddr: nat, size: nat, prot: nat, lvl: nat, p: Params, free: nat, a: nat)
    requires WalkLevel(lvl, p) && AttrOnly(prot) && SlotOk(s, lvl, p)
    requires MapSlot(s, iova, paddr, size, prot, lvl, p, free).status == 0
    requires size > 0 && a / size == iova / size
    ensures WalkSlot(MapSlot(s, iova, paddr, size, prot, lvl, p, free).out, a, lvl, p)
         == Or(OutputAddress(paddr, p.g.pgShift), And(a, size - 1))
    decreases MAX_LEVELS - lvl, 0
  {
    var r := MapSlot(s, iova, paddr, size, prot, lvl, p, free);
    if Installs(size, lvl, p) {
      InstalledWalk(s, iova, paddr, size, prot, lvl, p, free, a);
    } else {
      var t0, f0 := MapSlotDescends(s, iova, paddr, size, prot, lvl, p, free);
      var sub := MapTable(t0.next, iova, paddr, size, prot, NextLevel(lvl), p, f0);
      assert r.out.next == sub.out && IsTable(r.out.pte, lvl);
      MapTableWalk(t0.next, iova, paddr, size, prot, NextLevel(lvl), p, f0, a);
      TableWalk(r.out, a, lvl, p);
    }
  }

  /** An address in the `size`-aligned block that starts at `iova`. */
  lemma InBlock(iova: nat, a: nat, size: nat)
    requires size > 0 && iova % size == 0 && iova <= a < iova + size
    ensures a / size == iova / size && a % size == a - iova
  {
    var q := iova / size;
    assert iova == size * q;
    ModUnique(a, size, q, a - iova);
  }

  /** A leaf's output address `paddr`, aligned to its 2^k bytes and below
      2^48, joined with the low bits of an address: their sum. */
  lemma LeafAddress(paddr: nat, a: nat, k: nat, pgShift: nat)
    requires pgShift <= k && paddr % Pow2(k) == 0 && paddr < ADDR_LIMIT
    ensures Or(OutputAddress(paddr, pgShift), And(a, Pow2(k) - 1)) == paddr + a % Pow2(k)
  {
    Pow2IsPow2(k);
    AndPow2Mask(a, Pow2(k));
    HighPowers();
    forall i: nat
      ensures Bit(OutputAddress(paddr, pgShift), i) == Bit(paddr, i)
    {
      if i < pgShift { LowBitsClear(paddr, k, i); }
      if MAX_ADDR_BITS <= i { BitsBelow(paddr, MAX_ADDR_BITS, i); }
    }
    BitsEqual(OutputAddress(paddr, pgShift), paddr);
    forall i: nat
      ensures !(Bit(paddr, i) && Bit(a % Pow2(k), i))
    {
      if i < k { LowBitsClear(paddr, k, i); } else { BitsBelow(a % Pow2(k), k, i); }
    }
    OrDisjoint(paddr, a % Pow2(k));
  }

  /** A map to an address aligned to `size`, with an output address below
      2^48 aligned likewise, followed by a translation of any address of
      the range, gives the corresponding output address. */
  lemma MapThenTranslate(pt: Pgtable, iova: nat, paddr: nat, size: nat, prot: Prot, a: nat)
    requires PgtableOk(pt) && iova < Pow2(pt.ias) && size > 0
    requires (prot.read || prot.write) && Map(pt, iova, paddr, size, prot).ret == 0
    requires iova % size == 0 && paddr % size == 0 && paddr < ADDR_LIMIT
    requires iova <= a < iova + size && a < Pow2(pt.ias)
    ensures IovaToPhys(Map(pt, iova, paddr, size, prot).pt, a) == paddr + (a - iova)
  {
    var st := Start(pt.p.g);
    RootIdx(pt, iova);
    RootIdx(pt, a);
    ProtToPteAttrs(pt.stage1, prot);
    var attrs := ProtToPte(pt.stage1, prot);
    var m := MapTable(pt.pgd, iova, paddr, size, attrs, st, pt.p, pt.free);
    assert Map(pt, iova, paddr, size, prot).pt == pt.(pgd := m.out, free := m.free);
    var L := InstallLevel(size, st, pt.p);
    BlockSizeShift(L, pt.p.g);
    ShiftMono(L, MAX_LEVELS - 1, pt.p.g);
    RangeOffset(paddr, iova, a, size, LvlShift(L, pt.p.g), pt.p.g.pgShift);
    MapTableWalk(pt.pgd, iova, paddr, size, attrs, st, pt.p, pt.free, a);
  }

  /** Within a leaf of 2^k bytes at `iova`, address `a` reaches the output
      address at the same offset from `paddr`. */
  lemma RangeOffset(paddr: nat, iova: nat, a: nat, size: nat, k: nat, pgShift: nat)
    requires pgShift <= k && size == Pow2(k) && paddr % size == 0 && paddr < ADDR_LIMIT
    requires iova % size == 0 && iova <= a < iova + size
    ensures a / size == iova / size
    ensures Or(OutputAddress(paddr, pgShift), And(a, size - 1)) == paddr + (a - iova)
  {
    InBlock(iova, a, size);
    LeafAddress(paddr, a, k, pgShift);
  }

  // ---------------------------------------------------------------------
  // Map leaves other addresses alone

  lemma MapTableFrame(t: seq<Slot>, iova: nat, paddr: nat, size: nat, prot: nat, lvl: nat, p: Params, free: nat, a: nat)
    requires WalkLevel(lvl, p) && AttrOnly(prot) && TableOk(t, lvl, p) && LvlIdx(iova, lvl, p.g) < |t|
    requires LvlIdx(a, lvl, p.g) < |t| && Above(a, lvl, p) == Above(iova, lvl, p)
    ensures var r := MapTable(t, iova, paddr, size, prot, lvl, p, free);
      Walk(r.out, a, lvl, p) == Walk(t, a, lvl, p) || (r.status == 0 && size > 0 && a / size == iova / size)
    decreases MAX_LEVELS - lvl, 2
  {
    var idx := LvlIdx(iova, lvl, p.g);
    if LvlIdx(a, lvl, p.g) == idx {
      SameEntry(a, iova, lvl, p);
      MapSlotFrame(t[idx], iova, paddr, size, prot, lvl, p, free, a);
    }
  }

  lemma MapSlotFrame(s: Slot, iova: nat, paddr: nat, size: nat, prot: nat, lvl: nat, p: Params, free: nat, a: nat)
    requires WalkLevel(lvl, p) && AttrOnly(prot) && SlotOk(s, lvl, p)
    requires a / Pow2(LvlShift(lvl, p.g)) == iova / Pow2(LvlShift(lvl, p.g))
    ensures var r := MapSlot(s, iova, paddr, size, prot, lvl, p, free);
      WalkSlot(r.out, a, lvl, p) == WalkSlot(s, a, lvl, p) || (r.status == 0 && size > 0 && a / size == iova / size)
    decreases MAX_LEVELS - lvl, 1
  {
    if Installs(size, lvl, p) {
      BlockSizeShift(lvl, p.g);
    } else if lvl < MAX_LEVELS - 1 && !IsLeaf(s.pte, lvl) && (s.pte != 0 || free > 0) {
      MapDescendFrame(s, iova, paddr, size, prot, lvl, p, free, a);
    }
  }

  /** The frame of a map that descends through a table entry. */
  lemma MapDescendFrame(s: Slot, iova: nat, paddr: nat, size: nat, prot: nat, lvl: nat, p: Params, free: nat, a: nat)
    requires WalkLevel(lvl, p) && AttrOnly(prot) && SlotOk(s, lvl, p) && !Installs(size, lvl, p)
    requires lvl < MAX_LEVELS - 1 && !IsLeaf(s.pte, lvl) && (s.pte != 0 || free > 0)
    requires a / Pow2(LvlShift(lvl, p.g)) == iova / Pow2(LvlShift(lvl, p.g))
    ensures var r := MapSlot(s, iova, paddr, size, prot, lvl, p, free);
      WalkSlot(r.out, a, lvl, p) == WalkSlot(s, a, lvl, p) || (r.status == 0 && size > 0 && a / size == iova / size)
    decreases MAX_LEVELS - lvl, 0
  {
    var t0, f0 := MapSlotDescends(s, iova, paddr, size, prot, lvl, p, free);
    AboveNext(a, lvl, p);
    AboveNext(iova, lvl, p);
    MapTableFrame(t0.next, iova, paddr, size, prot, NextLevel(lvl), p, f0, a);
    if s.pte == 0 {
      WalkEmpty(Pow2(p.g.bpl), a, NextLevel(lvl), p);
    }
  }

  /** A map changes the translation of no address outside the leaf it
      installs, and of no address at all when it fails. */
  lemma MapKeepsOthers(pt: Pgtable, iova: nat, paddr: nat, size: nat, prot: Prot, a: nat)
    requires PgtableOk(pt) && iova < Pow2(pt.ias) && a < Pow2(pt.ias)
    ensures var r := Map(pt, iova, paddr, size, prot);
      r.ret != 0 || (size > 0 && a / size != iova / size) ==> IovaToPhys(r.pt, a) == IovaToPhys(pt, a)
  {
    if prot.read || prot.write {
      var st := Start(pt.p.g);
      RootIdx(pt, iova);
      RootIdx(pt, a);
      ProtToPteAttrs(pt.stage1, prot);
      TopEmpty(pt.p, pt.ias, a);
      TopEmpty(pt.p, pt.ias, iova);
      MapTableFrame(pt.pgd, iova, paddr, size, ProtToPte(pt.stage1, prot), st, pt.p, pt.free, a);
    }
  }

  // ---------------------------------------------------------------------
  // Mapping the same range twice

  lemma MapTableAgain(t: seq<Slot>, iova: nat, paddr: nat, size: nat, prot: nat, lvl: nat, p: Params, free: nat,
                      paddr2: nat, prot2: nat, free2: nat)
    requires WalkLevel(lvl, p) && AttrOnly(prot) && AttrOnly(prot2) && TableOk(t, lvl, p) && LvlIdx(iova, lvl, p.g) < |t|
    requires MapTable(t, iova, paddr, size, prot, lvl, p, free).status == 0
    ensures MapTable(MapTable(t, iova, paddr, size, prot, lvl, p, free).out, iova, paddr2, size, prot2, lvl, p, free2).status == -EEXIST
    decreases MAX_LEVELS - lvl, 1
  {
    var idx := LvlIdx(iova, lvl, p.g);
    MapSlotAgain(t[idx], iova, paddr, size, prot, lvl, p, free, paddr2, prot2, free2);
  }

  lemma MapSlotAgain(s: Slot, iova: nat, paddr: nat, size: nat, prot: nat, lvl: nat, p: Params, free: nat,
                     paddr2: nat, prot2: nat, free2: nat)
    requires WalkLevel(lvl, p) && AttrOnly(prot) && AttrOnly(prot2) && SlotOk(s, lvl, p)
    requires MapSlot(s, iova, paddr, size, prot, lvl, p, free).status == 0
    ensures MapSlot(MapSlot(s, iova, paddr, size, prot, lvl, p, free).out, iova, paddr2, size, prot2, lvl, p, free2).status == -EEXIST
    decreases MAX_LEVELS - lvl, 0
  {
    var r := MapSlot(s, iova, paddr, size, prot, lvl, p, free);
    if Installs(size, lvl, p) {
      var init := InitPte(s.pte, prot, p.ns, lvl, paddr, p.g.pgShift);
      assert init.Ok? && r.out == Slot(init.value, []);
    } else {
      var t0, f0 := MapSlotDescends(s, iova, paddr, size, prot, lvl, p, free);
      MapTableAgain(t0.next, iova, paddr, size, prot, NextLevel(lvl), p, f0, paddr2, prot2, free2);
      assert r.out.pte != 0 && !IsLeaf(r.out.pte, lvl);
      var t1, f1 := MapSlotDescends(r.out, iova, paddr2, size, prot2, lvl, p, free2);
    }
  }

  /** Once a range is mapped, mapping it again, to any output address and
      with any access, is refused with EEXIST and changes nothing. */
  lemma MapTwice(pt: Pgtable, iova: nat, paddr: nat, size: nat, prot: Prot, paddr2: nat, prot2: Prot)
    requires PgtableOk(pt) && iova < Pow2(pt.ias)
    requires (prot.read || prot.write) && Map(pt, iova, paddr, size, prot).ret == 0
    requires prot2.read || prot2.write
    ensures var pt1 := Map(pt, iova, paddr, size, prot).pt;
      Map(pt1, iova, paddr2, size, prot2) == After(-EEXIST, pt1)
  {
    RootIdx(pt, iova);
    ProtToPteAttrs(pt.stage1, prot);
    ProtToPteAttrs(pt.stage1, prot2);
    var st := Start(pt.p.g);
    var m := MapTable(pt.pgd, iova, paddr, size, ProtToPte(pt.stage1, prot), st, pt.p, pt.free);
    var pt1 := Map(pt, iova, paddr, size, prot).pt;
    assert pt1 == pt.(pgd := m.out, free := m.free);
    MapTableAgain(pt.pgd, iova, paddr, size, ProtToPte(pt.stage1, prot), st, pt.p, pt.free,
                  paddr2, ProtToPte(pt.stage1, prot2), pt1.free);
    var m2 := MapTable(pt1.pgd, iova, paddr2, size, ProtToPte(pt1.stage1, prot2), st, pt1.p, pt1.free);
    assert m2.status == -EEXIST;
    assert Map(pt1, iova, paddr2, size, prot2) == After(m2.status, pt1.(pgd := m2.out, free := m2.free));
  }

  // ---------------------------------------------------------------------
  // Mapping inside a block

  /** A leaf of `size` bytes installed at or below `NextLevel(lvl)` and a smaller
      leaf that some level takes: the smaller one is not taken at `lvl`. */
  lemma SmallerNotHere(size: nat, size2: nat, lvl: nat, p: Params) returns (L: nat)
    requires WalkLevel(lvl, p) && lvl < MAX_LEVELS - 1 && InstallsFrom(size, NextLevel(lvl), p) && size2 < size
    ensures lvl < L < MAX_LEVELS && Installs(size, L, p) && !Installs(size2, lvl, p)
  {
    L := InstallLevel(size, NextLevel(lvl), p);
    ShiftLess(lvl, L, p.g);
  }

  lemma MapTableInside(t: seq<Slot>, iova: nat, paddr: nat, size: nat, prot: nat, lvl: nat, p: Params, free: nat,
                       iova2: nat, paddr2: nat, size2: nat, prot2: nat, free2: nat)
    requires WalkLevel(lvl, p) && AttrOnly(prot) && AttrOnly(prot2) && TableOk(t, lvl, p) && LvlIdx(iova, lvl, p.g) < |t|
    requires MapTable(t, iova, paddr, size, prot, lvl, p, free).status == 0
    requires size2 < size && iova2 / size == iova / size && InstallsFrom(size2, lvl, p)
    ensures LvlIdx(iova2, lvl, p.g) == LvlIdx(iova, lvl, p.g)
    ensures MapTable(MapTable(t, iova, paddr, size, prot, lvl, p, free).out, iova2, paddr2, size2, prot2, lvl, p, free2).status == -EEXIST
    decreases MAX_LEVELS - lvl, 1
  {
    SameLeafSameEntry(iova2, iova, size, lvl, p);
    var idx := LvlIdx(iova, lvl, p.g);
    MapSlotInside(t[idx], iova, paddr, size, prot, lvl, p, free, iova2, paddr2, size2, prot2, free2);
  }

  lemma MapSlotInside(s: Slot, iova: nat, paddr: nat, size: nat, prot: nat, lvl: nat, p: Params, free: nat,
                      iova2: nat, paddr2: nat, size2: nat, prot2: nat, free2: nat)
    requires WalkLevel(lvl, p) && AttrOnly(prot) && AttrOnly(prot2) && SlotOk(s, lvl, p)
    requires MapSlot(s, iova, paddr, size, prot, lvl, p, free).status == 0
    requires size2 < size && iova2 / size == iova / size && InstallsFrom(size2, lvl, p)
    ensures MapSlot(MapSlot(s, iova, paddr, size, prot, lvl, p, free).out, iova2, paddr2, size2, prot2, lvl, p, free2).status == -EEXIST
    decreases MAX_LEVELS - lvl, 0
  {
    var r := MapSlot(s, iova, paddr, size, prot, lvl, p, free);
    if Installs(size, lvl, p) {
      var pte := MapSlotInstalls(s, iova, paddr, size, prot, lvl, p, free);
      assert !Installs(size2, lvl, p);
      assert MapBranchOf(r.out.pte, size2, lvl, p) == LeafInTheWay;
    } else {
      var t0, f0 := MapSlotDescends(s, iova, paddr, size, prot, lvl, p, free);
      var L := SmallerNotHere(size, size2, lvl, p);
      MapTableInside(t0.next, iova, paddr, size, prot, NextLevel(lvl), p, f0, iova2, paddr2, size2, prot2, free2);
      assert r.out.pte != 0 && !IsLeaf(r.out.pte, lvl);
      var t1, f1 := MapSlotDescends(r.out, iova2, paddr2, size2, prot2, lvl, p, free2);
    }
  }

  /** Once a block is mapped, a map of a smaller supported size anywhere
      inside it, to any output address and with any access, is refused
      with EEXIST and changes nothing: the block is not walked as if it
      were a table. */
  lemma MapInsideBlock(pt: Pgtable, iova: nat, paddr: nat, size: nat, prot: Prot,
                       iova2: nat, paddr2: nat, size2: nat, prot2: Prot)
    requires PgtableOk(pt) && iova < Pow2(pt.ias) && iova2 < Pow2(pt.ias)
    requires (prot.read || prot.write) && Map(pt, iova, paddr, size, prot).ret == 0
    requires prot2.read || prot2.write
    requires size2 < size && iova2 / size == iova / size && InstallsFrom(size2, Start(pt.p.g), pt.p)
    ensures var pt1 := Map(pt, iova, paddr, size, prot).pt;
      Map(pt1, iova2, paddr2, size2, prot2) == After(-EEXIST, pt1)
  {
    RootIdx(pt, iova);
    RootIdx(pt, iova2);
    ProtToPteAttrs(pt.stage1, prot);
    ProtToPteAttrs(pt.stage1, prot2);
    var st := Start(pt.p.g);
    var m := MapTable(pt.pgd, iova, paddr, size, ProtToPte(pt.stage1, prot), st, pt.p, pt.free);
    var pt1 := Map(pt, iova, paddr, size, prot).pt;
    assert pt1 == pt.(pgd := m.out, free := m.free);
    MapTableInside(pt.pgd, iova, paddr, size, ProtToPte(pt.stage1, prot), st, pt.p, pt.free,
                   iova2, paddr2, size2, ProtToPte(pt.stage1, prot2), pt1.free);
    var m2 := MapTable(pt1.pgd, iova2, paddr2, size2, ProtToPte(pt1.stage1, prot2), st, pt1.p, pt1.free);
    assert m2.status == -EEXIST;
    assert Map(pt1, iova2, paddr2, size2, prot2) == After(m2.status, pt1.(pgd := m2.out, free := m2.free));
  }

  // ---------------------------------------------------------------------
  // Unmapping what was mapped

  /** Each level down resolves strictly lower address bits. */
  lemma ShiftLess(l: nat, m: nat, g: Geometry)
    requires l < m < MAX_LEVELS && Shaped(g)
    ensures LvlShift(m, g) < LvlShift(l, g) && BlockSize(m, g) < BlockSize(l, g)
  {
    var a, b := MAX_LEVELS - 1 - m, m - l;
    MulSplit(g.bpl, a, b);
    MulAtLeast(g.bpl, b);
    MulComm(g.bpl, a);
    MulComm(g.bpl, a + b);
    assert LvlShift(m, g) == g.bpl * a + g.pgShift;
    assert LvlShift(l, g) == g.bpl * (a + b) + g.pgShift;
    BlockSizeShift(l, g);
    BlockSizeShift(m, g);
    Pow2Mono(LvlShift(m, g) + 1, LvlShift(l, g));
  }

  /** The sweep at the second-to-last level over a page that was mapped
      clears exactly that page. */
  lemma ClearMappedPage(s: Slot, iova: nat, size: nat, p: Params, free: nat, a: nat)
    requires WalkLevel(MAX_LEVELS - 2, p) && SlotOk(s, MAX_LEVELS - 2, p) && IsTable(s.pte, MAX_LEVELS - 2)
    requires Installs(size, MAX_LEVELS - 1, p) && a / size == iova / size
    ensures var u := ClearPages(s, iova, size, MAX_LEVELS - 2, p, free);
      u.unmapped == size && WalkSlot(u.out, a, MAX_LEVELS - 2, p) == 0
  {
    var lvl := MAX_LEVELS - 2;
    BlockSizeShift(NextLevel(lvl), p.g);
    BlockSizeShift(lvl, p.g);
    assert LvlShift(NextLevel(lvl), p.g) == p.g.pgShift;
    var entrySize := Pow2(p.g.pgShift);
    assert size == entrySize;
    SameLeafSameEntry(a, iova, size, NextLevel(lvl), p);
    var u := ClearPages(s, iova, size, lvl, p, free);
    if u.out != EMPTY {
      assert u.out.next[LvlIdx(a, NextLevel(lvl), p.g)] == EMPTY;
    }
  }

  lemma UnmapTableAfterMap(t: seq<Slot>, iova: nat, paddr: nat, size: nat, prot: nat, lvl: nat, p: Params, free: nat,
                           free2: nat, a: nat)
    requires WalkLevel(lvl, p) && AttrOnly(prot) && TableOk(t, lvl, p) && LvlIdx(iova, lvl, p.g) < |t|
    requires MapTable(t, iova, paddr, size, prot, lvl, p, free).status == 0
    requires size > 0 && a / size == iova / size
    ensures LvlIdx(a, lvl, p.g) == LvlIdx(iova, lvl, p.g)
    ensures var u := UnmapTable(MapTable(t, iova, paddr, size, prot, lvl, p, free).out, iova, size, lvl, p, free2);
      u.unmapped == size && Walk(u.out, a, lvl, p) == 0
    decreases MAX_LEVELS - lvl, 3
  {
    SameLeafSameEntry(a, iova, size, lvl, p);
    var idx := LvlIdx(iova, lvl, p.g);
    UnmapSlotAfterMap(t[idx], iova, paddr, size, prot, lvl, p, free, free2, a);
  }

  /** Unmapping a whole entry clears it. */
  lemma UnmapWhole(s: Slot, iova: nat, size: nat, lvl: nat, p: Params, free: nat)
    requires WalkLevel(lvl, p) && SlotOk(s, lvl, p) && s.pte != 0 && size == BlockSize(lvl, p.g)
    ensures UnmapSlot(s, iova, size, lvl, p, free) == UnmapOut(size, EMPTY, free)
  {
  }

  /** Unmapping less than a whole table entry goes on in the table. */
  lemma UnmapDown(s: Slot, iova: nat, size: nat, lvl: nat, p: Params, free: nat)
    requires WalkLevel(lvl, p) && SlotOk(s, lvl, p) && IsTable(s.pte, lvl) && size != BlockSize(lvl, p.g)
    ensures lvl == MAX_LEVELS - 2 ==> UnmapSlot(s, iova, size, lvl, p, free) == ClearPages(s, iova, size, lvl, p, free)
    ensures lvl < MAX_LEVELS - 2 ==>
      (LvlIdx(iova, NextLevel(lvl), p.g) < |s.next| &&
       var d := UnmapTable(s.next, iova, size, NextLevel(lvl), p, free);
       UnmapSlot(s, iova, size, lvl, p, free) == UnmapOut(d.unmapped, Slot(s.pte, d.out), d.free))
  {
    assert s.pte != 0 && !IsLeaf(s.pte, lvl);
  }

  lemma UnmapSlotAfterMap(s: Slot, iova: nat, paddr: nat, size: nat, prot: nat, lvl: nat, p: Params, free: nat,
                          free2: nat, a: nat)
    requires WalkLevel(lvl, p) && AttrOnly(prot) && SlotOk(s, lvl, p)
    requires MapSlot(s, iova, paddr, size, prot, lvl, p, free).status == 0
    requires size > 0 && a / size == iova / size
    ensures var u := UnmapSlot(MapSlot(s, iova, paddr, size, prot, lvl, p, free).out, iova, size, lvl, p, free2);
      u.unmapped == size && WalkSlot(u.out, a, lvl, p) == 0
    decreases MAX_LEVELS - lvl, 2
  {
    if Installs(size, lvl, p) {
      var pte := MapSlotInstalls(s, iova, paddr, size, prot, lvl, p, free);
      UnmapWhole(Slot(pte, []), iova, size, lvl, p, free2);
    } else {
      UnmapBelowAfterMap(s, iova, paddr, size, prot, lvl, p, free, free2, a);
    }
  }

  /** The part of the above where the map went down a level. */
  lemma UnmapBelowAfterMap(s: Slot, iova: nat, paddr: nat, size: nat, prot: nat, lvl: nat, p: Params, free: nat,
                           free2: nat, a: nat)
    requires WalkLevel(lvl, p) && AttrOnly(prot) && SlotOk(s, lvl, p) && !Installs(size, lvl, p)
    requires MapSlot(s, iova, paddr, size, prot, lvl, p, free).status == 0
    requires size > 0 && a / size == iova / size
    ensures var u := UnmapSlot(MapSlot(s, iova, paddr, size, prot, lvl, p, free).out, iova, size, lvl, p, free2);
      u.unmapped == size && WalkSlot(u.out, a, lvl, p) == 0
    decreases MAX_LEVELS - lvl, 1
  {
    if lvl == MAX_LEVELS - 2 {
      var r := MapSlot(s, iova, paddr, size, prot, lvl, p, free);
      var t0, f0 := MapSlotDescends(s, iova, paddr, size, prot, lvl, p, free);
      var L := InstallLevel(size, NextLevel(lvl), p);
      ShiftLess(lvl, L, p.g);
      UnmapDown(r.out, iova, size, lvl, p, free2);
      ClearMappedPage(r.out, iova, size, p, free2, a);
    } else {
      UnmapThroughTable(s, iova, paddr, size, prot, lvl, p, free, free2, a);
    }
  }

  /** The part of the above where the unmap goes down through a table of
      tables. */
  lemma UnmapThroughTable(s: Slot, iova: nat, paddr: nat, size: nat, prot: nat, lvl: nat, p: Params, free: nat,
                          free2: nat, a: nat)
    requires WalkLevel(lvl, p) && AttrOnly(prot) && SlotOk(s, lvl, p) && !Installs(size, lvl, p)
    requires MapSlot(s, iova, paddr, size, prot, lvl, p, free).status == 0
    requires size > 0 && a / size == iova / size && lvl != MAX_LEVELS - 2
    ensures var u := UnmapSlot(MapSlot(s, iova, paddr, size, prot, lvl, p, free).out, iova, size, lvl, p, free2);
      u.unmapped == size && WalkSlot(u.out, a, lvl, p) == 0
    decreases MAX_LEVELS - lvl, 0
  {
    var r := MapSlot(s, iova, paddr, size, prot, lvl, p, free);
    var t0, f0 := MapSlotDescends(s, iova, paddr, size, prot, lvl, p, free);
    var L := InstallLevel(size, NextLevel(lvl), p);
    ShiftLess(lvl, L, p.g);
    UnmapDown(r.out, iova, size, lvl, p, free2);
    UnmapTableAfterMap(t0.next, iova, paddr, size, prot, NextLevel(lvl), p, f0, free2, a);
  }

  /** `iommu_pgsize` picks a supported size itself when the address is
      aligned to it. */
  lemma PgSizeExact(pgsizes: set<nat>, iova: nat, size: nat, k: nat)
    requires BitmapOk(pgsizes) && k in pgsizes && size == Pow2(k) && iova % size == 0
    ensures PgSize(pgsizes, iova, size) == Some(size)
  {
    assert Fits(pgsizes, iova, size, k);
    var r := FitBelow(pgsizes, iova, size, 64);
    if r.value > k {
      Pow2Mono(k + 1, r.value);
    }
  }

  /** An unmap whose first piece is the whole range, and which the table
      unmaps in full, ends after that one piece. */
  lemma UnmapOnePiece(pt: Pgtable, iova: nat, size: nat)
    requires PgtableOk(pt) && iova + size <= Pow2(pt.ias) && size > 0
    requires size < SZ_2M || PgSize(pt.p.pgsizes, iova, size) == Some(size)
    ensures WalkLevel(Start(pt.p.g), pt.p) && LvlIdx(iova, Start(pt.p.g), pt.p.g) < |pt.pgd|
    ensures var u := UnmapTable(pt.pgd, iova, size, Start(pt.p.g), pt.p, pt.free);
      u.unmapped == size ==> Unmap(pt, iova, size) == After(size, pt.(pgd := u.out, free := u.free))
  {
    RootIdx(pt, iova);
    var u := UnmapTable(pt.pgd, iova, size, Start(pt.p.g), pt.p, pt.free);
    var pt2 := pt.(pgd := u.out, free := u.free);
    if u.unmapped == size {
      assert UnmapLoop(pt, iova, size, 0) == UnmapLoop(pt2, iova + size, size, size);
    }
  }

  /** An unmap of a range just mapped reports the whole range unmapped,
      and no address of it translates any more. */
  lemma UnmapAfterMap(pt: Pgtable, iova: nat, paddr: nat, size: nat, prot: Prot, a: nat)
    requires PgtableOk(pt) && iova + size <= Pow2(pt.ias) && size > 0
    requires (prot.read || prot.write) && Map(pt, iova, paddr, size, prot).ret == 0
    requires iova % size == 0
    ensures var pt1 := Map(pt, iova, paddr, size, prot).pt;
      Unmap(pt1, iova, size).ret == size
    ensures var pt1 := Map(pt, iova, paddr, size, prot).pt;
      iova <= a < iova + size ==> IovaToPhys(Unmap(pt1, iova, size).pt, a) == 0
  {
    var st := Start(pt.p.g);
    RootIdx(pt, iova);
    ProtToPteAttrs(pt.stage1, prot);
    var attrs := ProtToPte(pt.stage1, prot);
    var m := MapTable(pt.pgd, iova, paddr, size, attrs, st, pt.p, pt.free);
    var pt1 := Map(pt, iova, paddr, size, prot).pt;
    assert pt1 == pt.(pgd := m.out, free := m.free);
    var L := InstallLevel(size, st, pt.p);
    BlockSizeShift(L, pt.p.g);
    PgSizeExact(pt.p.pgsizes, iova, size, LvlShift(L, pt.p.g));
    UnmapTableAfterMap(pt.pgd, iova, paddr, size, attrs, st, pt.p, pt.free, pt1.free, iova);
    UnmapOnePiece(pt1, iova, size);
    if iova <= a < iova + size {
      InBlock(iova, a, size);
      RootIdx(pt, a);
      UnmapTableAfterMap(pt.pgd, iova, paddr, size, attrs, st, pt.p, pt.free, pt1.free, a);
    }
  }

  // ---------------------------------------------------------------------
  // Splitting a block

  /** The block around `iova` starts at a whole number of its blocks. */
  lemma BlockBaseMul(iova: nat, lvl: nat, p: Params) returns (y: nat)
    requires lvl < MAX_LEVELS
    ensures BlockBase(iova, lvl, p) == y * BlockSize(lvl, p.g)
  {
    var k := PTE_SIZE_SHIFT + (MAX_LEVELS - lvl) * p.g.bpl;
    y := Shr(iova, k);
    ShlIsMul(y, k);
  }

  /** The first sub-block of the block around `iova` starts at a multiple
      of the next level's block size. */
  lemma BlockBaseAligned(iova: nat, lvl: nat, p: Params)
    requires WalkLevel(lvl, p) && lvl < MAX_LEVELS - 1
    ensures BlockBase(iova, lvl, p) % BlockSize(NextLevel(lvl), p.g) == 0
  {
    var k := PTE_SIZE_SHIFT + (MAX_LEVELS - lvl) * p.g.bpl;
    var y := Shr(iova, k);
    ShlIsMul(y, k);
    BlockSizeStep(lvl, p.g);
    MultipleOfFactor(y, BlockSize(NextLevel(lvl), p.g), Pow2(p.g.bpl));
  }

  /** Every sub-block of a block aligned to `sz` starts aligned to `sz`. */
  lemma SubBlockAligned(base: nat, k: nat, sz: nat)
    requires sz > 0 && base % sz == 0
    ensures (base + k * sz) % sz == 0
  {
    var q := base / sz;
    assert base == sz * q;
    MulComm(k, sz);
    MulSplit(sz, q, k);
    ModUnique(base + k * sz, sz, q + k, 0);
  }

  /** The split loop never meets an address that is not the start of a
      sub-block: skipping it passes over no sub-block. */
  lemma SkipNeverMatches(n: nat, sz: nat, base: nat, iova: nat)
    requires sz > 0 && base % sz == 0 && iova % sz != 0
    ensures Visited(SubBlocks(n, sz), base, Some(iova)) == SubBlocks(n, sz)
  {
    var offs := SubBlocks(n, sz);
    forall k | 0 <= k < |offs|
      ensures Some(iova) != Some(base + offs[k])
    {
      SubBlockAligned(base, k, sz);
    }
  }

  /** The re-map of a split, skipping an address that is not the start of
      a next-level block, skips nothing. */
  lemma SplitSkipsNothing(s: Slot, iova: nat, lvl: nat, p: Params, free: nat)
    requires WalkLevel(lvl, p) && lvl < MAX_LEVELS - 1 && SlotOk(s, lvl, p) && IsLeaf(s.pte, lvl)
    requires iova % BlockSize(NextLevel(lvl), p.g) != 0
    ensures SplitRemap(s, iova, lvl, Some(iova), p, free) == SplitRemap(s, iova, lvl, None, p, free)
  {
    var base := BlockBase(iova, lvl, p);
    var sz := BlockSize(NextLevel(lvl), p.g);
    var all := SubBlocks(SubBlockCount(lvl, p), sz);
    BlockBaseAligned(iova, lvl, p);
    SkipNeverMatches(SubBlockCount(lvl, p), sz, base, iova);
    assert Visited(all, base, Some(iova)) == all == Visited(all, base, None);
  }

  /** `arm_lpae_split_blk_unmap` as written, for an address that does not
      start a next-level block: the entry ends up as the full re-mapping
      of the block that the corrected split builds, with no hole in it,
      yet a whole next-level block is reported unmapped. */
  lemma SplitRemapsAllAsWritten(s: Slot, iova: nat, lvl: nat, p: Params, free: nat)
    requires WalkLevel(lvl, p) && lvl < MAX_LEVELS - 1 && SlotOk(s, lvl, p) && IsLeaf(s.pte, lvl)
    requires iova % BlockSize(NextLevel(lvl), p.g) != 0
    ensures var w := SplitBlkUnmapAsWritten(s, iova, lvl, p, free);
            var c := SplitBlk(s, iova, lvl, p, free);
      c.status == 0 ==> w.out == c.out && w.unmapped == BlockSize(NextLevel(lvl), p.g)
    ensures var w := SplitBlkUnmapAsWritten(s, iova, lvl, p, free);
            var c := SplitBlk(s, iova, lvl, p, free);
      c.status != 0 ==> w.out == s && w.unmapped == 0
  {
    SplitSkipsNothing(s, iova, lvl, p, free);
  }

  /** The corrected unmap never reports more than it was asked for; as
      written, a split reports a whole next-level block for any smaller
      request. */
  lemma SplitOverreportsAsWritten(s: Slot, iova: nat, size: nat, lvl: nat, p: Params, free: nat)
    requires WalkLevel(lvl, p) && lvl < MAX_LEVELS - 1 && SlotOk(s, lvl, p) && IsLeaf(s.pte, lvl)
    requires size < BlockSize(NextLevel(lvl), p.g)
    ensures UnmapSlot(s, iova, size, lvl, p, free).unmapped <= size
    ensures SplitBlkUnmapAsWritten(s, iova, lvl, p, free).unmapped != 0 ==>
            SplitBlkUnmapAsWritten(s, iova, lvl, p, free).unmapped > size
  {
  }
}
