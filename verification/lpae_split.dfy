/** Unmapping one page out of a block: the block is split into a table of
    pages with the block's attributes and output addresses, and then the
    one page is cleared.  Every other address of the block translates as
    before, and the page no longer translates. */
module LpaeSplit {
  import opened Wrappers
  import opened Arith
  import opened Bits
  import opened LpaePte
  import opened LpaeGeometry
  import opened LpaeTable
  import opened LpaeProps

  // ---------------------------------------------------------------------
  // The split, one sub-block at a time

  /** The first input address of sub-block `j` of the block around
      `iova` at level `lvl`. */
  function SubStart(iova: nat, j: nat, lvl: nat, p: Params): nat
    requires lvl < MAX_LEVELS - 1
  {
    MulNonneg(j, BlockSize(NextLevel(lvl), p.g));
    BlockBase(iova, lvl, p) + j * BlockSize(NextLevel(lvl), p.g)
  }

  /** The output address the split gives sub-block `j` of the block `s`. */
  function SubOutput(s: Slot, j: nat, lvl: nat, p: Params): nat
    requires lvl < MAX_LEVELS - 1
  {
    MulNonneg(j, BlockSize(NextLevel(lvl), p.g));
    OutputAddress(s.pte, p.g.pgShift) + j * BlockSize(NextLevel(lvl), p.g)
  }

  /** The descriptor the split writes for sub-block `j` of the block `s`
      at level `lvl`: a leaf one level down with the block's attributes,
      at the sub-block's output address. */
  function SubLeaf(s: Slot, j: nat, lvl: nat, p: Params): (pte: nat)
    requires WalkLevel(lvl, p) && lvl < MAX_LEVELS - 1
    ensures pte != 0 && IsLeaf(pte, NextLevel(lvl))
    ensures OutputAddress(pte, p.g.pgShift) == OutputAddress(SubOutput(s, j, lvl, p), p.g.pgShift)
  {
    BitZero(PTE_VALID_BIT);
    ProtAttrOnly(s.pte);
    InitPte(0, PteProt(s.pte), p.ns, NextLevel(lvl), SubOutput(s, j, lvl, p), p.g.pgShift).value
  }

  /** A table descriptor counting `j` leaves over a table that holds the
      first `j` sub-block leaves of `s`, the rest still zero. */
  ghost predicate FirstLeaves(t: Slot, j: nat, s: Slot, lvl: nat, p: Params)
    requires WalkLevel(lvl, p) && lvl < MAX_LEVELS - 1
  {
    IsTable(t.pte, lvl) && Tblcnt(t.pte) == j && |t.next| == Pow2(p.g.bpl)
    && forall k :: 0 <= k < |t.next| ==> t.next[k] == if k < j then Slot(SubLeaf(s, k, lvl, p), []) else EMPTY
  }

  /** The split after its first `j` sub-blocks: nothing yet for `j == 0`,
      then the table of the first `j` leaves. */
  ghost predicate SplitSoFar(t: Slot, j: nat, s: Slot, lvl: nat, p: Params)
    requires WalkLevel(lvl, p) && lvl < MAX_LEVELS - 1
  {
    if j == 0 then t == EMPTY else FirstLeaves(t, j, s, lvl, p)
  }

  /** Adding leaf `j` to the table of the first `j` leaves. */
  lemma AddLeaf(t: Slot, j: nat, s: Slot, lvl: nat, p: Params)
    requires WalkLevel(lvl, p) && lvl < MAX_LEVELS - 1 && FirstLeaves(t, j, s, lvl, p) && j < Pow2(p.g.bpl)
    ensures FirstLeaves(Slot(TblcntAdd(t.pte, 1), t.next[j := Slot(SubLeaf(s, j, lvl, p), [])]), j + 1, s, lvl, p)
  {
    var pte := TblcntAdd(t.pte, 1);
    var next := t.next[j := Slot(SubLeaf(s, j, lvl, p), [])];
    assert IsTable(pte, lvl) by {
      assert Bit(pte, 0) == Bit(t.pte, 0) && Bit(pte, 1) == Bit(t.pte, 1);
    }
    assert Tblcnt(pte) == j + 1 by {
      CountRoom(p);
      ModSmall(j + 1, TBLCNT_LIMIT);
    }
    forall k | 0 <= k < |next|
      ensures next[k] == if k < j + 1 then Slot(SubLeaf(s, k, lvl, p), []) else EMPTY
    {
      if k != j {
        assert next[k] == t.next[k];
      }
    }
  }

  /** The table the first round of the split allocates holds no leaf yet. */
  lemma NoLeavesYet(s: Slot, lvl: nat, p: Params)
    requires WalkLevel(lvl, p) && lvl < MAX_LEVELS - 1
    ensures FirstLeaves(Slot(TablePte(p.ns), EmptyTable(Pow2(p.g.bpl))), 0, s, lvl, p)
  {
  }

  lemma SplitSoFarOk(t: Slot, j: nat, s: Slot, lvl: nat, p: Params)
    requires WalkLevel(lvl, p) && lvl < MAX_LEVELS - 1 && SplitSoFar(t, j, s, lvl, p)
    ensures SlotOk(t, lvl, p)
  {
    if j > 0 {
      BitZero(0);
      assert t.pte != 0 && !IsLeaf(t.pte, lvl);
      forall k | 0 <= k < |t.next|
        ensures SlotOk(t.next[k], NextLevel(lvl), p)
      {
      }
    }
  }

  /** In a multiple of `sz * m`, the `j`-th multiple of `sz` on is
      number `j` of the `m`. */
  lemma SlotOfMultiple(x: nat, y: nat, j: nat, sz: nat, m: nat, b: nat)
    requires sz > 0 && j < m && b == sz * m && x == y * b + j * sz
    ensures x / sz % m == j
  {
    var q := y * m + j;
    assert x == sz * q by {
      MulAssoc(y, sz, m);
      MulComm(y, sz);
      MulAssoc(sz, y, m);
      MulComm(j, sz);
      MulSplit(sz, y * m, j);
    }
    ModUnique(x, sz, q, 0);
    MulComm(y, m);
    ModUnique(q, m, y, j);
  }

  /** Sub-block `j` of the block around `iova` has index `j` in the next
      level's table. */
  lemma SubBlockIdx(iova: nat, j: nat, lvl: nat, p: Params)
    requires WalkLevel(lvl, p) && lvl < MAX_LEVELS - 1 && j < Pow2(p.g.bpl)
    ensures LvlIdx(SubStart(iova, j, lvl, p), NextLevel(lvl), p.g) == j
  {
    var sz, m, b := BlockSize(NextLevel(lvl), p.g), Pow2(p.g.bpl), BlockSize(lvl, p.g);
    var y := BlockBaseMul(iova, lvl, p);
    BlockSizeStep(lvl, p.g);
    var x := SubStart(iova, j, lvl, p);
    BlockSizeShift(NextLevel(lvl), p.g);
    assert IdxBits(NextLevel(lvl), p.g) == p.g.bpl;
    SlotOfMultiple(x, y, j, sz, m, b);
  }

  /** The count a table can hold covers every sub-block. */
  lemma CountRoom(p: Params)
    requires Shaped(p.g)
    ensures 2 <= Pow2(p.g.bpl) < TBLCNT_LIMIT
  {
    Powers();
    Pow2Mono(p.g.bpl + 1, TBLCNT_BITS);
    Pow2Mono(1, p.g.bpl);
  }

  /** `iopte_prot` keeps attribute bits only. */
  lemma ProtAttrOnly(pte: nat)
    ensures AttrOnly(PteProt(pte))
  {
  }

  /** A well-formed table descriptor holds a full table. */
  lemma TableNext(t: Slot, lvl: nat, p: Params)
    requires lvl < MAX_LEVELS && SlotOk(t, lvl, p) && IsTable(t.pte, lvl)
    ensures t.pte != 0 && !IsLeaf(t.pte, lvl)
    ensures |t.next| == Pow2(p.g.bpl) && TableOk(t.next, NextLevel(lvl), p)
  {
    BitZero(0);
  }

  /** A leaf mapped into a zero entry where its size is a block. */
  lemma LeafIntoEmpty(x: nat, pa: nat, sz: nat, prot: nat, l: nat, p: Params, f: nat)
    requires WalkLevel(l, p) && AttrOnly(prot) && Installs(sz, l, p)
    ensures InitPte(0, prot, p.ns, l, pa, p.g.pgShift).Ok?
    ensures MapSlot(EMPTY, x, pa, sz, prot, l, p, f)
         == MapOut(0, Slot(InitPte(0, prot, p.ns, l, pa, p.g.pgShift).value, []), true, f)
  {
    BitZero(PTE_VALID_BIT);
    assert MapBranchOf(0, sz, l, p) == InstallLeaf;
  }

  /** A leaf mapped through a table descriptor whose entry for `x` is
      still zero lands in that entry, and the descriptor counts it. */
  lemma LeafIntoTable(t0: Slot, x: nat, pa: nat, prot: nat, lvl: nat, p: Params, f0: nat)
    requires WalkLevel(lvl, p) && lvl < MAX_LEVELS - 1 && AttrOnly(prot)
    requires Installs(BlockSize(NextLevel(lvl), p.g), NextLevel(lvl), p)
    requires SlotOk(t0, lvl, p) && IsTable(t0.pte, lvl)
    requires LvlIdx(x, NextLevel(lvl), p.g) < |t0.next| && t0.next[LvlIdx(x, NextLevel(lvl), p.g)] == EMPTY
    ensures InitPte(0, prot, p.ns, NextLevel(lvl), pa, p.g.pgShift).Ok?
    ensures MapInto(t0, x, pa, BlockSize(NextLevel(lvl), p.g), prot, lvl, p, f0)
         == MapOut(0, Slot(TblcntAdd(t0.pte, 1),
                           t0.next[LvlIdx(x, NextLevel(lvl), p.g) := Slot(InitPte(0, prot, p.ns, NextLevel(lvl), pa, p.g.pgShift).value, [])]),
                   false, f0)
  {
    var sz := BlockSize(NextLevel(lvl), p.g);
    TableNext(t0, lvl, p);
    LeafIntoEmpty(x, pa, sz, prot, NextLevel(lvl), p, f0);
  }

  /** One round of the split loop: map sub-block `j` into the table built
      so far (allocating it for the first sub-block). */
  lemma SplitStep(t: Slot, j: nat, s: Slot, iova: nat, x: nat, pa: nat, lvl: nat, p: Params, f: nat)
      returns (m: MapOut<Slot>)
    requires WalkLevel(lvl, p) && lvl < MAX_LEVELS - 1 && SlotOk(s, lvl, p) && IsLeaf(s.pte, lvl)
    requires x == SubStart(iova, j, lvl, p) && pa == SubOutput(s, j, lvl, p)
    requires Installs(BlockSize(NextLevel(lvl), p.g), NextLevel(lvl), p)
    requires SplitSoFar(t, j, s, lvl, p) && j < Pow2(p.g.bpl) && (j == 0 ==> f > 0)
    ensures SlotOk(t, lvl, p) && AttrOnly(PteProt(s.pte))
    ensures m == MapSlot(t, x, pa, BlockSize(NextLevel(lvl), p.g), PteProt(s.pte), lvl, p, f)
    ensures m.status == 0 && SplitSoFar(m.out, j + 1, s, lvl, p) && m.free == (if j == 0 then f - 1 else f)
  {
    SplitSoFarOk(t, j, s, lvl, p);
    ProtAttrOnly(s.pte);
    var sz := BlockSize(NextLevel(lvl), p.g);
    var prot := PteProt(s.pte);
    SubBlockIdx(iova, j, lvl, p);
    ShiftLess(lvl, NextLevel(lvl), p.g);
    BitZero(0);
    var t0, f0 := MapSlotDescends(t, x, pa, sz, prot, lvl, p, f);
    if j == 0 {
      NoLeavesYet(s, lvl, p);
    }
    assert FirstLeaves(t0, j, s, lvl, p);
    LeafIntoTable(t0, x, pa, prot, lvl, p, f0);
    AddLeaf(t0, j, s, lvl, p);
    m := MapSlot(t, x, pa, sz, prot, lvl, p, f);
  }

  /** One round of the split loop that succeeds goes on with the rest. */
  lemma SplitOverFirst(table: Slot, offs: seq<nat>, base: nat, paddr: nat, sz: nat, prot: nat, lvl: nat, p: Params, free: nat,
                       m: MapOut<Slot>)
    requires WalkLevel(lvl, p) && AttrOnly(prot) && SlotOk(table, lvl, p) && offs != []
    requires m == MapSlot(table, Offset(base, offs[0]), Offset(paddr, offs[0]), sz, prot, lvl, p, free) && m.status >= 0
    ensures SplitOver(table, offs, base, paddr, sz, prot, lvl, p, free) == SplitOver(m.out, offs[1..], base, paddr, sz, prot, lvl, p, m.free)
  {
  }

  /** The first of the rounds of the split loop still to come, from
      sub-block `j` on: it succeeds, adds leaf `j`, and the loop goes on
      with the remaining offsets. */
  lemma SplitOnce(t: Slot, j: nat, offs: seq<nat>, s: Slot, iova: nat, lvl: nat, p: Params, f: nat)
      returns (m: MapOut<Slot>, j1: nat)
    requires WalkLevel(lvl, p) && lvl < MAX_LEVELS - 1 && SlotOk(s, lvl, p) && IsLeaf(s.pte, lvl)
    requires Installs(BlockSize(NextLevel(lvl), p.g), NextLevel(lvl), p)
    requires SplitSoFar(t, j, s, lvl, p) && j < Pow2(p.g.bpl) && (j == 0 ==> f > 0)
    requires offs != [] && offs[0] == j * BlockSize(NextLevel(lvl), p.g)
    ensures SlotOk(t, lvl, p) && AttrOnly(PteProt(s.pte)) && SlotOk(m.out, lvl, p)
    ensures j1 == j + 1 && m.status == 0 && SplitSoFar(m.out, j1, s, lvl, p) && m.free == (if j == 0 then f - 1 else f)
    ensures var base, pa, sz := BlockBase(iova, lvl, p), OutputAddress(s.pte, p.g.pgShift), BlockSize(NextLevel(lvl), p.g);
      SplitOver(t, offs, base, pa, sz, PteProt(s.pte), lvl, p, f) == SplitOver(m.out, offs[1..], base, pa, sz, PteProt(s.pte), lvl, p, m.free)
  {
    SplitSoFarOk(t, j, s, lvl, p);
    ProtAttrOnly(s.pte);
    var base, pa := BlockBase(iova, lvl, p), OutputAddress(s.pte, p.g.pgShift);
    var x, y := Offset(base, offs[0]), Offset(pa, offs[0]);
    assert x == SubStart(iova, j, lvl, p) && y == SubOutput(s, j, lvl, p);
    m := SplitStep(t, j, s, iova, x, y, lvl, p, f);
    j1 := j + 1;
    SplitOverFirst(t, offs, base, pa, BlockSize(NextLevel(lvl), p.g), PteProt(s.pte), lvl, p, f, m);
  }

  /** The rounds of the split loop from sub-block `j` on, over the offsets
      `offs` still to visit, map every remaining sub-block, and the loop
      ends with the table of all of them, having allocated that table
      once. */
  lemma {:induction false} SplitFrom(t: Slot, j: nat, offs: seq<nat>, s: Slot, iova: nat, lvl: nat, p: Params, f: nat)
    requires WalkLevel(lvl, p) && lvl < MAX_LEVELS - 1 && SlotOk(s, lvl, p) && IsLeaf(s.pte, lvl)
    requires Installs(BlockSize(NextLevel(lvl), p.g), NextLevel(lvl), p)
    requires SplitSoFar(t, j, s, lvl, p) && j <= Pow2(p.g.bpl) && (j == 0 ==> f > 0)
    requires offs == SubBlocks(Pow2(p.g.bpl), BlockSize(NextLevel(lvl), p.g))[j..]
    ensures SlotOk(t, lvl, p) && AttrOnly(PteProt(s.pte))
    ensures var r := SplitOver(t, offs, BlockBase(iova, lvl, p), OutputAddress(s.pte, p.g.pgShift),
                               BlockSize(NextLevel(lvl), p.g), PteProt(s.pte), lvl, p, f);
      r.status == 0 && FirstLeaves(r.out, Pow2(p.g.bpl), s, lvl, p) && r.free == (if j == 0 then f - 1 else f)
    decreases |offs|
  {
    SplitSoFarOk(t, j, s, lvl, p);
    ProtAttrOnly(s.pte);
    CountRoom(p);
    if j < Pow2(p.g.bpl) {
      assert offs[0] == j * BlockSize(NextLevel(lvl), p.g);
      var m, j1 := SplitOnce(t, j, offs, s, iova, lvl, p, f);
      assert offs[1..] == SubBlocks(Pow2(p.g.bpl), BlockSize(NextLevel(lvl), p.g))[j1..];
      SplitFrom(m.out, j1, offs[1..], s, iova, lvl, p, m.free);
    }
  }

  /** The corrected split of a block maps every one of its sub-blocks into
      one new table: the table of all the leaves, one page spent. */
  lemma SplitBlkAll(s: Slot, iova: nat, lvl: nat, p: Params, f: nat)
    requires WalkLevel(lvl, p) && lvl < MAX_LEVELS - 1 && SlotOk(s, lvl, p) && IsLeaf(s.pte, lvl)
    requires Installs(BlockSize(NextLevel(lvl), p.g), NextLevel(lvl), p) && f > 0
    ensures var r := SplitBlk(s, iova, lvl, p, f);
      r.status == 0 && FirstLeaves(r.out, Pow2(p.g.bpl), s, lvl, p) && r.free == f - 1
  {
    var offs := SubBlocks(SubBlockCount(lvl, p), BlockSize(NextLevel(lvl), p.g));
    assert Visited(offs, BlockBase(iova, lvl, p), None) == offs;
    assert offs[0..] == offs;
    SplitFrom(EMPTY, 0, offs, s, iova, lvl, p, f);
  }

  // ---------------------------------------------------------------------
  // Translation through the split table

  /** An output address aligned to 2^k, for k at least the granule, is
      its own output address field. */
  lemma OutputAligned(paddr: nat, k: nat, pgShift: nat)
    requires pgShift <= k && paddr % Pow2(k) == 0 && paddr < ADDR_LIMIT
    ensures OutputAddress(paddr, pgShift) == paddr
  {
    HighPowers();
    forall i: nat
      ensures Bit(OutputAddress(paddr, pgShift), i) == Bit(paddr, i)
    {
      if i < pgShift { LowBitsClear(paddr, k, i); }
      if MAX_ADDR_BITS <= i { BitsBelow(paddr, MAX_ADDR_BITS, i); }
    }
    BitsEqual(OutputAddress(paddr, pgShift), paddr);
  }

  /** The sizes at the second-to-last level: a page is the next level's
      block, 2^bpl of them make this level's block, and that block divides
      the 2^48 output addresses. */
  lemma LastSizes(lvl: nat, p: Params)
    requires WalkLevel(lvl, p) && lvl == MAX_LEVELS - 2
    ensures LvlShift(NextLevel(lvl), p.g) == p.g.pgShift && LvlShift(lvl, p.g) == p.g.pgShift + p.g.bpl
    ensures BlockSize(NextLevel(lvl), p.g) == Pow2(p.g.pgShift) == Pow2(LvlShift(NextLevel(lvl), p.g))
    ensures BlockSize(lvl, p.g) == Pow2(LvlShift(lvl, p.g)) == BlockSize(NextLevel(lvl), p.g) * Pow2(p.g.bpl)
    ensures IdxBits(NextLevel(lvl), p.g) == p.g.bpl && p.g.pgShift < LvlShift(lvl, p.g) <= MAX_ADDR_BITS
    ensures ADDR_LIMIT % BlockSize(lvl, p.g) == 0
  {
    BlockSizeShift(lvl, p.g);
    BlockSizeShift(NextLevel(lvl), p.g);
    BlockSizeStep(lvl, p.g);
    var k := LvlShift(lvl, p.g);
    HighPowers();
    Pow2Add(k, MAX_ADDR_BITS - k);
    MultipleMod(Pow2(k), Pow2(MAX_ADDR_BITS - k));
  }

  /** The arithmetic of a sub-block: in a block of `sz * n` bytes aligned
      in `limit`, sub-block `k` of `x` starts aligned, below `limit`, and
      at the offset of `x` in the block minus its offset in the sub-block. */
  lemma SubBlockArith(pa: nat, k: nat, sz: nat, n: nat, x: nat, limit: nat)
    requires sz > 0 && n > 0 && pa % (sz * n) == 0 && limit % (sz * n) == 0 && pa < limit
    requires k == x / sz % n
    ensures (pa + k * sz) % sz == 0 && pa + k * sz < limit
    ensures pa + k * sz + x % sz == pa + x % (sz * n)
  {
    var B := sz * n;
    assert pa % sz == 0 by {
      assert pa == (pa / B) * (sz * n);
      MultipleOfFactor(pa / B, sz, n);
    }
    SubBlockAligned(pa, k, sz);
    MultipleRoom(pa, B, limit);
    MulMono(sz, k, n - 1);
    MulSplit(sz, n - 1, 1);
    MulComm(k, sz);
    ModSplit(x, sz, n);
  }

  /** The translation arithmetic of a sub-block: the sub-block's output
      address `q` with the offset of `x` in its 2^ls1 bytes is the output
      address of the block's descriptor `pte` with the offset of `x` in its
      2^ls0 bytes. The masks are parameters so that a caller can pass the
      very terms of its own statement. */
  lemma SubTranslation(pte: nat, q: nat, k: nat, x: nat, sz: nat, n: nat, ls0: nat, ls1: nat, pgShift: nat,
                        m0: nat, m1: nat)
    requires pgShift <= ls1 <= ls0 && sz == Pow2(ls1) && sz * n == Pow2(ls0) && n > 0
    requires OutputAddress(pte, pgShift) % (sz * n) == 0 && ADDR_LIMIT % (sz * n) == 0
    requires k == x / sz % n && q == OutputAddress(pte, pgShift) + k * sz
    requires m1 == Pow2(ls1) - 1 && m0 == Pow2(ls0) - 1
    ensures Or(OutputAddress(q, pgShift), And(x, m1)) == Or(OutputAddress(pte, pgShift), And(x, m0))
  {
    var pa := OutputAddress(pte, pgShift);
    assert OutputAddress(pa, pgShift) == pa by {
      OutputAligned(pa, ls0, pgShift);
    }
    SubBlockArith(pa, k, sz, n, x, ADDR_LIMIT);
    assert q % Pow2(ls1) == 0 && q < ADDR_LIMIT;
    LeafAddress(q, x, ls1, pgShift);
    assert pa % Pow2(ls0) == 0;
    LeafAddress(pa, x, ls0, pgShift);
    assert q + x % Pow2(ls1) == pa + x % Pow2(ls0);
  }

  /** The numbers of the sub-block reached for `x`, named, with the facts
      `SubTranslation` needs of them. */
  lemma SubNumbers(s: Slot, lvl: nat, p: Params, x: nat)
      returns (k: nat, q: nat, sz: nat, n: nat, ls0: nat, ls1: nat, m0: nat, m1: nat)
    requires WalkLevel(lvl, p) && lvl == MAX_LEVELS - 2
    requires OutputAddress(s.pte, p.g.pgShift) % BlockSize(lvl, p.g) == 0
    ensures k == LvlIdx(x, NextLevel(lvl), p.g) && q == SubOutput(s, k, lvl, p)
    ensures m0 == Pow2(LvlShift(lvl, p.g)) - 1 && m1 == Pow2(LvlShift(NextLevel(lvl), p.g)) - 1
    ensures p.g.pgShift <= ls1 <= ls0 && sz == Pow2(ls1) && sz * n == Pow2(ls0) && n > 0
    ensures OutputAddress(s.pte, p.g.pgShift) % (sz * n) == 0 && ADDR_LIMIT % (sz * n) == 0
    ensures k == x / sz % n && q == OutputAddress(s.pte, p.g.pgShift) + k * sz
    ensures m1 == Pow2(ls1) - 1 && m0 == Pow2(ls0) - 1
  {
    LastSizes(lvl, p);
    k := LvlIdx(x, NextLevel(lvl), p.g);
    q := SubOutput(s, k, lvl, p);
    SubOutputIs(s, k, lvl, p);
    sz, n := BlockSize(NextLevel(lvl), p.g), Pow2(p.g.bpl);
    ls0, ls1 := LvlShift(lvl, p.g), LvlShift(NextLevel(lvl), p.g);
    m0, m1 := Pow2(ls0) - 1, Pow2(ls1) - 1;
  }

  /** The output address of the sub-block reached for `x`, with the
      offset bits below the next level, is the translation the block gave. */
  lemma SubLeafTranslates(s: Slot, lvl: nat, p: Params, x: nat)
    requires WalkLevel(lvl, p) && lvl == MAX_LEVELS - 2
    requires OutputAddress(s.pte, p.g.pgShift) % BlockSize(lvl, p.g) == 0
    ensures var q := SubOutput(s, LvlIdx(x, NextLevel(lvl), p.g), lvl, p);
      Or(OutputAddress(q, p.g.pgShift), And(x, Pow2(LvlShift(NextLevel(lvl), p.g)) - 1))
      == Or(OutputAddress(s.pte, p.g.pgShift), And(x, Pow2(LvlShift(lvl, p.g)) - 1))
  {
    var k, q, sz, n, ls0, ls1, m0, m1 := SubNumbers(s, lvl, p, x);
    SubTranslation(s.pte, q, k, x, sz, n, ls0, ls1, p.g.pgShift, m0, m1);
  }

  lemma SubOutputIs(s: Slot, j: nat, lvl: nat, p: Params)
    requires lvl < MAX_LEVELS - 1
    ensures SubOutput(s, j, lvl, p) == OutputAddress(s.pte, p.g.pgShift) + j * BlockSize(NextLevel(lvl), p.g)
  {
  }

  /** Two leaves that give `x` the same translation walk it alike. */
  lemma LeavesAgree(e: Slot, l1: nat, s: Slot, l0: nat, x: nat, p: Params)
    requires WalkLevel(l1, p) && SlotOk(e, l1, p) && e.pte != 0 && IsLeaf(e.pte, l1)
    requires WalkLevel(l0, p) && SlotOk(s, l0, p) && s.pte != 0 && IsLeaf(s.pte, l0)
    requires Or(OutputAddress(e.pte, p.g.pgShift), And(x, Pow2(LvlShift(l1, p.g)) - 1))
             == Or(OutputAddress(s.pte, p.g.pgShift), And(x, Pow2(LvlShift(l0, p.g)) - 1))
    ensures WalkSlot(e, x, l1, p) == WalkSlot(s, x, l0, p)
  {
    LeafWalk(e, x, l1, p);
    LeafWalk(s, x, l0, p);
  }

  /** A leaf one level down with the output address of the sub-block for
      `x` translates `x` as the block did. */
  lemma LeafEntryTranslates(e: Slot, s: Slot, lvl: nat, p: Params, x: nat)
    requires WalkLevel(lvl, p) && lvl == MAX_LEVELS - 2 && SlotOk(s, lvl, p) && IsLeaf(s.pte, lvl) && s.pte != 0
    requires OutputAddress(s.pte, p.g.pgShift) % BlockSize(lvl, p.g) == 0
    requires SlotOk(e, NextLevel(lvl), p) && e.pte != 0 && IsLeaf(e.pte, NextLevel(lvl))
    requires OutputAddress(e.pte, p.g.pgShift)
             == OutputAddress(SubOutput(s, LvlIdx(x, NextLevel(lvl), p.g), lvl, p), p.g.pgShift)
    ensures WalkSlot(e, x, NextLevel(lvl), p) == WalkSlot(s, x, lvl, p)
  {
    var q := SubOutput(s, LvlIdx(x, NextLevel(lvl), p.g), lvl, p);
    LeafWalkTo(e, x, NextLevel(lvl), p, q);
    SubLeafTranslates(s, lvl, p, x);
    LeafWalk(s, x, lvl, p);
  }

  /** A table at the second-to-last level whose entry for `x` is the
      split's leaf for it translates `x` as the block did. */
  lemma SplitEntryTranslates(t: Slot, s: Slot, lvl: nat, p: Params, x: nat)
    requires WalkLevel(lvl, p) && lvl == MAX_LEVELS - 2 && SlotOk(t, lvl, p) && IsTable(t.pte, lvl)
    requires SlotOk(s, lvl, p) && IsLeaf(s.pte, lvl)
    requires OutputAddress(s.pte, p.g.pgShift) % BlockSize(lvl, p.g) == 0
    requires LvlIdx(x, NextLevel(lvl), p.g) < |t.next|
    requires t.next[LvlIdx(x, NextLevel(lvl), p.g)] == Slot(SubLeaf(s, LvlIdx(x, NextLevel(lvl), p.g), lvl, p), [])
    ensures WalkSlot(t, x, lvl, p) == WalkSlot(s, x, lvl, p)
  {
    var k := LvlIdx(x, NextLevel(lvl), p.g);
    TableNext(t, lvl, p);
    assert WalkSlot(t, x, lvl, p) == WalkSlot(t.next[k], x, NextLevel(lvl), p);
    assert s.pte != 0 by {
      BitZero(0);
    }
    LeafEntryTranslates(t.next[k], s, lvl, p, x);
  }

  // ---------------------------------------------------------------------
  // Unmapping one page of a block

  /** Within one block of the second-to-last level, two addresses select
      the same page descriptor exactly when they lie in the same page. */
  lemma SamePageIdx(x: nat, iova: nat, lvl: nat, p: Params)
    requires WalkLevel(lvl, p) && lvl == MAX_LEVELS - 2
    requires x / BlockSize(lvl, p.g) == iova / BlockSize(lvl, p.g)
    ensures LvlIdx(x, NextLevel(lvl), p.g) == LvlIdx(iova, NextLevel(lvl), p.g) <==>
      x / Pow2(p.g.pgShift) == iova / Pow2(p.g.pgShift)
  {
    LastSizes(lvl, p);
    var a, b := Pow2(p.g.pgShift), Pow2(p.g.bpl);
    DivSplit(x, a, b);
    DivSplit(iova, a, b);
  }

  /** Clearing one page descriptor of a full table of pages leaves a table
      with that descriptor zero and every other one as it was. */
  lemma SweepOne(t: Slot, tl: nat, s: Slot, lvl: nat, p: Params)
    requires WalkLevel(lvl, p) && lvl == MAX_LEVELS - 2 && SlotOk(t, lvl, p)
    requires FirstLeaves(t, Pow2(p.g.bpl), s, lvl, p) && tl < Pow2(p.g.bpl)
    ensures var r := Swept(t, tl, 1, lvl, p);
      r != EMPTY && IsTable(r.pte, lvl) && |r.next| == |t.next| &&
      forall j :: 0 <= j < |t.next| ==> r.next[j] == if j == tl then EMPTY else t.next[j]
  {
    CountRoom(p);
    ModSmall(Pow2(p.g.bpl) - 1, TBLCNT_LIMIT);
    assert Tblcnt(TblcntSub(t.pte, 1)) != 0;
  }

  /** A page is smaller than the block at the second-to-last level. */
  lemma PageBelowBlock(lvl: nat, p: Params)
    requires WalkLevel(lvl, p) && lvl == MAX_LEVELS - 2
    ensures Pow2(p.g.pgShift) < BlockSize(lvl, p.g)
  {
    LastSizes(lvl, p);
    CountRoom(p);
    var pg, n := Pow2(p.g.pgShift), Pow2(p.g.bpl);
    MulSplit(pg, 1, n - 1);
    MulAtLeast(pg, n - 1);
  }

  /** The walk of `x` through the table left by clearing the page of
      `iova`: zero in that page, and the block's translation elsewhere in
      the block. */
  lemma SweptWalk(r: Slot, t: Slot, s: Slot, iova: nat, lvl: nat, p: Params, x: nat)
    requires WalkLevel(lvl, p) && lvl == MAX_LEVELS - 2 && SlotOk(r, lvl, p) && IsTable(r.pte, lvl)
    requires SlotOk(s, lvl, p) && IsLeaf(s.pte, lvl) && FirstLeaves(t, Pow2(p.g.bpl), s, lvl, p)
    requires OutputAddress(s.pte, p.g.pgShift) % BlockSize(lvl, p.g) == 0
    requires x / BlockSize(lvl, p.g) == iova / BlockSize(lvl, p.g)
    requires |r.next| == |t.next| &&
      forall j :: 0 <= j < |t.next| ==> r.next[j] == if j == LvlIdx(iova, NextLevel(lvl), p.g) then EMPTY else t.next[j]
    ensures WalkSlot(r, x, lvl, p) == if x / Pow2(p.g.pgShift) == iova / Pow2(p.g.pgShift) then 0 else WalkSlot(s, x, lvl, p)
  {
    var k := LvlIdx(x, NextLevel(lvl), p.g);
    SamePageIdx(x, iova, lvl, p);
    if k != LvlIdx(iova, NextLevel(lvl), p.g) {
      SweptOther(r, t, s, iova, lvl, p, x);
    } else {
      TableNext(r, lvl, p);
      TableWalk(r, x, lvl, p);
      assert r.next[k] == EMPTY;
      assert Walk(r.next, x, NextLevel(lvl), p) == WalkSlot(r.next[k], x, NextLevel(lvl), p);
    }
  }

  /** The above away from the cleared page: the split's leaf translates
      as the block did. */
  lemma SweptOther(r: Slot, t: Slot, s: Slot, iova: nat, lvl: nat, p: Params, x: nat)
    requires WalkLevel(lvl, p) && lvl == MAX_LEVELS - 2 && SlotOk(r, lvl, p) && IsTable(r.pte, lvl)
    requires SlotOk(s, lvl, p) && IsLeaf(s.pte, lvl) && FirstLeaves(t, Pow2(p.g.bpl), s, lvl, p)
    requires OutputAddress(s.pte, p.g.pgShift) % BlockSize(lvl, p.g) == 0
    requires LvlIdx(x, NextLevel(lvl), p.g) != LvlIdx(iova, NextLevel(lvl), p.g)
    requires |r.next| == |t.next| &&
      forall j :: 0 <= j < |t.next| ==> r.next[j] == if j == LvlIdx(iova, NextLevel(lvl), p.g) then EMPTY else t.next[j]
    ensures WalkSlot(r, x, lvl, p) == WalkSlot(s, x, lvl, p)
  {
    var k := LvlIdx(x, NextLevel(lvl), p.g);
    TableNext(r, lvl, p);
    assert t.next[k] == Slot(SubLeaf(s, k, lvl, p), []);
    assert r.next[k] == t.next[k];
    SplitEntryTranslates(r, s, lvl, p, x);
  }

  /** Unmapping the page at `iova` from the table a split left behind
      reports one page, zeroes the walk in that page and keeps it
      elsewhere in the block. */
  lemma UnmapPageInSplit(t: Slot, s: Slot, iova: nat, lvl: nat, p: Params, f: nat, x: nat)
    requires WalkLevel(lvl, p) && lvl == MAX_LEVELS - 2 && SlotOk(t, lvl, p)
    requires SlotOk(s, lvl, p) && IsLeaf(s.pte, lvl) && FirstLeaves(t, Pow2(p.g.bpl), s, lvl, p)
    requires OutputAddress(s.pte, p.g.pgShift) % BlockSize(lvl, p.g) == 0
    requires x / BlockSize(lvl, p.g) == iova / BlockSize(lvl, p.g)
    ensures var u := UnmapSlot(t, iova, Pow2(p.g.pgShift), lvl, p, f);
      u.unmapped == Pow2(p.g.pgShift) && u.free == f &&
      WalkSlot(u.out, x, lvl, p) == if x / Pow2(p.g.pgShift) == iova / Pow2(p.g.pgShift) then 0 else WalkSlot(s, x, lvl, p)
  {
    var pg := Pow2(p.g.pgShift);
    var tl := LvlIdx(iova, NextLevel(lvl), p.g);
    var r := Swept(t, tl, 1, lvl, p);
    assert UnmapSlot(t, iova, pg, lvl, p, f) == UnmapOut(pg, r, f) by {
      PageBelowBlock(lvl, p);
      TableNext(t, lvl, p);
      assert UnmapSlot(t, iova, pg, lvl, p, f) == ClearPages(t, iova, pg, lvl, p, f);
      assert SweepCount(iova, pg, lvl, p) == 1;
    }
    SweepOne(t, tl, s, lvl, p);
    SweptWalk(r, t, s, iova, lvl, p, x);
  }

  /** `arm_lpae_unmap` of one page inside a block at the second-to-last
      level, with a page to spare for the new table: the block is split
      into pages, the call reports one page unmapped, the page no longer
      translates, and every other address of the block translates as
      before. */
  lemma UnmapPageInBlock(s: Slot, iova: nat, lvl: nat, p: Params, f: nat, x: nat)
    requires WalkLevel(lvl, p) && lvl == MAX_LEVELS - 2 && SlotOk(s, lvl, p) && IsLeaf(s.pte, lvl)
    requires Installs(BlockSize(NextLevel(lvl), p.g), NextLevel(lvl), p) && f > 0
    requires OutputAddress(s.pte, p.g.pgShift) % BlockSize(lvl, p.g) == 0
    requires x / BlockSize(lvl, p.g) == iova / BlockSize(lvl, p.g)
    ensures var u := UnmapSlot(s, iova, Pow2(p.g.pgShift), lvl, p, f);
      u.unmapped == Pow2(p.g.pgShift) && u.free == f - 1 &&
      WalkSlot(u.out, x, lvl, p) == if x / Pow2(p.g.pgShift) == iova / Pow2(p.g.pgShift) then 0 else WalkSlot(s, x, lvl, p)
  {
    var pg := Pow2(p.g.pgShift);
    SplitBlkAll(s, iova, lvl, p, f);
    var sp := SplitBlk(s, iova, lvl, p, f);
    assert UnmapSlot(s, iova, pg, lvl, p, f) == UnmapSlot(sp.out, iova, pg, lvl, p, sp.free) by {
      assert s.pte != 0 by {
        BitZero(0);
      }
      PageBelowBlock(lvl, p);
      assert IsTable(sp.out.pte, lvl);
    }
    UnmapPageInSplit(sp.out, s, iova, lvl, p, sp.free, x);
  }

  // ---------------------------------------------------------------------
  // Unmapping one page of a block just mapped

  /** A granule page is below the 2M the unmap loop passes on whole. */
  lemma PageBelow2M(p: Params)
    requires Shaped(p.g)
    ensures Pow2(p.g.pgShift) < SZ_2M
  {
    LowPowers();
    Pow2Mono(p.g.pgShift, 16);
  }

  /** A block of the second-to-last level is larger than every block of
      the levels below it, so a map of one goes down to that level. */
  lemma BlockAtSecondLast(lvl: nat, p: Params)
    requires WalkLevel(lvl, p)
    ensures lvl < MAX_LEVELS - 2 ==>
      !Installs(BlockSize(MAX_LEVELS - 2, p.g), lvl, p) && Pow2(p.g.pgShift) < BlockSize(lvl, p.g)
    ensures lvl == MAX_LEVELS - 1 ==> !InstallsFrom(BlockSize(MAX_LEVELS - 2, p.g), lvl, p)
  {
    var B := BlockSize(MAX_LEVELS - 2, p.g);
    if lvl < MAX_LEVELS - 2 {
      ShiftLess(lvl, MAX_LEVELS - 2, p.g);
      PageBelowBlock(MAX_LEVELS - 2, p);
    }
    if lvl == MAX_LEVELS - 1 {
      ShiftLess(MAX_LEVELS - 2, lvl, p.g);
      assert !Installs(B, lvl, p);
    }
  }

  /** The unmap of a page inside the block `iova`'s entry of `s` just
      received, at the second-to-last level or above. */
  lemma UnmapPageSlotAfterMap(s: Slot, iova: nat, paddr: nat, prot: nat, lvl: nat, p: Params, free: nat,
                              free2: nat, ip: nat, x: nat)
    requires WalkLevel(lvl, p) && lvl <= MAX_LEVELS - 2 && AttrOnly(prot) && SlotOk(s, lvl, p)
    requires Installs(BlockSize(MAX_LEVELS - 1, p.g), MAX_LEVELS - 1, p)
    requires MapSlot(s, iova, paddr, BlockSize(MAX_LEVELS - 2, p.g), prot, lvl, p, free).status == 0
    requires paddr % BlockSize(MAX_LEVELS - 2, p.g) == 0 && paddr < ADDR_LIMIT && free2 > 0
    requires ip / BlockSize(MAX_LEVELS - 2, p.g) == iova / BlockSize(MAX_LEVELS - 2, p.g)
    requires x / BlockSize(MAX_LEVELS - 2, p.g) == iova / BlockSize(MAX_LEVELS - 2, p.g)
    ensures var m := MapSlot(s, iova, paddr, BlockSize(MAX_LEVELS - 2, p.g), prot, lvl, p, free).out;
      var u := UnmapSlot(m, ip, Pow2(p.g.pgShift), lvl, p, free2);
      u.unmapped == Pow2(p.g.pgShift) && u.free == free2 - 1 &&
      WalkSlot(u.out, x, lvl, p) == if x / Pow2(p.g.pgShift) == ip / Pow2(p.g.pgShift) then 0 else WalkSlot(m, x, lvl, p)
    decreases MAX_LEVELS - lvl, 1
  {
    if lvl == MAX_LEVELS - 2 {
      UnmapPageLeafAfterMap(s, iova, paddr, prot, lvl, p, free, free2, ip, x);
    } else {
      UnmapPageThroughTable(s, iova, paddr, prot, lvl, p, free, free2, ip, x);
    }
  }

  /** The part of the above at the second-to-last level: the map put the
      block there. */
  lemma UnmapPageLeafAfterMap(s: Slot, iova: nat, paddr: nat, prot: nat, lvl: nat, p: Params, free: nat,
                              free2: nat, ip: nat, x: nat)
    requires WalkLevel(lvl, p) && lvl == MAX_LEVELS - 2 && AttrOnly(prot) && SlotOk(s, lvl, p)
    requires Installs(BlockSize(MAX_LEVELS - 1, p.g), MAX_LEVELS - 1, p)
    requires MapSlot(s, iova, paddr, BlockSize(MAX_LEVELS - 2, p.g), prot, lvl, p, free).status == 0
    requires paddr % BlockSize(MAX_LEVELS - 2, p.g) == 0 && paddr < ADDR_LIMIT && free2 > 0
    requires ip / BlockSize(MAX_LEVELS - 2, p.g) == iova / BlockSize(MAX_LEVELS - 2, p.g)
    requires x / BlockSize(MAX_LEVELS - 2, p.g) == iova / BlockSize(MAX_LEVELS - 2, p.g)
    ensures var m := MapSlot(s, iova, paddr, BlockSize(MAX_LEVELS - 2, p.g), prot, lvl, p, free).out;
      var u := UnmapSlot(m, ip, Pow2(p.g.pgShift), lvl, p, free2);
      u.unmapped == Pow2(p.g.pgShift) && u.free == free2 - 1 &&
      WalkSlot(u.out, x, lvl, p) == if x / Pow2(p.g.pgShift) == ip / Pow2(p.g.pgShift) then 0 else WalkSlot(m, x, lvl, p)
  {
    var B := BlockSize(MAX_LEVELS - 2, p.g);
    BlockAtSecondLast(NextLevel(lvl), p);
    assert Installs(B, lvl, p);
    var pte := MapSlotInstalls(s, iova, paddr, B, prot, lvl, p, free);
    assert OutputAddress(pte, p.g.pgShift) % B == 0 by {
      LastSizes(lvl, p);
      OutputAligned(paddr, LvlShift(lvl, p.g), p.g.pgShift);
    }
    var m := Slot(pte, []);
    assert m == MapSlot(s, iova, paddr, B, prot, lvl, p, free).out && B == BlockSize(lvl, p.g);
    UnmapPageInBlock(m, ip, lvl, p, free2, x);
  }

  /** The part of the above above the second-to-last level: the map went
      down through a table, and so does the unmap. */
  lemma UnmapPageThroughTable(s: Slot, iova: nat, paddr: nat, prot: nat, lvl: nat, p: Params, free: nat,
                              free2: nat, ip: nat, x: nat)
    requires WalkLevel(lvl, p) && lvl < MAX_LEVELS - 2 && AttrOnly(prot) && SlotOk(s, lvl, p)
    requires Installs(BlockSize(MAX_LEVELS - 1, p.g), MAX_LEVELS - 1, p)
    requires MapSlot(s, iova, paddr, BlockSize(MAX_LEVELS - 2, p.g), prot, lvl, p, free).status == 0
    requires paddr % BlockSize(MAX_LEVELS - 2, p.g) == 0 && paddr < ADDR_LIMIT && free2 > 0
    requires ip / BlockSize(MAX_LEVELS - 2, p.g) == iova / BlockSize(MAX_LEVELS - 2, p.g)
    requires x / BlockSize(MAX_LEVELS - 2, p.g) == iova / BlockSize(MAX_LEVELS - 2, p.g)
    ensures var m := MapSlot(s, iova, paddr, BlockSize(MAX_LEVELS - 2, p.g), prot, lvl, p, free).out;
      var u := UnmapSlot(m, ip, Pow2(p.g.pgShift), lvl, p, free2);
      u.unmapped == Pow2(p.g.pgShift) && u.free == free2 - 1 &&
      WalkSlot(u.out, x, lvl, p) == if x / Pow2(p.g.pgShift) == ip / Pow2(p.g.pgShift) then 0 else WalkSlot(m, x, lvl, p)
    decreases MAX_LEVELS - lvl, 0
  {
    var B, pg := BlockSize(MAX_LEVELS - 2, p.g), Pow2(p.g.pgShift);
    var t0, f0 := DescendMap(s, iova, paddr, prot, lvl, p, free);
    var r := MapSlot(s, iova, paddr, B, prot, lvl, p, free);
    BlockAtSecondLast(lvl, p);
    UnmapDown(r.out, ip, pg, lvl, p, free2);
    var u := UnmapSlot(r.out, ip, pg, lvl, p, free2);
    UnmapPageTableAfterMap(t0.next, iova, paddr, prot, NextLevel(lvl), p, f0, free2, ip, x);
    TableWalk(u.out, x, lvl, p);
    TableWalk(r.out, x, lvl, p);
  }

  /** Above the second-to-last level, the map of a block there goes down
      through the table entry. */
  lemma DescendMap(s: Slot, iova: nat, paddr: nat, prot: nat, lvl: nat, p: Params, free: nat)
      returns (t0: Slot, f0: nat)
    requires WalkLevel(lvl, p) && lvl < MAX_LEVELS - 2 && AttrOnly(prot) && SlotOk(s, lvl, p)
    requires MapSlot(s, iova, paddr, BlockSize(MAX_LEVELS - 2, p.g), prot, lvl, p, free).status == 0
    ensures TableOk(t0.next, NextLevel(lvl), p) && LvlIdx(iova, NextLevel(lvl), p.g) < |t0.next|
    ensures var r := MapSlot(s, iova, paddr, BlockSize(MAX_LEVELS - 2, p.g), prot, lvl, p, free);
      var sub := MapTable(t0.next, iova, paddr, BlockSize(MAX_LEVELS - 2, p.g), prot, NextLevel(lvl), p, f0);
      sub.status == 0 && IsTable(r.out.pte, lvl) && r.out.next == sub.out
  {
    var B := BlockSize(MAX_LEVELS - 2, p.g);
    BlockAtSecondLast(lvl, p);
    t0, f0 := MapSlotDescends(s, iova, paddr, B, prot, lvl, p, free);
    TableNext(t0, lvl, p);
  }

  /** The same through the table `t`: only the entry of the block is
      involved. */
  lemma UnmapPageTableAfterMap(t: seq<Slot>, iova: nat, paddr: nat, prot: nat, lvl: nat, p: Params, free: nat,
                               free2: nat, ip: nat, x: nat)
    requires WalkLevel(lvl, p) && lvl <= MAX_LEVELS - 2 && AttrOnly(prot) && TableOk(t, lvl, p) && LvlIdx(iova, lvl, p.g) < |t|
    requires Installs(BlockSize(MAX_LEVELS - 1, p.g), MAX_LEVELS - 1, p)
    requires MapTable(t, iova, paddr, BlockSize(MAX_LEVELS - 2, p.g), prot, lvl, p, free).status == 0
    requires paddr % BlockSize(MAX_LEVELS - 2, p.g) == 0 && paddr < ADDR_LIMIT && free2 > 0
    requires ip / BlockSize(MAX_LEVELS - 2, p.g) == iova / BlockSize(MAX_LEVELS - 2, p.g)
    requires x / BlockSize(MAX_LEVELS - 2, p.g) == iova / BlockSize(MAX_LEVELS - 2, p.g)
    ensures LvlIdx(ip, lvl, p.g) == LvlIdx(iova, lvl, p.g) == LvlIdx(x, lvl, p.g)
    ensures var m := MapTable(t, iova, paddr, BlockSize(MAX_LEVELS - 2, p.g), prot, lvl, p, free).out;
      var u := UnmapTable(m, ip, Pow2(p.g.pgShift), lvl, p, free2);
      u.unmapped == Pow2(p.g.pgShift) && u.free == free2 - 1 &&
      Walk(u.out, x, lvl, p) == if x / Pow2(p.g.pgShift) == ip / Pow2(p.g.pgShift) then 0 else Walk(m, x, lvl, p)
    decreases MAX_LEVELS - lvl, 2
  {
    var B, pg, idx := BlockSize(MAX_LEVELS - 2, p.g), Pow2(p.g.pgShift), LvlIdx(iova, lvl, p.g);
    SameLeafSameEntry(ip, iova, B, lvl, p);
    SameLeafSameEntry(x, iova, B, lvl, p);
    UnmapPageSlotAfterMap(t[idx], iova, paddr, prot, lvl, p, free, free2, ip, x);
    var r := MapSlot(t[idx], iova, paddr, B, prot, lvl, p, free);
    var m := MapTable(t, iova, paddr, B, prot, lvl, p, free);
    assert m.out == t[idx := r.out];
    var us := UnmapSlot(r.out, ip, pg, lvl, p, free2);
    var u := UnmapTable(m.out, ip, pg, lvl, p, free2);
    assert u.out == m.out[idx := us.out] && u.unmapped == us.unmapped && u.free == us.free;
    assert Walk(u.out, x, lvl, p) == WalkSlot(us.out, x, lvl, p);
    assert Walk(m.out, x, lvl, p) == WalkSlot(r.out, x, lvl, p);
  }

  /** The translation of `x` by a leaf of 2^k bytes at `paddr` that maps
      the block at `iova`: its place in the block. */
  lemma LeafOffset(paddr: nat, x: nat, iova: nat, k: nat, size: nat, pgShift: nat)
    requires size == Pow2(k) && pgShift <= k && paddr % size == 0 && paddr < ADDR_LIMIT
    requires iova % size == 0 && iova <= x < iova + size
    ensures Or(OutputAddress(paddr, pgShift), And(x, size - 1)) == paddr + (x - iova)
  {
    LeafAddress(paddr, x, k, pgShift);
    InBlock(iova, x, Pow2(k));
  }

  /** The same for the block size of the second-to-last level. */
  lemma BlockOffset(paddr: nat, x: nat, iova: nat, p: Params)
    requires WalkLevel(MAX_LEVELS - 2, p)
    requires iova % BlockSize(MAX_LEVELS - 2, p.g) == 0 && paddr % BlockSize(MAX_LEVELS - 2, p.g) == 0
    requires paddr < ADDR_LIMIT && iova <= x < iova + BlockSize(MAX_LEVELS - 2, p.g)
    ensures Or(OutputAddress(paddr, p.g.pgShift), And(x, BlockSize(MAX_LEVELS - 2, p.g) - 1)) == paddr + (x - iova)
  {
    BlockSizeShift(MAX_LEVELS - 2, p.g);
    LeafOffset(paddr, x, iova, LvlShift(MAX_LEVELS - 2, p.g), BlockSize(MAX_LEVELS - 2, p.g), p.g.pgShift);
  }

  /** After a map of a block of the second-to-last level at aligned
      addresses, every address of the block translates to its place in
      the block. */
  lemma BlockWalk(t: seq<Slot>, iova: nat, paddr: nat, prot: nat, lvl: nat, p: Params, free: nat, x: nat)
    requires WalkLevel(lvl, p) && AttrOnly(prot) && TableOk(t, lvl, p) && LvlIdx(iova, lvl, p.g) < |t|
    requires MapTable(t, iova, paddr, BlockSize(MAX_LEVELS - 2, p.g), prot, lvl, p, free).status == 0
    requires iova % BlockSize(MAX_LEVELS - 2, p.g) == 0 && paddr % BlockSize(MAX_LEVELS - 2, p.g) == 0
    requires paddr < ADDR_LIMIT && iova <= x < iova + BlockSize(MAX_LEVELS - 2, p.g)
    ensures LvlIdx(x, lvl, p.g) == LvlIdx(iova, lvl, p.g)
    ensures Walk(MapTable(t, iova, paddr, BlockSize(MAX_LEVELS - 2, p.g), prot, lvl, p, free).out, x, lvl, p)
         == paddr + (x - iova)
  {
    var B := BlockSize(MAX_LEVELS - 2, p.g);
    BlockAtSecondLast(lvl, p);
    BlockOffset(paddr, x, iova, p);
    InBlock(iova, x, B);
    MapTableWalk(t, iova, paddr, B, prot, lvl, p, free, x);
  }

  /** `arm_lpae_unmap` of one page inside a block of the second-to-last
      level that `arm_lpae_map` has just installed at an aligned address:
      with the page size supported and a page to spare for the table that
      replaces the block, the call reports one page unmapped and takes
      that page, the page no longer translates, and every other address of
      the block still translates to its place in the block. */
  lemma UnmapPageAfterMapBlock(pt: Pgtable, iova: nat, paddr: nat, prot: Prot, ip: nat, x: nat)
    requires PgtableOk(pt) && iova + BlockSize(MAX_LEVELS - 2, pt.p.g) <= Pow2(pt.ias)
    requires iova % BlockSize(MAX_LEVELS - 2, pt.p.g) == 0 && paddr % BlockSize(MAX_LEVELS - 2, pt.p.g) == 0
    requires paddr < ADDR_LIMIT && Installs(BlockSize(MAX_LEVELS - 1, pt.p.g), MAX_LEVELS - 1, pt.p)
    requires (prot.read || prot.write) && Map(pt, iova, paddr, BlockSize(MAX_LEVELS - 2, pt.p.g), prot).ret == 0
    requires Map(pt, iova, paddr, BlockSize(MAX_LEVELS - 2, pt.p.g), prot).pt.free > 0
    requires iova <= ip < iova + BlockSize(MAX_LEVELS - 2, pt.p.g) && ip + Pow2(pt.p.g.pgShift) <= Pow2(pt.ias)
    ensures var pt1 := Map(pt, iova, paddr, BlockSize(MAX_LEVELS - 2, pt.p.g), prot).pt;
      var r := Unmap(pt1, ip, Pow2(pt.p.g.pgShift));
      r.ret == Pow2(pt.p.g.pgShift) && r.pt.free == pt1.free - 1
    ensures var pt1 := Map(pt, iova, paddr, BlockSize(MAX_LEVELS - 2, pt.p.g), prot).pt;
      var r := Unmap(pt1, ip, Pow2(pt.p.g.pgShift));
      iova <= x < iova + BlockSize(MAX_LEVELS - 2, pt.p.g) ==>
        IovaToPhys(r.pt, x) == if x / Pow2(pt.p.g.pgShift) == ip / Pow2(pt.p.g.pgShift) then 0 else paddr + (x - iova)
  {
    UnmapPageInMappedBlock(pt, iova, paddr, prot, ip, iova);
    if iova <= x < iova + BlockSize(MAX_LEVELS - 2, pt.p.g) {
      UnmapPageInMappedBlock(pt, iova, paddr, prot, ip, x);
    }
  }

  /** The above for one address `x` of the block. */
  lemma UnmapPageInMappedBlock(pt: Pgtable, iova: nat, paddr: nat, prot: Prot, ip: nat, x: nat)
    requires PgtableOk(pt) && iova + BlockSize(MAX_LEVELS - 2, pt.p.g) <= Pow2(pt.ias)
    requires iova % BlockSize(MAX_LEVELS - 2, pt.p.g) == 0 && paddr % BlockSize(MAX_LEVELS - 2, pt.p.g) == 0
    requires paddr < ADDR_LIMIT && Installs(BlockSize(MAX_LEVELS - 1, pt.p.g), MAX_LEVELS - 1, pt.p)
    requires (prot.read || prot.write) && Map(pt, iova, paddr, BlockSize(MAX_LEVELS - 2, pt.p.g), prot).ret == 0
    requires Map(pt, iova, paddr, BlockSize(MAX_LEVELS - 2, pt.p.g), prot).pt.free > 0
    requires iova <= ip < iova + BlockSize(MAX_LEVELS - 2, pt.p.g) && ip + Pow2(pt.p.g.pgShift) <= Pow2(pt.ias)
    requires iova <= x < iova + BlockSize(MAX_LEVELS - 2, pt.p.g)
    ensures var pt1 := Map(pt, iova, paddr, BlockSize(MAX_LEVELS - 2, pt.p.g), prot).pt;
      var r := Unmap(pt1, ip, Pow2(pt.p.g.pgShift));
      r.ret == Pow2(pt.p.g.pgShift) && r.pt.free == pt1.free - 1 &&
      IovaToPhys(r.pt, x) == if x / Pow2(pt.p.g.pgShift) == ip / Pow2(pt.p.g.pgShift) then 0 else paddr + (x - iova)
  {
    var B, pg, st := BlockSize(MAX_LEVELS - 2, pt.p.g), Pow2(pt.p.g.pgShift), Start(pt.p.g);
    RootIdx(pt, iova);
    ProtToPteAttrs(pt.stage1, prot);
    var attrs := ProtToPte(pt.stage1, prot);
    var m := MapTable(pt.pgd, iova, paddr, B, attrs, st, pt.p, pt.free);
    var pt1 := Map(pt, iova, paddr, B, prot).pt;
    assert pt1 == pt.(pgd := m.out, free := m.free);
    BlockAtSecondLast(st, pt.p);
    InBlock(iova, ip, B);
    InBlock(iova, x, B);
    UnmapPageTableAfterMap(pt.pgd, iova, paddr, attrs, st, pt.p, pt.free, pt1.free, ip, x);
    var u := UnmapTable(m.out, ip, pg, st, pt.p, pt1.free);
    var pt2 := pt1.(pgd := u.out, free := u.free);
    assert Unmap(pt1, ip, pg) == After(pg, pt2) by {
      PageBelow2M(pt.p);
      UnmapOnePiece(pt1, ip, pg);
    }
    RootIdx(pt, x);
    assert IovaToPhys(pt2, x) == Walk(u.out, x, st, pt.p);
    BlockWalk(pt.pgd, iova, paddr, attrs, st, pt.p, pt.free, x);
  }
}
