/** Descriptors of the ARMv8 long-descriptor translation table format
    (section D4.3 of the Arm Architecture Reference Manual, DDI 0487) as the
    io-pgtable allocator builds them. A descriptor is a 64-bit word: bits 1..0
    give its type, the lower attributes (bits 11..2) and the execute-never
    bits (54..53) come from the IOMMU protection flags, and bits 47..12 hold
    an output address. In a table descriptor the bits the hardware ignores
    (11..2 and 58..52) hold the number of leaf entries installed beneath it. */
module LpaePte {
  import opened Wrappers
  import opened Arith
  import opened Bits

  const MAX_ADDR_BITS: nat := 48
  const MAX_LEVELS: nat := 4
  /** `(1 << 48) - 1`: the output address bits a descriptor can hold. */
  const ADDR_MASK: nat := 0xffff_ffff_ffff
  /** `1 << 48`: every output address is below it. */
  const ADDR_LIMIT: nat := 0x1_0000_0000_0000

  const PTE_TYPE_MASK: nat := 3
  const PTE_TYPE_BLOCK: nat := 1
  const PTE_TYPE_TABLE: nat := 3
  const PTE_TYPE_PAGE: nat := 3

  /** `1 << 63` */
  const PTE_NSTABLE: nat := 0x8000_0000_0000_0000
  /** `3 << 53` */
  const PTE_XN: nat := 0x60_0000_0000_0000
  /** `1 << 10` */
  const PTE_AF: nat := 0x400
  /** `3 << 8` */
  const PTE_SH_IS: nat := 0x300
  /** `1 << 5` */
  const PTE_NS: nat := 0x20
  /** Bit 0: the descriptor is valid. */
  const PTE_VALID_BIT: nat := 0

  /** `0x3ff << 2` */
  const PTE_ATTR_LO_MASK: nat := 0xffc
  /** `6 << 52`: bits 54..53; the contiguous hint (bit 52) is not carried
      over when a block is split. */
  const PTE_ATTR_HI_MASK: nat := 0x60_0000_0000_0000
  /** The two masks together. */
  const PTE_ATTR_MASK: nat := 0x60_0000_0000_0ffc

  // Stage-1 descriptors
  /** `0 << 6`, `1 << 6`, `2 << 6`, `3 << 6` */
  const PTE_AP_PRIV_RW: nat := 0
  const PTE_AP_RW: nat := 0x40
  const PTE_AP_PRIV_RO: nat := 0x80
  const PTE_AP_RO: nat := 0xc0
  const PTE_ATTRINDX_SHIFT: nat := 2
  /** `1 << 11` */
  const PTE_NG: nat := 0x800
  const MAIR_ATTR_IDX_CACHE: nat := 1
  const MAIR_ATTR_IDX_DEV: nat := 2

  // Stage-2 descriptors
  /** `0 << 6`, `1 << 6`, `2 << 6` */
  const PTE_HAP_FAULT: nat := 0
  const PTE_HAP_READ: nat := 0x40
  const PTE_HAP_WRITE: nat := 0x80
  /** `0xf << 2`, `0x5 << 2`, `0x1 << 2` */
  const PTE_MEMATTR_OIWB: nat := 0x3c
  const PTE_MEMATTR_NC: nat := 0x14
  const PTE_MEMATTR_DEV: nat := 0x4

  // The leaf count in a table descriptor's ignored bits
  const BOTTOM_IGNORED_MASK: nat := 0x3ff
  const BOTTOM_IGNORED_SHIFT: nat := 2
  const BOTTOM_IGNORED_NUM_BITS: nat := 10
  const TOP_IGNORED_MASK: nat := 0x7f
  const TOP_IGNORED_SHIFT: nat := 52
  /** `BOTTOM_IGNORED_MASK << BOTTOM_IGNORED_SHIFT`: bits 11..2. */
  const BOTTOM_IGNORED_FIELD: nat := 0xffc
  /** `TOP_IGNORED_MASK << TOP_IGNORED_SHIFT`: bits 58..52. */
  const TOP_IGNORED_FIELD: nat := 0x07f0_0000_0000_0000
  /** `TOP_IGNORED_MASK << BOTTOM_IGNORED_NUM_BITS`: the count bits 16..10
      that go to the top field. */
  const COUNT_HIGH_MASK: nat := 0x1_fc00
  /** The two fields together. */
  const IOPTE_RESERVED_MASK: nat := 0x07f0_0000_0000_0ffc
  /** The count has 10 + 7 bits. */
  const TBLCNT_BITS: nat := 17
  /** `1 << 17`: every count is below it. */
  const TBLCNT_LIMIT: nat := 0x2_0000

  /** The IOMMU core's protection flags IOMMU_READ, IOMMU_WRITE,
      IOMMU_CACHE, IOMMU_NOEXEC, IOMMU_DEVICE and IOMMU_PRIV. */
  datatype Prot = Prot(read: bool, write: bool, cache: bool, noexec: bool, device: bool, priv: bool)

  // ---------------------------------------------------------------------
  // The constants bit by bit

  /** The powers of two behind the constants. */
  lemma Powers()
    ensures Pow2(2) == 4 && Pow2(4) == 16 && Pow2(5) == 0x20 && Pow2(6) == 0x40 && Pow2(7) == 0x80
    ensures Pow2(8) == 0x100 && Pow2(10) == 0x400 && Pow2(11) == 0x800
    ensures Pow2(TBLCNT_BITS) == TBLCNT_LIMIT && Pow2(MAX_ADDR_BITS) == ADDR_LIMIT
    ensures Pow2(52) == 0x10_0000_0000_0000 && Pow2(53) == 0x20_0000_0000_0000
    ensures Pow2(63) == 0x8000_0000_0000_0000
  {
    LowPowers();
    HighPowers();
  }

  lemma LowPowers()
    ensures Pow2(2) == 4 && Pow2(4) == 16 && Pow2(5) == 0x20 && Pow2(6) == 0x40 && Pow2(7) == 0x80
    ensures Pow2(8) == 0x100 && Pow2(10) == 0x400 && Pow2(11) == 0x800 && Pow2(15) == 0x8000
  {
  }

  lemma HighPowers()
    ensures Pow2(TBLCNT_BITS) == TBLCNT_LIMIT && Pow2(MAX_ADDR_BITS) == ADDR_LIMIT
    ensures Pow2(52) == 0x10_0000_0000_0000 && Pow2(53) == 0x20_0000_0000_0000
    ensures Pow2(63) == 0x8000_0000_0000_0000
  {
    LowPowers();
    Pow2Add(8, 8);
    Pow2Add(16, 1);
    Pow2Add(16, 16);
    Pow2Add(32, 16);
    Pow2Add(48, 4);
    Pow2Add(48, 5);
    Pow2Add(48, 15);
  }

  /** The single flags of a descriptor. */
  lemma FlagBits(i: nat)
    ensures Bit(PTE_NSTABLE, i) == (i == 63)
    ensures Bit(PTE_XN, i) == (i == 53 || i == 54)
    ensures Bit(PTE_AF, i) == (i == 10)
    ensures Bit(PTE_SH_IS, i) == (i == 8 || i == 9)
    ensures Bit(PTE_NS, i) == (i == 5)
    ensures Bit(PTE_NG, i) == (i == 11)
  {
    Powers();
    BitPow2(63, i);
    ShlIsMul(3, 53);
    ShlBits3(53, i);
    BitPow2(10, i);
    ShlIsMul(3, 8);
    ShlBits3(8, i);
    BitPow2(5, i);
    BitPow2(11, i);
  }

  /** The permission and memory-type encodings. */
  lemma PermBits(i: nat)
    ensures !Bit(PTE_AP_PRIV_RW, i) && !Bit(PTE_HAP_FAULT, i)
    ensures Bit(PTE_AP_RW, i) == (i == 6) && Bit(PTE_HAP_READ, i) == (i == 6)
    ensures Bit(PTE_AP_PRIV_RO, i) == (i == 7) && Bit(PTE_HAP_WRITE, i) == (i == 7)
    ensures Bit(PTE_AP_RO, i) == (i == 6 || i == 7)
    ensures Bit(PTE_MEMATTR_OIWB, i) == (2 <= i < 6)
    ensures Bit(PTE_MEMATTR_NC, i) == (i == 2 || i == 4)
    ensures Bit(PTE_MEMATTR_DEV, i) == (i == 2)
    ensures Bit(Shl(MAIR_ATTR_IDX_CACHE, PTE_ATTRINDX_SHIFT), i) == (i == 2)
    ensures Bit(Shl(MAIR_ATTR_IDX_DEV, PTE_ATTRINDX_SHIFT), i) == (i == 3)
  {
    Powers();
    BitZero(i);
    BitPow2(6, i);
    BitPow2(7, i);
    ShlIsMul(3, 6);
    ShlBits3(6, i);
    ShlIsMul(Pow2(4) - 1, 2);
    ShlBitsMask(4, 2, i);
    ShlIsMul(5, 2);
    ShlBits5(2, i);
    BitPow2(2, i);
    ShlBits1(2, i);
    ShlBits2(2, i);
  }

  /** The bits a table descriptor's count lives in. */
  predicate Reserved(i: nat) {
    (BOTTOM_IGNORED_SHIFT <= i < BOTTOM_IGNORED_SHIFT + BOTTOM_IGNORED_NUM_BITS)
    || (TOP_IGNORED_SHIFT <= i < TOP_IGNORED_SHIFT + TBLCNT_BITS - BOTTOM_IGNORED_NUM_BITS)
  }

  /** The bits `iopte_prot` keeps when a block is split: the lower
      attributes and the execute-never bits. */
  predicate AttrBit(i: nat) {
    2 <= i < 12 || i == 53 || i == 54
  }

  /** The attribute and address masks. */
  lemma MaskBits(i: nat)
    ensures Bit(PTE_ATTR_LO_MASK, i) == (2 <= i < 12)
    ensures Bit(PTE_ATTR_HI_MASK, i) == (i == 53 || i == 54)
    ensures Bit(PTE_ATTR_MASK, i) == AttrBit(i)
    ensures Bit(ADDR_MASK, i) == (i < MAX_ADDR_BITS)
  {
    Powers();
    BitLowMask(MAX_ADDR_BITS, i);
    var lo, xn := Shl(Pow2(10) - 1, 2), Shl(3, 53);
    ShlIsMul(Pow2(10) - 1, 2);
    ShlIsMul(3, 53);
    assert lo == PTE_ATTR_LO_MASK && xn == PTE_ATTR_HI_MASK;
    forall j: nat
      ensures !(Bit(lo, j) && Bit(xn, j))
    {
      ShlBitsMask(10, 2, j);
      ShlBits3(53, j);
    }
    OrDisjoint(lo, xn);
    BitOr(lo, xn, i);
    ShlBitsMask(10, 2, i);
    ShlBits3(53, i);
  }

  /** The leaf count's fields in a descriptor. */
  lemma ReservedBits(i: nat)
    ensures Bit(BOTTOM_IGNORED_FIELD, i) == (2 <= i < 12)
    ensures Bit(TOP_IGNORED_FIELD, i) == (52 <= i < 59)
    ensures Bit(IOPTE_RESERVED_MASK, i) == Reserved(i)
  {
    Powers();
    var lo, top := Shl(Pow2(10) - 1, 2), Shl(Pow2(7) - 1, 52);
    ShlIsMul(Pow2(10) - 1, 2);
    ShlIsMul(Pow2(7) - 1, 52);
    assert lo == BOTTOM_IGNORED_FIELD && top == TOP_IGNORED_FIELD;
    forall j: nat
      ensures !(Bit(lo, j) && Bit(top, j))
    {
      ShlBitsMask(10, 2, j);
      ShlBitsMask(7, 52, j);
    }
    OrDisjoint(lo, top);
    BitOr(lo, top, i);
    ShlBitsMask(10, 2, i);
    ShlBitsMask(7, 52, i);
  }

  /** The masks that cut a count value into its two fields. */
  lemma CountMaskBits(i: nat)
    ensures Bit(COUNT_HIGH_MASK, i) == (10 <= i < 17)
    ensures Bit(BOTTOM_IGNORED_MASK, i) == (i < BOTTOM_IGNORED_NUM_BITS)
  {
    Powers();
    BitLowMask(10, i);
    ShlIsMul(Pow2(7) - 1, 10);
    ShlBitsMask(7, 10, i);
  }

  // ---------------------------------------------------------------------
  // The leaf count

  /** The descriptor bit that holds bit `j` of the count: the low ten count
      bits sit at 11..2, the high seven at 58..52. */
  function CountPos(j: nat): (i: nat)
    requires j < TBLCNT_BITS
    ensures Reserved(i)
  {
    if j < BOTTOM_IGNORED_NUM_BITS then j + BOTTOM_IGNORED_SHIFT
    else j - BOTTOM_IGNORED_NUM_BITS + TOP_IGNORED_SHIFT
  }

  /** A table descriptor with its count bits cleared. */
  function IopteVal(pte: nat): (v: nat)
    requires pte < U64_LIMIT
    ensures v < U64_LIMIT
    ensures forall i: nat :: Bit(v, i) == (Bit(pte, i) && !Reserved(i))
  {
    assert IOPTE_RESERVED_MASK < U64_LIMIT;
    var v := And(pte, Not64(IOPTE_RESERVED_MASK));
    assert forall i: nat :: Bit(v, i) == (Bit(pte, i) && !Reserved(i)) && (Bit(v, i) ==> i < 64) by {
      forall i: nat
        ensures Bit(v, i) == (Bit(pte, i) && !Reserved(i)) && (Bit(v, i) ==> i < 64)
      {
        BitAnd(pte, Not64(IOPTE_RESERVED_MASK), i);
        BitNot64(IOPTE_RESERVED_MASK, i);
        ReservedBits(i);
        if i >= 64 { WordBits(pte, i); }
      }
    }
    WordFromBits(v);
    v
  }

  /** Bits 11..2 of a descriptor, moved down to bit 0. */
  function BottomIgnored(pte: nat): (b: nat)
    ensures forall j: nat :: Bit(b, j) == (j < BOTTOM_IGNORED_NUM_BITS && Bit(pte, j + BOTTOM_IGNORED_SHIFT))
  {
    var b := Shr(And(pte, BOTTOM_IGNORED_FIELD), BOTTOM_IGNORED_SHIFT);
    assert forall j: nat :: Bit(b, j) == (j < BOTTOM_IGNORED_NUM_BITS && Bit(pte, j + BOTTOM_IGNORED_SHIFT)) by {
      forall j: nat
        ensures Bit(b, j) == (j < BOTTOM_IGNORED_NUM_BITS && Bit(pte, j + BOTTOM_IGNORED_SHIFT))
      {
        BitShr(And(pte, BOTTOM_IGNORED_FIELD), BOTTOM_IGNORED_SHIFT, j);
        BitAnd(pte, BOTTOM_IGNORED_FIELD, j + BOTTOM_IGNORED_SHIFT);
        ReservedBits(j + BOTTOM_IGNORED_SHIFT);
      }
    }
    b
  }

  /** Bits 58..52 of a descriptor, moved down to bit 0. */
  function TopIgnored(pte: nat): (t: nat)
    ensures forall j: nat :: Bit(t, j) == (j < TBLCNT_BITS - BOTTOM_IGNORED_NUM_BITS && Bit(pte, j + TOP_IGNORED_SHIFT))
  {
    var t := Shr(And(pte, TOP_IGNORED_FIELD), TOP_IGNORED_SHIFT);
    assert forall j: nat :: Bit(t, j) == (j < TBLCNT_BITS - BOTTOM_IGNORED_NUM_BITS && Bit(pte, j + TOP_IGNORED_SHIFT)) by {
      forall j: nat
        ensures Bit(t, j) == (j < TBLCNT_BITS - BOTTOM_IGNORED_NUM_BITS && Bit(pte, j + TOP_IGNORED_SHIFT))
      {
        BitShr(And(pte, TOP_IGNORED_FIELD), TOP_IGNORED_SHIFT, j);
        BitAnd(pte, TOP_IGNORED_FIELD, j + TOP_IGNORED_SHIFT);
        ReservedBits(j + TOP_IGNORED_SHIFT);
      }
    }
    t
  }

  /** `iopte_tblcnt`: the leaf count a table descriptor holds, count bit
      `j` being descriptor bit `CountPos(j)`. */
  function Tblcnt(pte: nat): (n: nat)
    ensures n < TBLCNT_LIMIT
    ensures forall j: nat :: Bit(n, j) == (j < TBLCNT_BITS && Bit(pte, CountPos(j)))
  {
    var n := Or(BottomIgnored(pte), Shl(TopIgnored(pte), BOTTOM_IGNORED_NUM_BITS));
    assert forall j: nat :: Bit(n, j) == (j < TBLCNT_BITS && Bit(pte, CountPos(j))) by {
      forall j: nat
        ensures Bit(n, j) == (j < TBLCNT_BITS && Bit(pte, CountPos(j)))
      {
        BitOr(BottomIgnored(pte), Shl(TopIgnored(pte), BOTTOM_IGNORED_NUM_BITS), j);
        BitShl(TopIgnored(pte), BOTTOM_IGNORED_NUM_BITS, j);
      }
    }
    BelowFromBits(n, TBLCNT_BITS);
    Powers();
    n
  }

  /** Bit `i` of a count value `v` once placed in the ignored bits. */
  predicate FieldBit(v: nat, i: nat) {
    (BOTTOM_IGNORED_SHIFT <= i < BOTTOM_IGNORED_SHIFT + BOTTOM_IGNORED_NUM_BITS && Bit(v, i - BOTTOM_IGNORED_SHIFT))
    || (TOP_IGNORED_SHIFT <= i < TOP_IGNORED_SHIFT + 7 && Bit(v, i - TOP_IGNORED_SHIFT + BOTTOM_IGNORED_NUM_BITS))
  }

  /** The count value `v` placed in the ignored bits and nowhere else. */
  function CountField(v: nat): (f: nat)
    ensures forall i: nat :: Bit(f, i) ==> Reserved(i)
    ensures forall j: nat :: j < TBLCNT_BITS ==> Bit(f, CountPos(j)) == Bit(v, j)
  {
    var lo := Shl(And(v, BOTTOM_IGNORED_MASK), BOTTOM_IGNORED_SHIFT);
    var hi := Shl(Shr(And(v, COUNT_HIGH_MASK), BOTTOM_IGNORED_NUM_BITS), TOP_IGNORED_SHIFT);
    var f := Or(lo, hi);
    assert forall i: nat :: Bit(f, i) == FieldBit(v, i) by {
      forall i: nat
        ensures Bit(f, i) == FieldBit(v, i)
      {
        BitOr(lo, hi, i);
        LowCountBit(v, i);
        HighCountBit(v, i);
      }
    }
    f
  }

  /** The low count bits land in bits 11..2. */
  lemma LowCountBit(v: nat, i: nat)
    ensures Bit(Shl(And(v, BOTTOM_IGNORED_MASK), BOTTOM_IGNORED_SHIFT), i)
      == (BOTTOM_IGNORED_SHIFT <= i < BOTTOM_IGNORED_SHIFT + BOTTOM_IGNORED_NUM_BITS && Bit(v, i - BOTTOM_IGNORED_SHIFT))
  {
    BitShl(And(v, BOTTOM_IGNORED_MASK), BOTTOM_IGNORED_SHIFT, i);
    if i >= BOTTOM_IGNORED_SHIFT {
      BitAnd(v, BOTTOM_IGNORED_MASK, i - BOTTOM_IGNORED_SHIFT);
      CountMaskBits(i - BOTTOM_IGNORED_SHIFT);
    }
  }

  /** The high count bits land in bits 58..52. */
  lemma HighCountBit(v: nat, i: nat)
    ensures Bit(Shl(Shr(And(v, COUNT_HIGH_MASK), BOTTOM_IGNORED_NUM_BITS), TOP_IGNORED_SHIFT), i)
      == (TOP_IGNORED_SHIFT <= i < TOP_IGNORED_SHIFT + 7 && Bit(v, i - TOP_IGNORED_SHIFT + BOTTOM_IGNORED_NUM_BITS))
  {
    var mid := And(v, COUNT_HIGH_MASK);
    BitShl(Shr(mid, BOTTOM_IGNORED_NUM_BITS), TOP_IGNORED_SHIFT, i);
    if i >= TOP_IGNORED_SHIFT {
      var j := i - TOP_IGNORED_SHIFT;
      BitShr(mid, BOTTOM_IGNORED_NUM_BITS, j);
      BitAnd(v, COUNT_HIGH_MASK, j + BOTTOM_IGNORED_NUM_BITS);
      CountMaskBits(j + BOTTOM_IGNORED_NUM_BITS);
    }
  }

  /** Reducing modulo 2^64 first does not change the low 17 bits. */
  lemma CountOfWord(val: int)
    ensures (val % U64_LIMIT) % TBLCNT_LIMIT == val % TBLCNT_LIMIT
  {
    var q, r := val / U64_LIMIT, val % U64_LIMIT;
    var t, s := r / TBLCNT_LIMIT, r % TBLCNT_LIMIT;
    assert val == U64_LIMIT * q + r;
    assert r == TBLCNT_LIMIT * t + s;
    assert U64_LIMIT * q == TBLCNT_LIMIT * (0x8000_0000_0000 * q);
    ModUniqueInt(val, TBLCNT_LIMIT, 0x8000_0000_0000 * q + t, s);
  }

  /** `iopte_tblcnt_set`: the count becomes `val`, taken modulo 2^17 as the
      17 count bits keep only its low bits (a negative `val` wraps as in
      two's complement), and every bit outside the count is kept. */
  function TblcntSet(pte: nat, val: int): (p: nat)
    requires pte < U64_LIMIT
    ensures p < U64_LIMIT
    ensures forall i: nat :: !Reserved(i) ==> Bit(p, i) == Bit(pte, i)
    ensures Tblcnt(p) == val % TBLCNT_LIMIT
  {
    var v := val % U64_LIMIT;
    var p := Or(IopteVal(pte), CountField(v));
    assert forall i: nat :: Bit(p, i) == ((Bit(pte, i) && !Reserved(i)) || Bit(CountField(v), i)) by {
      forall i: nat
        ensures Bit(p, i) == ((Bit(pte, i) && !Reserved(i)) || Bit(CountField(v), i))
      {
        BitOr(IopteVal(pte), CountField(v), i);
      }
    }
    Powers();
    assert Tblcnt(p) == v % TBLCNT_LIMIT by {
      forall j: nat
        ensures Bit(Tblcnt(p), j) == Bit(v % Pow2(TBLCNT_BITS), j)
      {
        BitMod(v, TBLCNT_BITS, j);
      }
      BitsEqual(Tblcnt(p), v % Pow2(TBLCNT_BITS));
    }
    CountOfWord(val);
    assert p < U64_LIMIT by {
      forall i: nat | Bit(p, i)
        ensures i < 64
      {
        if i >= 64 { WordBits(pte, i); }
      }
      WordFromBits(p);
    }
    p
  }

  /** `iopte_tblcnt_add`. */
  function TblcntAdd(pte: nat, cnt: int): (p: nat)
    requires pte < U64_LIMIT
    ensures p < U64_LIMIT
    ensures forall i: nat :: !Reserved(i) ==> Bit(p, i) == Bit(pte, i)
    ensures Tblcnt(p) == (Tblcnt(pte) + cnt) % TBLCNT_LIMIT
  {
    TblcntSet(pte, Tblcnt(pte) + cnt)
  }

  /** `iopte_tblcnt_sub`: the unsigned 64-bit difference, narrowed to the
      `int` parameter of `iopte_tblcnt_set`, has the same low 17 bits as the
      mathematical one. */
  function TblcntSub(pte: nat, cnt: int): (p: nat)
    requires pte < U64_LIMIT
    ensures p < U64_LIMIT
    ensures forall i: nat :: !Reserved(i) ==> Bit(p, i) == Bit(pte, i)
    ensures Tblcnt(p) == (Tblcnt(pte) - cnt) % TBLCNT_LIMIT
  {
    TblcntSet(pte, Tblcnt(pte) - cnt)
  }

  /** Writing a count and reading it back gives the count for every count
      the 17 bits can hold, and the descriptor outside the count bits is
      untouched. */
  lemma TblcntRoundTrip(pte: nat, val: int)
    requires pte < U64_LIMIT
    requires 0 <= val < TBLCNT_LIMIT
    ensures Tblcnt(TblcntSet(pte, val)) == val
    ensures IopteVal(TblcntSet(pte, val)) == IopteVal(pte)
  {
    var p := TblcntSet(pte, val);
    forall i: nat
      ensures Bit(IopteVal(p), i) == Bit(IopteVal(pte), i)
    {
    }
    BitsEqual(IopteVal(p), IopteVal(pte));
  }

  // ---------------------------------------------------------------------
  // Descriptor type and output address

  /** Bits 1..0: the descriptor type. */
  function PteType(pte: nat): (t: nat)
    ensures t == (if Bit(pte, 0) then 1 else 0) + (if Bit(pte, 1) then 2 else 0)
  {
    var t := And(pte, PTE_TYPE_MASK);
    assert IsPow2(4) && Pow2(2) == 4;
    AndPow2Mask(pte, 4);
    HalfMod(pte, 2);
    assert Bit(pte, 1) == ((pte / 2) % 2 == 1);
    t
  }

  /** A leaf: a page descriptor at the last level, a block descriptor
      above it. */
  predicate IsLeaf(pte: nat, lvl: nat) {
    if lvl == MAX_LEVELS - 1 then PteType(pte) == PTE_TYPE_PAGE else PteType(pte) == PTE_TYPE_BLOCK
  }

  /** `iopte_to_pfn`: the output address bits below 48, as a frame number
      of the granule. */
  function PteToPfn(pte: nat, pgShift: nat): (pfn: nat)
    ensures forall j: nat :: Bit(pfn, j) == (j + pgShift < MAX_ADDR_BITS && Bit(pte, j + pgShift))
  {
    var m := And(pte, ADDR_MASK);
    assert forall j: nat :: Bit(Shr(m, pgShift), j) == (j + pgShift < MAX_ADDR_BITS && Bit(pte, j + pgShift)) by {
      forall j: nat
        ensures Bit(Shr(m, pgShift), j) == (j + pgShift < MAX_ADDR_BITS && Bit(pte, j + pgShift))
      {
        BitShr(m, pgShift, j);
        BitAnd(pte, ADDR_MASK, j + pgShift);
        MaskBits(j + pgShift);
      }
    }
    Shr(m, pgShift)
  }

  /** `pfn_to_iopte`: a frame number placed back at the granule's shift,
      cut at 48 bits. */
  function PfnToIopte(pfn: nat, pgShift: nat): (bits: nat)
    ensures forall i: nat :: Bit(bits, i) == (pgShift <= i < MAX_ADDR_BITS && Bit(pfn, i - pgShift))
  {
    var b := And(Shl(pfn, pgShift), ADDR_MASK);
    assert forall i: nat :: Bit(b, i) == (pgShift <= i < MAX_ADDR_BITS && Bit(pfn, i - pgShift)) by {
      forall i: nat
        ensures Bit(b, i) == (pgShift <= i < MAX_ADDR_BITS && Bit(pfn, i - pgShift))
      {
        BitAnd(Shl(pfn, pgShift), ADDR_MASK, i);
        BitShl(pfn, pgShift, i);
        MaskBits(i);
      }
    }
    b
  }

  /** The output address a leaf descriptor holds: its bits from the granule
      shift up to bit 47, and nothing else. */
  function OutputAddress(pte: nat, pgShift: nat): (pa: nat)
    ensures forall i: nat :: Bit(pa, i) == (pgShift <= i < MAX_ADDR_BITS && Bit(pte, i))
    ensures pa < ADDR_LIMIT
  {
    var pa := Shl(PteToPfn(pte, pgShift), pgShift);
    assert forall i: nat :: Bit(pa, i) == (pgShift <= i < MAX_ADDR_BITS && Bit(pte, i)) by {
      forall i: nat
        ensures Bit(pa, i) == (pgShift <= i < MAX_ADDR_BITS && Bit(pte, i))
      {
        BitShl(PteToPfn(pte, pgShift), pgShift, i);
      }
    }
    BelowFromBits(pa, MAX_ADDR_BITS);
    Powers();
    pa
  }

  // ---------------------------------------------------------------------
  // Attributes

  /** `iopte_prot`: a leaf's attributes. */
  function PteProt(pte: nat): (a: nat)
    ensures forall i: nat :: Bit(a, i) == (AttrBit(i) && Bit(pte, i))
  {
    var a := And(pte, PTE_ATTR_MASK);
    assert forall i: nat :: Bit(a, i) == (AttrBit(i) && Bit(pte, i)) by {
      forall i: nat
        ensures Bit(a, i) == (AttrBit(i) && Bit(pte, i))
      {
        BitAnd(pte, PTE_ATTR_MASK, i);
        MaskBits(i);
      }
    }
    a
  }

  /** Bits 5..2 of a stage-2 descriptor: MemAttr[3:0]. */
  function MemAttr(pte: nat): nat {
    Shr(pte, 2) % 16
  }

  /** The stage-1 attribute bits for `p`: nG (bit 11), AP[2] read-only
      (bit 7) unless writable, AP[1] unprivileged access (bit 6) unless
      privileged, and AttrIndx bits 0 and 1 (bits 2 and 3) selecting the
      cacheable and the device MAIR entries. */
  predicate S1Bit(p: Prot, i: nat) {
    i == 11 || (i == 7 && !p.write) || (i == 6 && !p.priv) || (i == 2 && p.cache) || (i == 3 && p.device)
  }

  /** The stage-2 memory type for `p`: Device-nGnRE (0b0001) for
      IOMMU_DEVICE, otherwise Normal write-back (0b1111) when cacheable and
      Normal non-cacheable (0b0101) when not. */
  function S2MemType(p: Prot): (t: nat)
    ensures t < 16
    ensures t == 1 <==> p.device
  {
    if p.device then 1 else if p.cache then 0xf else 5
  }

  /** The stage-2 attribute bits for `p`: S2AP[0] read (bit 6), S2AP[1]
      write (bit 7), and the memory type in MemAttr, bits 5..2. */
  predicate S2Bit(p: Prot, i: nat) {
    (i == 6 && p.read) || (i == 7 && p.write) || (2 <= i < 6 && Bit(S2MemType(p), i - 2))
  }

  /** The attribute bits of a leaf for `p`: the stage's own bits, and both
      execute-never bits for IOMMU_NOEXEC. */
  predicate ProtBit(stage1: bool, p: Prot, i: nat) {
    (if stage1 then S1Bit(p, i) else S2Bit(p, i)) || ((i == 53 || i == 54) && p.noexec)
  }

  /** The stage-1 permissions and attribute index. */
  function S1Attrs(p: Prot): (a: nat)
    ensures forall i: nat :: Bit(a, i) == S1Bit(p, i)
  {
    var ap :=
      if p.write then (if p.priv then PTE_AP_PRIV_RW else PTE_AP_RW)
      else (if p.priv then PTE_AP_PRIV_RO else PTE_AP_RO);
    var a0 := Or(PTE_NG, ap);
    var a1 := if p.cache then Or(a0, Shl(MAIR_ATTR_IDX_CACHE, PTE_ATTRINDX_SHIFT)) else a0;
    var a2 := if p.device then Or(a1, Shl(MAIR_ATTR_IDX_DEV, PTE_ATTRINDX_SHIFT)) else a1;
    assert forall i: nat :: Bit(a2, i) == S1Bit(p, i) by {
      forall i: nat
        ensures Bit(a2, i) == S1Bit(p, i)
      {
        PermBits(i);
        FlagBits(i);
        BitOr(PTE_NG, ap, i);
        BitOr(a0, Shl(MAIR_ATTR_IDX_CACHE, PTE_ATTRINDX_SHIFT), i);
        BitOr(a1, Shl(MAIR_ATTR_IDX_DEV, PTE_ATTRINDX_SHIFT), i);
      }
    }
    a2
  }

  /** The stage-2 memory type as the code writes it: Normal write-back or
      Normal non-cacheable, with the Device encoding ORed on top for
      IOMMU_DEVICE. */
  function S2MemAttrAsWritten(p: Prot): (m: nat)
    ensures forall i: nat :: Bit(m, i) == (i == 2 || i == 4 || ((i == 3 || i == 5) && p.cache))
  {
    var m0 := if p.cache then PTE_MEMATTR_OIWB else PTE_MEMATTR_NC;
    var m := if p.device then Or(m0, PTE_MEMATTR_DEV) else m0;
    assert forall i: nat :: Bit(m, i) == (i == 2 || i == 4 || ((i == 3 || i == 5) && p.cache)) by {
      forall i: nat
        ensures Bit(m, i) == (i == 2 || i == 4 || ((i == 3 || i == 5) && p.cache))
      {
        PermBits(i);
        BitOr(m0, PTE_MEMATTR_DEV, i);
      }
    }
    m
  }

  /** Device memory (MemAttr 0b0001, Device-nGnRE) encodes a 1 in bit 0 only,
      and both Normal encodings (0b1111 write-back, 0b0101 non-cacheable)
      already have that bit: ORing it in changes nothing, so IOMMU_DEVICE
      has no effect on a stage-2 descriptor. */
  lemma S2DeviceIgnoredAsWritten(p: Prot)
    ensures S2MemAttrAsWritten(p.(device := true)) == S2MemAttrAsWritten(p.(device := false))
  {
    var a, b := S2MemAttrAsWritten(p.(device := true)), S2MemAttrAsWritten(p.(device := false));
    forall i: nat
      ensures Bit(a, i) == Bit(b, i)
    {
    }
    BitsEqual(a, b);
  }

  /** The memory type the code writes is Normal for every `p`, also for
      IOMMU_DEVICE: write-back when cacheable, non-cacheable when not. */
  lemma S2MemTypeAsWritten(p: Prot)
    ensures MemAttr(S2MemAttrAsWritten(p)) == (if p.cache then 0xf else 5)
  {
    var m, c := S2MemAttrAsWritten(p), if p.cache then 0xf else 5;
    forall i: nat | 2 <= i < 6
      ensures Bit(m, i) == Bit(c, i - 2)
    {
      SmallBits(i - 2);
    }
    assert Pow2(4) == 16;
    FieldFromBits(m, 2, 4, c);
  }

  /** The stage-2 memory type placed in MemAttr. */
  function S2MemAttr(p: Prot): (m: nat)
    ensures forall i: nat :: Bit(m, i) == (2 <= i < 6 && Bit(S2MemType(p), i - 2))
  {
    var m := if p.device then PTE_MEMATTR_DEV else if p.cache then PTE_MEMATTR_OIWB else PTE_MEMATTR_NC;
    assert forall i: nat :: Bit(m, i) == (2 <= i < 6 && Bit(S2MemType(p), i - 2)) by {
      forall i: nat
        ensures Bit(m, i) == (2 <= i < 6 && Bit(S2MemType(p), i - 2))
      {
        PermBits(i);
        if 2 <= i { SmallBits(i - 2); }
      }
    }
    m
  }

  /** Stage-2 permissions and memory type. */
  function S2Attrs(p: Prot): (a: nat)
    ensures forall i: nat :: Bit(a, i) == S2Bit(p, i)
  {
    var a0 := if p.read then Or(PTE_HAP_FAULT, PTE_HAP_READ) else PTE_HAP_FAULT;
    var a1 := if p.write then Or(a0, PTE_HAP_WRITE) else a0;
    var a := Or(a1, S2MemAttr(p));
    assert forall i: nat :: Bit(a, i) == S2Bit(p, i) by {
      forall i: nat
        ensures Bit(a, i) == S2Bit(p, i)
      {
        PermBits(i);
        BitOr(PTE_HAP_FAULT, PTE_HAP_READ, i);
        BitOr(a0, PTE_HAP_WRITE, i);
        BitOr(a1, S2MemAttr(p), i);
      }
    }
    a
  }

  /** `arm_lpae_prot_to_pte`: the attribute bits of a leaf for a stage-1 or
      stage-2 table. */
  function ProtToPte(stage1: bool, p: Prot): (pte: nat)
    ensures forall i: nat :: Bit(pte, i) == ProtBit(stage1, p, i)
  {
    var a := if stage1 then S1Attrs(p) else S2Attrs(p);
    var pte := if p.noexec then Or(a, PTE_XN) else a;
    assert forall i: nat :: Bit(pte, i) == ProtBit(stage1, p, i) by {
      forall i: nat
        ensures Bit(pte, i) == ProtBit(stage1, p, i)
      {
        BitOr(a, PTE_XN, i);
        FlagBits(i);
      }
    }
    pte
  }

  /** Only attribute bits are set, execute-never exactly for IOMMU_NOEXEC,
      and neither the shareability nor the access flag, which
      `arm_lpae_init_pte` adds. */
  lemma ProtToPteAttrs(stage1: bool, p: Prot)
    ensures forall i: nat :: Bit(ProtToPte(stage1, p), i) ==> AttrBit(i)
    ensures Bit(ProtToPte(stage1, p), 53) == p.noexec && Bit(ProtToPte(stage1, p), 54) == p.noexec
    ensures !Bit(ProtToPte(stage1, p), 8) && !Bit(ProtToPte(stage1, p), 9) && !Bit(ProtToPte(stage1, p), 10)
  {
    var pte := ProtToPte(stage1, p);
    forall i: nat | Bit(pte, i)
      ensures AttrBit(i)
    {
      if i >= 2 { SmallBits(i - 2); }
    }
  }

  /** At stage 1 the entry is not global, read-only exactly when
      IOMMU_WRITE is missing, EL0-accessible exactly when IOMMU_PRIV is
      missing, and its attribute index picks the cacheable entry for
      IOMMU_CACHE and the device entry for IOMMU_DEVICE. */
  lemma ProtToPteStage1(p: Prot)
    ensures var pte := ProtToPte(true, p);
      Bit(pte, 11) && (Bit(pte, 7) <==> !p.write) && (Bit(pte, 6) <==> !p.priv)
      && (Bit(pte, 2) <==> p.cache) && (Bit(pte, 3) <==> p.device) && !Bit(pte, 4) && !Bit(pte, 5)
  {
  }

  /** At stage 2 read and write access follow IOMMU_READ and IOMMU_WRITE. */
  lemma ProtToPteStage2(p: Prot)
    ensures var pte := ProtToPte(false, p);
      (Bit(pte, 6) <==> p.read) && (Bit(pte, 7) <==> p.write) && !Bit(pte, 11)
  {
  }

  /** At stage 2 the memory type is Device for IOMMU_DEVICE, Normal
      write-back for IOMMU_CACHE, and Normal non-cacheable otherwise. */
  lemma ProtToPteMemType(p: Prot)
    ensures MemAttr(ProtToPte(false, p)) == (if p.device then 1 else if p.cache then 0xf else 5)
  {
    var pte, c := ProtToPte(false, p), S2MemType(p);
    forall i: nat | 2 <= i < 6
      ensures Bit(pte, i) == Bit(c, i - 2)
    {
    }
    assert Pow2(4) == 16;
    FieldFromBits(pte, 2, 4, c);
  }

  // ---------------------------------------------------------------------
  // Leaf and table descriptors

  /** Bit `i` of the leaf below. */
  predicate LeafBit(prot: nat, ns: bool, lvl: nat, paddr: nat, pgShift: nat, i: nat) {
    Bit(prot, i) || i == 0 || (i == 1 && lvl == MAX_LEVELS - 1) || (i == 5 && ns)
    || i == 8 || i == 9 || i == 10 || (pgShift <= i < MAX_ADDR_BITS && Bit(paddr, i))
  }

  /** The leaf `arm_lpae_init_pte` writes: the attributes `prot`, NS when
      the table is for the non-secure world, the page type at the last
      level and the block type above it, the access flag, inner
      shareability, and the output address bits of `paddr`. */
  function LeafPte(prot: nat, ns: bool, lvl: nat, paddr: nat, pgShift: nat): (pte: nat)
    ensures forall i: nat :: Bit(pte, i) == LeafBit(prot, ns, lvl, paddr, pgShift, i)
  {
    var p0 := if ns then Or(prot, PTE_NS) else prot;
    var p1 := LeafFlags(p0, lvl == MAX_LEVELS - 1);
    var pfn := Shr(paddr, pgShift);
    var pte := Or(p1, PfnToIopte(pfn, pgShift));
    assert forall i: nat :: Bit(pte, i) == LeafBit(prot, ns, lvl, paddr, pgShift, i) by {
      forall i: nat
        ensures Bit(pte, i) == LeafBit(prot, ns, lvl, paddr, pgShift, i)
      {
        FlagBits(i);
        BitOr(prot, PTE_NS, i);
        BitOr(p1, PfnToIopte(pfn, pgShift), i);
        if pgShift <= i { BitShr(paddr, pgShift, i - pgShift); }
      }
    }
    pte
  }

  /** The type (page or block), access flag and inner shareability added
      to the attributes `p0` of a leaf. */
  function LeafFlags(p0: nat, page: bool): (p1: nat)
    ensures forall i: nat :: Bit(p1, i) == (Bit(p0, i) || i == 0 || (i == 1 && page) || i == 8 || i == 9 || i == 10)
  {
    var ty := if page then PTE_TYPE_PAGE else PTE_TYPE_BLOCK;
    var p1 := Or(Or(Or(p0, ty), PTE_AF), PTE_SH_IS);
    assert forall i: nat :: Bit(p1, i) == (Bit(p0, i) || i == 0 || (i == 1 && page) || i == 8 || i == 9 || i == 10) by {
      forall i: nat
        ensures Bit(p1, i) == (Bit(p0, i) || i == 0 || (i == 1 && page) || i == 8 || i == 9 || i == 10)
      {
        FlagBits(i);
        SmallBits(i);
        BitOr(p0, ty, i);
        BitOr(Or(p0, ty), PTE_AF, i);
        BitOr(Or(Or(p0, ty), PTE_AF), PTE_SH_IS, i);
      }
    }
    p1
  }

  /** Attribute bits and nothing else, as `prot_to_pte` and `iopte_prot`
      produce. */
  ghost predicate AttrOnly(prot: nat) {
    forall i: nat :: Bit(prot, i) ==> AttrBit(i)
  }

  /** `arm_lpae_init_pte`: refuses with EEXIST to overwrite a valid entry;
      otherwise the new entry is a valid leaf for its level, with the
      access flag and inner shareability set, NS set for a non-secure
      table, every attribute of `prot` kept, and the output address of
      `paddr`. */
  function InitPte(cur: nat, prot: nat, ns: bool, lvl: nat, paddr: nat, pgShift: nat): (r: Result<nat>)
    requires AttrOnly(prot) && 12 <= pgShift
    ensures r.Err? <==> Bit(cur, PTE_VALID_BIT)
    ensures r.Err? ==> r.errno == EEXIST
    ensures r.Ok? ==> (
      var pte := r.value;
      Bit(pte, PTE_VALID_BIT) && IsLeaf(pte, lvl) && Bit(pte, 10) && Bit(pte, 8) && Bit(pte, 9)
      && (ns ==> Bit(pte, 5))
      && (forall i: nat :: AttrBit(i) && Bit(prot, i) ==> Bit(pte, i))
      && (forall i: nat :: AttrBit(i) && i != 5 && !(8 <= i <= 10) ==> Bit(pte, i) == Bit(prot, i))
      && OutputAddress(pte, pgShift) == OutputAddress(paddr, pgShift))
  {
    if Bit(cur, PTE_VALID_BIT) then Err(EEXIST)
    else
      var pte := LeafPte(prot, ns, lvl, paddr, pgShift);
      assert IsLeaf(pte, lvl) by {
        assert Bit(pte, 0) && (Bit(pte, 1) <==> lvl == MAX_LEVELS - 1);
      }
      assert OutputAddress(pte, pgShift) == OutputAddress(paddr, pgShift) by {
        forall i: nat
          ensures Bit(OutputAddress(pte, pgShift), i) == Bit(OutputAddress(paddr, pgShift), i)
        {
        }
        BitsEqual(OutputAddress(pte, pgShift), OutputAddress(paddr, pgShift));
      }
      Ok(pte)
  }
}
