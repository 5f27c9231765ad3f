/** The shape of an LPAE page table: which page sizes it keeps, how many
    levels it walks, how large its top-level table (the pgd) is, and how
    an input address is cut into one table index per level. */
module LpaeGeometry {
  import opened Wrappers
  import opened Arith
  import opened Bits
  import opened LpaePte

  /** `ilog2(sizeof(arm_lpae_iopte))`: a descriptor is 8 bytes. */
  const PTE_SIZE_SHIFT: nat := 3
  const S2_MAX_CONCAT_PAGES: nat := 16

  /** Page sizes as shifts: 4K, 16K and 64K granules and the block sizes
      their translation regimes allow. */
  const SHIFT_4K: nat := 12
  const SHIFT_16K: nat := 14
  const SHIFT_64K: nat := 16
  const SHIFT_2M: nat := 21
  const SHIFT_32M: nat := 25
  const SHIFT_512M: nat := 29
  const SHIFT_1G: nat := 30

  /** The granules the format supports. */
  const GRANULES: set<nat> := {SHIFT_4K, SHIFT_16K, SHIFT_64K}

  /** The output sizes the TCR's PS/IPS field can encode. */
  const OAS_SIZES: set<nat> := {32, 36, 40, 42, 44, 48}

  datatype Format = Arm64S1 | Arm64S2 | Arm32S1 | Arm32S2

  /** The part of `io_pgtable_cfg` the allocator reads and writes.  The page
      size bitmap is held as the set of its bit positions: size 2^k is
      supported iff k is in the set. */
  datatype Cfg = Cfg(pgsizes: set<nat>, ias: nat, oas: nat)

  /** The geometry fields of `arm_lpae_io_pgtable`. */
  datatype Geometry = Geometry(pgShift: nat, bpl: nat, levels: nat, pgdSize: nat)

  /** What a successful allocation settles on. */
  datatype Setup = Setup(cfg: Cfg, g: Geometry)

  /** The bitmap is an unsigned long. */
  predicate BitmapOk(s: set<nat>)
  {
    forall k :: k in s ==> k < 64
  }

  // ---------------------------------------------------------------------
  // Choosing the granule

  /** `__fls` of the sizes below 2^k: the largest shift below `k`. */
  function HighestBelow(s: set<nat>, k: nat): (r: Option<nat>)
    ensures r.Some? ==> r.value in s && r.value < k
    ensures r.Some? ==> forall j :: r.value < j < k ==> j !in s
    ensures r.None? ==> forall j :: j < k ==> j !in s
  {
    if k == 0 then None
    else if k - 1 in s then Some(k - 1)
    else HighestBelow(s, k - 1)
  }

  /** `__ffs` of the sizes from 2^k up: the smallest shift at least `k`. */
  function LowestFrom(s: set<nat>, k: nat): (r: Option<nat>)
    requires BitmapOk(s)
    ensures r.Some? ==> r.value in s && k <= r.value
    ensures r.Some? ==> forall j :: k <= j < r.value ==> j !in s
    ensures r.None? ==> forall j :: k <= j ==> j !in s
    decreases 64 - k
  {
    if k >= 64 then None
    else if k in s then Some(k)
    else LowestFrom(s, k + 1)
  }

  /** The granule `arm_lpae_restrict_pgsizes` settles on: the CPU page size
      if supported, else the largest smaller size, else the smallest larger
      one; none for an empty bitmap. */
  function Granule(s: set<nat>, pageShift: nat): (r: Option<nat>)
    requires BitmapOk(s)
    ensures r.Some? ==> r.value in s
    ensures r.None? <==> s == {}
    ensures pageShift in s ==> r == Some(pageShift)
    ensures r.Some? && r.value < pageShift ==> forall j :: r.value < j < pageShift ==> j !in s
    ensures r.Some? && r.value > pageShift ==> forall j :: j < r.value ==> j !in s
  {
    if pageShift in s then Some(pageShift)
    else
      var below := HighestBelow(s, pageShift);
      if below.Some? then below
      else
        var above := LowestFrom(s, pageShift);
        if above.None? then None else above
  }

  /** The page and block shifts the translation regime of granule `g`
      allows. */
  function Family(g: nat): (f: set<nat>)
    ensures g in GRANULES ==> g in f && forall k :: k in f ==> g <= k
    ensures g !in GRANULES ==> f == {}
  {
    if g == SHIFT_4K then {SHIFT_4K, SHIFT_2M, SHIFT_1G}
    else if g == SHIFT_16K then {SHIFT_16K, SHIFT_32M}
    else if g == SHIFT_64K then {SHIFT_64K, SHIFT_512M}
    else {}
  }

  /** `arm_lpae_restrict_pgsizes`: keep the sizes the chosen granule's
      regime supports, or nothing when the granule is none of 4K, 16K and
      64K. */
  function RestrictPgsizes(s: set<nat>, pageShift: nat): (r: set<nat>)
    requires BitmapOk(s)
    ensures r <= s && BitmapOk(r)
    ensures Granule(s, pageShift).None? ==> r == {}
    ensures Granule(s, pageShift).Some? ==>
      var g := Granule(s, pageShift).value;
      (forall k :: k in r ==> k in Family(g)) &&
      (forall k :: k in s && k in Family(g) ==> k in r) &&
      (g in GRANULES <==> g in r)
  {
    match Granule(s, pageShift)
    case None => {}
    case Some(g) => s * Family(g)
  }

  /** The granule of a restricted bitmap is the one it was restricted to, so
      restricting twice changes nothing. */
  lemma RestrictIdempotent(s: set<nat>, pageShift: nat)
    requires BitmapOk(s)
    ensures RestrictPgsizes(RestrictPgsizes(s, pageShift), pageShift) == RestrictPgsizes(s, pageShift)
  {
    var r := RestrictPgsizes(s, pageShift);
    if r != {} {
      var g := Granule(s, pageShift).value;
      assert g in r;
      var g' := Granule(r, pageShift).value;
      assert g' in s;
      assert g' == g;
      assert r * Family(g') == r;
    }
  }

  // ---------------------------------------------------------------------
  // Allocation

  /** `DIV_ROUND_UP(va_bits, bits_per_level)`: the levels needed to
      resolve the address bits above the granule. */
  function Levels(pgShift: nat, ias: nat): nat
    requires pgShift in GRANULES && pgShift < ias
  {
    var bpl := pgShift - PTE_SIZE_SHIFT;
    (ias - pgShift + bpl - 1) / bpl
  }

  /** The address bits the levels below the pgd leave over to it. */
  function PgdBits(pgShift: nat, ias: nat): int
    requires pgShift in GRANULES && pgShift < ias
  {
    (ias - pgShift) - (pgShift - PTE_SIZE_SHIFT) * (Levels(pgShift, ias) - 1)
  }

  /** The geometry `arm_lpae_alloc_pgtable` derives for granule shift
      `pgShift` and input size `ias`. */
  function Derive(pgShift: nat, ias: nat): (g: Geometry)
    requires pgShift in GRANULES && pgShift < ias
    ensures g.pgShift == pgShift && g.bpl + PTE_SIZE_SHIFT == pgShift
  {
    Geometry(pgShift, pgShift - PTE_SIZE_SHIFT, Levels(pgShift, ias),
             Shl(1, PgdBits(pgShift, ias) + PTE_SIZE_SHIFT))
  }

  /** What `arm_lpae_alloc_pgtable` needs of a configuration: once the
      sizes are restricted a granule is left, neither address size exceeds
      48 bits, and the input addresses have bits above the granule. */
  predicate Allocatable(cfg: Cfg, pageShift: nat)
    requires BitmapOk(cfg.pgsizes)
  {
    RestrictPgsizes(cfg.pgsizes, pageShift) * GRANULES != {}
    && cfg.ias <= MAX_ADDR_BITS && cfg.oas <= MAX_ADDR_BITS
    && Granule(cfg.pgsizes, pageShift).Some? && Granule(cfg.pgsizes, pageShift).value < cfg.ias
  }

  /** The 32-bit formats' configuration: only the 4K granule's sizes. */
  function Only4K(cfg: Cfg): (c: Cfg)
    ensures c.ias == cfg.ias && c.oas == cfg.oas && c.pgsizes <= cfg.pgsizes
    ensures BitmapOk(cfg.pgsizes) ==> BitmapOk(c.pgsizes)
    ensures forall k :: k in c.pgsizes <==> k in cfg.pgsizes && k in {SHIFT_4K, SHIFT_2M, SHIFT_1G}
  {
    cfg.(pgsizes := cfg.pgsizes * Family(SHIFT_4K))
  }

  /** `arm_lpae_alloc_pgtable`: restrict the sizes, reject configurations
      with no usable granule or an address size above 48 bits, then derive
      the geometry from the smallest remaining size. */
  function LpaeAlloc(cfg: Cfg, pageShift: nat): (r: Option<Setup>)
    requires BitmapOk(cfg.pgsizes)
    ensures r.Some? <==> Allocatable(cfg, pageShift)
    ensures cfg.ias > MAX_ADDR_BITS || cfg.oas > MAX_ADDR_BITS ==> r.None?
    ensures RestrictPgsizes(cfg.pgsizes, pageShift) * GRANULES == {} ==> r.None?
    ensures r.Some? ==>
      Granule(cfg.pgsizes, pageShift) == Some(r.value.g.pgShift) &&
      r.value.g.pgShift in GRANULES && r.value.g.pgShift < cfg.ias <= MAX_ADDR_BITS &&
      r.value.cfg == cfg.(pgsizes := RestrictPgsizes(cfg.pgsizes, pageShift)) &&
      r.value.g == Derive(r.value.g.pgShift, cfg.ias)
  {
    var bm := RestrictPgsizes(cfg.pgsizes, pageShift);
    if bm * GRANULES == {} then None
    else if cfg.ias > MAX_ADDR_BITS then None
    else if cfg.oas > MAX_ADDR_BITS then None
    else
      var gran := Granule(cfg.pgsizes, pageShift).value;
      assert gran in bm * GRANULES;
      var pgShift := LowestFrom(bm, 0).value;
      assert pgShift == gran;
      if cfg.ias <= pgShift then None
      else Some(Setup(cfg.(pgsizes := bm), Derive(pgShift, cfg.ias)))
  }

  /** `arm_64_lpae_alloc_pgtable_s1`, leaving out TCR and MAIR: the output
      size must be one the TCR can encode. */
  function AllocS1(cfg: Cfg, pageShift: nat): (r: Option<Setup>)
    requires BitmapOk(cfg.pgsizes)
    ensures r.Some? <==> Allocatable(cfg, pageShift) && cfg.oas in OAS_SIZES
    ensures r.Some? ==> SetupFrom(r.value, cfg) && cfg.oas in OAS_SIZES
    ensures r.Some? ==> Granule(cfg.pgsizes, pageShift) == Some(r.value.g.pgShift) && r.value.g.pgShift < cfg.ias
                        && r.value.g == Derive(r.value.g.pgShift, cfg.ias)
  {
    match LpaeAlloc(cfg, pageShift)
    case None => None
    case Some(st) => if cfg.oas in OAS_SIZES then Some(st) else None
  }

  /** A setup made for `cfg`: the same address sizes, a subset of its page
      sizes that holds the granule and only sizes of the granule's
      regime. */
  predicate SetupFrom(st: Setup, cfg: Cfg)
  {
    st.cfg.ias == cfg.ias && st.cfg.oas == cfg.oas && st.cfg.pgsizes <= cfg.pgsizes &&
    st.g.pgShift in st.cfg.pgsizes && st.g.pgShift in GRANULES &&
    (forall k :: k in st.cfg.pgsizes ==> k in Family(st.g.pgShift))
  }

  /** Stage 2 concatenates up to 16 pgd pages at level 1 instead of walking
      a fourth level. */
  function Concatenate(g: Geometry): Geometry
  {
    if g.levels == MAX_LEVELS then
      var pgdPages := Shr(g.pgdSize, PTE_SIZE_SHIFT);
      if pgdPages <= S2_MAX_CONCAT_PAGES then
        g.(pgdSize := Shl(pgdPages, g.pgShift), levels := g.levels - 1)
      else g
    else g
  }

  /** `arm_64_lpae_alloc_pgtable_s2`, leaving out VTCR. */
  function AllocS2(cfg: Cfg, pageShift: nat): (r: Option<Setup>)
    requires BitmapOk(cfg.pgsizes)
    ensures r.Some? <==> Allocatable(cfg, pageShift) && cfg.oas in OAS_SIZES
    ensures r.Some? ==> SetupFrom(r.value, cfg) && cfg.oas in OAS_SIZES
    ensures r.Some? ==> Granule(cfg.pgsizes, pageShift) == Some(r.value.g.pgShift) && r.value.g.pgShift < cfg.ias
                        && r.value.g == Concatenate(Derive(r.value.g.pgShift, cfg.ias))
  {
    match LpaeAlloc(cfg, pageShift)
    case None => None
    case Some(st) =>
      if cfg.oas in OAS_SIZES then Some(st.(g := Concatenate(st.g))) else None
  }

  /** The 32-bit formats cap the address sizes and allow only the 4K
      granule's sizes before handing over to the 64-bit allocators. */
  function Alloc32(cfg: Cfg, pageShift: nat, maxIas: nat, stage1: bool): (r: Option<Setup>)
    requires BitmapOk(cfg.pgsizes)
    ensures r.Some? <==> cfg.ias <= maxIas && cfg.oas <= 40 && Allocatable(Only4K(cfg), pageShift) && cfg.oas in OAS_SIZES
    ensures r.Some? ==> SetupFrom(r.value, cfg) && cfg.ias <= maxIas && cfg.oas <= 40
                        && r.value.g.pgShift == SHIFT_4K
  {
    if cfg.ias > maxIas || cfg.oas > 40 then None
    else
      var cfg' := Only4K(cfg);
      var r := if stage1 then AllocS1(cfg', pageShift) else AllocS2(cfg', pageShift);
      if r.Some? then
        FourKGranule(r.value.g.pgShift);
        r
      else r
  }

  /** The only granule among the 4K regime's sizes is 4K itself. */
  lemma FourKGranule(k: nat)
    requires k in GRANULES && k in Family(SHIFT_4K)
    ensures k == SHIFT_4K
  {
  }

  /** The allocator behind each format's init function.  `memOk` says
      whether the allocation of the table structure and of the pgd pages
      succeed; either failing gives NULL. */
  function AllocPgtable(fmt: Format, cfg: Cfg, pageShift: nat, memOk: bool): (r: Option<Setup>)
    requires BitmapOk(cfg.pgsizes)
    ensures (fmt == Arm64S1 || fmt == Arm64S2) ==>
              (r.Some? <==> memOk && Allocatable(cfg, pageShift) && cfg.oas in OAS_SIZES)
    ensures fmt == Arm32S1 ==>
              (r.Some? <==> memOk && cfg.ias <= 32 && cfg.oas <= 40 && Allocatable(Only4K(cfg), pageShift) && cfg.oas in OAS_SIZES)
    ensures fmt == Arm32S2 ==>
              (r.Some? <==> memOk && cfg.ias <= 40 && cfg.oas <= 40 && Allocatable(Only4K(cfg), pageShift) && cfg.oas in OAS_SIZES)
    ensures !memOk ==> r.None?
    ensures cfg.oas !in OAS_SIZES ==> r.None?
    ensures cfg.ias > MAX_ADDR_BITS ==> r.None?
    ensures fmt == Arm32S1 && cfg.ias > 32 ==> r.None?
    ensures (fmt == Arm32S1 || fmt == Arm32S2) && (cfg.ias > 40 || cfg.oas > 40) ==> r.None?
    ensures r.Some? ==>
      var st := r.value;
      SetupFrom(st, cfg) && ((fmt == Arm32S1 || fmt == Arm32S2) ==> st.g.pgShift == SHIFT_4K)
  {
    if !memOk then None
    else
      var r := match fmt
        case Arm64S1 => AllocS1(cfg, pageShift)
        case Arm64S2 => AllocS2(cfg, pageShift)
        case Arm32S1 => Alloc32(cfg, pageShift, 32, true)
        case Arm32S2 => Alloc32(cfg, pageShift, 40, false);
      r
  }

  // ---------------------------------------------------------------------
  // Levels, shifts and indices

  /** A granule of 4K, 16K or 64K with 8-byte descriptors, walking one to
      four levels. */
  predicate Shaped(g: Geometry)
  {
    g.pgShift in GRANULES && g.bpl + PTE_SIZE_SHIFT == g.pgShift && 1 <= g.levels <= MAX_LEVELS
  }

  /** `ARM_LPAE_START_LVL`. */
  function Start(g: Geometry): nat
    requires g.levels <= MAX_LEVELS
  {
    MAX_LEVELS - g.levels
  }

  /** `ARM_LPAE_LVL_SHIFT`: where the index bits of level `l` begin; the
      number of levels cancels out. */
  function LvlShift(l: nat, g: Geometry): (s: nat)
    requires l < MAX_LEVELS && g.levels <= MAX_LEVELS
    ensures s == (MAX_LEVELS - 1 - l) * g.bpl + g.pgShift
  {
    var k: int := g.levels - (l - Start(g) + 1);
    assert k == MAX_LEVELS - 1 - l;
    k * g.bpl + g.pgShift
  }

  /** The level a table entry at level `l` points to. */
  function NextLevel(l: nat): nat
  {
    l + 1
  }

  /** `ARM_LPAE_BLOCK_SIZE`, as an unbounded power of two. */
  function BlockSize(l: nat, g: Geometry): nat
    requires l <= MAX_LEVELS
  {
    Pow2(PTE_SIZE_SHIFT + (MAX_LEVELS - l) * g.bpl)
  }

  /** A block at level `l` spans exactly the address bits below that
      level's index. */
  lemma BlockSizeShift(l: nat, g: Geometry)
    requires l < MAX_LEVELS && Shaped(g)
    ensures BlockSize(l, g) == Pow2(LvlShift(l, g))
  {
    assert (MAX_LEVELS - l) * g.bpl == (MAX_LEVELS - 1 - l) * g.bpl + g.bpl;
  }

  /** A block at level `l` holds 2^bpl blocks of the next level. */
  lemma BlockSizeStep(l: nat, g: Geometry)
    requires l < MAX_LEVELS
    ensures BlockSize(l, g) == BlockSize(NextLevel(l), g) * Pow2(g.bpl)
  {
    var k := PTE_SIZE_SHIFT + (MAX_LEVELS - 1 - l) * g.bpl;
    assert PTE_SIZE_SHIFT + (MAX_LEVELS - l) * g.bpl == k + g.bpl by {
      MulSplit(g.bpl, MAX_LEVELS - 1 - l, 1);
      MulComm(g.bpl, MAX_LEVELS - 1 - l);
      MulComm(g.bpl, MAX_LEVELS - l);
    }
    Pow2Add(k, g.bpl);
  }

  /** `ARM_LPAE_PGD_IDX`: the extra index bits of the start level when the
      pgd spans several pages, and -1 when it is smaller than a page. */
  function PgdIdx(l: nat, g: Geometry): (r: int)
    requires g.levels <= MAX_LEVELS
    ensures r >= -1
  {
    if l == Start(g) then Ilog2(Shr(g.pgdSize, g.pgShift)) else 0
  }

  /** The width of the index at level `l`. */
  function IdxBits(l: nat, g: Geometry): (w: nat)
    requires Shaped(g)
    ensures l != Start(g) ==> w == g.bpl
  {
    g.bpl + PgdIdx(l, g)
  }

  /** `ARM_LPAE_LVL_IDX`: the index of address `a` in its table at level
      `l`. */
  function LvlIdx(a: nat, l: nat, g: Geometry): (idx: nat)
    requires l < MAX_LEVELS && Shaped(g)
    ensures idx == a / Pow2(LvlShift(l, g)) % Pow2(IdxBits(l, g))
    ensures idx < Pow2(IdxBits(l, g))
  {
    BitField(a, LvlShift(l, g), IdxBits(l, g))
  }

  /** `(a >> sh) & ((1 << w) - 1)`: the `w` bits of `a` from bit `sh` up. */
  function BitField(a: nat, sh: nat, w: nat): (f: nat)
    ensures f == a / Pow2(sh) % Pow2(w) && f < Pow2(w)
  {
    ShrIsDiv(a, sh);
    Pow2IsPow2(w);
    AndPow2Mask(Shr(a, sh), Pow2(w));
    And(Shr(a, sh), Pow2(w) - 1)
  }

  /** The number of descriptors in the pgd. */
  function PgdEntries(g: Geometry): nat
  {
    g.pgdSize / 8
  }

  /** Every input address below 2^ias indexes inside the pgd. */
  ghost predicate RootFits(g: Geometry, ias: nat)
    requires Shaped(g)
  {
    forall a: nat :: a < Pow2(ias) ==> LvlIdx(a, Start(g), g) < PgdEntries(g)
  }

  /** The start level's index reaches up to the top address bit. */
  predicate Covers(g: Geometry, ias: nat)
    requires Shaped(g)
  {
    ias <= LvlShift(Start(g), g) + IdxBits(Start(g), g)
  }

  /** A geometry the table walk can use for input addresses of `ias`
      bits. */
  ghost predicate GeoOk(g: Geometry, ias: nat)
  {
    Shaped(g) && RootFits(g, ias) && Covers(g, ias)
  }

  /** The pgd fits when its `e` index bits cover the address bits above the
      start level and the start level's index is at least that wide. */
  lemma RootFitsFrom(g: Geometry, ias: nat, e: nat)
    requires Shaped(g)
    requires ias == LvlShift(Start(g), g) + e
    requires g.pgdSize == Pow2(e + PTE_SIZE_SHIFT)
    requires e <= IdxBits(Start(g), g)
    ensures RootFits(g, ias) && Covers(g, ias)
  {
    var st := Start(g);
    var sh := LvlShift(st, g);
    var w := IdxBits(st, g);
    Pow2Div(e + PTE_SIZE_SHIFT, PTE_SIZE_SHIFT);
    assert PgdEntries(g) == Pow2(e);
    Pow2Mono(e, w);
    forall a: nat | a < Pow2(ias)
      ensures LvlIdx(a, st, g) < PgdEntries(g)
    {
      var q := Shr(a, sh);
      ShrIsDiv(a, sh);
      DivPow2Below(a, ias, sh);
      assert ias - sh == e;
      assert q < Pow2(e);
      ModSmall(q, Pow2(w));
      assert LvlIdx(a, st, g) == q;
    }
  }

  /** The number of levels resolves every address bit above the granule,
      leaving between 1 and `bpl` bits to the pgd. */
  lemma DeriveLevels(pgShift: nat, ias: nat)
    requires pgShift in GRANULES && pgShift < ias <= MAX_ADDR_BITS
    ensures 1 <= Levels(pgShift, ias) <= MAX_LEVELS
    ensures 1 <= PgdBits(pgShift, ias) <= pgShift - PTE_SIZE_SHIFT
  {
  }

  /** The start level's index bits begin right below the pgd's share. */
  lemma DeriveShift(pgShift: nat, ias: nat)
    requires pgShift in GRANULES && pgShift < ias <= MAX_ADDR_BITS
    ensures var g := Derive(pgShift, ias);
      Shaped(g) && ias == LvlShift(Start(g), g) + PgdBits(pgShift, ias)
  {
    var g := Derive(pgShift, ias);
    DeriveLevels(pgShift, ias);
    var k := MAX_LEVELS - 1 - Start(g);
    assert k == Levels(pgShift, ias) - 1;
    MulComm(k, g.bpl);
  }

  /** The pgd holds 2^e descriptors, `e` being the bits left over, and its
      index at the start level is at least `e` bits wide. */
  lemma DerivePgd(pgShift: nat, ias: nat)
    requires pgShift in GRANULES && pgShift < ias <= MAX_ADDR_BITS
    ensures var g := Derive(pgShift, ias);
      var e := PgdBits(pgShift, ias);
      Shaped(g) && g.pgdSize == Pow2(e + PTE_SIZE_SHIFT) && e <= IdxBits(Start(g), g)
  {
    var g := Derive(pgShift, ias);
    DeriveLevels(pgShift, ias);
    var e: nat := PgdBits(pgShift, ias);
    ShlIsMul(1, e + PTE_SIZE_SHIFT);
    RootIdxBits(g, e);
  }

  /** A pgd of 2^e descriptors, at most one page, is indexed by at least
      `e` bits at the start level. */
  lemma RootIdxBits(g: Geometry, e: nat)
    requires Shaped(g) && g.pgdSize == Pow2(e + PTE_SIZE_SHIFT) && e <= g.bpl
    ensures e <= IdxBits(Start(g), g)
  {
    ShrIsDiv(g.pgdSize, g.pgShift);
    Pow2Div(e + PTE_SIZE_SHIFT, g.pgShift);
    if e < g.bpl {
      assert Shr(g.pgdSize, g.pgShift) == 0;
    } else {
      assert Shr(g.pgdSize, g.pgShift) == 1;
    }
  }

  /** The geometry `arm_lpae_alloc_pgtable` derives walks every address
      below 2^ias, in one to four levels. */
  lemma LpaeAllocOk(cfg: Cfg, pageShift: nat)
    requires BitmapOk(cfg.pgsizes) && LpaeAlloc(cfg, pageShift).Some?
    ensures GeoOk(LpaeAlloc(cfg, pageShift).value.g, cfg.ias)
  {
    var g := LpaeAlloc(cfg, pageShift).value.g;
    DeriveLevels(g.pgShift, cfg.ias);
    DerivePgd(g.pgShift, cfg.ias);
    DeriveShift(g.pgShift, cfg.ias);
    RootFitsFrom(g, cfg.ias, PgdBits(g.pgShift, cfg.ias));
  }

  /** Concatenation keeps the walk covering every address below 2^ias:
      the pgd grows by exactly the index bits of the level it absorbs. */
  lemma ConcatenateOk(cfg: Cfg, pageShift: nat)
    requires BitmapOk(cfg.pgsizes) && LpaeAlloc(cfg, pageShift).Some?
    ensures GeoOk(Concatenate(LpaeAlloc(cfg, pageShift).value.g), cfg.ias)
  {
    var g := LpaeAlloc(cfg, pageShift).value.g;
    var c := Concatenate(g);
    if c == g {
      LpaeAllocOk(cfg, pageShift);
    } else {
      DeriveLevels(g.pgShift, cfg.ias);
      DerivePgd(g.pgShift, cfg.ias);
      DeriveShift(g.pgShift, cfg.ias);
      ConcatenatedFits(g, cfg.ias, PgdBits(g.pgShift, cfg.ias));
    }
  }

  /** A four-level walk whose pgd holds the top `e` address bits still
      covers the same addresses once its pgd is concatenated. */
  lemma ConcatenatedFits(g: Geometry, ias: nat, e: nat)
    requires Shaped(g) && g.levels == MAX_LEVELS && g.pgdSize == Pow2(e + PTE_SIZE_SHIFT)
    requires ias == LvlShift(Start(g), g) + e
    requires Concatenate(g) != g
    ensures GeoOk(Concatenate(g), ias)
  {
    var c := Concatenate(g);
    ConcatenatePgd(g, e);
    assert Start(g) == 0 && Start(c) == 1 && c.bpl == g.bpl;
    assert LvlShift(Start(g), g) == 3 * g.bpl + g.pgShift;
    assert LvlShift(Start(c), c) == 2 * g.bpl + g.pgShift;
    RootFitsFrom(c, ias, e + g.bpl);
  }

  /** Concatenating a pgd of 2^e descriptors gives 2^e pages, indexed by
      `bpl + e` bits at the new start level. */
  lemma ConcatenatePgd(g: Geometry, e: nat)
    requires Shaped(g) && g.levels == MAX_LEVELS && g.pgdSize == Pow2(e + PTE_SIZE_SHIFT)
    requires Concatenate(g) != g
    ensures var c := Concatenate(g);
      Shaped(c) && c.pgdSize == Pow2(e + g.bpl + PTE_SIZE_SHIFT) && IdxBits(Start(c), c) == g.bpl + e
  {
    var c := Concatenate(g);
    PagesAsPgd(g.pgdSize, e, g.pgShift);
    PagesIdxBits(c, e);
  }

  /** A pgd of 2^e descriptors laid out as whole pages of 2^pgShift bytes
      spans 2^(e + pgShift) bytes. */
  lemma PagesAsPgd(size: nat, e: nat, pgShift: nat)
    requires size == Pow2(e + PTE_SIZE_SHIFT)
    ensures Shl(Shr(size, PTE_SIZE_SHIFT), pgShift) == Pow2(e + pgShift)
  {
    var pages := Shr(size, PTE_SIZE_SHIFT);
    ShrIsDiv(size, PTE_SIZE_SHIFT);
    Pow2Div(e + PTE_SIZE_SHIFT, PTE_SIZE_SHIFT);
    assert pages == Pow2(e);
    ShlIsMul(pages, pgShift);
    Pow2Add(e, pgShift);
  }

  /** A pgd of 2^e whole pages is indexed by `bpl + e` bits at the start
      level. */
  lemma PagesIdxBits(c: Geometry, e: nat)
    requires c.levels <= MAX_LEVELS && c.pgdSize == Pow2(e + c.pgShift)
    ensures PgdIdx(Start(c), c) == e
  {
    var a := e + c.pgShift;
    Pow2Div(a, c.pgShift);
    assert a - c.pgShift == e;
    ShrIsDiv(Pow2(a), c.pgShift);
    assert Shr(c.pgdSize, c.pgShift) == Pow2(e);
    Ilog2Pow2(e);
  }

  /** Every table `AllocPgtable` hands out has a geometry the walk can use
      for its input address size. */
  lemma AllocPgtableOk(fmt: Format, cfg: Cfg, pageShift: nat, memOk: bool)
    requires BitmapOk(cfg.pgsizes) && AllocPgtable(fmt, cfg, pageShift, memOk).Some?
    ensures GeoOk(AllocPgtable(fmt, cfg, pageShift, memOk).value.g, cfg.ias)
  {
    var cfg' := if fmt == Arm32S1 || fmt == Arm32S2 then cfg.(pgsizes := cfg.pgsizes * Family(SHIFT_4K)) else cfg;
    LpaeAllocOk(cfg', pageShift);
    if fmt == Arm64S2 || fmt == Arm32S2 {
      ConcatenateOk(cfg', pageShift);
    }
  }
}
