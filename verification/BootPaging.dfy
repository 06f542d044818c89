/**
 The boot loader's bump arena and paging code (boot/common/load_ctx.c and
 boot/common/paging.c): tables are taken from the arena as a mapping needs them.
 */
module BootPaging {
  import opened PageTables

  const HHDM: nat := 0xffff_8000_0000_0000       // PEAK_HHDM_OFFSET
  const FLOOR: nat := 0x1_0000_0000              // at least 4 GiB are mapped
  const PAGES: nat := 0x10_0000_0000             // pages, regions and half the regions
  const REGIONS: nat := 0x800_0000               // of the 48-bit space
  const HALF_REGIONS: nat := 0x400_0000

  newtype Byte = x: int | 0 <= x < 256

  // ---- what a mapping call does to the translation ----

  /** Two spaces translate every address alike. */
  ghost predicate SameTranslation(a: Space, b: Space) {
    forall va: nat :: Translate(b, va) == Translate(a, va)
  }

  /** Two spaces have the same addresses behind 2 MiB entries. */
  ghost predicate SameHuge(a: Space, b: Space) {
    forall va: nat :: Huge(b, va) <==> Huge(a, va)
  }

  ghost predicate MoreHuge(a: Space, b: Space, virt: nat) {
    forall va: nat :: Huge(b, va) <==> SameRegion(va, virt) || Huge(a, va)
  }

  ghost predicate MapsPage(a: Space, b: Space, virt: nat, phys: nat, w: bool) {
    forall va: nat :: Translate(b, va) ==
      if SamePage(va, virt) then To(phys - phys % PAGE + va % PAGE, w) else Translate(a, va)
  }

  ghost predicate MapsRegion(a: Space, b: Space, virt: nat, phys: nat, w: bool) {
    forall va: nat :: Translate(b, va) ==
      if SameRegion(va, virt) then To(phys - phys % BIG + va % BIG, w) else Translate(a, va)
  }

  /** How many pages after `virt`, in the 48-bit space, the page of `va` comes. */
  function Ahead(va: nat, virt: nat): (n: nat)
    ensures n < PAGES
  {
    (PageNo(va) - PageNo(virt)) % PAGES
  }

  /** The `n` pages from the page of `virt` on lead to the frames from that of `phys` on. */
  ghost predicate MapsRange(a: Space, b: Space, virt: nat, phys: nat, n: nat, w: bool) {
    forall va: nat :: Translate(b, va) ==
      if Ahead(va, virt) < n then To((phys / PAGE + Ahead(va, virt)) * PAGE + va % PAGE, w) else Translate(a, va)
  }

  lemma AheadShift(va: nat, virt: nat, n: nat)
    ensures Ahead(va, virt) == (PageNo(va) - PageNo(virt + n * PAGE) + n) % PAGES
  {
    var q := virt / PAGE;
    assert (virt + n * PAGE) / PAGE == q + n;
    ModShift(PageNo(va), q, n);
  }

  lemma ModShift(p: nat, q: nat, n: nat)
    ensures (p - q % PAGES) % PAGES == (p - (q + n) % PAGES + n) % PAGES
  {
    var k, m := q / PAGES, (q + n) / PAGES;
    var x, y := p - q % PAGES, p - (q + n) % PAGES + n;
    assert y == x + (m - k) * PAGES;
    ModPlus(x, m - k);
  }

  lemma ModPlus(x: int, k: int)
    ensures (x + k * PAGES) % PAGES == x % PAGES
  {
  }

  lemma AheadOfPage(va: nat, virt: nat, n: nat)
    requires n < PAGES
    ensures SamePage(va, virt + n * PAGE) <==> Ahead(va, virt) == n
  {
    hide SamePage, Ahead, Region;
    SameRegionIff(va, virt + n * PAGE);
    AheadShift(va, virt, n);
  }

  lemma AheadOfRegion(va: nat, virt: nat, n: nat)
    requires n + 512 <= PAGES && (virt + n * PAGE) % BIG == 0
    ensures SameRegion(va, virt + n * PAGE) <==> n <= Ahead(va, virt) < n + 512
    ensures SameRegion(va, virt + n * PAGE) ==> va % BIG == (Ahead(va, virt) - n) * PAGE + va % PAGE
  {
    hide SameRegion, SamePage, Ahead, PageNo, Region, I1, I2, I3, I4;
    var v := virt + n * PAGE;
    SameRegionIff(va, v);
    RegionParts(va);
    RegionParts(v);
    RegionOffset(va);
    RegionOffset(v);
    assert I1(v) == 0;
    AheadShift(va, virt, n);
    RegionWindow(Region(va), I1(va), Region(v), n);
  }

  lemma RegionWindow(r: nat, i: nat, q: nat, n: nat)
    requires r < REGIONS && q < REGIONS && i < 512 && n + 512 <= PAGES
    ensures var a := (r * 512 + i - q * 512 + n) % PAGES;
            (r == q <==> n <= a < n + 512) && (r == q ==> a == n + i)
  {
    var d := r * 512 + i - q * 512 + n;
    assert d < 0 ==> d % PAGES == d + PAGES;
    assert d >= PAGES ==> d % PAGES == d - PAGES;
  }

  lemma RegionOffset(va: nat)
    ensures va % BIG == I1(va) * PAGE + va % PAGE
  {
    var p := va / PAGE;
    assert va == p * PAGE + va % PAGE;
    assert p == (p / 512) * 512 + p % 512;
  }

  lemma RangePage(a: Space, b: Space, c: Space, virt: nat, phys: nat, n: nat, w: bool)
    requires MapsRange(a, b, virt, phys, n, w) && n < PAGES
    requires MapsPage(b, c, virt + n * PAGE, phys + n * PAGE, w)
    ensures MapsRange(a, c, virt, phys, n + 1, w)
  {
    hide Translate, Ahead, SamePage;
    forall va: nat ensures Translate(c, va) ==
      if Ahead(va, virt) < n + 1 then To((phys / PAGE + Ahead(va, virt)) * PAGE + va % PAGE, w) else Translate(a, va)
    {
      AheadOfPage(va, virt, n);
      var p := phys + n * PAGE;
      assert p - p % PAGE == (phys / PAGE + n) * PAGE;
    }
  }

  lemma RangeRegion(a: Space, b: Space, c: Space, virt: nat, phys: nat, n: nat, w: bool)
    requires MapsRange(a, b, virt, phys, n, w) && n + 512 <= PAGES
    requires (virt + n * PAGE) % BIG == 0 && (phys + n * PAGE) % BIG == 0
    requires MapsRegion(b, c, virt + n * PAGE, phys + n * PAGE, w)
    ensures MapsRange(a, c, virt, phys, n + 512, w)
  {
    hide Translate, Ahead, SameRegion;
    WholeFrame(phys, n);
    forall va: nat ensures Translate(c, va) ==
      if Ahead(va, virt) < n + 512 then To((phys / PAGE + Ahead(va, virt)) * PAGE + va % PAGE, w) else Translate(a, va)
    {
      AheadOfRegion(va, virt, n);
      WholeFrame(phys, n);
      if n <= Ahead(va, virt) < n + 512 {
        FrameByte(phys / PAGE, n, Ahead(va, virt));
      }
    }
  }

  lemma WholeFrame(phys: nat, n: nat)
    requires (phys + n * PAGE) % BIG == 0
    ensures var p := phys + n * PAGE;
            p - p % BIG == p && p == (phys / PAGE + n) * PAGE
  {
    var p := phys + n * PAGE;
    var b := p / BIG;
    assert p == BIG * b;
    assert phys == PAGE * (512 * b - n);
  }

  lemma FrameByte(f: nat, n: nat, a: nat)
    requires n <= a
    ensures (f + n) * PAGE + (a - n) * PAGE == (f + a) * PAGE
  {
  }

  function PagesFor(size: nat): nat {
    (size + PAGE - 1) / PAGE
  }

  ghost predicate MapsByte(s: Space, virt: nat, phys: nat, k: nat, w: bool) {
    Translate(s, virt + k) == To(phys + k, w)
  }

  /** The whole range is mapped byte for byte exactly when both ends sit alike in their pages
      and the range does not run into one page more than its length fills. */
  lemma RangeExactIff(a: Space, b: Space, virt: nat, phys: nat, size: nat, w: bool)
    requires 0 < size <= SPACE && MapsRange(a, b, virt, phys, PagesFor(size), w)
    requires !MapsByte(a, virt, phys, size - 1, w)
    ensures (forall k: nat :: k < size ==> MapsByte(b, virt, phys, k, w))
            <==> virt % PAGE == phys % PAGE && virt % PAGE + size <= PagesFor(size) * PAGE
  {
    hide MapsByte, MapsRange;
    if virt % PAGE == phys % PAGE && virt % PAGE + size <= PagesFor(size) * PAGE {
      forall k: nat | k < size ensures MapsByte(b, virt, phys, k, w) {
        RangeExactAt(a, b, virt, phys, size, k, w);
      }
    } else if virt % PAGE != phys % PAGE {
      RangeSkewed(a, b, virt, phys, size, w);
    } else {
      RangeShort(a, b, virt, phys, size, w);
    }
  }

  lemma RangeExactAt(a: Space, b: Space, virt: nat, phys: nat, size: nat, k: nat, w: bool)
    requires k < size <= SPACE && MapsRange(a, b, virt, phys, PagesFor(size), w)
    requires virt % PAGE == phys % PAGE && virt % PAGE + size <= PagesFor(size) * PAGE
    ensures MapsByte(b, virt, phys, k, w)
  {
    hide Translate, Ahead;
    AheadWithin(virt, k);
    RangeByte(virt, phys, k);
    assert (virt % PAGE + k) / PAGE < PagesFor(size) <= PAGES;
  }

  lemma RangeSkewed(a: Space, b: Space, virt: nat, phys: nat, size: nat, w: bool)
    requires 0 < size && MapsRange(a, b, virt, phys, PagesFor(size), w) && virt % PAGE != phys % PAGE
    ensures !MapsByte(b, virt, phys, 0, w)
  {
    hide Translate, Ahead;
    AheadWithin(virt, 0);
  }

  lemma RangeShort(a: Space, b: Space, virt: nat, phys: nat, size: nat, w: bool)
    requires 0 < size <= SPACE && MapsRange(a, b, virt, phys, PagesFor(size), w)
    requires virt % PAGE == phys % PAGE && virt % PAGE + size > PagesFor(size) * PAGE
    requires !MapsByte(a, virt, phys, size - 1, w)
    ensures !MapsByte(b, virt, phys, size - 1, w)
  {
    hide Translate, Ahead;
    var k, n := size - 1, PagesFor(size);
    AheadWithin(virt, k);
    assert (virt % PAGE + k) / PAGE == n;
    RangeByte(virt, phys, k);
  }

  lemma AheadWithin(virt: nat, k: nat)
    ensures Ahead(virt + k, virt) == (virt % PAGE + k) / PAGE % PAGES
  {
    var j := (virt % PAGE + k) / PAGE;
    assert (virt + k) / PAGE == virt / PAGE + j;
    ModShift(PageNo(virt + k), virt / PAGE, j);
  }

  lemma RangeByte(virt: nat, phys: nat, k: nat)
    requires virt % PAGE == phys % PAGE
    ensures (phys / PAGE + (virt % PAGE + k) / PAGE) * PAGE + (virt + k) % PAGE == phys + k
  {
    assert (virt + k) % PAGE == (virt % PAGE + k) % PAGE;
  }

  // ---- what boot_paging_init builds ----

  /** The last of the first `n` 2 MiB frames that was entered for region `r`. */
  function LastFrame(r: nat, n: nat): (f: nat)
    requires r % HALF_REGIONS < n
  {
    n - 1 - (n - 1 - r) % HALF_REGIONS
  }

  /** The translation after the first `n` frames were mapped low and in the direct map. */
  function BootMap(va: nat, n: nat): Mapping {
    var r := Region(va);
    if r % HALF_REGIONS < n then To(LastFrame(r, n) * BIG + va % BIG, true) else Unmapped
  }

  ghost predicate Boots(s: Space, n: nat) {
    forall va: nat :: Translate(s, va) == BootMap(va, n)
  }

  /** How many 2 MiB frames boot_paging_init maps; the rounding is in 64 bits. */
  function BootFrames(identityEnd: nat): nat {
    var top := if identityEnd < FLOOR then FLOOR else identityEnd;
    (top + BIG - 1) % U64 / BIG
  }

  /** Every physical address below the requested end is mapped at itself and in the direct map
      if and only if that end is at most half of the 48-bit space. */
  lemma BootExactIff(identityEnd: nat)
    requires identityEnd < U64
    ensures (forall p: nat :: p < identityEnd ==>
               && BootMap(p, BootFrames(identityEnd)) == To(p, true)
               && BootMap(HHDM + p, BootFrames(identityEnd)) == To(p, true))
            <==> identityEnd <= HALF
  {
    hide BootMap, BootFrames;
    var n := BootFrames(identityEnd);
    FramesCover(identityEnd);
    if identityEnd <= HALF {
      forall p: nat | p < identityEnd ensures BootMap(p, n) == To(p, true) && BootMap(HHDM + p, n) == To(p, true) {
        BootMapExact(p, n);
      }
    } else {
      Overlapped(n);
    }
  }

  lemma FramesCover(identityEnd: nat)
    requires identityEnd < U64
    ensures identityEnd <= HALF ==>
      identityEnd <= BootFrames(identityEnd) * BIG && BootFrames(identityEnd) <= HALF_REGIONS
    ensures identityEnd > HALF ==> BootFrames(identityEnd) == 0 || BootFrames(identityEnd) > HALF_REGIONS
  {
  }

  /** Nothing mapped, or the first frame's place taken by the one half the space further on. */
  lemma Overlapped(n: nat)
    requires n == 0 || n > HALF_REGIONS
    ensures BootMap(0, n) != To(0, true)
  {
  }

  lemma LoneRoot(root: nat)
    ensures var s := Space(map[root := EmptyTable()], root, map[root := []]);
            Tidy(s) && Boots(s, 0)
  {
    var s := Space(map[root := EmptyTable()], root, map[root := []]);
    forall va: nat ensures Translate(s, va) == Unmapped {
      Stops(s, va, 0);
    }
  }

  lemma BootMapExact(p: nat, n: nat)
    requires p < n * BIG && n <= HALF_REGIONS
    ensures BootMap(p, n) == To(p, true) && BootMap(HHDM + p, n) == To(p, true)
  {
    assert p / BIG < n;
    assert Region(p) == p / BIG;
    assert (HHDM + p) / BIG == HHDM / BIG + p / BIG;
    assert Region(HHDM + p) == HALF_REGIONS + p / BIG;
    assert (HHDM + p) % BIG == p % BIG;
  }

  lemma BootStep(a: Space, b: Space, c: Space, n: nat)
    requires Boots(a, n)
    requires MapsRegion(a, b, n * BIG, n * BIG, true)
    requires MapsRegion(b, c, (HHDM + n * BIG) % U64, n * BIG, true)
    ensures Boots(c, n + 1)
  {
    hide Translate, BootMap, SameRegion;
    forall va: nat ensures Translate(c, va) == BootMap(va, n + 1) {
      BootStepAt(va, n);
      assert n * BIG - n * BIG % BIG == n * BIG;
    }
  }

  lemma BootStepAt(va: nat, n: nat)
    ensures BootMap(va, n + 1) ==
      if SameRegion(va, n * BIG) || SameRegion(va, (HHDM + n * BIG) % U64) then To(n * BIG + va % BIG, true)
      else BootMap(va, n)
  {
    hide SameRegion, SamePage, Region, LastFrame;
    SameRegionIff(va, n * BIG);
    SameRegionIff(va, (HHDM + n * BIG) % U64);
    RegionsEntered(n);
    RegionBound(va);
    RegionPair(Region(va), n);
    LastFrameStep(Region(va), n);
  }

  lemma RegionBound(va: nat)
    ensures Region(va) < REGIONS
  {
  }

  /** A frame is entered for the two regions that agree with it modulo half the space. */
  lemma RegionsEntered(n: nat)
    ensures Region(n * BIG) == n % REGIONS
    ensures Region((HHDM + n * BIG) % U64) == (HALF_REGIONS + n) % REGIONS
  {
    var w := HHDM / BIG + n;
    assert HHDM + n * BIG == w * BIG;
    assert w * BIG % U64 == (w % (U64 / BIG)) * BIG;
  }

  lemma RegionPair(r: nat, n: nat)
    requires r < REGIONS
    ensures r % HALF_REGIONS == n % HALF_REGIONS <==> r == n % REGIONS || r == (HALF_REGIONS + n) % REGIONS
  {
    var m := n % REGIONS;
    assert n % HALF_REGIONS == m % HALF_REGIONS;
    assert (HALF_REGIONS + n) % REGIONS == (HALF_REGIONS + m) % REGIONS;
  }

  lemma LastFrameStep(r: nat, n: nat)
    ensures r % HALF_REGIONS == n % HALF_REGIONS ==> r % HALF_REGIONS <= n && LastFrame(r, n + 1) == n
    ensures r % HALF_REGIONS != n % HALF_REGIONS ==>
      && (r % HALF_REGIONS <= n <==> r % HALF_REGIONS < n)
      && (r % HALF_REGIONS < n ==> LastFrame(r, n + 1) == LastFrame(r, n))
  {
    var x := n - r;
    assert x % HALF_REGIONS == 0 <==> r % HALF_REGIONS == n % HALF_REGIONS;
    assert x % HALF_REGIONS != 0 ==> x % HALF_REGIONS == 1 + (x - 1) % HALF_REGIONS;
  }

  /** Memory with `n` bytes from `p` on set to zero. */
  function Cleared(mem: map<nat, Byte>, p: nat, n: nat): (m: map<nat, Byte>)
    ensures forall a: nat :: p <= a < p + n ==> a in m && m[a] == 0
    ensures forall a: nat :: a < p || a >= p + n ==> (a in m <==> a in mem) && (a in m ==> m[a] == mem[a])
  {
    if n == 0 then mem else Cleared(mem, p, n - 1)[p + n - 1 := 0]
  }

  /** The test of boot_load_ctx_alloc_pages, in 64 bits. */
  predicate FitsIn(next: nat, n: nat, end: nat) {
    (next + n * PAGE % U64) % U64 <= end
  }

  /** The 64-bit test decides whether a request fits if and only if the sum does not wrap back
      below the end of the arena. */
  lemma ArenaTestExactIff(next: nat, n: nat, end: nat)
    requires next <= end < HALF && n * PAGE < U64
    ensures (FitsIn(next, n, end) <==> next + n * PAGE <= end) <==>
            next + n * PAGE < U64 || next + n * PAGE - U64 > end
  {
  }

  /** An arena of 1 MiB at 1 MiB lets a request of 2^64 - 512 KiB through. */
  lemma ArenaTestWraps()
    ensures FitsIn(0x10_0000, (U64 - 0x8_0000) / PAGE, 0x20_0000)
    ensures 0x10_0000 + (U64 - 0x8_0000) / PAGE * PAGE > 0x20_0000
  {
  }

  /** Ahead of the `n` pages from `virt` on the 2 MiB entries are as they were. */
  ghost predicate HugeAhead(a: Space, b: Space, virt: nat, n: nat) {
    forall va: nat :: Ahead(va, virt) >= n ==> (Huge(b, va) <==> Huge(a, va))
  }

  lemma NothingYet(a: Space, virt: nat, phys: nat, w: bool)
    ensures MapsRange(a, a, virt, phys, 0, w) && HugeAhead(a, a, virt, 0)
  {
    hide Translate, Ahead, Huge;
  }

  lemma RangeSame(a: Space, b: Space, c: Space, virt: nat, phys: nat, n: nat, w: bool)
    requires MapsRange(a, b, virt, phys, n, w) && SameTranslation(b, c)
    ensures MapsRange(a, c, virt, phys, n, w)
  {
    hide Translate, Ahead;
  }

  lemma HugeNext(a: Space, b: Space, virt: nat, n: nat)
    requires HugeAhead(a, b, virt, n) && n < PAGES
    ensures Huge(b, virt + n * PAGE) <==> Huge(a, virt + n * PAGE)
  {
    hide Ahead, Huge, SamePage;
    AheadOfPage(virt + n * PAGE, virt, n);
    assert SamePage(virt + n * PAGE, virt + n * PAGE) by { SelfPage(virt + n * PAGE); }
  }

  lemma SelfPage(va: nat)
    ensures SamePage(va, va)
  {
  }

  lemma HugePage(a: Space, b: Space, c: Space, virt: nat, n: nat)
    requires HugeAhead(a, b, virt, n) && SameHuge(b, c)
    ensures HugeAhead(a, c, virt, n + 1)
  {
    hide Ahead, Huge;
  }

  lemma HugeRegion(a: Space, b: Space, c: Space, virt: nat, n: nat)
    requires HugeAhead(a, b, virt, n) && MoreHuge(b, c, virt + n * PAGE)
    requires (virt + n * PAGE) % BIG == 0 && n + 512 <= PAGES
    ensures HugeAhead(a, c, virt, n + 512)
  {
    hide Ahead, Huge, SameRegion;
    forall va: nat | Ahead(va, virt) >= n + 512 ensures Huge(c, va) <==> Huge(a, va) {
      AheadOfRegion(va, virt, n);
    }
  }

  lemma HugeHere(s: Space, virt: nat, t: nat)
    requires TableFor(s, virt, 2) == TableAt(t) && t in s.tables
    ensures Huge(s, virt) <==> s.tables[t][I2(virt)].Entry? && s.tables[t][I2(virt)].huge
  {
    hide I2, TableFor;
  }

  /** Every table there was not before starts at `from` or later. */
  ghost predicate TablesFrom(before: set<nat>, after: set<nat>, from: nat) {
    forall t :: t in after ==> t in before || t >= from
  }

  /** boot_load_ctx with the memory its arena covers: table pages, and bytes of everything else. */
  class LoadCtx {
    var next: nat          // pt_next
    var end: nat           // pt_end
    var pml4: nat          // 0 before boot_paging_init
    var tables: map<nat, Table>
    var mem: map<nat, Byte>
    ghost var path: map<nat, seq<nat>>
    ghost var start: nat

    ghost function S(): Space
      reads this
    {
      Space(tables, pml4, path)
    }

    /** Every table page lies in the part of the arena handed out so far. */
    ghost predicate InArena()
      reads this
    {
      && 0 < start <= next <= end < HALF && start % PAGE == 0 && next % PAGE == 0
      && tables.Keys == path.Keys
      && forall t :: t in tables ==> start <= t && t + PAGE <= next && t % PAGE == 0
    }

    ghost predicate Valid()
      reads this
    {
      InArena() && (pml4 != 0 ==> Tidy(S()))
    }

    /** boot_load_ctx_init */
    constructor (arenaStart: nat, arenaSize: nat, memory: map<nat, Byte>)
      requires 0 < arenaStart && arenaStart % PAGE == 0 && arenaStart + arenaSize < HALF
      ensures Valid() && pml4 == 0 && next == start == arenaStart && tables == map[] && mem == memory
      ensures end == arenaStart + arenaSize
    {
      next := arenaStart;
      end := arenaStart + arenaSize;
      pml4 := 0;
      tables, mem := map[], memory;
      path, start := map[], arenaStart;
    }

    predicate Fits(n: nat)
      reads this
    {
      FitsIn(next, n, end)
    }

    /** boot_load_ctx_alloc_pages: the next pages of the arena, cleared; 0 when they do not fit. */
    method AllocPages(n: nat) returns (p: nat)
      requires InArena() && next + n * PAGE < U64
      modifies `next, `mem
      ensures InArena()
      ensures p == 0 <==> old(next) + n * PAGE > end
      ensures p == 0 ==> next == old(next) && mem == old(mem)
      ensures p != 0 ==> p == old(next) && next == p + n * PAGE && mem == Cleared(old(mem), p, n * PAGE)
    {
      if !Fits(n) {
        return 0;
      }
      p := next;
      next := next + n * PAGE;
      mem := Cleared(mem, p, n * PAGE);
    }

    /** alloc_table: one cleared page from the arena, 0 when it is used up. */
    method AllocTable(ghost at: seq<nat>) returns (p: nat)
      requires InArena()
      modifies `next, `tables, `path
      ensures InArena()
      ensures p == 0 ==> next == old(next) && tables == old(tables) && path == old(path) && next + PAGE > end
      ensures p != 0 ==>
        && p == old(next) && next == p + PAGE && p !in old(tables)
        && tables == old(tables)[p := EmptyTable()] && path == old(path)[p := at]
    {
      if !Fits(1) {
        return 0;
      }
      p := next;
      next := next + PAGE;
      tables := tables[p := EmptyTable()];
      path := path[p := at];
      assert tables.Keys == old(tables).Keys + {p};
    }

    /** One level of map_4k and map_2m: the table behind entry `i`, made when the entry is absent. */
    method Descend(t: nat, i: nat, ghost virt: nat, ghost d: nat) returns (u: nat)
      requires Valid() && pml4 != 0 && d < 3
      requires TableFor(S(), virt, d) == TableAt(t) && i == Index(virt, d)
      requires t in tables && (tables[t][i].Entry? ==> !tables[t][i].huge)
      modifies `next, `tables, `path
      ensures Valid() && old(next) <= next <= old(next) + PAGE && TablesFrom(old(tables.Keys), tables.Keys, old(next))
      ensures SameTranslation(old(S()), S()) && SameHuge(old(S()), S())
      ensures u != 0 ==> u in tables && TableFor(S(), virt, d + 1) == TableAt(u)
      ensures u == 0 ==> next + PAGE > end
    {
      hide Translate, Huge, EntriesOk, PathsUnique, Parented, ParentsExist, EmptyTable, Index, Prefix;
      WalkPath(S(), virt, d);
      if tables[t][i].Entry? {
        u := tables[t][i].addr;
        WalkPath(S(), virt, d + 1);
        return;
      }
      u := Hang(t, i);
      if u != 0 {
        GrowWalk(old(S()), t, i, u, virt, d);
      }
    }

    method Hang(t: nat, i: nat) returns (u: nat)
      requires Valid() && pml4 != 0 && t in tables && i < 512 && |path[t]| < 3 && tables[t][i].Absent?
      modifies `next, `tables, `path
      ensures Valid() && old(next) <= next <= old(next) + PAGE && TablesFrom(old(tables.Keys), tables.Keys, old(next))
      ensures SameTranslation(old(S()), S()) && SameHuge(old(S()), S())
      ensures u != 0 ==> u !in old(tables) && S() == Grown(old(S()), t, i, u)
      ensures u == 0 ==> next + PAGE > end
    {
      hide Translate, Huge, EntriesOk, PathsUnique, Parented, ParentsExist, EmptyTable;
      ghost var s := S();
      u := AllocTable(path[t] + [i]);
      if u == 0 {
        return;
      }
      GrowTidy(s, t, i, u);
      forall va: nat
        ensures Translate(Grown(s, t, i, u), va) == Translate(s, va) && (Huge(Grown(s, t, i, u), va) <==> Huge(s, va))
      {
        GrowTranslate(s, t, i, u, va);
        GrowHuge(s, t, i, u, va);
      }
      tables := tables[t := tables[t][i := Entry(u, true, false)]];
      assert S() == Grown(s, t, i, u);
    }

    /** The two levels map_4k and map_2m share: leads to the table of 2 MiB entries. */
    method Walk(virt: nat) returns (t: nat)
      requires Valid() && pml4 != 0
      modifies `next, `tables, `path
      ensures Valid() && old(next) <= next <= old(next) + 2 * PAGE
      ensures TablesFrom(old(tables.Keys), tables.Keys, old(next))
      ensures SameTranslation(old(S()), S()) && SameHuge(old(S()), S())
      ensures t != 0 ==> t in tables && TableFor(S(), virt, 2) == TableAt(t)
      ensures t == 0 ==> next + PAGE > end
    {
      hide EntriesOk, PathsUnique, Parented, ParentsExist, Translate, Huge, I4, I3, I2, I1, Prefix;
      NoHuge(S(), virt, 0);
      t := Descend(pml4, I4(virt), virt, 0);
      if t == 0 {
        return;
      }
      NoHuge(S(), virt, 1);
      t := Descend(t, I3(virt), virt, 1);
    }

    /** map_4k */
    method Map4k(virt: nat, phys: nat, writable: bool) returns (r: int)
      requires Valid() && pml4 != 0
      modifies `next, `tables, `path
      ensures Valid() && old(next) <= next <= old(next) + 3 * PAGE
      ensures TablesFrom(old(tables.Keys), tables.Keys, old(next)) && SameHuge(old(S()), S())
      ensures r == 0 || r == -1
      ensures r == -1 ==> SameTranslation(old(S()), S()) && (next + PAGE > end || Huge(old(S()), virt))
      ensures r == 0 ==> MapsPage(old(S()), S(), virt, phys, writable) && !Huge(old(S()), virt)
    {
      hide EntriesOk, PathsUnique, Parented, ParentsExist, Translate, Huge, I4, I3, I2, I1, SamePage, Prefix;
      var t := Walk(virt);
      if t == 0 {
        return -1;
      }
      HugeHere(S(), virt, t);
      if tables[t][I2(virt)].Entry? && tables[t][I2(virt)].huge {
        return -1;
      }
      r := MapLast(t, virt, phys, writable);
    }

    /** The last level of map_4k: its table, made if missing, and the entry. */
    method MapLast(t: nat, virt: nat, phys: nat, writable: bool) returns (r: int)
      requires Valid() && pml4 != 0 && t in tables && TableFor(S(), virt, 2) == TableAt(t)
      requires !(tables[t][I2(virt)].Entry? && tables[t][I2(virt)].huge)
      modifies `next, `tables, `path
      ensures Valid() && old(next) <= next <= old(next) + PAGE
      ensures TablesFrom(old(tables.Keys), tables.Keys, old(next)) && SameHuge(old(S()), S())
      ensures r == 0 || r == -1
      ensures r == -1 ==> SameTranslation(old(S()), S()) && next + PAGE > end
      ensures r == 0 ==> MapsPage(old(S()), S(), virt, phys, writable)
    {
      hide EntriesOk, PathsUnique, Parented, ParentsExist, Translate, Huge, I4, I3, I2, I1, SamePage, Prefix;
      var u := Descend(t, I2(virt), virt, 2);
      if u == 0 {
        return -1;
      }
      PutPage(u, virt, phys, writable);
      return 0;
    }

    method PutPage(t: nat, virt: nat, phys: nat, writable: bool)
      requires Valid() && pml4 != 0 && t in tables && TableFor(S(), virt, 3) == TableAt(t)
      modifies `tables
      ensures tables.Keys == old(tables.Keys)
      ensures Valid() && MapsPage(old(S()), S(), virt, phys, writable) && SameHuge(old(S()), S())
    {
      hide EntriesOk, PathsUnique, Parented, ParentsExist, Translate, Huge, I4, I3, I2, I1, SamePage, Prefix;
      ghost var s := S();
      var e := Entry(phys - phys % PAGE, writable, false);
      WalkPath(s, virt, 3);
      PokeTidy(s, t, I1(virt), e);
      forall va: nat ensures Translate(Poked(s, t, I1(virt), e), va) ==
        if SamePage(va, virt) then To(phys - phys % PAGE + va % PAGE, writable) else Translate(s, va)
      {
        MapPageMeans(s, t, virt, e, va);
      }
      forall va: nat ensures Huge(Poked(s, t, I1(virt), e), va) <==> Huge(s, va) {
        PageHuge(s, t, virt, e, va);
      }
      tables := tables[t := tables[t][I1(virt) := e]];
      assert S() == Poked(s, t, I1(virt), e);
    }

    /** map_2m */
    method Map2m(virt: nat, phys: nat, writable: bool) returns (r: int)
      requires Valid() && pml4 != 0
      modifies `next, `tables, `path
      ensures Valid() && old(next) <= next <= old(next) + 2 * PAGE
      ensures TablesFrom(old(tables.Keys), tables.Keys, old(next))
      ensures r == 0 || r == -1
      ensures r == -1 ==> SameTranslation(old(S()), S()) && SameHuge(old(S()), S()) && next + PAGE > end
      ensures r == 0 ==> MapsRegion(old(S()), S(), virt, phys, writable) && MoreHuge(old(S()), S(), virt)
    {
      hide EntriesOk, PathsUnique, Parented, ParentsExist, Translate, Huge, I4, I3, I2, I1, SameRegion, Prefix;
      var t := Walk(virt);
      if t == 0 {
        return -1;
      }
      PutRegion(t, virt, phys, writable);
      return 0;
    }

    method PutRegion(t: nat, virt: nat, phys: nat, writable: bool)
      requires Valid() && pml4 != 0 && t in tables && TableFor(S(), virt, 2) == TableAt(t)
      modifies `tables
      ensures tables.Keys == old(tables.Keys)
      ensures Valid() && MapsRegion(old(S()), S(), virt, phys, writable) && MoreHuge(old(S()), S(), virt)
    {
      hide EntriesOk, PathsUnique, Parented, ParentsExist, Translate, Huge, I4, I3, I2, I1, SameRegion, Prefix;
      ghost var s := S();
      var e := Entry(phys - phys % BIG, writable, true);
      WalkPath(s, virt, 2);
      PokeTidy(s, t, I2(virt), e);
      forall va: nat ensures Translate(Poked(s, t, I2(virt), e), va) ==
        if SameRegion(va, virt) then To(phys - phys % BIG + va % BIG, writable) else Translate(s, va)
      {
        MapRegionMeans(s, t, virt, e, va);
      }
      forall va: nat ensures Huge(Poked(s, t, I2(virt), e), va) <==> SameRegion(va, virt) || Huge(s, va) {
        RegionHuge(s, t, virt, e, va);
      }
      tables := tables[t := tables[t][I2(virt) := e]];
      assert S() == Poked(s, t, I2(virt), e);
    }

    /** boot_map_range: 2 MiB entries where both sides are aligned and enough is left, else 4 KiB. */
    method MapRange(virt: nat, phys: nat, size: nat, writable: bool) returns (r: int, ghost n: nat)
      requires Valid() && pml4 != 0
      requires virt + size <= U64 && phys + size <= U64 && size <= SPACE
      modifies `next, `tables, `path
      ensures Valid() && old(next) <= next <= old(next) + 3 * PAGE * (n + 1)
      ensures MapsRange(old(S()), S(), virt, phys, n, writable)
      ensures (r == 0 && n == PagesFor(size)) || (r == -1 && n * PAGE < size)
      ensures r == -1 ==> next + PAGE > end || Huge(old(S()), virt + n * PAGE)
    {
      hide Translate, Huge, Tidy, Ahead, SamePage, SameRegion, MapsRange, HugeAhead, MoreHuge, SameHuge;
      var off := 0;
      n := 0;
      ghost var a := S();
      NothingYet(a, virt, phys, writable);
      while off < size
        invariant off == n * PAGE && off < size + PAGE && n <= PAGES
        invariant Valid() && old(next) <= next <= old(next) + 3 * PAGE * n
        invariant MapsRange(a, S(), virt, phys, n, writable) && HugeAhead(a, S(), virt, n)
      {
        HugeNext(a, S(), virt, n);
        ghost var b := S();
        if (virt + off) % BIG == 0 && (phys + off) % BIG == 0 && size - off >= BIG {
          r := Map2m(virt + off, phys + off, writable);
          if r != 0 {
            RangeSame(a, b, S(), virt, phys, n, writable);
            return;
          }
          RangeRegion(a, b, S(), virt, phys, n, writable);
          HugeRegion(a, b, S(), virt, n);
          off, n := off + BIG, n + 512;
        } else {
          r := Map4k(virt + off, phys + off, writable);
          if r != 0 {
            RangeSame(a, b, S(), virt, phys, n, writable);
            return;
          }
          RangePage(a, b, S(), virt, phys, n, writable);
          HugePage(a, b, S(), virt, n);
          off, n := off + PAGE, n + 1;
        }
      }
      r := 0;
    }

    /** boot_paging_init */
    method PagingInit(identityEnd: nat) returns (r: int)
      requires Valid() && pml4 == 0 && identityEnd < U64
      modifies `next, `tables, `path, `pml4
      ensures Valid() && old(next) <= next
      ensures (r == 0 && pml4 != 0 && Boots(S(), BootFrames(identityEnd))) ||
              (r == -1 && pml4 == 0 && next + PAGE > end)
      ensures next <= old(next) + (4 * BootFrames(identityEnd) + 1) * PAGE
    {
      hide Translate, Huge, Tidy, BootMap, BootFrames, SameRegion;
      tables, path := map[], map[];   // what an earlier failed attempt left is unreachable
      var root := AllocTable([]);
      if root == 0 {
        return -1;
      }
      pml4 := root;
      LoneRoot(root);
      r := MapFrames(BootFrames(identityEnd));
      if r != 0 {
        pml4 := 0;
      }
    }

    method MapFrames(count: nat) returns (r: int)
      requires Valid() && pml4 != 0 && Boots(S(), 0)
      modifies `next, `tables, `path
      ensures Valid() && old(next) <= next <= old(next) + 4 * count * PAGE
      ensures (r == 0 && Boots(S(), count)) || (r == -1 && next + PAGE > end)
    {
      hide Translate, Huge, Tidy, BootMap, SameRegion;
      for n := 0 to count
        invariant Valid() && old(next) <= next <= old(next) + 4 * n * PAGE && Boots(S(), n)
      {
        ghost var a := S();
        r := Map2m(n * BIG, n * BIG, true);
        if r != 0 {
          return;
        }
        ghost var b := S();
        r := Map2m((HHDM + n * BIG) % U64, n * BIG, true);
        if r != 0 {
          return;
        }
        BootStep(a, b, S(), n);
      }
      r := 0;
    }
  }

  // ---- where the mappings are not exact ----

  /** With an end one byte above 2^47 the last frame takes the place of the first: address 0 leads to 2^47. */
  lemma BootOverlaps()
    ensures BootFrames(HALF + 1) == HALF_REGIONS + 1
    ensures BootMap(0, HALF_REGIONS + 1) == To(HALF, true) && BootMap(HHDM, HALF_REGIONS + 1) == To(HALF, true)
  {
  }

  /** boot_paging_init with that end, from an arena with room for the tables. */
  method BootAtWork(memory: map<nat, Byte>) returns (ctx: LoadCtx)
    ensures ctx.pml4 != 0 && Translate(ctx.S(), 0) == To(HALF, true)
  {
    hide Translate, BootMap, BootFrames, Tidy;
    BootOverlaps();
    ctx := new LoadCtx(PAGE, (4 * HALF_REGIONS + 8) * PAGE, memory);
    var r := ctx.PagingInit(HALF + 1);
  }

  /** Mapping one byte of physical address 1 at a page's start leads it to 0, and of two bytes that lie on two
      pages the second stays as it was. */
  lemma UnalignedRanges(a: Space, b: Space, q: nat, w: bool)
    ensures MapsRange(a, b, q * PAGE, 1, PagesFor(1), w) ==> Translate(b, q * PAGE) == To(0, w)
    ensures MapsRange(a, b, q * PAGE + PAGE - 1, q * PAGE + PAGE - 1, PagesFor(2), w) ==>
      Translate(b, q * PAGE + PAGE) == Translate(a, q * PAGE + PAGE)
  {
    hide Translate;
    assert PagesFor(1) == 1 && PagesFor(2) == 1;
    assert Ahead(q * PAGE, q * PAGE) == 0;
    NextAhead(q);
  }

  lemma NextAhead(q: nat)
    ensures Ahead(q * PAGE + PAGE, q * PAGE + PAGE - 1) == 1
  {
    assert (q * PAGE + PAGE) / PAGE == q + 1 && (q * PAGE + PAGE - 1) / PAGE == q;
    ModShift(PageNo(q * PAGE + PAGE), q, 1);
  }

  /** boot_map_range on such a range, after boot_paging_init: the byte at 2^40 leads to 0 and not to 1. */
  method RangeAtWork(memory: map<nat, Byte>) returns (ctx: LoadCtx, r: int)
    ensures r == 0 && Translate(ctx.S(), 0x100_0000_0000) == To(0, true)
  {
    hide Translate, Huge, BootMap, BootFrames, Tidy, MapsRange;
    FourGiB();
    ctx := new LoadCtx(PAGE, 0x1_0000 * PAGE, memory);
    r := ctx.PagingInit(0);
    ghost var a := ctx.S();
    UnmappedNotHuge(a, 0x100_0000_0000);
    ghost var n;
    r, n := ctx.MapRange(0x100_0000_0000, 1, 1, true);
    assert 0x1000_0000 * PAGE == 0x100_0000_0000;
    UnalignedRanges(a, ctx.S(), 0x1000_0000, true);
  }

  lemma FourGiB()
    ensures BootFrames(0) == 0x800 && BootMap(0x100_0000_0000, 0x800) == Unmapped && PagesFor(1) == 1
  {
  }
}
