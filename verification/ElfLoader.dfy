/**
 boot_elf_load (boot/common/elf_load.c) through the arena and the page tables: what the
 loaded image's addresses translate to, and the bytes found there.
 */
module ElfLoader {
  import opened PageTables
  import opened BootPaging

  const EHDR: nat := 64    // sizeof(struct elf64_ehdr)
  const PHDR: nat := 56    // sizeof(struct elf64_phdr)
  const MACHINE: nat := 62 // EM_X86_64

  // ---- little-endian fields ----

  function Le(img: seq<Byte>, off: nat, n: nat): (v: nat)
    requires off + n <= |img|
    ensures n <= 8 ==> v < U64
  {
    LeBound(img, off, n);
    LeValue(img, off, n)
  }

  function LeValue(img: seq<Byte>, off: nat, n: nat): nat
    requires off + n <= |img|
    decreases n
  {
    if n == 0 then 0 else img[off] as nat + 256 * LeValue(img, off + 1, n - 1)
  }

  function Pow256(n: nat): nat {
    if n == 0 then 1 else 256 * Pow256(n - 1)
  }

  lemma LeBound(img: seq<Byte>, off: nat, n: nat)
    requires off + n <= |img|
    ensures LeValue(img, off, n) < Pow256(n)
    ensures n <= 8 ==> Pow256(n) <= U64
    decreases n
  {
    if n > 0 {
      LeBound(img, off + 1, n - 1);
    }
    assert Pow256(8) == U64;
    PowMono(n, 8);
  }

  lemma PowMono(m: nat, n: nat)
    ensures m <= n ==> 1 <= Pow256(m) <= Pow256(n)
  {
    if 0 < m <= n {
      PowMono(m - 1, n - 1);
    } else if m == 0 < n {
      PowMono(0, n - 1);
    }
  }

  datatype Phdr = Phdr(kind: nat, flags: nat, offset: nat, vaddr: nat, filesz: nat, memsz: nat, align: nat)

  predicate HeaderOk(img: seq<Byte>) {
    && |img| >= EHDR
    && img[..4] == [0x7f, 0x45, 0x4c, 0x46]
    && img[4] == 2 && img[5] == 1 && img[6] == 1 && Le(img, 20, 4) == 1
    && Le(img, 18, 2) == MACHINE
    && (Le(img, 16, 2) == 2 || Le(img, 16, 2) == 3)
    && Le(img, 54, 2) == PHDR && Le(img, 56, 2) != 0
    && Le(img, 32, 8) <= |img|
    && Le(img, 56, 2) * PHDR <= |img| - Le(img, 32, 8)
  }

  /** Program header `i` of the image. */
  function PhdrAt(img: seq<Byte>, i: nat): (ph: Phdr)
    requires HeaderOk(img) && i < Le(img, 56, 2)
    ensures ph.vaddr < U64 && ph.memsz < U64 && ph.align < U64
  {
    var o := Le(img, 32, 8) + i * PHDR;
    assert o + PHDR <= |img|;
    Phdr(Le(img, o, 4), Le(img, o + 4, 4), Le(img, o + 8, 8), Le(img, o + 16, 8),
         Le(img, o + 32, 8), Le(img, o + 40, 8), Le(img, o + 48, 8))
  }

  function Phdrs(img: seq<Byte>): (phs: seq<Phdr>)
    requires HeaderOk(img)
    ensures |phs| == Le(img, 56, 2)
  {
    seq(Le(img, 56, 2), i requires 0 <= i < Le(img, 56, 2) => PhdrAt(img, i))
  }

  predicate Executable(ph: Phdr) {
    ph.flags % 2 == 1
  }

  predicate Writable(ph: Phdr) {
    ph.flags / 2 % 2 == 1
  }

  /** C's `&`, bit by bit. */
  function BitAnd(x: nat, y: nat): nat {
    if x == 0 || y == 0 then 0 else (x % 2) * (y % 2) + 2 * BitAnd(x / 2, y / 2)
  }

  /** phdr_ok */
  predicate PhdrOk(ph: Phdr, size: nat)
    requires ph.vaddr < U64 && ph.align < U64
  {
    ph.kind != 1 ||
    (&& !(Writable(ph) && Executable(ph))
     && ph.memsz >= ph.filesz
     && ph.offset <= size && ph.filesz <= size - ph.offset
     && ph.vaddr % PAGE == 0
     && (ph.align != 0 ==> BitAnd(ph.vaddr, ph.align - 1) == 0))
  }

  predicate Loads(ph: Phdr) {
    ph.kind == 1 && ph.memsz != 0
  }

  // ---- the span of the image ----

  /** min_virt and max_virt after the first headers. */
  function Lo(phs: seq<Phdr>): (lo: nat)
    ensures lo < U64
  {
    if phs == [] then U64 - 1
    else
      var rest, ph := Lo(phs[..|phs| - 1]), phs[|phs| - 1];
      if Loads(ph) && ph.vaddr < rest then ph.vaddr else rest
  }

  function Hi(phs: seq<Phdr>): (hi: nat)
    ensures hi < U64
  {
    if phs == [] then 0
    else
      var rest, ph := Hi(phs[..|phs| - 1]), phs[|phs| - 1];
      if Loads(ph) && (ph.vaddr + ph.memsz) % U64 > rest then (ph.vaddr + ph.memsz) % U64 else rest
  }

  predicate AllOk(phs: seq<Phdr>, size: nat) {
    forall i :: 0 <= i < |phs| ==> phs[i].vaddr < U64 && phs[i].align < U64 && PhdrOk(phs[i], size)
  }

  predicate NoWrap(phs: seq<Phdr>) {
    forall i :: 0 <= i < |phs| && Loads(phs[i]) ==> phs[i].vaddr + phs[i].memsz < U64
  }

  /** No two loaded segments share an address. */
  predicate Disjoint(phs: seq<Phdr>) {
    forall i, j :: 0 <= i < j < |phs| && Loads(phs[i]) && Loads(phs[j]) ==> Apart(phs[i], phs[j])
  }

  predicate Apart(a: Phdr, b: Phdr) {
    a.vaddr + a.memsz <= b.vaddr || b.vaddr + b.memsz <= a.vaddr
  }

  lemma {:induction false} SpanHolds(phs: seq<Phdr>, i: nat)
    requires i < |phs| && Loads(phs[i]) && NoWrap(phs)
    ensures Lo(phs) <= phs[i].vaddr && phs[i].vaddr + phs[i].memsz <= Hi(phs)
  {
    if i < |phs| - 1 {
      SpanHolds(phs[..|phs| - 1], i);
    }
  }

  lemma {:induction false} LoAligned(phs: seq<Phdr>, size: nat)
    requires AllOk(phs, size) && Lo(phs) != U64 - 1
    ensures Lo(phs) % PAGE == 0
  {
    if phs != [] && Lo(phs[..|phs| - 1]) != U64 - 1 {
      LoAligned(phs[..|phs| - 1], size);
    }
  }

  // ---- memory and translation of one segment ----

  /** boot_memcpy of `n` file bytes to `p`. */
  function Copied(mem: map<nat, Byte>, img: seq<Byte>, off: nat, p: nat, n: nat): (m: map<nat, Byte>)
    requires off + n <= |img|
    ensures forall a: nat :: p <= a < p + n ==> a in m && m[a] == img[off + (a - p)]
    ensures forall a: nat :: a < p || a >= p + n ==> (a in m <==> a in mem) && (a in m ==> m[a] == mem[a])
  {
    if n == 0 then mem else Copied(mem, img, off, p, n - 1)[p + n - 1 := img[off + n - 1]]
  }

  /** The byte the program headers give for place `k` of a segment. */
  function SegmentByte(img: seq<Byte>, ph: Phdr, k: nat): Byte
    requires ph.offset + ph.filesz <= |img|
  {
    if k < ph.filesz then img[ph.offset + k] else 0
  }

  /** The segment's `memsz` bytes stand in memory from `p` on. */
  ghost predicate InMemory(mem: map<nat, Byte>, img: seq<Byte>, ph: Phdr, p: nat)
    requires ph.offset + ph.filesz <= |img|
  {
    forall k: nat :: k < ph.memsz ==> ByteAt(mem, img, ph, p, k)
  }

  ghost predicate ByteAt(mem: map<nat, Byte>, img: seq<Byte>, ph: Phdr, p: nat, k: nat)
    requires ph.offset + ph.filesz <= |img|
  {
    p + k in mem && mem[p + k] == SegmentByte(img, ph, k)
  }

  ghost predicate ZeroFrom(mem: map<nat, Byte>, p: nat, n: nat) {
    forall a: nat :: p <= a < p + n ==> a in mem && mem[a] == 0
  }

  ghost predicate SegmentMapped(s: Space, ph: Phdr, p: nat) {
    forall k: nat :: k < ph.memsz ==> MapsByte(s, ph.vaddr, p, k, Writable(ph))
  }

  lemma CopyFills(mem: map<nat, Byte>, img: seq<Byte>, ph: Phdr, p: nat)
    requires ph.offset + ph.filesz <= |img| && ph.filesz <= ph.memsz && ZeroFrom(mem, p, ph.memsz)
    ensures InMemory(Copied(mem, img, ph.offset, p, ph.filesz), img, ph, p)
  {
    hide Copied;
    var m := Copied(mem, img, ph.offset, p, ph.filesz);
    forall k: nat | k < ph.memsz ensures ByteAt(m, img, ph, p, k) {
      assert p <= p + k < p + ph.memsz;
    }
  }

  lemma CopyKeeps(mem: map<nat, Byte>, img: seq<Byte>, off: nat, p: nat, n: nat, ph: Phdr, q: nat)
    requires off + n <= |img| && ph.offset + ph.filesz <= |img|
    requires q + ph.memsz <= p || p + n <= q
    ensures InMemory(mem, img, ph, q) ==> InMemory(Copied(mem, img, off, p, n), img, ph, q)
    ensures ZeroFrom(mem, q, ph.memsz) ==> ZeroFrom(Copied(mem, img, off, p, n), q, ph.memsz)
  {
    hide Copied, SegmentByte;
    var m := Copied(mem, img, off, p, n);
    if InMemory(mem, img, ph, q) {
      forall k: nat | k < ph.memsz ensures ByteAt(m, img, ph, q, k) {
        assert ByteAt(mem, img, ph, q, k);
      }
    }
  }

  /** Mapping a segment's pages maps its bytes. */
  lemma SegmentMapsBytes(a: Space, b: Space, ph: Phdr, p: nat)
    requires MapsRange(a, b, ph.vaddr, p, PagesFor(ph.memsz), Writable(ph))
    requires ph.vaddr % PAGE == 0 && p % PAGE == 0 && ph.memsz <= SPACE
    ensures SegmentMapped(b, ph, p)
  {
    hide MapsRange, MapsByte;
    forall k: nat | k < ph.memsz ensures MapsByte(b, ph.vaddr, p, k, Writable(ph)) {
      RangeExactAt(a, b, ph.vaddr, p, ph.memsz, k, Writable(ph));
    }
  }

  /** The pages of one segment hold no address of another. */
  lemma SegmentsOnOtherPages(a: Phdr, b: Phdr, k: nat)
    requires a.vaddr % PAGE == 0 && b.vaddr % PAGE == 0 && k < b.memsz && Apart(a, b)
    requires a.vaddr + a.memsz <= b.vaddr + SPACE && b.vaddr + b.memsz <= a.vaddr + SPACE
    ensures Ahead(b.vaddr + k, a.vaddr) >= PagesFor(a.memsz)
  {
    var x := b.vaddr + k;
    var i, j := a.vaddr / PAGE, x / PAGE;
    assert a.vaddr == i * PAGE;
    ModDifference(j, i);
  }

  lemma ModDifference(j: nat, i: nat)
    ensures (j % PAGES - i % PAGES) % PAGES == (j - i) % PAGES
  {
    ModPlus(j % PAGES - i % PAGES, j / PAGES - i / PAGES);
  }

  lemma SegmentKept(s: Space, t: Space, a: Phdr, b: Phdr, p: nat, q: nat)
    requires a.vaddr % PAGE == 0 && b.vaddr % PAGE == 0 && Apart(a, b)
    requires a.vaddr + a.memsz <= b.vaddr + SPACE && b.vaddr + b.memsz <= a.vaddr + SPACE
    requires MapsRange(s, t, a.vaddr, p, PagesFor(a.memsz), Writable(a)) && SegmentMapped(s, b, q)
    ensures SegmentMapped(t, b, q)
  {
    hide Translate, Ahead, PagesFor, Apart;
    forall k: nat | k < b.memsz ensures MapsByte(t, b.vaddr, q, k, Writable(b)) {
      SegmentsOnOtherPages(a, b, k);
      assert MapsByte(s, b.vaddr, q, k, Writable(b));
    }
  }

  // ---- the whole image ----

  /** Where the loader puts a segment. */
  function Place(ph: Phdr, lo: nat, base: nat): (p: int) {
    base + ph.vaddr - lo
  }

  /** What the loop over the headers relies on: checked headers inside the span. */
  ghost predicate Spanned(phs: seq<Phdr>, size: nat, lo: nat, hi: nat, base: nat) {
    && lo % PAGE == 0 && base % PAGE == 0 && lo <= hi <= lo + SPACE
    && forall i :: 0 <= i < |phs| && Loads(phs[i]) ==> SegmentOk(phs[i], size, lo, hi)
  }

  ghost predicate SegmentOk(ph: Phdr, size: nat, lo: nat, hi: nat) {
    && lo <= ph.vaddr && ph.vaddr + ph.memsz <= hi && ph.vaddr % PAGE == 0
    && ph.offset + ph.filesz <= size && ph.filesz <= ph.memsz
  }

  /** The first `n` segments stand in memory and are mapped; the others are still zero. */
  ghost predicate Loaded(s: Space, mem: map<nat, Byte>, img: seq<Byte>, phs: seq<Phdr>, lo: nat, hi: nat,
      base: nat, n: nat)
    requires Spanned(phs, |img|, lo, hi, base)
  {
    forall j :: 0 <= j < |phs| && Loads(phs[j]) ==>
      if j < n then InMemory(mem, img, phs[j], Place(phs[j], lo, base)) &&
          SegmentMapped(s, phs[j], Place(phs[j], lo, base))
      else ZeroFrom(mem, Place(phs[j], lo, base), phs[j].memsz)
  }

  lemma LoadStep(s: Space, t: Space, mem: map<nat, Byte>, img: seq<Byte>, phs: seq<Phdr>,
                 lo: nat, hi: nat, base: nat, n: nat)
    requires Spanned(phs, |img|, lo, hi, base) && Disjoint(phs) && n < |phs| && Loads(phs[n])
    requires Loaded(s, mem, img, phs, lo, hi, base, n)
    requires MapsRange(s, t, phs[n].vaddr, Place(phs[n], lo, base), PagesFor(phs[n].memsz), Writable(phs[n]))
    ensures Loaded(t, Copied(mem, img, phs[n].offset, Place(phs[n], lo, base), phs[n].filesz), img, phs, lo, hi,
        base, n + 1)
  {
    hide Copied, InMemory, ZeroFrom, SegmentMapped, MapsRange, PagesFor, Loads;
    var ph, p := phs[n], Place(phs[n], lo, base);
    assert SegmentOk(ph, |img|, lo, hi);
    CopyFills(mem, img, ph, p);
    SegmentMapsBytes(s, t, ph, p);
    forall j | 0 <= j < |phs| && Loads(phs[j]) && j != n
      ensures j < n ==> InMemory(Copied(mem, img, ph.offset, p, ph.filesz), img, phs[j], Place(phs[j], lo, base))
      ensures j < n ==> SegmentMapped(t, phs[j], Place(phs[j], lo, base))
      ensures j > n ==> ZeroFrom(Copied(mem, img, ph.offset, p, ph.filesz), Place(phs[j], lo, base), phs[j].memsz)
    {
      assert SegmentOk(phs[j], |img|, lo, hi);
      assert Apart(ph, phs[j]);
      CopyKeeps(mem, img, ph.offset, p, ph.filesz, phs[j], Place(phs[j], lo, base));
      if j < n {
        SegmentKept(s, t, ph, phs[j], p, Place(phs[j], lo, base));
      }
    }
  }

  /** Reading address `vaddr + k` through the tables gives what the program header says. */
  ghost predicate Presents(s: Space, mem: map<nat, Byte>, img: seq<Byte>, ph: Phdr, k: nat)
    requires ph.offset + ph.filesz <= |img|
  {
    var m := Translate(s, ph.vaddr + k);
    m.To? && m.writable == Writable(ph) && m.pa in mem && mem[m.pa] == SegmentByte(img, ph, k)
  }

  ghost predicate PresentsAll(s: Space, mem: map<nat, Byte>, img: seq<Byte>, phs: seq<Phdr>)
  {
    && (forall i :: 0 <= i < |phs| && Loads(phs[i]) ==> phs[i].offset + phs[i].filesz <= |img|)
    && forall i, k: nat :: 0 <= i < |phs| && Loads(phs[i]) && k < phs[i].memsz ==> Presents(s, mem, img, phs[i], k)
  }

  lemma LoadedPresents(s: Space, mem: map<nat, Byte>, img: seq<Byte>, phs: seq<Phdr>, lo: nat, hi: nat, base: nat)
    requires Spanned(phs, |img|, lo, hi, base) && Loaded(s, mem, img, phs, lo, hi, base, |phs|)
    ensures PresentsAll(s, mem, img, phs)
  {
    hide Translate, Loads, SegmentByte;
    forall i | 0 <= i < |phs| && Loads(phs[i]) ensures phs[i].offset + phs[i].filesz <= |img| {
      assert SegmentOk(phs[i], |img|, lo, hi);
    }
    forall i, k: nat | 0 <= i < |phs| && Loads(phs[i]) && k < phs[i].memsz
      ensures Presents(s, mem, img, phs[i], k)
    {
      assert SegmentOk(phs[i], |img|, lo, hi);
      var p := Place(phs[i], lo, base);
      assert ByteAt(mem, img, phs[i], p, k);
      assert MapsByte(s, phs[i].vaddr, p, k, Writable(phs[i]));
    }
  }

  /** Addresses on no segment's pages translate as before. */
  ghost predicate KeepsElsewhere(s: Space, t: Space, phs: seq<Phdr>) {
    forall va: nat :: Elsewhere(phs, va) ==> Translate(t, va) == Translate(s, va)
  }

  predicate Elsewhere(phs: seq<Phdr>, va: nat) {
    forall i :: 0 <= i < |phs| && Loads(phs[i]) ==> Ahead(va, phs[i].vaddr) >= PagesFor(phs[i].memsz)
  }

  lemma ElsewhereStep(s: Space, t: Space, u: Space, phs: seq<Phdr>, n: nat, p: nat, w: bool)
    requires KeepsElsewhere(s, t, phs) && n < |phs| && Loads(phs[n])
    requires MapsRange(t, u, phs[n].vaddr, p, PagesFor(phs[n].memsz), w)
    ensures KeepsElsewhere(s, u, phs)
  {
    hide Translate, Ahead, PagesFor, Loads;
  }

  // ---- boot_elf_load ----

  ghost predicate SameOutside(before: map<nat, Byte>, after: map<nat, Byte>, from: nat, to: nat) {
    forall a: nat :: a < from || a >= to ==> (a in after <==> a in before) && (a in after ==> after[a] == before[a])
  }

  /** No table page overlaps the image. */
  ghost predicate TablesClear(tables: set<nat>, base: nat, span: nat) {
    forall t :: t in tables ==> t + PAGE <= base || base + span <= t
  }

  /** An accepted image whose segments, and whose span placed at `next`, stay below 2^64. */
  ghost predicate Sized(img: seq<Byte>, next: nat) {
    HeaderOk(img) && AllOk(Phdrs(img), |img|) ==>
      NoWrap(Phdrs(img)) && next + Hi(Phdrs(img)) + PAGE <= U64 + Lo(Phdrs(img))
  }

  /** The first pass over the headers: all are acceptable, and the span they cover. */
  method Bounds(phs: seq<Phdr>, size: nat) returns (ok: bool, lo: nat, hi: nat)
    requires forall i :: 0 <= i < |phs| ==> phs[i].vaddr < U64 && phs[i].align < U64
    ensures ok <==> AllOk(phs, size)
    ensures ok ==> lo == Lo(phs) && hi == Hi(phs)
  {
    hide PhdrOk;
    ok, lo, hi := true, U64 - 1, 0;
    for i := 0 to |phs|
      invariant ok && AllOk(phs[..i], size) && lo == Lo(phs[..i]) && hi == Hi(phs[..i])
    {
      assert phs[..i + 1][..i] == phs[..i];
      if !PhdrOk(phs[i], size) {
        return false, lo, hi;
      }
      if !Loads(phs[i]) {
        continue;
      }
      if phs[i].vaddr < lo {
        lo := phs[i].vaddr;
      }
      var end := (phs[i].vaddr + phs[i].memsz) % U64;
      if end > hi {
        hi := end;
      }
    }
    assert phs[..|phs|] == phs;
  }

  /** One of the `n` pages from `virt` on lies behind a 2 MiB entry. */
  ghost predicate HugeIn(s: Space, virt: nat, n: nat) {
    exists k: nat :: k < n && Huge(s, virt + k * PAGE)
  }

  /** The page loop of one segment. */
  method MapSegment(ctx: LoadCtx, virt: nat, phys: nat, size: nat, writable: bool) returns (r: int)
    requires ctx.Valid() && virt % PAGE == 0 && virt + size < U64 && size <= SPACE
    modifies ctx`next, ctx`tables, ctx`path
    ensures ctx.Valid() && ctx.next >= old(ctx.next)
    ensures TablesFrom(old(ctx.tables.Keys), ctx.tables.Keys, old(ctx.next))
    ensures r == 0 || r == -1
    ensures r == 0 ==> MapsRange(old(ctx.S()), ctx.S(), virt, phys, PagesFor(size), writable)
    ensures SameHuge(old(ctx.S()), ctx.S()) && ctx.next <= old(ctx.next) + 3 * PAGE * PagesFor(size)
    ensures r == 0 ==> (size > 0 ==> ctx.pml4 != 0) && !HugeIn(old(ctx.S()), virt, PagesFor(size))
    ensures r == -1 ==> ctx.pml4 == 0 || ctx.next + PAGE > ctx.end || HugeIn(old(ctx.S()), virt, PagesFor(size))
  {
    hide Translate, Huge, Tidy, Ahead, SamePage;
    ghost var a, n := ctx.S(), 0;
    var v, p := virt, phys;
    while v < virt + size
      invariant v == virt + n * PAGE && p == phys + n * PAGE && n <= PagesFor(size)
      invariant ctx.Valid() && ctx.next >= old(ctx.next)
      invariant TablesFrom(old(ctx.tables.Keys), ctx.tables.Keys, old(ctx.next))
      invariant MapsRange(a, ctx.S(), virt, phys, n, writable)
      invariant SameHuge(a, ctx.S()) && ctx.next <= old(ctx.next) + 3 * PAGE * n
      invariant (n > 0 ==> ctx.pml4 != 0) && !HugeIn(a, virt, n)
    {
      ghost var b := ctx.S();
      if ctx.pml4 == 0 {
        return -1;
      }
      r := ctx.Map4k(v, p, writable);
      if r != 0 {
        return;
      }
      RangePage(a, b, ctx.S(), virt, phys, n, writable);
      v, p, n := v + PAGE, p + PAGE, n + 1;
    }
    r := 0;
  }

  /** There is no root table, or a 2 MiB entry is in the segment's way. */
  ghost predicate Obstructed(s: Space, ph: Phdr) {
    s.root == 0 || HugeIn(s, ph.vaddr, PagesFor(ph.memsz))
  }

  /** One segment of the second pass: copied to its place, then mapped. */
  method LoadOne(ctx: LoadCtx, img: seq<Byte>, ph: Phdr, lo: nat, ghost hi: nat, base: nat) returns (r: int)
    requires ctx.Valid() && Loads(ph) && SegmentOk(ph, |img|, lo, hi) && hi < U64 && hi <= lo + SPACE
    modifies ctx`next, ctx`tables, ctx`path, ctx`mem
    ensures ctx.Valid() && old(ctx.next) <= ctx.next <= old(ctx.next) + 3 * PAGE * PagesFor(ph.memsz)
    ensures TablesFrom(old(ctx.tables.Keys), ctx.tables.Keys, old(ctx.next))
    ensures ctx.mem == Copied(old(ctx.mem), img, ph.offset, Place(ph, lo, base), ph.filesz)
    ensures SameHuge(old(ctx.S()), ctx.S())
    ensures r == 0 || r == -1
    ensures r == 0 ==> !Obstructed(old(ctx.S()), ph)
    ensures r == 0 ==>
      MapsRange(old(ctx.S()), ctx.S(), ph.vaddr, Place(ph, lo, base), PagesFor(ph.memsz), Writable(ph))
    ensures r == -1 ==> ctx.next + PAGE > ctx.end || Obstructed(old(ctx.S()), ph)
  {
    hide Translate, Tidy, MapsRange, Copied, PagesFor, SameHuge, HugeIn;
    var dest := base + (ph.vaddr - lo);
    ctx.mem := Copied(ctx.mem, img, ph.offset, dest, ph.filesz);
    r := MapSegment(ctx, ph.vaddr, dest, ph.memsz, Writable(ph));
  }

  lemma CopyInside(mem: map<nat, Byte>, after: map<nat, Byte>, img: seq<Byte>, ph: Phdr, lo: nat, hi: nat, base: nat)
    requires SegmentOk(ph, |img|, lo, hi) && SameOutside(mem, after, base, base + (hi - lo))
    ensures Place(ph, lo, base) >= 0
    ensures SameOutside(mem, Copied(after, img, ph.offset, Place(ph, lo, base), ph.filesz), base, base + (hi - lo))
  {
  }

  /** The second pass: copy and map every segment. */
  method LoadSegments(ctx: LoadCtx, img: seq<Byte>, phs: seq<Phdr>, lo: nat, ghost hi: nat, base: nat) returns (r: int)
    requires ctx.Valid() && Spanned(phs, |img|, lo, hi, base) && hi < U64
    requires Loaded(ctx.S(), ctx.mem, img, phs, lo, hi, base, 0)
    modifies ctx`next, ctx`tables, ctx`path, ctx`mem
    ensures ctx.Valid() && TablesFrom(old(ctx.tables.Keys), ctx.tables.Keys, old(ctx.next))
    ensures SameOutside(old(ctx.mem), ctx.mem, base, base + (hi - lo))
    ensures r == 0 || r == -1
    ensures r == 0 ==> KeepsElsewhere(old(ctx.S()), ctx.S(), phs)
    ensures r == 0 && Disjoint(phs) ==> Loaded(ctx.S(), ctx.mem, img, phs, lo, hi, base, |phs|)
    ensures ctx.next <= old(ctx.next) + 3 * PAGE * PagesOf(phs, |phs|)
    ensures r == 0 ==> !InTheWay(old(ctx.S()), phs, |phs|)
    ensures r == -1 ==> ctx.next + PAGE > ctx.end || InTheWay(old(ctx.S()), phs, |phs|)
  {
    hide Loaded, Translate, Tidy, MapsRange, Copied, Disjoint, Loads, PagesFor, KeepsElsewhere, InTheWay, PagesOf,
         SameHuge, Obstructed, SameOutside, SegmentOk;
    KeepsNow(ctx.S(), phs);
    NoneInTheWay(ctx.S(), phs);
    SameMemory(ctx.mem, base, base + (hi - lo));
    for n := 0 to |phs|
      invariant ctx.Valid() && ctx.next >= old(ctx.next)
      invariant TablesFrom(old(ctx.tables.Keys), ctx.tables.Keys, old(ctx.next))
      invariant SameOutside(old(ctx.mem), ctx.mem, base, base + (hi - lo))
      invariant KeepsElsewhere(old(ctx.S()), ctx.S(), phs)
      invariant Disjoint(phs) ==> Loaded(ctx.S(), ctx.mem, img, phs, lo, hi, base, n)
      invariant SameHuge(old(ctx.S()), ctx.S()) && ctx.next <= old(ctx.next) + 3 * PAGE * PagesOf(phs, n)
      invariant !InTheWay(old(ctx.S()), phs, n)
    {
      InTheWayNext(old(ctx.S()), ctx.S(), phs, n);
      InTheWayMore(old(ctx.S()), phs, n + 1, |phs|);
      PagesMore(phs, n + 1, |phs|);
      ghost var s, mem := ctx.S(), ctx.mem;
      if Loads(phs[n]) {
        assert SegmentOk(phs[n], |img|, lo, hi);
        CopyInside(old(ctx.mem), mem, img, phs[n], lo, hi, base);
        r := LoadOne(ctx, img, phs[n], lo, hi, base);
        HugeTrans(old(ctx.S()), s, ctx.S());
        if r != 0 {
          return;
        }
        ElsewhereStep(old(ctx.S()), s, ctx.S(), phs, n, Place(phs[n], lo, base), Writable(phs[n]));
        if Disjoint(phs) {
          LoadStep(s, ctx.S(), mem, img, phs, lo, hi, base, n);
        }
      } else {
        LoadSkip(s, mem, img, phs, lo, hi, base, n);
      }
    }
    r := 0;
  }

  lemma SameMemory(mem: map<nat, Byte>, from: nat, to: nat)
    ensures SameOutside(mem, mem, from, to)
  {
  }

  /** The pages that the loadable ones of the first `n` segments take. */
  ghost function PagesOf(phs: seq<Phdr>, n: nat): nat
    requires n <= |phs|
  {
    if n == 0 then 0 else PagesOf(phs, n - 1) + if Loads(phs[n - 1]) then PagesFor(phs[n - 1].memsz) else 0
  }

  /** For one of the first `n` segments there is no root table, or a 2 MiB entry is in the way. */
  ghost predicate InTheWay(s: Space, phs: seq<Phdr>, n: nat)
    requires n <= |phs|
  {
    exists i :: 0 <= i < n && Loads(phs[i]) && Obstructed(s, phs[i])
  }

  lemma NoneInTheWay(s: Space, phs: seq<Phdr>)
    ensures !InTheWay(s, phs, 0) && PagesOf(phs, 0) == 0 && SameHuge(s, s)
  {
    hide Huge;
  }

  lemma InTheWayNext(a: Space, s: Space, phs: seq<Phdr>, n: nat)
    requires n < |phs| && SameHuge(a, s) && a.root == s.root && !InTheWay(a, phs, n)
    ensures InTheWay(a, phs, n + 1) <==> Loads(phs[n]) && Obstructed(s, phs[n])
    ensures PagesOf(phs, n + 1) == PagesOf(phs, n) + if Loads(phs[n]) then PagesFor(phs[n].memsz) else 0
  {
    hide Huge, Loads, PagesFor;
  }

  lemma HugeTrans(a: Space, b: Space, c: Space)
    requires SameHuge(a, b) && SameHuge(b, c)
    ensures SameHuge(a, c)
  {
    hide Huge;
  }

  lemma InTheWayMore(s: Space, phs: seq<Phdr>, n: nat, m: nat)
    requires n <= m <= |phs|
    ensures InTheWay(s, phs, n) ==> InTheWay(s, phs, m)
  {
    hide Obstructed, Loads;
  }

  lemma {:induction false} PagesMore(phs: seq<Phdr>, n: nat, m: nat)
    requires n <= m <= |phs|
    ensures PagesOf(phs, n) <= PagesOf(phs, m)
  {
    hide Loads, PagesFor;
    if n < m {
      PagesMore(phs, n, m - 1);
    }
  }

  lemma KeepsNow(s: Space, phs: seq<Phdr>)
    ensures KeepsElsewhere(s, s, phs)
  {
  }

  lemma LoadSkip(s: Space, mem: map<nat, Byte>, img: seq<Byte>, phs: seq<Phdr>, lo: nat, hi: nat, base: nat, n: nat)
    requires Spanned(phs, |img|, lo, hi, base) && n < |phs| && !Loads(phs[n])
    ensures Loaded(s, mem, img, phs, lo, hi, base, n) ==> Loaded(s, mem, img, phs, lo, hi, base, n + 1)
  {
    hide InMemory, SegmentMapped, ZeroFrom, Loads, Place;
  }

  /** The loader turns the image down: its header, a program header, or nothing to load. */
  ghost predicate Rejected(img: seq<Byte>) {
    !HeaderOk(img) || !AllOk(Phdrs(img), |img|) || Lo(Phdrs(img)) == U64 - 1 || Hi(Phdrs(img)) <= Lo(Phdrs(img))
  }

  /** The bytes of the image's span, in whole pages. */
  ghost function SpanOf(img: seq<Byte>): nat
    requires !Rejected(img)
  {
    (Hi(Phdrs(img)) - Lo(Phdrs(img)) + PAGE - 1) / PAGE * PAGE
  }

  /** The arena from `next` to `end` has room for the span, three tables for each page mapped, and one page more. */
  ghost predicate Roomy(img: seq<Byte>, next: nat, end: nat)
    requires !Rejected(img)
  {
    next + SpanOf(img) + (3 * PagesOf(Phdrs(img), |Phdrs(img)|) + 1) * PAGE <= end
  }

  /** boot_load_ctx_elf_load: with room in the arena it succeeds exactly when the image is not rejected, there is
      a root table, and no 2 MiB entry is in the way. */
  method Load(ctx: LoadCtx, img: seq<Byte>) returns (r: int, entry: nat, base: nat, span: nat)
    requires ctx.Valid() && Sized(img, ctx.next)
    modifies ctx`next, ctx`tables, ctx`path, ctx`mem
    ensures ctx.Valid()
    ensures r == 0 || r == -1
    ensures r == 0 ==> HeaderOk(img) && AllOk(Phdrs(img), |img|) && entry == Le(img, 24, 8)
    ensures r == 0 ==> TablesClear(ctx.tables.Keys, base, span) && SameOutside(old(ctx.mem), ctx.mem, base, base + span)
    ensures r == 0 ==> KeepsElsewhere(old(ctx.S()), ctx.S(), Phdrs(img))
    ensures r == 0 && Disjoint(Phdrs(img)) ==> PresentsAll(ctx.S(), ctx.mem, img, Phdrs(img))
    ensures r == 0 ==> !Rejected(img) && !InTheWay(old(ctx.S()), Phdrs(img), |Phdrs(img)|)
    ensures r == -1 && !Rejected(img) && !InTheWay(old(ctx.S()), Phdrs(img), |Phdrs(img)|) ==>
      !Roomy(img, old(ctx.next), ctx.end) && (old(ctx.next) + SpanOf(img) > ctx.end || ctx.next + PAGE > ctx.end)
  {
    hide Translate, Tidy, PresentsAll, Disjoint, AllOk, Lo, Hi, Le, HeaderOk, NoWrap, KeepsElsewhere, InTheWay, PagesOf,
         Roomy;
    r, entry, base, span := -1, 0, 0, 0;
    HeaderLong(img);
    if |img| < EHDR || !HeaderOk(img) {
      return;
    }
    var phs := Phdrs(img);
    var ok, lo, hi := Bounds(phs, |img|);
    if !ok || lo == U64 - 1 || hi <= lo {
      return;
    }
    span := (hi - lo + PAGE - 1) / PAGE * PAGE;
    r, base := LoadSpan(ctx, img, phs, lo, hi, span);
    if r == 0 {
      entry := Le(img, 24, 8);
    }
  }

  lemma HeaderLong(img: seq<Byte>)
    ensures HeaderOk(img) ==> |img| >= EHDR
  {
  }

  /** The part of boot_elf_load after the first pass: the span from the arena, then the segments. */
  method LoadSpan(ctx: LoadCtx, img: seq<Byte>, phs: seq<Phdr>, lo: nat, hi: nat, span: nat) returns (r: int, base: nat)
    requires ctx.Valid() && Sized(img, ctx.next) && !Rejected(img) && phs == Phdrs(img)
    requires lo == Lo(phs) && hi == Hi(phs) && span == SpanOf(img)
    modifies ctx`next, ctx`tables, ctx`path, ctx`mem
    ensures ctx.Valid()
    ensures r == 0 || r == -1
    ensures r == 0 ==> TablesClear(ctx.tables.Keys, base, span) && SameOutside(old(ctx.mem), ctx.mem, base, base + span)
    ensures r == 0 ==> KeepsElsewhere(old(ctx.S()), ctx.S(), phs)
    ensures r == 0 && Disjoint(phs) ==> PresentsAll(ctx.S(), ctx.mem, img, phs)
    ensures r == 0 ==> !InTheWay(old(ctx.S()), phs, |phs|)
    ensures r == -1 && !InTheWay(old(ctx.S()), phs, |phs|) ==>
      !Roomy(img, old(ctx.next), ctx.end) && (old(ctx.next) + span > ctx.end || ctx.next + PAGE > ctx.end)
  {
    hide Translate, Tidy, Loaded, PresentsAll, Disjoint, AllOk, Lo, Hi, HeaderOk, Cleared, Spanned, NoWrap,
         KeepsElsewhere, InTheWay, PagesOf, Phdrs;
    r := -1;
    base := ctx.AllocPages(span / PAGE);
    if base == 0 {
      return;
    }
    SpanReady(ctx.S(), ctx.mem, img, phs, lo, hi, base);
    r := LoadSegments(ctx, img, phs, lo, hi, base);
    if r == 0 && Disjoint(phs) {
      LoadedPresents(ctx.S(), ctx.mem, img, phs, lo, hi, base);
    }
  }

  /** A cleared span holds every segment's place, all zero. */
  lemma SpanReady(s: Space, mem: map<nat, Byte>, img: seq<Byte>, phs: seq<Phdr>, lo: nat, hi: nat, base: nat)
    requires AllOk(phs, |img|) && NoWrap(phs) && lo == Lo(phs) && hi == Hi(phs)
    requires lo != U64 - 1 && lo <= hi <= lo + SPACE && base % PAGE == 0
    requires ZeroFrom(mem, base, hi - lo)
    ensures Spanned(phs, |img|, lo, hi, base) && Loaded(s, mem, img, phs, lo, hi, base, 0)
  {
    hide Lo, Hi;
    LoAligned(phs, |img|);
    forall i | 0 <= i < |phs| && Loads(phs[i]) ensures SegmentOk(phs[i], |img|, lo, hi) {
      SpanHolds(phs, i);
    }
  }
}
