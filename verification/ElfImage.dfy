/**
 ELF images told from the outside: the 64-bit file header and the program headers as the System V gABI lays
 them out, little-endian, and what boot_elf_load (boot/common/elf_load.c) makes of a file that holds them.
 */
module ElfImage {
  import opened PageTables
  import opened BootPaging
  import opened ElfLoader

  // ---- fields in a file ----

  /** Numbers of given widths, one after another. */
  datatype Fields = End | Field(value: nat, width: nat, rest: Fields)

  /** A number in `n` bytes, the lowest first. */
  function Put(v: nat, n: nat): (b: seq<Byte>)
    ensures |b| == n
  {
    if n == 0 then [] else [(v % 256) as Byte] + Put(v / 256, n - 1)
  }

  function Laid(f: Fields): seq<Byte> {
    match f
    case End => []
    case Field(v, w, rest) => Put(v, w) + Laid(rest)
  }

  /** The file has these fields from `off` on. */
  ghost predicate Holds(img: seq<Byte>, off: nat, f: Fields) {
    off + |Laid(f)| <= |img| && img[off..off + |Laid(f)|] == Laid(f)
  }

  lemma {:induction false} ReadBack(img: seq<Byte>, off: nat, v: nat, n: nat)
    requires off + n <= |img| && img[off..off + n] == Put(v, n) && v < Pow256(n)
    ensures LeValue(img, off, n) == v
    decreases n
  {
    if n > 0 {
      assert img[off..off + n][0] == Put(v, n)[0];
      assert img[off + 1..off + n] == img[off..off + n][1..] == Put(v / 256, n - 1);
      assert v / 256 < Pow256(n - 1);
      ReadBack(img, off + 1, v / 256, n - 1);
    }
  }

  /** The first field reads back, and the others follow it. */
  lemma First(img: seq<Byte>, off: nat, v: nat, w: nat, rest: Fields)
    requires Holds(img, off, Field(v, w, rest)) && v < Pow256(w)
    ensures off + w <= |img| && Le(img, off, w) == v && Holds(img, off + w, rest)
  {
    var all := Laid(Field(v, w, rest));
    assert all == Put(v, w) + Laid(rest);
    assert img[off..off + w] == img[off..off + |all|][..w] == Put(v, w);
    assert img[off + w..off + w + |Laid(rest)|] == img[off..off + |all|][w..] == Laid(rest);
    ReadBack(img, off, v, w);
  }

  lemma Powers()
    ensures Pow256(1) == 0x100 && Pow256(2) == 0x1_0000 && Pow256(4) == 0x1_0000_0000 && Pow256(8) == U64
  {
    assert Pow256(3) == 256 * Pow256(2) && Pow256(4) == 256 * Pow256(3) && Pow256(5) == 256 * Pow256(4);
    assert Pow256(6) == 256 * Pow256(5) && Pow256(7) == 256 * Pow256(6) && Pow256(8) == 256 * Pow256(7);
  }

  // ---- the headers ----

  datatype Header = Header(magic: nat, bits: nat, data: nat, identVersion: nat, abi: nat, kind: nat, machine: nat,
                           version: nat, entry: nat, phoff: nat, shoff: nat, flags: nat, ehsize: nat, phentsize: nat,
                           phnum: nat, shentsize: nat, shnum: nat, shstrndx: nat)

  predicate HeaderFits(h: Header) {
    && h.magic < 0x1_0000_0000 && h.bits < 0x100 && h.data < 0x100 && h.identVersion < 0x100 && h.abi < Pow256(9)
    && h.kind < 0x1_0000 && h.machine < 0x1_0000 && h.version < 0x1_0000_0000 && h.entry < U64 && h.phoff < U64
    && h.shoff < U64 && h.flags < 0x1_0000_0000 && h.ehsize < 0x1_0000 && h.phentsize < 0x1_0000
    && h.phnum < 0x1_0000 && h.shentsize < 0x1_0000 && h.shnum < 0x1_0000 && h.shstrndx < 0x1_0000
  }

  /** The file header: e_ident (magic, class, data encoding, version, and nine bytes after them), e_type, e_machine,
      e_version, e_entry, e_phoff, e_shoff, e_flags, e_ehsize, e_phentsize, e_phnum, e_shentsize, e_shnum,
      e_shstrndx. */
  function HeaderFields(h: Header): Fields {
    Field(h.magic, 4, Field(h.bits, 1, Field(h.data, 1, Field(h.identVersion, 1, Field(h.abi, 9,
    Field(h.kind, 2, Field(h.machine, 2, Field(h.version, 4,
    Field(h.entry, 8, Field(h.phoff, 8, Field(h.shoff, 8, Field(h.flags, 4,
    Field(h.ehsize, 2, Field(h.phentsize, 2, Field(h.phnum, 2,
    Field(h.shentsize, 2, Field(h.shnum, 2, Field(h.shstrndx, 2, End))))))))))))))))))
  }

  /** A program header; `more` are the flag bits above PF_R. */
  datatype Segment = Segment(kind: nat, readable: bool, writable: bool, executable: bool, more: nat,
                             offset: nat, vaddr: nat, paddr: nat, filesz: nat, memsz: nat, align: nat)

  predicate SegmentFits(g: Segment) {
    && g.kind < 0x1_0000_0000 && g.more < 0x2000_0000 && g.offset < U64 && g.vaddr < U64 && g.paddr < U64
    && g.filesz < U64 && g.memsz < U64 && g.align < U64
  }

  /** PF_X is 1, PF_W is 2, PF_R is 4. */
  function FlagBits(g: Segment): nat {
    (if g.executable then 1 else 0) + (if g.writable then 2 else 0) + (if g.readable then 4 else 0) + 8 * g.more
  }

  /** p_type, p_flags, p_offset, p_vaddr, p_paddr, p_filesz, p_memsz, p_align. */
  function SegmentFields(g: Segment): Fields {
    Field(g.kind, 4, Field(FlagBits(g), 4, Field(g.offset, 8, Field(g.vaddr, 8,
    Field(g.paddr, 8, Field(g.filesz, 8, Field(g.memsz, 8, Field(g.align, 8, End))))))))
  }

  /** The file starts with the header, and has a table of the segments where the header says. */
  ghost predicate IsElf(img: seq<Byte>, h: Header, gs: seq<Segment>) {
    && HeaderFits(h) && Holds(img, 0, HeaderFields(h)) && h.phnum == |gs|
    && forall i :: 0 <= i < |gs| ==> SegmentFits(gs[i]) && Holds(img, h.phoff + 56 * i, SegmentFields(gs[i]))
  }

  /** What the file header means to the loader: an ELF file of 64 bits, little-endian, version 1, for x86-64, to be
      executed or relocatable as a whole, with at least one program header of 56 bytes and all of them in the file. */
  predicate Acceptable(h: Header, size: nat) {
    && h.magic == 0x464c_457f && h.bits == 2 && h.data == 1 && h.identVersion == 1 && h.version == 1
    && h.machine == 62 && (h.kind == 2 || h.kind == 3)
    && h.phentsize == 56 && h.phnum > 0 && h.phoff + 56 * h.phnum <= size
  }

  lemma HeaderReads(img: seq<Byte>, h: Header)
    requires HeaderFits(h) && Holds(img, 0, HeaderFields(h))
    ensures |img| >= 64
    ensures Le(img, 0, 4) == h.magic && Le(img, 4, 1) == h.bits && Le(img, 5, 1) == h.data
    ensures Le(img, 6, 1) == h.identVersion && Le(img, 16, 2) == h.kind && Le(img, 18, 2) == h.machine
    ensures Le(img, 20, 4) == h.version && Le(img, 24, 8) == h.entry && Le(img, 32, 8) == h.phoff
    ensures Le(img, 54, 2) == h.phentsize && Le(img, 56, 2) == h.phnum
  {
    Powers();
    hide Holds, Le, Pow256, Laid;
    var f0 := HeaderFields(h);
    First(img, 0, f0.value, 4, f0.rest);
    var f1 := f0.rest;
    First(img, 4, f1.value, 1, f1.rest);
    var f2 := f1.rest;
    First(img, 5, f2.value, 1, f2.rest);
    var f3 := f2.rest;
    First(img, 6, f3.value, 1, f3.rest);
    var f4 := f3.rest;
    First(img, 7, f4.value, 9, f4.rest);
    var f5 := f4.rest;
    First(img, 16, f5.value, 2, f5.rest);
    var f6 := f5.rest;
    First(img, 18, f6.value, 2, f6.rest);
    var f7 := f6.rest;
    First(img, 20, f7.value, 4, f7.rest);
    var f8 := f7.rest;
    First(img, 24, f8.value, 8, f8.rest);
    var f9 := f8.rest;
    First(img, 32, f9.value, 8, f9.rest);
    var f10 := f9.rest;
    First(img, 40, f10.value, 8, f10.rest);
    var f11 := f10.rest;
    First(img, 48, f11.value, 4, f11.rest);
    var f12 := f11.rest;
    First(img, 52, f12.value, 2, f12.rest);
    var f13 := f12.rest;
    First(img, 54, f13.value, 2, f13.rest);
    var f14 := f13.rest;
    First(img, 56, f14.value, 2, f14.rest);
    HeaderLong(h);
    FitsLeft(img, 0, f0);
  }

  lemma FitsLeft(img: seq<Byte>, off: nat, f: Fields)
    requires Holds(img, off, f)
    ensures off + |Laid(f)| <= |img|
  {
  }

  /** The header test accepts exactly the files whose header says what it should. */
  lemma HeaderOkIff(img: seq<Byte>, h: Header)
    requires HeaderFits(h) && Holds(img, 0, HeaderFields(h))
    ensures HeaderOk(img) <==> Acceptable(h, |img|)
  {
    HeaderReads(img, h);
    MagicIs(img);
    hide Holds, Le, HeaderFields;
    assert Le(img, 4, 1) == img[4] as nat && Le(img, 5, 1) == img[5] as nat && Le(img, 6, 1) == img[6] as nat by {
      OneByte(img, 4);
      OneByte(img, 5);
      OneByte(img, 6);
    }
  }

  lemma OneByte(img: seq<Byte>, off: nat)
    requires off < |img|
    ensures Le(img, off, 1) == img[off] as nat
  {
    assert LeValue(img, off + 1, 0) == 0;
  }

  lemma MagicIs(img: seq<Byte>)
    requires |img| >= 4
    ensures Le(img, 0, 4) == 0x464c_457f <==> img[..4] == [0x7f, 0x45, 0x4c, 0x46]
  {
    assert LeValue(img, 4, 0) == 0;
    assert LeValue(img, 3, 1) == img[3] as nat;
    assert LeValue(img, 2, 2) == img[2] as nat + 256 * img[3] as nat;
    assert LeValue(img, 1, 3) == img[1] as nat + 256 * LeValue(img, 2, 2);
    assert img[..4] == [img[0], img[1], img[2], img[3]];
  }

  // ---- the program headers ----

  lemma SegmentReads(img: seq<Byte>, o: nat, g: Segment)
    requires SegmentFits(g) && Holds(img, o, SegmentFields(g))
    ensures o + 56 <= |img| && Le(img, o, 4) == g.kind && Le(img, o + 4, 4) == FlagBits(g)
    ensures Le(img, o + 8, 8) == g.offset && Le(img, o + 16, 8) == g.vaddr && Le(img, o + 32, 8) == g.filesz
    ensures Le(img, o + 40, 8) == g.memsz && Le(img, o + 48, 8) == g.align
  {
    Powers();
    hide Holds, Le, Pow256, Laid;
    var f0 := SegmentFields(g);
    First(img, o, f0.value, 4, f0.rest);
    var f1 := f0.rest;
    First(img, o + 4, f1.value, 4, f1.rest);
    var f2 := f1.rest;
    First(img, o + 8, f2.value, 8, f2.rest);
    var f3 := f2.rest;
    First(img, o + 16, f3.value, 8, f3.rest);
    var f4 := f3.rest;
    First(img, o + 24, f4.value, 8, f4.rest);
    var f5 := f4.rest;
    First(img, o + 32, f5.value, 8, f5.rest);
    var f6 := f5.rest;
    First(img, o + 40, f6.value, 8, f6.rest);
    var f7 := f6.rest;
    First(img, o + 48, f7.value, 8, f7.rest);
  }

  lemma RowReads(img: seq<Byte>, phoff: nat, g: Segment, i: nat)
    requires HeaderOk(img) && i < Le(img, 56, 2) && Le(img, 32, 8) == phoff
    requires SegmentFits(g) && Holds(img, phoff + 56 * i, SegmentFields(g))
    ensures Reads(PhdrAt(img, i), g)
  {
    hide Holds, Le, SegmentFields, Reads, HeaderOk;
    SegmentReads(img, phoff + 56 * i, g);
    ReadsAt(PhdrAt(img, i), g);
  }

  /** The loader finds the segments as they were written. */
  lemma PhdrsAre(img: seq<Byte>, h: Header, gs: seq<Segment>)
    requires IsElf(img, h, gs) && Acceptable(h, |img|)
    ensures HeaderOk(img) && |Phdrs(img)| == |gs|
    ensures forall i :: 0 <= i < |gs| ==> Reads(Phdrs(img)[i], gs[i])
  {
    hide Holds, Le, HeaderFields, SegmentFields, HeaderOk, Reads, PhdrAt, Acceptable, HeaderFits, SegmentFits;
    HeaderOkIff(img, h);
    HeaderReads(img, h);
    forall i | 0 <= i < |gs| ensures Reads(Phdrs(img)[i], gs[i]) {
      RowReads(img, h.phoff, gs[i], i);
    }
  }

  /** A program header as the loader has it, and as it was written. */
  predicate Reads(ph: Phdr, g: Segment) {
    && ph.kind == g.kind && ph.offset == g.offset && ph.vaddr == g.vaddr && ph.filesz == g.filesz
    && ph.memsz == g.memsz && ph.align == g.align
    && (Writable(ph) <==> g.writable) && (Executable(ph) <==> g.executable)
  }

  lemma ReadsAt(ph: Phdr, g: Segment)
    requires ph == Phdr(g.kind, FlagBits(g), g.offset, g.vaddr, g.filesz, g.memsz, g.align)
    ensures Reads(ph, g)
  {
    var x, w, r := if g.executable then 1 else 0, if g.writable then 1 else 0, if g.readable then 1 else 0;
    assert ph.flags == x + 2 * (w + 2 * (r + 2 * g.more));
  }

  // ---- which segments are accepted ----

  function Pow2(k: nat): (p: nat)
    ensures p > 0
  {
    if k == 0 then 1 else 2 * Pow2(k - 1)
  }

  /** Masking with a power of two less one is the remainder. */
  lemma {:induction false} BitAndLow(x: nat, k: nat)
    ensures BitAnd(x, Pow2(k) - 1) == x % Pow2(k)
  {
    if k > 0 {
      var p := Pow2(k - 1);
      BitAndLow(x / 2, k - 1);
      assert (2 * p - 1) / 2 == p - 1 && (2 * p - 1) % 2 == 1;
      HalfMod(x, p);
      if x == 0 {
        assert 0 % (2 * p) == 0;
      }
    }
  }

  lemma HalfMod(x: nat, p: nat)
    requires p > 0
    ensures x % (2 * p) == x % 2 + 2 * (x / 2 % p)
  {
    var h := x / 2;
    var q, r := h / p, h % p;
    assert h == q * p + r;
    assert x == q * (2 * p) + (x % 2 + 2 * r);
    RemainderIs(x, 2 * p, q, x % 2 + 2 * r);
  }

  lemma RemainderIs(n: nat, d: nat, q: nat, r: nat)
    requires d > 0 && r < d && n == q * d + r
    ensures n % d == r
  {
    var x := n / d - q;
    assert x * d == r - n % d;
    NoMultiple(x, d);
  }

  lemma NoMultiple(x: int, d: int)
    requires d > 0
    ensures x > 0 ==> x * d >= d
    ensures x < 0 ==> x * d <= -d
  {
  }

  /** Alignments are 0 or powers of two. */
  ghost predicate Aligned(g: Segment) {
    g.align == 0 || exists k :: g.align == Pow2(k)
  }

  /** A segment the loader takes: anything that is not PT_LOAD; otherwise never both writable and executable, its
      bytes in the file, no more of them than it has in memory, and its address on a page and as aligned as it says. */
  predicate Loadable(g: Segment, size: nat) {
    g.kind != 1 ||
    (&& !(g.writable && g.executable)
     && g.filesz <= g.memsz && g.offset + g.filesz <= size
     && g.vaddr % 4096 == 0 && (g.align != 0 ==> g.vaddr % g.align == 0))
  }

  lemma PhdrOkIff(ph: Phdr, g: Segment, size: nat)
    requires Reads(ph, g) && SegmentFits(g) && Aligned(g)
    ensures PhdrOk(ph, size) <==> Loadable(g, size)
  {
    if g.align != 0 {
      var k :| g.align == Pow2(k);
      BitAndLow(g.vaddr, k);
    }
    hide BitAnd, Pow2;
  }

  predicate Bounded(gs: seq<Segment>) {
    forall i :: 0 <= i < |gs| && gs[i].kind == 1 && gs[i].memsz > 0 ==> gs[i].vaddr + gs[i].memsz < U64
  }

  predicate Takes(h: Header, gs: seq<Segment>, size: nat) {
    && Acceptable(h, size) && (forall i :: 0 <= i < |gs| ==> Loadable(gs[i], size))
    && exists i :: 0 <= i < |gs| && gs[i].kind == 1 && gs[i].memsz > 0
  }

  /** A file is turned away exactly when a header is not acceptable or there is nothing to load. */
  lemma RejectedIff(img: seq<Byte>, h: Header, gs: seq<Segment>)
    requires IsElf(img, h, gs) && Bounded(gs) && forall i :: 0 <= i < |gs| ==> Aligned(gs[i])
    ensures Rejected(img) <==> !Takes(h, gs, |img|)
  {
    HeaderOkIff(img, h);
    hide Holds, Le, HeaderOk, Reads, Phdrs, Aligned, SegmentFits, Acceptable, PhdrOk, Loadable, Lo, Hi;
    if HeaderOk(img) {
      PhdrsAre(img, h, gs);
      var phs := Phdrs(img);
      forall i | 0 <= i < |gs|
        ensures phs[i].vaddr < U64 && phs[i].align < U64 && (PhdrOk(phs[i], |img|) <==> Loadable(gs[i], |img|))
        ensures Loads(phs[i]) <==> gs[i].kind == 1 && gs[i].memsz > 0
        ensures phs[i].vaddr == gs[i].vaddr && phs[i].memsz == gs[i].memsz
      {
        Fitting(phs[i], gs[i]);
        PhdrOkIff(phs[i], gs[i], |img|);
      }
      if AllOk(phs, |img|) {
        EmptySpanIff(phs, |img|);
      }
      assert AllOk(phs, |img|) <==> forall i :: 0 <= i < |gs| ==> Loadable(gs[i], |img|);
    }
  }

  lemma Fitting(ph: Phdr, g: Segment)
    requires Reads(ph, g) && SegmentFits(g)
    ensures ph.vaddr == g.vaddr < U64 && ph.align < U64 && ph.memsz == g.memsz && ph.kind == g.kind
  {
  }

  lemma EmptySpanIff(phs: seq<Phdr>, size: nat)
    requires AllOk(phs, size) && NoWrap(phs)
    ensures Lo(phs) == U64 - 1 || Hi(phs) <= Lo(phs) <==> forall i :: 0 <= i < |phs| ==> !Loads(phs[i])
  {
    hide Hi, BitAnd;
    if i :| 0 <= i < |phs| && Loads(phs[i]) {
      SpanHolds(phs, i);
      assert PhdrOk(phs[i], size);
      assert phs[i].vaddr <= U64 - PAGE;
    } else {
      NothingLoads(phs);
    }
  }

  /** The span starts at a segment and ends where one ends. */
  lemma {:induction false} SpanTight(phs: seq<Phdr>)
    requires NoWrap(phs) && exists i :: 0 <= i < |phs| && Loads(phs[i]) && phs[i].vaddr < U64 - 1
    ensures exists i :: 0 <= i < |phs| && Loads(phs[i]) && phs[i].vaddr == Lo(phs)
    ensures exists j :: 0 <= j < |phs| && Loads(phs[j]) && phs[j].vaddr + phs[j].memsz == Hi(phs)
  {
    LowAttained(phs);
    HighAttained(phs);
    hide Lo, Hi;
    var i :| 0 <= i < |phs| && Loads(phs[i]) && phs[i].vaddr < U64 - 1;
    SpanHolds(phs, i);
  }

  lemma {:induction false} LowAttained(phs: seq<Phdr>)
    ensures Lo(phs) == U64 - 1 || exists i :: 0 <= i < |phs| && Loads(phs[i]) && phs[i].vaddr == Lo(phs)
  {
    if phs != [] {
      var n := |phs| - 1;
      LowAttained(phs[..n]);
      if Lo(phs) != phs[n].vaddr && Lo(phs) != U64 - 1 {
        var i :| 0 <= i < n && Loads(phs[..n][i]) && phs[..n][i].vaddr == Lo(phs[..n]);
        assert Loads(phs[i]);
      }
    }
  }

  lemma {:induction false} HighAttained(phs: seq<Phdr>)
    requires NoWrap(phs)
    ensures Hi(phs) == 0 || exists i :: 0 <= i < |phs| && Loads(phs[i]) && phs[i].vaddr + phs[i].memsz == Hi(phs)
  {
    if phs != [] {
      var n := |phs| - 1;
      HighAttained(phs[..n]);
      if Hi(phs) == Hi(phs[..n]) && Hi(phs) != 0 {
        var i :| 0 <= i < n && Loads(phs[..n][i]) && phs[..n][i].vaddr + phs[..n][i].memsz == Hi(phs[..n]);
        assert Loads(phs[i]);
      }
    }
  }

  lemma {:induction false} NothingLoads(phs: seq<Phdr>)
    requires forall i :: 0 <= i < |phs| ==> !Loads(phs[i])
    ensures Lo(phs) == U64 - 1
  {
    if phs != [] {
      NothingLoads(phs[..|phs| - 1]);
    }
  }

  // ---- boot_elf_load on such a file ----

  /** Reading address `vaddr + k` of a segment through the tables gives its byte, and writing it is allowed exactly
      when the segment was written with PF_W. */
  ghost predicate Shows(s: Space, mem: map<nat, Byte>, img: seq<Byte>, g: Segment, k: nat) {
    var m := Translate(s, g.vaddr + k);
    && m.To? && (m.writable <==> g.writable) && m.pa in mem
    && (if k < g.filesz then g.offset + k < |img| && mem[m.pa] == img[g.offset + k] else mem[m.pa] == 0)
  }

  predicate Separate(gs: seq<Segment>) {
    forall i, j :: 0 <= i < j < |gs| && gs[i].kind == 1 && gs[j].kind == 1 && gs[i].memsz > 0 && gs[j].memsz > 0 ==>
      gs[i].vaddr + gs[i].memsz <= gs[j].vaddr || gs[j].vaddr + gs[j].memsz <= gs[i].vaddr
  }

  /** There is room for the file, should it be accepted. */
  ghost predicate Room(img: seq<Byte>, next: nat, end: nat) {
    !Rejected(img) ==> Roomy(img, next, end)
  }

  /** A 2 MiB entry stands where the file would be loaded. */
  ghost predicate Blocked(s: Space, img: seq<Byte>) {
    !Rejected(img) && InTheWay(s, Phdrs(img), |Phdrs(img)|)
  }

  ghost predicate Regular(gs: seq<Segment>) {
    Bounded(gs) && forall i :: 0 <= i < |gs| ==> Aligned(gs[i])
  }

  /** boot_elf_load on an ELF file: what it returns and maps, in terms of what the file says. */
  method LoadElf(ctx: LoadCtx, img: seq<Byte>, ghost h: Header, ghost gs: seq<Segment>) returns (r: int, entry: nat)
    requires ctx.Valid() && Sized(img, ctx.next) && IsElf(img, h, gs)
    modifies ctx`next, ctx`tables, ctx`path, ctx`mem
    ensures ctx.Valid() && (r == 0 || r == -1)
    ensures r == 0 ==> Acceptable(h, |img|) && entry == h.entry
    ensures r == 0 ==> forall i :: 0 <= i < |gs| && gs[i].kind == 1 ==> !(gs[i].writable && gs[i].executable)
    ensures r == 0 && Separate(gs) ==>
      forall i, k: nat :: 0 <= i < |gs| && gs[i].kind == 1 && k < gs[i].memsz ==>
        Shows(ctx.S(), ctx.mem, img, gs[i], k)
    ensures Regular(gs) && r == 0 ==> Takes(h, gs, |img|)
    ensures Regular(gs) && Takes(h, gs, |img|) && !Blocked(old(ctx.S()), img) && Room(img, old(ctx.next), ctx.end) ==>
      r == 0
  {
    hide Translate, Tidy, Holds, Le, HeaderOk, PhdrOk, Shows, Reads, PresentsAll, Disjoint, Separate, Huge, InTheWay,
         Phdrs, Rejected, Roomy, SpanOf, Sized, Acceptable, Regular, Takes;
    if Regular(gs) {
      RejectedWhen(img, h, gs);
    }
    var base, span;
    r, entry, base, span := Load(ctx, img);
    if r == 0 {
      HeaderOkIff(img, h);
      HeaderReads(img, h);
      PhdrsAre(img, h, gs);
      forall i | 0 <= i < |gs| && gs[i].kind == 1 ensures !(gs[i].writable && gs[i].executable) {
        NotBoth(Phdrs(img)[i], gs[i], |img|);
      }
      if Separate(gs) {
        StillSeparate(Phdrs(img), gs);
        ShowsAll(ctx.S(), ctx.mem, img, Phdrs(img), gs);
      }
    }
  }

  lemma RejectedWhen(img: seq<Byte>, h: Header, gs: seq<Segment>)
    requires IsElf(img, h, gs) && Regular(gs)
    ensures Rejected(img) <==> !Takes(h, gs, |img|)
  {
    hide Holds, Takes, Rejected, Aligned;
    RejectedIff(img, h, gs);
  }

  lemma NotBoth(ph: Phdr, g: Segment, size: nat)
    requires Reads(ph, g) && g.kind == 1 && ph.vaddr < U64 && ph.align < U64 && PhdrOk(ph, size)
    ensures !(g.writable && g.executable)
  {
    hide BitAnd;
  }

  lemma StillSeparate(phs: seq<Phdr>, gs: seq<Segment>)
    requires |phs| == |gs| && Separate(gs) && forall i :: 0 <= i < |gs| ==> Reads(phs[i], gs[i])
    ensures Disjoint(phs)
  {
    hide Writable, Executable;
  }

  lemma ShowsAll(s: Space, mem: map<nat, Byte>, img: seq<Byte>, phs: seq<Phdr>, gs: seq<Segment>)
    requires |phs| == |gs| && PresentsAll(s, mem, img, phs) && forall i :: 0 <= i < |gs| ==> Reads(phs[i], gs[i])
    ensures forall i, k: nat :: 0 <= i < |gs| && gs[i].kind == 1 && k < gs[i].memsz ==> Shows(s, mem, img, gs[i], k)
  {
    hide Translate, Writable, Executable;
    forall i, k: nat | 0 <= i < |gs| && gs[i].kind == 1 && k < gs[i].memsz ensures Shows(s, mem, img, gs[i], k) {
      assert Reads(phs[i], gs[i]) && Loads(phs[i]) && phs[i].offset + phs[i].filesz <= |img|;
      assert Presents(s, mem, img, phs[i], k);
    }
  }

  // ---- a writer ----

  function Table(gs: seq<Segment>): seq<Byte> {
    if gs == [] then [] else Table(gs[..|gs| - 1]) + Laid(SegmentFields(gs[|gs| - 1]))
  }

  /** The headers, the table right behind, then the segments' bytes. */
  function Elf(h: Header, gs: seq<Segment>, data: seq<Byte>): seq<Byte> {
    Laid(HeaderFields(h)) + Table(gs) + data
  }

  /** A file written so is an ELF file of these headers. */
  lemma WriterWrites(h: Header, gs: seq<Segment>, data: seq<Byte>)
    requires HeaderFits(h) && h.phoff == 64 && h.phnum == |gs| && forall i :: 0 <= i < |gs| ==> SegmentFits(gs[i])
    ensures IsElf(Elf(h, gs, data), h, gs)
  {
    hide Laid, HeaderFields, SegmentFields;
    var img, top := Elf(h, gs, data), Laid(HeaderFields(h));
    HeaderLong(h);
    assert img[0..64] == top;
    forall i | 0 <= i < |gs| ensures Holds(img, 64 + 56 * i, SegmentFields(gs[i])) {
      TableAtRow(gs, i);
      SegmentLong(gs[i]);
      assert img[64..64 + |Table(gs)|] == Table(gs);
      assert img[64 + 56 * i..64 + 56 * i + 56] == Table(gs)[56 * i..56 * i + 56];
    }
  }

  lemma HeaderLong(h: Header)
    ensures |Laid(HeaderFields(h))| == 64
  {
    hide Put, Laid;
    var f0 := HeaderFields(h);
    var f1 := f0.rest;
    var f2 := f1.rest;
    var f3 := f2.rest;
    var f4 := f3.rest;
    var f5 := f4.rest;
    var f6 := f5.rest;
    var f7 := f6.rest;
    var f8 := f7.rest;
    var f9 := f8.rest;
    var f10 := f9.rest;
    var f11 := f10.rest;
    var f12 := f11.rest;
    var f13 := f12.rest;
    var f14 := f13.rest;
    var f15 := f14.rest;
    var f16 := f15.rest;
    var f17 := f16.rest;
    Longer(f17);
    Longer(f16);
    Longer(f15);
    Longer(f14);
    Longer(f13);
    Longer(f12);
    Longer(f11);
    Longer(f10);
    Longer(f9);
    Longer(f8);
    Longer(f7);
    Longer(f6);
    Longer(f5);
    Longer(f4);
    Longer(f3);
    Longer(f2);
    Longer(f1);
    Longer(f0);
  }

  lemma Longer(f: Fields)
    requires f.Field?
    ensures |Laid(f)| == f.width + |Laid(f.rest)| && |Laid(End)| == 0
  {
  }

  lemma SegmentLong(g: Segment)
    ensures |Laid(SegmentFields(g))| == 56
  {
    hide Put, Laid;
    var f0 := SegmentFields(g);
    var f1 := f0.rest;
    var f2 := f1.rest;
    var f3 := f2.rest;
    var f4 := f3.rest;
    var f5 := f4.rest;
    var f6 := f5.rest;
    var f7 := f6.rest;
    Longer(f7);
    Longer(f6);
    Longer(f5);
    Longer(f4);
    Longer(f3);
    Longer(f2);
    Longer(f1);
    Longer(f0);
  }

  lemma {:induction false} TableAtRow(gs: seq<Segment>, i: nat)
    requires i < |gs|
    ensures |Table(gs)| == 56 * |gs| && Table(gs)[56 * i..56 * i + 56] == Laid(SegmentFields(gs[i]))
  {
    hide Laid, SegmentFields;
    var n := |gs| - 1;
    var before, last := Table(gs[..n]), Laid(SegmentFields(gs[n]));
    SegmentLong(gs[n]);
    assert Table(gs) == before + last;
    if i < n {
      TableAtRow(gs[..n], i);
      assert (before + last)[56 * i..56 * i + 56] == before[56 * i..56 * i + 56];
    } else if n > 0 {
      TableAtRow(gs[..n], 0);
    }
  }
}
