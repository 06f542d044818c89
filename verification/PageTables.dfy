/**
 Four-level page tables as the boot loader builds them (boot/common/paging.c), and the
 address translation they denote.  Tables live at physical addresses; `path` records for
 each table the indices that lead to it from the root, so that no table is reached twice.
 */
module PageTables {

  const U64: nat := 0x1_0000_0000_0000_0000
  const PAGE: nat := 0x1000
  const BIG: nat := 0x20_0000
  const HALF: nat := 0x8000_0000_0000           // 2^47
  const SPACE: nat := 0x1_0000_0000_0000        // 2^48: what the four levels distinguish

  /** A table entry; `addr` is where the next table or the mapped frame starts. */
  datatype Pte = Absent | Entry(addr: nat, writable: bool, huge: bool)

  type Table = s: seq<Pte> | |s| == 512 witness seq(512, _ => Absent)

  function EmptyTable(): (t: Table)
    ensures forall i :: 0 <= i < 512 ==> t[i] == Absent
  {
    seq(512, _ => Absent)
  }

  // ---- the 64-bit encoding of an entry ----

  /** PTE_P is bit 0, PTE_W bit 1, PTE_HUGE bit 7; the frame address fills the rest. */
  function Raw(e: Pte): nat {
    match e
    case Absent => 0
    case Entry(addr, w, h) => addr + 1 + (if w then 2 else 0) + (if h then 128 else 0)
  }

  /** The tests and masks paging.c applies to a raw entry. */
  function Decoded(raw: nat): Pte {
    if raw % 2 == 0 then Absent else Entry(raw - raw % PAGE, raw / 2 % 2 == 1, raw / 128 % 2 == 1)
  }

  lemma PteRoundTrip(e: Pte)
    requires e.Entry? ==> e.addr % PAGE == 0
    ensures Decoded(Raw(e)) == e
  {
    if e.Entry? {
      RawBits(e.addr / PAGE, e.writable, e.huge);
    }
  }

  lemma RawBits(k: nat, w: bool, h: bool)
    ensures var raw := Raw(Entry(PAGE * k, w, h));
            && raw % 2 == 1 && raw - raw % PAGE == PAGE * k && (raw / 2 % 2 == 1 <==> w) && (raw / 128 % 2 == 1 <==> h)
  {
    var low := 1 + (if w then 2 else 0) + (if h then 128 else 0);
    Halved(k, low);
    Shifted(k, low);
    LowPart(k, low);
  }

  lemma Split(n: nat, d: nat, q: nat, r: nat)
    requires d in {2, 128} && n == d * q + r && r < d
    ensures n / d == q && n % d == r
  {
  }

  lemma Halved(k: nat, low: nat)
    ensures (PAGE * k + low) % 2 == low % 2 && (PAGE * k + low) / 2 % 2 == low / 2 % 2
  {
    var x, r := low / 2, low % 2;
    Split(PAGE * k + low, 2, 2048 * k + x, r);
    Split(2048 * k + x, 2, 1024 * k + x / 2, x % 2);
  }

  lemma Shifted(k: nat, low: nat)
    ensures (PAGE * k + low) / 128 % 2 == low / 128 % 2
  {
    var x, r := low / 128, low % 128;
    Split(PAGE * k + low, 128, 32 * k + x, r);
    Split(32 * k + x, 2, 16 * k + x / 2, x % 2);
  }

  lemma LowPart(k: nat, low: nat)
    requires low < PAGE
    ensures (PAGE * k + low) % PAGE == low
  {
  }

  // ---- indices ----

  function I4(va: nat): (i: nat)
    ensures i < 512
  {
    va / 0x80_0000_0000 % 512
  }

  function I3(va: nat): (i: nat)
    ensures i < 512
  {
    va / 0x4000_0000 % 512
  }

  function I2(va: nat): (i: nat)
    ensures i < 512
  {
    va / 0x20_0000 % 512
  }

  function I1(va: nat): (i: nat)
    ensures i < 512
  {
    va / 0x1000 % 512
  }

  /** The number of the 2 MiB region, and of the 4 KiB page, that the tables see for an address. */
  function Region(va: nat): nat {
    va / BIG % 0x800_0000
  }

  function PageNo(va: nat): nat {
    va / PAGE % 0x10_0000_0000
  }

  predicate SameRegion(x: nat, y: nat) {
    I4(x) == I4(y) && I3(x) == I3(y) && I2(x) == I2(y)
  }

  predicate SamePage(x: nat, y: nat) {
    SameRegion(x, y) && I1(x) == I1(y)
  }

  lemma RegionParts(va: nat)
    ensures Region(va) == I4(va) * 0x4_0000 + I3(va) * 0x200 + I2(va)
    ensures PageNo(va) == Region(va) * 512 + I1(va)
  {
    var p1 := va / 0x1000;
    var p2, p3, p4 := p1 / 512, p1 / 512 / 512, p1 / 512 / 512 / 512;
    assert p2 == va / 0x20_0000;
    assert p3 == va / 0x4000_0000;
    assert p4 == va / 0x80_0000_0000;
  }

  /** Equal indices mean the same 2 MiB region (4 KiB page) of the 48-bit space, and conversely. */
  lemma SameRegionIff(x: nat, y: nat)
    ensures SameRegion(x, y) <==> Region(x) == Region(y)
    ensures SamePage(x, y) <==> PageNo(x) == PageNo(y)
  {
    RegionParts(x);
    RegionParts(y);
  }

  // ---- a tree of tables ----

  datatype Space = Space(tables: map<nat, Table>, root: nat, path: map<nat, seq<nat>>)

  /** The index an address uses in the table at depth `d` (0 is the root). */
  function Index(va: nat, d: nat): (i: nat)
    requires d < 4
    ensures i < 512
  {
    if d == 0 then I4(va) else if d == 1 then I3(va) else if d == 2 then I2(va) else I1(va)
  }

  ghost function Prefix(va: nat, d: nat): (p: seq<nat>)
    requires d <= 4
    ensures |p| == d && forall k :: 0 <= k < d ==> p[k] == Index(va, k)
  {
    if d == 0 then [] else Prefix(va, d - 1) + [Index(va, d - 1)]
  }

  /** An entry above the last level leads to the one table whose path goes through it. */
  ghost predicate EntryOk(s: Space, t: nat, i: nat)
    requires t in s.tables && t in s.path && i < 512
  {
    s.tables[t][i].Entry? ==>
      && (s.tables[t][i].huge ==> |s.path[t]| >= 2)
      && (|s.path[t]| < 3 && !s.tables[t][i].huge ==>
            s.tables[t][i].addr in s.tables && s.tables[t][i].addr in s.path &&
            s.path[s.tables[t][i].addr] == s.path[t] + [i])
  }

  ghost predicate EntriesOk(s: Space) {
    forall t, i: nat :: t in s.tables && t in s.path && i < 512 ==> EntryOk(s, t, i)
  }

  ghost predicate PathsUnique(s: Space) {
    forall t, u :: t in s.path && u in s.path && s.path[t] == s.path[u] ==> t == u
  }

  /** Every table but the root is below a present entry of its parent. */
  ghost predicate Parented(s: Space) {
    forall t, u, i: nat :: t in s.tables && t in s.path && u in s.path && i < 512 && s.path[u] == s.path[t] + [i] ==>
      s.tables[t][i].Entry?
  }

  ghost predicate HasPath(s: Space, p: seq<nat>) {
    exists t :: t in s.path && s.path[t] == p
  }

  ghost predicate ParentsExist(s: Space) {
    forall u :: u in s.path && |s.path[u]| > 0 ==> HasPath(s, s.path[u][..|s.path[u]| - 1])
  }

  ghost predicate Tidy(s: Space) {
    && s.tables.Keys == s.path.Keys && s.root in s.tables && s.path[s.root] == []
    && (forall t :: t in s.path ==> |s.path[t]| <= 3)
    && EntriesOk(s) && PathsUnique(s) && Parented(s) && ParentsExist(s)
  }

  datatype Found = NoTable | TableAt(at: nat)

  /** The table a walk for `va` is in after `d` steps from the root. */
  ghost function TableFor(s: Space, va: nat, d: nat): Found
    requires d <= 3
  {
    if d == 0 then TableAt(s.root)
    else
      match TableFor(s, va, d - 1)
      case NoTable => NoTable
      case TableAt(t) =>
        if t in s.tables && s.tables[t][Index(va, d - 1)].Entry? && !s.tables[t][Index(va, d - 1)].huge
        then TableAt(s.tables[t][Index(va, d - 1)].addr) else NoTable
  }

  datatype Mapping = Unmapped | To(pa: nat, writable: bool)

  /** The entry a walk reads at depth `d`. */
  ghost function EntryFor(s: Space, va: nat, d: nat): Pte
    requires d <= 3
  {
    match TableFor(s, va, d)
    case NoTable => Absent
    case TableAt(t) => if t in s.tables then s.tables[t][Index(va, d)] else Absent
  }

  /** What the processor makes of an address. */
  ghost function Translate(s: Space, va: nat): Mapping {
    var e := EntryFor(s, va, 2);
    if e.Absent? then Unmapped
    else if e.huge then To(e.addr + va % BIG, e.writable)
    else
      var f := EntryFor(s, va, 3);
      if f.Absent? then Unmapped else To(f.addr + va % PAGE, f.writable)
  }

  // ---- walks follow the paths ----

  lemma {:induction false} WalkPath(s: Space, va: nat, d: nat)
    requires Tidy(s) && d <= 3
    ensures TableFor(s, va, d).TableAt? ==>
      var t := TableFor(s, va, d).at;
      t in s.tables && t in s.path && s.path[t] == Prefix(va, d)
  {
    if d > 0 {
      WalkPath(s, va, d - 1);
      if TableFor(s, va, d).TableAt? {
        assert EntryOk(s, TableFor(s, va, d - 1).at, Index(va, d - 1));
      }
    }
  }

  ghost function Poked(s: Space, t: nat, i: nat, e: Pte): Space
    requires t in s.tables && i < 512
  {
    s.(tables := s.tables[t := s.tables[t][i := e]])
  }

  /** Changing one entry is seen only by the addresses whose indices lead through it. */
  lemma {:induction false} PokeFrame(s: Space, t: nat, i: nat, e: Pte, va: nat, d: nat)
    requires Tidy(s) && t in s.tables && i < 512 && d <= 3
    requires |s.path[t]| < 4 && Prefix(va, |s.path[t]| + 1) != s.path[t] + [i]
    ensures TableFor(Poked(s, t, i, e), va, d) == TableFor(s, va, d)
    ensures EntryFor(Poked(s, t, i, e), va, d) == EntryFor(s, va, d)
  {
    hide EntriesOk, PathsUnique, Parented, ParentsExist, Index, Prefix;
    if d > 0 {
      PokeFrame(s, t, i, e, va, d - 1);
    }
    WalkPath(s, va, d);
    if TableFor(s, va, d) == TableAt(t) {
      PrefixStep(va, d);
    }
  }

  lemma PrefixStep(va: nat, d: nat)
    requires d < 4
    ensures Prefix(va, d + 1) == Prefix(va, d) + [Index(va, d)]
  {
  }

  lemma AppendInjective(a: seq<nat>, x: nat, b: seq<nat>, y: nat)
    requires a + [x] == b + [y]
    ensures a == b && x == y
  {
    assert (a + [x])[..|a|] == a && (b + [y])[..|b|] == b;
    assert (a + [x])[|a|] == x && (b + [y])[|b|] == y;
  }

  lemma PokeElsewhere(s: Space, t: nat, i: nat, e: Pte, va: nat)
    requires Tidy(s) && t in s.tables && i < 512
    requires |s.path[t]| < 4 && Prefix(va, |s.path[t]| + 1) != s.path[t] + [i]
    ensures Translate(Poked(s, t, i, e), va) == Translate(s, va)
  {
    hide EntriesOk, PathsUnique, Parented, Index, Prefix;
    PokeFrame(s, t, i, e, va, 2);
    PokeFrame(s, t, i, e, va, 3);
  }

  // ---- adding a table ----

  ghost function Grown(s: Space, t: nat, i: nat, p: nat): Space
    requires t in s.tables && t in s.path && i < 512
  {
    Space(s.tables[p := EmptyTable()][t := s.tables[t][i := Entry(p, true, false)]], s.root,
          s.path[p := s.path[t] + [i]])
  }

  /** Hanging an empty table under an absent entry keeps the tree and every translation. */
  lemma GrowTidy(s: Space, t: nat, i: nat, p: nat)
    requires Tidy(s) && t in s.tables && i < 512 && p !in s.tables
    requires |s.path[t]| < 3 && s.tables[t][i].Absent?
    ensures Tidy(Grown(s, t, i, p))
  {
    hide EntriesOk, PathsUnique, Parented, ParentsExist;
    var g := Grown(s, t, i, p);
    assert g.tables.Keys == s.tables.Keys + {p};
    assert g.path.Keys == s.path.Keys + {p};
    GrowEntries(s, t, i, p);
    GrowUnique(s, t, i, p);
    GrowParented(s, t, i, p);
    GrowParentsExist(s, t, i, p);
  }

  lemma GrowParentsExist(s: Space, t: nat, i: nat, p: nat)
    requires Tidy(s) && t in s.tables && i < 512 && p !in s.tables
    ensures ParentsExist(Grown(s, t, i, p))
  {
    var g := Grown(s, t, i, p);
    forall u | u in g.path && |g.path[u]| > 0 ensures HasPath(g, g.path[u][..|g.path[u]| - 1]) {
      if u == p {
        assert g.path[u][..|g.path[u]| - 1] == g.path[t];
      } else {
        assert HasPath(s, s.path[u][..|s.path[u]| - 1]);
        var a :| a in s.path && s.path[a] == s.path[u][..|s.path[u]| - 1];
        assert g.path[a] == s.path[a];
      }
    }
  }

  lemma GrowEntries(s: Space, t: nat, i: nat, p: nat)
    requires Tidy(s) && t in s.tables && i < 512 && p !in s.tables
    requires |s.path[t]| < 3 && s.tables[t][i].Absent?
    ensures EntriesOk(Grown(s, t, i, p))
  {
    hide PathsUnique, Parented, ParentsExist;
    var g := Grown(s, t, i, p);
    forall u, j: nat | u in g.tables && u in g.path && j < 512 ensures EntryOk(g, u, j) {
      if u != p && !(u == t && j == i) {
        assert EntryOk(s, u, j);
      }
    }
  }

  lemma GrowUnique(s: Space, t: nat, i: nat, p: nat)
    requires Tidy(s) && t in s.tables && i < 512 && p !in s.tables
    requires |s.path[t]| < 3 && s.tables[t][i].Absent?
    ensures PathsUnique(Grown(s, t, i, p))
  {
    assert forall u :: u in s.path ==> s.path[u] != s.path[t] + [i];
  }

  lemma GrowParented(s: Space, t: nat, i: nat, p: nat)
    requires Tidy(s) && t in s.tables && i < 512 && p !in s.tables
    requires |s.path[t]| < 3 && s.tables[t][i].Absent?
    ensures Parented(Grown(s, t, i, p))
  {
    var g := Grown(s, t, i, p);
    assert !HasPath(s, s.path[t] + [i]);
    forall a, u, j: nat | a in g.tables && a in g.path && u in g.path && j < 512 && g.path[u] == g.path[a] + [j]
      ensures g.tables[a][j].Entry?
    {
      if u == p {
        AppendInjective(g.path[a], j, s.path[t], i);
        assert a == t;
      }
    }
  }

  /** A walk depends on the indices it uses only. */
  lemma {:induction false} WalkSame(s: Space, x: nat, y: nat, d: nat)
    requires d <= 3 && Prefix(x, d) == Prefix(y, d)
    ensures TableFor(s, x, d) == TableFor(s, y, d)
  {
    hide Index;
    if d > 0 {
      AppendInjective(Prefix(x, d - 1), Index(x, d - 1), Prefix(y, d - 1), Index(y, d - 1));
      WalkSame(s, x, y, d - 1);
    }
  }

  lemma SameItems(a: seq<nat>, b: seq<nat>)
    requires |a| == |b|
    ensures a == b <==> forall i :: 0 <= i < |a| ==> a[i] == b[i]
  {
  }

  lemma PrefixMeaning(x: nat, y: nat)
    ensures Prefix(x, 3) == Prefix(y, 3) <==> SameRegion(x, y)
    ensures Prefix(x, 4) == Prefix(y, 4) <==> SamePage(x, y)
  {
    hide I4, I3, I2, I1;
    var a, b := Prefix(x, 4), Prefix(y, 4);
    assert a == [I4(x), I3(x), I2(x), I1(x)] && b == [I4(y), I3(y), I2(y), I1(y)];
    assert Prefix(x, 3) == a[..3] == [a[0], a[1], a[2]] && Prefix(y, 3) == b[..3] == [b[0], b[1], b[2]];
    SameItems(a[..3], b[..3]);
    SameItems(a, b);
  }

  /** While the walk has not come to the entry, or has gone past the other way, the new table is not seen. */
  lemma {:induction false} GrowWalk(s: Space, t: nat, i: nat, p: nat, va: nat, d: nat)
    requires Tidy(s) && t in s.tables && i < 512 && p !in s.tables && d <= 3
    requires |s.path[t]| < 3 && s.tables[t][i].Absent?
    requires d <= |s.path[t]| || Prefix(va, |s.path[t]| + 1) != s.path[t] + [i]
    ensures TableFor(Grown(s, t, i, p), va, d) == TableFor(s, va, d)
  {
    hide EntriesOk, PathsUnique, Parented, ParentsExist, Index, Prefix;
    if d > 0 {
      GrowWalk(s, t, i, p, va, d - 1);
      WalkPath(s, va, d - 1);
      if TableFor(s, va, d - 1) == TableAt(t) {
        PrefixStep(va, d - 1);
      }
    }
  }

  lemma GrowReads(s: Space, t: nat, i: nat, p: nat, va: nat, d: nat)
    requires Tidy(s) && t in s.tables && i < 512 && p !in s.tables && d <= 3
    requires |s.path[t]| < 3 && s.tables[t][i].Absent?
    requires Prefix(va, |s.path[t]| + 1) != s.path[t] + [i]
    ensures EntryFor(Grown(s, t, i, p), va, d) == EntryFor(s, va, d)
  {
    hide EntriesOk, PathsUnique, Parented, ParentsExist, Index, Prefix;
    GrowWalk(s, t, i, p, va, d);
    WalkPath(s, va, d);
    if TableFor(s, va, d) == TableAt(t) {
      PrefixStep(va, d);
    }
  }

  lemma GrowTranslate(s: Space, t: nat, i: nat, p: nat, va: nat)
    requires Tidy(s) && t in s.tables && i < 512 && p !in s.tables
    requires |s.path[t]| < 3 && s.tables[t][i].Absent?
    ensures Translate(Grown(s, t, i, p), va) == Translate(s, va)
  {
    hide EntriesOk, PathsUnique, Parented, ParentsExist, Index, Prefix, TableFor;
    if Prefix(va, |s.path[t]| + 1) == s.path[t] + [i] {
      GrowThrough(s, t, i, p, va);
    } else {
      GrowReads(s, t, i, p, va, 2);
      GrowReads(s, t, i, p, va, 3);
    }
  }

  /** An address that leads through the new table was unmapped and still is. */
  lemma GrowThrough(s: Space, t: nat, i: nat, p: nat, va: nat)
    requires Tidy(s) && t in s.tables && i < 512 && p !in s.tables
    requires |s.path[t]| < 3 && s.tables[t][i].Absent?
    requires Prefix(va, |s.path[t]| + 1) == s.path[t] + [i]
    ensures Translate(Grown(s, t, i, p), va) == Translate(s, va) == Unmapped
  {
    hide EntriesOk, Parented, ParentsExist, Index, Prefix;
    var g, n := Grown(s, t, i, p), |s.path[t]|;
    PrefixStep(va, n);
    AppendInjective(Prefix(va, n), Index(va, n), s.path[t], i);
    GrowWalk(s, t, i, p, va, n);
    WalkPath(s, va, n);
    assert EntryFor(s, va, n).Absent?;
    Stops(s, va, n);
    assert TableFor(g, va, n + 1) == NoTable || TableFor(g, va, n + 1) == TableAt(p);
    assert EntryFor(g, va, n + 1).Absent?;
    if n < 2 {
      Stops(g, va, n + 1);
    }
  }

  /** A walk that reads an absent entry above the last level finds nothing. */
  lemma Stops(s: Space, va: nat, n: nat)
    requires n <= 2 && EntryFor(s, va, n).Absent?
    ensures Translate(s, va) == Unmapped
  {
    hide Index;
    if n == 0 {
      assert TableFor(s, va, 1) == NoTable;
    }
    if n <= 1 {
      assert TableFor(s, va, 2) == NoTable;
    }
  }

  /** Only 2 MiB entries and the last level end a walk. */
  lemma NoHuge(s: Space, va: nat, d: nat)
    requires Tidy(s) && d < 2 && TableFor(s, va, d).TableAt?
    ensures TableFor(s, va, d).at in s.tables
    ensures EntryFor(s, va, d).Entry? ==> !EntryFor(s, va, d).huge
  {
    hide PathsUnique, Parented, ParentsExist, Index;
    WalkPath(s, va, d);
    assert EntryOk(s, TableFor(s, va, d).at, Index(va, d));
  }

  // ---- what one mapping does ----

  lemma PokeTidy(s: Space, t: nat, i: nat, e: Pte)
    requires Tidy(s) && t in s.tables && i < 512 && e.Entry?
    requires |s.path[t]| == 3 || (|s.path[t]| == 2 && e.huge)
    ensures Tidy(Poked(s, t, i, e))
  {
    var g := Poked(s, t, i, e);
    assert g.tables.Keys == s.tables.Keys;
    PokeEntries(s, t, i, e);
    hide EntriesOk, PathsUnique, Parented, ParentsExist;
    PokePaths(s, t, i, e);
  }

  lemma PokeEntries(s: Space, t: nat, i: nat, e: Pte)
    requires EntriesOk(s) && t in s.tables && t in s.path && i < 512 && e.Entry?
    requires |s.path[t]| == 3 || (|s.path[t]| == 2 && e.huge)
    ensures EntriesOk(Poked(s, t, i, e))
  {
    var g := Poked(s, t, i, e);
    forall u, j: nat | u in g.tables && u in g.path && j < 512 ensures EntryOk(g, u, j) {
      assert EntryOk(s, u, j);
    }
  }

  lemma PokePaths(s: Space, t: nat, i: nat, e: Pte)
    requires PathsUnique(s) && Parented(s) && ParentsExist(s) && t in s.tables && i < 512 && e.Entry?
    ensures var g := Poked(s, t, i, e);
            PathsUnique(g) && Parented(g) && ParentsExist(g)
  {
    var g := Poked(s, t, i, e);
    forall u | u in g.path && |g.path[u]| > 0 ensures HasPath(g, g.path[u][..|g.path[u]| - 1]) {
      assert HasPath(s, s.path[u][..|s.path[u]| - 1]);
    }
  }

  /** Writing a last-level entry maps exactly its page. */
  lemma MapPageMeans(s: Space, t: nat, virt: nat, e: Pte, va: nat)
    requires Tidy(s) && TableFor(s, virt, 3) == TableAt(t) && e.Entry?
    ensures t in s.tables
    ensures SamePage(va, virt) ==> Translate(Poked(s, t, I1(virt), e), va) == To(e.addr + va % PAGE, e.writable)
    ensures !SamePage(va, virt) ==> Translate(Poked(s, t, I1(virt), e), va) == Translate(s, va)
  {
    hide EntriesOk, PathsUnique, Parented, ParentsExist, I4, I3, I2, I1, SamePage, Prefix;
    WalkPath(s, virt, 3);
    PrefixMeaning(va, virt);
    PrefixStep(virt, 3);
    if SamePage(va, virt) {
      PrefixStep(va, 3);
      AppendInjective(Prefix(va, 3), I1(va), Prefix(virt, 3), I1(virt));
      WalkSame(s, va, virt, 3);
      DeepPoke(s, t, I1(virt), e, va, 3);
      DeepPoke(s, t, I1(virt), e, va, 2);
    } else {
      PokeElsewhere(s, t, I1(virt), e, va);
    }
  }

  /** Writing a huge entry one level up maps exactly its 2 MiB region. */
  lemma MapRegionMeans(s: Space, t: nat, virt: nat, e: Pte, va: nat)
    requires Tidy(s) && TableFor(s, virt, 2) == TableAt(t) && e.Entry? && e.huge
    ensures t in s.tables
    ensures SameRegion(va, virt) ==> Translate(Poked(s, t, I2(virt), e), va) == To(e.addr + va % BIG, e.writable)
    ensures !SameRegion(va, virt) ==> Translate(Poked(s, t, I2(virt), e), va) == Translate(s, va)
  {
    hide EntriesOk, PathsUnique, Parented, ParentsExist, I4, I3, I2, I1, SameRegion, Prefix;
    WalkPath(s, virt, 2);
    PrefixMeaning(va, virt);
    PrefixStep(virt, 2);
    if SameRegion(va, virt) {
      PrefixStep(va, 2);
      AppendInjective(Prefix(va, 2), I2(va), Prefix(virt, 2), I2(virt));
      WalkSame(s, va, virt, 2);
      DeepPoke(s, t, I2(virt), e, va, 2);
    } else {
      PokeElsewhere(s, t, I2(virt), e, va);
    }
  }

  /** Entries at or below the depth of a table are not on the way to it. */
  lemma {:induction false} DeepPoke(s: Space, t: nat, i: nat, e: Pte, va: nat, d: nat)
    requires Tidy(s) && t in s.tables && i < 512 && d <= |s.path[t]|
    ensures TableFor(Poked(s, t, i, e), va, d) == TableFor(s, va, d)
    ensures d < |s.path[t]| ==> EntryFor(Poked(s, t, i, e), va, d) == EntryFor(s, va, d)
  {
    hide EntriesOk, PathsUnique, Parented, ParentsExist, Index, Prefix;
    if d > 0 {
      DeepPoke(s, t, i, e, va, d - 1);
      WalkPath(s, va, d - 1);
    }
    WalkPath(s, va, d);
  }

  // ---- huge entries ----

  /** The walk for an address ends at a 2 MiB entry. */
  ghost predicate Huge(s: Space, va: nat) {
    EntryFor(s, va, 2).Entry? && EntryFor(s, va, 2).huge
  }

  lemma UnmappedNotHuge(s: Space, va: nat)
    requires Translate(s, va) == Unmapped
    ensures !Huge(s, va)
  {
    hide EntryFor;
  }

  lemma GrowHuge(s: Space, t: nat, i: nat, p: nat, va: nat)
    requires Tidy(s) && t in s.tables && i < 512 && p !in s.tables
    requires |s.path[t]| < 3 && s.tables[t][i].Absent?
    ensures Huge(Grown(s, t, i, p), va) <==> Huge(s, va)
  {
    hide EntriesOk, PathsUnique, Parented, ParentsExist, Prefix, EntryFor, Translate;
    if Prefix(va, |s.path[t]| + 1) == s.path[t] + [i] {
      GrowThrough(s, t, i, p, va);
      UnmappedNotHuge(s, va);
      UnmappedNotHuge(Grown(s, t, i, p), va);
    } else {
      GrowReads(s, t, i, p, va, 2);
    }
  }

  lemma PageHuge(s: Space, t: nat, virt: nat, e: Pte, va: nat)
    requires Tidy(s) && TableFor(s, virt, 3) == TableAt(t)
    ensures t in s.tables && (Huge(Poked(s, t, I1(virt), e), va) <==> Huge(s, va))
  {
    hide EntriesOk, PathsUnique, Parented, ParentsExist, I4, I3, I2, I1, Prefix, TableFor;
    WalkPath(s, virt, 3);
    DeepPoke(s, t, I1(virt), e, va, 2);
  }

  lemma RegionHuge(s: Space, t: nat, virt: nat, e: Pte, va: nat)
    requires Tidy(s) && TableFor(s, virt, 2) == TableAt(t) && e.Entry? && e.huge
    ensures t in s.tables && (Huge(Poked(s, t, I2(virt), e), va) <==> SameRegion(va, virt) || Huge(s, va))
  {
    hide EntriesOk, PathsUnique, Parented, ParentsExist, I4, I3, I2, I1, SameRegion, Prefix;
    WalkPath(s, virt, 2);
    PrefixMeaning(va, virt);
    PrefixStep(virt, 2);
    if SameRegion(va, virt) {
      PrefixStep(va, 2);
      AppendInjective(Prefix(va, 2), I2(va), Prefix(virt, 2), I2(virt));
      WalkSame(s, va, virt, 2);
      DeepPoke(s, t, I2(virt), e, va, 2);
    } else {
      PokeFrame(s, t, I2(virt), e, va, 2);
    }
  }
}
