/**
 How the page allocator (kernel/pmm.c) runs out of words and then gives one page two holders: all
 of RAM but one block is handed out, a page of each of 2048 + 4096 blocks is freed, and two pages
 are asked for.
 */
module PageExhaust {
  import opened PageMap
  import opened PagePool
  import opened PageShelf
  import opened PageAllocator

  const FIRST: nat := LOW / PER_BLOCK                 // the first block of RAM
  const BLOCKS: nat := SINGLE_STACK + MAX_MIXED       // the blocks handed out at first
  const LAST: nat := FIRST + BLOCKS                   // the block that stays all free

  /** The first page of the i-th block. */
  function PageNo(i: nat): nat {
    (FIRST + i) * PER_BLOCK
  }

  /** One page of each of `j` blocks, the ones after the first 2048. */
  ghost function Sparse(j: nat): set<nat> {
    if j == 0 then {} else Sparse(j - 1) + {PageNo(SINGLE_STACK + j - 1)}
  }

  ghost function FreeAfter(j: nat): set<nat> {
    BlockPages(LAST) + Sparse(j)
  }

  lemma {:induction false} SparseAt(j: nat, p: nat)
    ensures p in Sparse(j) <==> p % PER_BLOCK == 0 && FIRST + SINGLE_STACK <= p / PER_BLOCK < FIRST + SINGLE_STACK + j
  {
    if j > 0 {
      SparseAt(j - 1, p);
    }
  }

  /** Each of the `j` blocks needs a word of its own. */
  lemma SparseMixed(j: nat)
    requires j <= MAX_MIXED
    ensures MixedOf(FreeAfter(j)) == Range(FIRST + SINGLE_STACK, j) && |MixedOf(FreeAfter(j))| == j
    ensures AllFree(FreeAfter(j), LAST)
  {
    hide Range, Sparse, AllFree, NoneFree;
    forall b: nat | b < MAX_BLOCKS ensures b in MixedOf(FreeAfter(j)) <==> b in Range(FIRST + SINGLE_STACK, j) {
      InRange(FIRST + SINGLE_STACK, j, b);
      SparseBlock(j, b);
    }
    var r := Range(FIRST + SINGLE_STACK, j);
    forall b: nat | b in r ensures b < MAX_BLOCKS {
      InRange(FIRST + SINGLE_STACK, j, b);
    }
    SparseBlock(j, LAST);
    assert MixedOf(FreeAfter(j)) == r;
  }

  lemma SparseBlock(j: nat, b: nat)
    requires j <= MAX_MIXED
    ensures b == LAST ==> AllFree(FreeAfter(j), b)
    ensures FIRST + SINGLE_STACK <= b < FIRST + SINGLE_STACK + j ==>
      !AllFree(FreeAfter(j), b) && !NoneFree(FreeAfter(j), b)
    ensures b != LAST && !(FIRST + SINGLE_STACK <= b < FIRST + SINGLE_STACK + j) ==> NoneFree(FreeAfter(j), b)
  {
    hide Range, Sparse;
    var first := b * PER_BLOCK;
    InBlock(first, b);
    InBlock(first + 1, b);
    InBlock(first, LAST);
    InBlock(first + 1, LAST);
    SparseAt(j, first);
    SparseAt(j, first + 1);
    assert first % PER_BLOCK == 0 && (first + 1) % PER_BLOCK == 1 && first / PER_BLOCK == b;
    forall p: nat | p in BlockPages(b) ensures p in FreeAfter(j) <==> b == LAST || p in Sparse(j) {
      InBlock(p, b);
      InBlock(p, LAST);
    }
    forall p: nat | p in BlockPages(b) && p in Sparse(j) ensures FIRST + SINGLE_STACK <= b < FIRST + SINGLE_STACK + j {
      InBlock(p, b);
      SparseAt(j, p);
    }
  }

  /** The pages put on the stack at first. */
  ghost predicate Stacked(singles: seq<nat>, j: nat) {
    |singles| == j && forall i :: 0 <= i < j ==> singles[i] == PageNo(i)
  }

  lemma NotStacked(singles: seq<nat>, j: nat, i: nat)
    requires Stacked(singles, j) && j <= i
    ensures PageNo(i) !in singles
  {
  }

  /** What holds all along: RAM is one stretch of blocks and there are no runs. */
  ghost predicate Ready(a: Pmm)
    reads a
  {
    a.Valid() && a.ram == Range(LOW, (BLOCKS + 1) * PER_BLOCK) && a.runs == []
  }

  lemma PageInRam(i: nat)
    requires i < BLOCKS
    ensures PageNo(i) < MAX_PAGES && PageNo(i) in Range(LOW, (BLOCKS + 1) * PER_BLOCK)
    ensures forall x: nat :: x in Range(PageNo(i), 1) <==> x == PageNo(i)
  {
    hide Range;
    InRange(LOW, (BLOCKS + 1) * PER_BLOCK, PageNo(i));
    forall x: nat ensures x in Range(PageNo(i), 1) <==> x == PageNo(i) {
      InRange(PageNo(i), 1, x);
    }
  }

  method Boot() returns (a: Pmm)
    ensures fresh(a) && Ready(a) && a.free == a.ram && a.singles == [] && a.cursor == LOW
  {
    hide Range, MapOk, Shows, Partition, Pmm.Counted, UsableSet, ReservedSet;
    var entries := [MmapEntry(LOW * PAGE_BYTES, (BLOCKS + 1) * PER_BLOCK * PAGE_BYTES, Usable)];
    OneEntry(entries);
    a := new Pmm(entries);
    AllUnheld(a.P());
  }

  lemma OneEntry(entries: seq<MmapEntry>)
    requires entries == [MmapEntry(LOW * PAGE_BYTES, (BLOCKS + 1) * PER_BLOCK * PAGE_BYTES, Usable)]
    ensures UsableSet(entries, 1) - Range(0, LOW) - ReservedSet(entries, 1) == Range(LOW, (BLOCKS + 1) * PER_BLOCK)
  {
    hide Range;
    var r := Range(LOW, (BLOCKS + 1) * PER_BLOCK);
    assert UsableSet(entries, 0) == {} && ReservedSet(entries, 0) == {};
    assert FirstWhole(entries[0]) == LOW && EndWhole(entries[0]) == LOW + (BLOCKS + 1) * PER_BLOCK;
    assert UsableSet(entries, 1) == {} + r;
    assert ReservedSet(entries, 1) == {};
    forall p: nat | p in r ensures p !in Range(0, LOW) {
      InRange(LOW, (BLOCKS + 1) * PER_BLOCK, p);
      InRange(0, LOW, p);
    }
  }

  lemma AllUnheld(q: Pool)
    requires Partition(q) && q.held == {} && q.singles == [] && q.runs == []
    ensures q.free == q.ram
  {
    forall p: nat ensures p in q.free <==> p in q.ram {
      assert OneHolder(q, p);
    }
  }

  /** All blocks but the last are handed out in one piece. */
  method HandOut(a: Pmm)
    requires Ready(a) && a.free == a.ram && a.singles == [] && a.cursor == LOW
    modifies a
    ensures Ready(a) && a.free == FreeAfter(0) && a.singles == []
  {
    hide Range, MapOk, Shows, Partition, MixedOf, RunFits, RunClean, RunMarked, FreeAfter, Backed;
    ghost var n := BLOCKS * PER_BLOCK;
    WholeRam(a.free, n);
    EnoughWords(a.free, Full(a.S()), LOW, n);
    RunCleanIff(a.free, Full(a.S()), LOW, n);
    CleanMarks(a.S(), LOW, n);
    RamInReach(a.P(), a.state, a.highest, LOW + (BLOCKS + 1) * PER_BLOCK - 1);
    ghost var free := a.free;
    var start := a.AllocPages(BLOCKS * PER_BLOCK);
    assert start != NONE by {
      assert Range(LOW, n) <= free;
    }
    RunInRam(free, start, n);
    assert start == LOW;
  }

  lemma WholeRam(free: set<nat>, n: nat)
    requires free == Range(LOW, (BLOCKS + 1) * PER_BLOCK) && n == BLOCKS * PER_BLOCK
    ensures |MixedOf(free)| == 0 && Range(LOW, n) <= free && free - Range(LOW, n) == FreeAfter(0)
    ensures LOW + (BLOCKS + 1) * PER_BLOCK - 1 in free
  {
    hide Range;
    forall b: nat ensures AllFree(free, b) || NoneFree(free, b) {
      RamBlock(b);
    }
    assert MixedOf(free) == {};
    forall p: nat ensures p in Range(LOW, n) ==> p in free
      ensures p in free - Range(LOW, n) <==> p in BlockPages(LAST)
    {
      InRange(LOW, n, p);
      InRange(LOW, (BLOCKS + 1) * PER_BLOCK, p);
      InRange(LAST * PER_BLOCK, PER_BLOCK, p);
    }
    InRange(LOW, (BLOCKS + 1) * PER_BLOCK, LOW + (BLOCKS + 1) * PER_BLOCK - 1);
    assert Sparse(0) == {};
  }

  lemma RamBlock(b: nat)
    ensures var ram := Range(LOW, (BLOCKS + 1) * PER_BLOCK); AllFree(ram, b) || NoneFree(ram, b)
  {
    hide Range;
    forall p: nat | p in BlockPages(b)
      ensures p in Range(LOW, (BLOCKS + 1) * PER_BLOCK) <==> FIRST <= b <= LAST
    {
      InBlock(p, b);
      InRange(LOW, (BLOCKS + 1) * PER_BLOCK, p);
    }
  }

  lemma RamInReach(q: Pool, state: seq<BlockState>, highest: nat, p: nat)
    requires Backed(q.ram, state, highest) && p in q.ram
    ensures p <= highest
  {
  }

  /** A run inside free pages starts inside them. */
  lemma RunInRam(free: set<nat>, start: nat, n: nat)
    requires n > 0 && (Range(start, n) !! free || Range(start, n) <= free) &&
        free == Range(LOW, (BLOCKS + 1) * PER_BLOCK)
    ensures Range(start, n) <= free ==> start >= LOW && !(Range(start, n) !! free)
  {
    assert start in Range(start, n);
  }

  /** One page of each of the first 2048 blocks fills the stack. */
  method FillStack(a: Pmm)
    requires Ready(a) && a.free == FreeAfter(0) && a.singles == []
    modifies a
    ensures Ready(a) && a.free == FreeAfter(0) && Stacked(a.singles, SINGLE_STACK)
  {
    hide Range, MapOk, Shows, Partition, Pmm.Counted, FreeAfter, PageNo, RunPutBack, Lost;
    for j := 0 to SINGLE_STACK
      invariant Ready(a) && a.free == FreeAfter(0) && Stacked(a.singles, j)
    {
      PageInRam(j);
      NotStacked(a.singles, j, j);
      NotFreeYet(0, j);
      a.FreeN(PageNo(j), 1);
    }
  }

  /** A page that is not free yet: its whole block is used. */
  lemma NotFreeYet(j: nat, i: nat)
    requires j <= MAX_MIXED && i < BLOCKS && (i < SINGLE_STACK || SINGLE_STACK + j <= i)
    ensures PageNo(i) !in FreeAfter(j) && NoneFree(FreeAfter(j), Block(PageNo(i)))
  {
    hide Range, Sparse, FreeAfter;
    assert Block(PageNo(i)) == FIRST + i;
    SparseBlock(j, FIRST + i);
    InBlock(PageNo(i), FIRST + i);
  }

  /** One page of each of the next 4096 blocks takes all the words. */
  method TakeWords(a: Pmm)
    requires Ready(a) && a.free == FreeAfter(0) && Stacked(a.singles, SINGLE_STACK)
    modifies a
    ensures Ready(a) && a.free == FreeAfter(MAX_MIXED) && |a.singles| == SINGLE_STACK
  {
    hide Range, MapOk, Shows, Partition, Pmm.Counted, FreeAfter, PageNo, RunPutBack, Lost, WordLeft, NoneFree;
    for j := 0 to MAX_MIXED
      invariant Ready(a) && a.free == FreeAfter(j) && Stacked(a.singles, SINGLE_STACK)
    {
      var i := SINGLE_STACK + j;
      PageInRam(i);
      NotStacked(a.singles, SINGLE_STACK, i);
      NotFreeYet(j, i);
      BackInMap(a.S(), j);
      a.FreeN(PageNo(i), 1);
    }
  }

  lemma BackInMap(s: Shelf, j: nat)
    requires j < MAX_MIXED && s.free == FreeAfter(j)
    ensures var p := PageNo(SINGLE_STACK + j);
            && Lost(s, p, 1) == {} && RunPutBack(s, p, 1).free == FreeAfter(j + 1) &&
                RunPutBack(s, p, 1).singles == s.singles
  {
    hide Range, NoneFree, PageNo;
    SparseMixed(j);
    NotFreeYet(j, SINGLE_STACK + j);
    var p := PageNo(SINGLE_STACK + j);
    assert Sparse(j + 1) == Sparse(j) + {p};
    assert RunPutBack(s, p, 0) == s && Lost(s, p, 0) == {};
    assert FreeAfter(j) + {p} == FreeAfter(j + 1);
  }

  /** Some single pages are handed out again. */
  method MakeRoom(a: Pmm)
    requires Ready(a) && |a.singles| == SINGLE_STACK
    modifies a
    ensures Ready(a) && a.free == old(a.free) && |a.singles| + PER_BLOCK == SINGLE_STACK
  {
    hide Range, MapOk, Shows, Partition, Pmm.Counted, RunMarked, RunFits, FirstFit, NoRunFound;
    for j := 0 to PER_BLOCK
      invariant Ready(a) && a.free == old(a.free) && |a.singles| + j == SINGLE_STACK
    {
      StackApart(a.P());
      var start := a.AllocPages(1);
    }
  }

  lemma StackApart(q: Pool)
    requires Partition(q) && q.singles != []
    ensures Range(q.singles[|q.singles| - 1], 1) !! q.free
  {
    var x := q.singles[|q.singles| - 1];
    assert OneHolder(q, x);
    assert Range(x, 1) == {x};
  }

  /** Two pages are asked for: they come from the last block, which has to be split without a word,
      and the second of them is put on the stack as well. */
  method Collide(a: Pmm) returns (page: nat)
    requires Ready(a) && a.free == FreeAfter(MAX_MIXED) && |a.singles| + PER_BLOCK == SINGLE_STACK
    modifies a
    ensures page in a.held && page in a.singles
  {
    hide Range, MapOk, Shows, Partition, FreeAfter, Backed, RunFits, RunMarked, FirstFit, NoRunFound;
    InRange(LOW, (BLOCKS + 1) * PER_BLOCK, LAST * PER_BLOCK + PER_BLOCK - 1);
    RamInReach(a.P(), a.state, a.highest, LAST * PER_BLOCK + PER_BLOCK - 1);
    RunInLast(From(a.cursor, a.highest), a.highest);
    ghost var s := a.S();
    var start := a.AllocPages(2);
    RangeMeets(start, 2, s.free);
    TwoOfLast(start);
    SecondPushed(s, start);
    page := start + 1;
    InRange(start, 2, page);
  }

  /** There are two free pages in a row. */
  lemma RunInLast(from: nat, highest: nat)
    requires highest >= LAST * PER_BLOCK + PER_BLOCK - 1
    ensures !NoRunFound(2, from, highest, FreeAfter(MAX_MIXED))
  {
    hide Range, Sparse;
    var s := if from == LAST * PER_BLOCK + 1 then LAST * PER_BLOCK + 1 else LAST * PER_BLOCK;
    forall p: nat | p in Range(s, 2) ensures p in FreeAfter(MAX_MIXED) {
      InRange(s, 2, p);
      InRange(LAST * PER_BLOCK, PER_BLOCK, p);
    }
    assert Range(s, 2) <= FreeAfter(MAX_MIXED);
    assert LOW <= s && s + 2 <= highest + 1 && s + 2 <= MAX_PAGES && !(s < from < s + 2);
  }

  /** Two free pages in a row are pages of the last block. */
  lemma TwoOfLast(start: nat)
    requires Range(start, 2) <= FreeAfter(MAX_MIXED)
    ensures Block(start) == LAST && Block(start + 1) == LAST
  {
    hide Range, Sparse;
    InRange(start, 2, start);
    InRange(start, 2, start + 1);
    InBlock(start, LAST);
    InBlock(start + 1, LAST);
    SparseAt(MAX_MIXED, start);
    SparseAt(MAX_MIXED, start + 1);
  }

  lemma SecondPushed(s: Shelf, start: nat)
    requires s.free == FreeAfter(MAX_MIXED) && |s.singles| + PER_BLOCK == SINGLE_STACK
    requires Block(start) == LAST && Block(start + 1) == LAST
    ensures start + 1 in RunMarked(s, start, 2).singles
  {
    hide Range, Pushed, FreeAfter, Block;
    SparseMixed(MAX_MIXED);
    InBlock(start, LAST);
    InBlock(start + 1, LAST);
    PushedFrom(s.singles, start);
    assert RunMarked(s, start, 0) == s;
    assert start + 1 in RunMarked(s, start, 1).singles;
    MarksShrink(s, start, 1, 2);
  }

  /** From boot to a page that a client holds and that the next single-page requests hand out again. */
  method TwoHolders() returns (a: Pmm, page: nat)
    ensures page in a.held && page in a.singles
  {
    hide Ready, FreeAfter, Stacked;
    a := Boot();
    HandOut(a);
    FillStack(a);
    TakeWords(a);
    MakeRoom(a);
    page := Collide(a);
  }
}
