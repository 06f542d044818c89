/**
 The page allocator without its compressed map (kernel/pmm.c): the set of free pages, the single
 stack and the count of used pages.  How many 64-bit words are left follows from the free set, so
 marking and unmarking pages can be told exactly in these terms, also when no word is left.
 */
module PageShelf {
  import opened PageMap
  import opened PagePool
  import opened Sets

  const SINGLE_STACK: nat := 2048

  datatype Shelf = Shelf(free: set<nat>, singles: seq<nat>, used: nat)

  // ---- words ----

  ghost function BlockPages(b: nat): set<nat> {
    Range(b * PER_BLOCK, PER_BLOCK)
  }

  lemma InBlock(p: nat, b: nat)
    ensures p in BlockPages(b) <==> Block(p) == b
  {
  }

  ghost predicate AllFree(free: set<nat>, b: nat) {
    BlockPages(b) <= free
  }

  ghost predicate NoneFree(free: set<nat>, b: nat) {
    BlockPages(b) !! free
  }

  /** The blocks that need a word: some pages free and some not. */
  ghost function MixedOf(free: set<nat>): set<nat> {
    set b: nat | b < MAX_BLOCKS && !AllFree(free, b) && !NoneFree(free, b)
  }

  ghost predicate WordLeft(free: set<nat>) {
    |MixedOf(free)| < MAX_MIXED
  }

  /** What a block's state says about its pages. */
  lemma StateShows(m: Map, free: set<nat>, b: nat)
    requires MapOk(m) && Shows(m, free) && b < MAX_BLOCKS
    ensures m.state[b] == Free <==> AllFree(free, b)
    ensures m.state[b] == Used || m.state[b] == Unused <==> NoneFree(free, b)
  {
    hide StackOk, Shows, Range, OwnersOk;
    PageShows(m, free, b, 0);
    forall k: nat | k < PER_BLOCK ensures b * PER_BLOCK + k in free <==> !BitUsed(m, b, k) {
      PageShows(m, free, b, k);
    }
    BlockBits(free, b, 0);
    if m.state[b] == Mixed {
      MixedShows(m, free, b);
    } else {
      forall p: nat | p in BlockPages(b) ensures p in free <==> m.state[b] == Free {
        PageShows(m, free, b, p - b * PER_BLOCK);
      }
    }
  }

  lemma PageShows(m: Map, free: set<nat>, b: nat, k: nat)
    requires Shows(m, free) && b < MAX_BLOCKS && k < PER_BLOCK
    ensures b * PER_BLOCK + k in free <==> !BitUsed(m, b, k)
  {
    hide BitUsed;
    var p := b * PER_BLOCK + k;
    assert Block(p) == b && Bit(p) == k && p < MAX_PAGES;
  }

  lemma BlockBits(free: set<nat>, b: nat, k: nat)
    requires k < PER_BLOCK
    ensures b * PER_BLOCK + k in BlockPages(b)
    ensures b * PER_BLOCK + k in free ==> !NoneFree(free, b)
    ensures b * PER_BLOCK + k !in free ==> !AllFree(free, b)
  {
  }

  lemma MixedShows(m: Map, free: set<nat>, b: nat)
    requires MapOk(m) && Shows(m, free) && b < MAX_BLOCKS && m.state[b] == Mixed
    ensures !AllFree(free, b) && !NoneFree(free, b)
  {
    hide StackOk, Shows, AllFree, NoneFree;
    var w := m.bits[m.slotOf[b]];
    assert w != {} && !(FULL <= w);
    var k :| k in w;
    PageShows(m, free, b, k);
    BlockBits(free, b, k);
    var j :| j in FULL && j !in w;
    PageShows(m, free, b, j);
    BlockBits(free, b, j);
  }

  /** The words in use are those of the mixed blocks, so the free set tells whether one is left. */
  lemma WordsShow(m: Map, free: set<nat>)
    requires MapOk(m) && Shows(m, free)
    ensures MixedBlocks(m) == MixedOf(free) && |m.slots| + |MixedOf(free)| == MAX_MIXED
    ensures |m.slots| > 0 <==> WordLeft(free)
  {
    hide OwnersOk, Shows, AllFree, NoneFree;
    forall b: nat ensures b in MixedBlocks(m) <==> b in MixedOf(free) {
      if b < MAX_BLOCKS {
        StateShows(m, free, b);
      }
    }
    assert MixedBlocks(m) == MixedOf(free);
  }

  // ---- page_mark_used ----

  /** The page is in an all-free block that would have to be split without a word. */
  ghost predicate Splits(free: set<nat>, x: nat) {
    AllFree(free, Block(x)) && !WordLeft(free)
  }

  /** The pages of a block in order, without page `keep` of it. */
  function Leftover(blk: nat, keep: nat, i: nat): (s: seq<nat>)
    requires i <= PER_BLOCK
    ensures |s| == if keep < i then i - 1 else i
    ensures forall p: nat :: p in s <==> blk * PER_BLOCK <= p < blk * PER_BLOCK + i && p != blk * PER_BLOCK + keep
  {
    if i == 0 then []
    else if i - 1 == keep then Leftover(blk, keep, i - 1)
    else Leftover(blk, keep, i - 1) + [blk * PER_BLOCK + (i - 1)]
  }

  /** What a spill has room to push. */
  function Pushed(singles: seq<nat>, blk: nat, keep: nat): (s: seq<nat>)
    requires keep < PER_BLOCK && |singles| <= SINGLE_STACK
    ensures |s| == if |singles| + PER_BLOCK - 1 <= SINGLE_STACK then PER_BLOCK - 1 else SINGLE_STACK - |singles|
  {
    var all, room := Leftover(blk, keep, PER_BLOCK), SINGLE_STACK - |singles|;
    if |all| <= room then all else all[..room]
  }

  function Less(used: nat, n: nat): nat {
    if used > n then used - n else 0
  }

  /** page_mark_used. */
  ghost function Marked(s: Shelf, x: nat): (t: Shelf)
    requires |s.singles| <= SINGLE_STACK
    ensures |t.singles| <= SINGLE_STACK
  {
    if x !in s.free then s
    else if Splits(s.free, x) then
      var more := Pushed(s.singles, Block(x), Bit(x));
      Shelf(s.free - BlockPages(Block(x)), s.singles + more, Less(s.used, |more|))
    else s.(free := s.free - {x})
  }

  /** The marking loop of alloc_from_map. */
  ghost function RunMarked(s: Shelf, start: nat, n: nat): (t: Shelf)
    requires |s.singles| <= SINGLE_STACK
    ensures |t.singles| <= SINGLE_STACK
  {
    if n == 0 then s
    else
      var t := Marked(RunMarked(s, start, n - 1), start + n - 1);
      t.(used := t.used + 1)
  }

  // ---- exactly when a run is marked as it should be ----

  /** Splitting a block without a word does no harm if the stack is full and the block is in the run. */
  ghost predicate Harmless(full: bool, start: nat, n: nat, x: nat) {
    full && BlockPages(Block(x)) <= Range(start, n)
  }

  ghost predicate CleanAt(free: set<nat>, full: bool, start: nat, n: nat, i: nat) {
    Splits(free - Range(start, i), start + i) ==> Harmless(full, start, n, start + i)
  }

  ghost predicate RunClean(free: set<nat>, full: bool, start: nat, n: nat) {
    forall i :: 0 <= i < n ==> CleanAt(free, full, start, n, i)
  }

  ghost predicate CleanTo(free: set<nat>, full: bool, start: nat, n: nat, k: nat) {
    forall i :: 0 <= i < k ==> CleanAt(free, full, start, n, i)
  }

  ghost predicate Full(s: Shelf) {
    |s.singles| == SINGLE_STACK
  }

  /** As long as every split is harmless, only pages of the run have left the free set: the first `i`,
      or up to `f` the whole block that the last of them is in. */
  lemma {:induction false} CleanPrefix(s: Shelf, start: nat, n: nat, i: nat) returns (f: nat)
    requires |s.singles| <= SINGLE_STACK && Range(start, n) <= s.free && i <= n
    requires CleanTo(s.free, Full(s), start, n, i)
    ensures i <= f <= n && (f > i ==> i > 0 && Block(start + i - 1) == Block(start + i) == Block(start + f - 1))
    ensures RunMarked(s, start, i) == Shelf(s.free - Range(start, f), s.singles, s.used + i)
    decreases i
  {
    hide Range, Marked, Block, CleanAt;
    if i == 0 {
      f := 0;
      NothingTaken(s.free, start);
    } else {
      f := CleanPrefix(s, start, n, i - 1);
      assert CleanAt(s.free, Full(s), start, n, i - 1);
      if f > i - 1 {
        AlreadyTaken(s, start, f, i - 1);
        BlockOrder(start + i - 1, start + i, start + f - 1);
      } else {
        f := CleanStep(s, start, n, i - 1);
      }
    }
  }

  lemma AlreadyTaken(s: Shelf, start: nat, f: nat, i: nat)
    requires |s.singles| <= SINGLE_STACK && i < f
    ensures var t := Shelf(s.free - Range(start, f), s.singles, s.used + i); Marked(t, start + i) == t
  {
    hide Range, Splits, Pushed;
    InRange(start, f, start + i);
  }

  lemma NothingTaken(free: set<nat>, start: nat)
    ensures free - Range(start, 0) == free
  {
  }

  lemma InRange(start: nat, n: nat, x: nat)
    ensures x in Range(start, n) <==> start <= x < start + n
  {
  }

  lemma BlockOrder(a: nat, b: nat, c: nat)
    requires a <= b && Block(a) == Block(c)
    ensures b <= c ==> Block(b) == Block(c)
  {
  }

  lemma CleanStep(s: Shelf, start: nat, n: nat, i: nat) returns (f: nat)
    requires |s.singles| <= SINGLE_STACK && Range(start, n) <= s.free && i < n && CleanAt(s.free, Full(s), start, n, i)
    ensures i < f <= n && (f > i + 1 ==> Block(start + i) == Block(start + i + 1) == Block(start + f - 1))
    ensures var t := Marked(Shelf(s.free - Range(start, i), s.singles, s.used + i), start + i);
            t.(used := t.used + 1) == Shelf(s.free - Range(start, f), s.singles, s.used + i + 1)
  {
    hide WordLeft, Range, AllFree, Block, BlockPages;
    var x, free := start + i, s.free - Range(start, i);
    InRange(start, i, x);
    InRange(start, n, x);
    if Splits(free, x) {
      f := WholeBlock(s.free, start, n, i);
      assert Pushed(s.singles, Block(x), Bit(x)) == [];
      assert s.singles + [] == s.singles;
    } else {
      f := i + 1;
      OneTaken(s.free, start, i);
    }
  }

  lemma OneTaken(free: set<nat>, start: nat, i: nat)
    ensures free - Range(start, i) - {start + i} == free - Range(start, i + 1)
  {
  }

  lemma BlockTaken(free: set<nat>, start: nat, i: nat, k: nat)
    ensures free - Range(start, i) - Range(start + i, k) == free - Range(start, i + k)
  {
  }

  /** A block that is still all free and inside the run starts at the next page. */
  lemma WholeBlock(free: set<nat>, start: nat, n: nat, i: nat) returns (f: nat)
    requires i < n && AllFree(free - Range(start, i), Block(start + i)) &&
        BlockPages(Block(start + i)) <= Range(start, n)
    ensures f == i + PER_BLOCK <= n && Block(start + i) == Block(start + i + 1) == Block(start + f - 1)
    ensures free - Range(start, i) - BlockPages(Block(start + i)) == free - Range(start, f)
  {
    hide Range;
    var b := Block(start + i);
    var first := b * PER_BLOCK;
    InRange(first, PER_BLOCK, first);
    InRange(first, PER_BLOCK, first + PER_BLOCK - 1);
    InRange(start, n, first);
    InRange(start, n, first + PER_BLOCK - 1);
    InRange(start, i, first);
    assert first <= start + i < first + PER_BLOCK;
    f := i + PER_BLOCK;
    BlockTaken(free, start, i, PER_BLOCK);
  }

  /** A run is marked exactly, with the stack and the count as they should be, if every split in it is harmless. */
  lemma CleanMarks(s: Shelf, start: nat, n: nat)
    requires |s.singles| <= SINGLE_STACK && Range(start, n) <= s.free && RunClean(s.free, Full(s), start, n)
    ensures RunMarked(s, start, n) == Shelf(s.free - Range(start, n), s.singles, s.used + n)
  {
    var f := CleanPrefix(s, start, n, n);
  }

  lemma {:induction false} MarksShrink(s: Shelf, start: nat, i: nat, n: nat)
    requires |s.singles| <= SINGLE_STACK && i <= n
    ensures RunMarked(s, start, n).free <= RunMarked(s, start, i).free
    ensures RunMarked(s, start, i).singles <= RunMarked(s, start, n).singles
    decreases n
  {
    hide Splits, Pushed, BlockPages;
    if i < n {
      MarksShrink(s, start, i, n - 1);
    }
  }

  /** Otherwise the free set loses a page outside the run, or a page of the run is on the stack too. */
  lemma UncleanMarks(s: Shelf, start: nat, n: nat) returns (y: nat)
    requires |s.singles| <= SINGLE_STACK && Range(start, n) <= s.free && !RunClean(s.free, Full(s), start, n)
    ensures var t := RunMarked(s, start, n);
            (y in s.free - Range(start, n) && y !in t.free) || (y in Range(start, n) && y in t.singles)
  {
    hide Range, AllFree, WordLeft, Block, BlockPages, Splits, Harmless;
    var i := FirstUnclean(s.free, Full(s), start, n);
    var f := CleanPrefix(s, start, n, i);
    y := SpillHurts(s, start, n, i, f);
    MarksShrink(s, start, i + 1, n);
  }

  lemma FirstUnclean(free: set<nat>, full: bool, start: nat, n: nat) returns (i: nat)
    requires !RunClean(free, full, start, n)
    ensures i < n && !CleanAt(free, full, start, n, i) && CleanTo(free, full, start, n, i)
  {
    hide CleanAt;
    i := 0;
    while CleanAt(free, full, start, n, i)
      invariant i < n && CleanTo(free, full, start, n, i)
      decreases n - i
    {
      i := i + 1;
    }
  }

  lemma SpillHurts(s: Shelf, start: nat, n: nat, i: nat, f: nat) returns (y: nat)
    requires |s.singles| <= SINGLE_STACK && Range(start, n) <= s.free && i < n && !CleanAt(s.free, Full(s), start, n, i)
    requires i <= f <= n && (f > i ==> i > 0 && Block(start + i - 1) == Block(start + i))
    requires RunMarked(s, start, i) == Shelf(s.free - Range(start, f), s.singles, s.used + i)
    ensures var t := RunMarked(s, start, i + 1);
            (y in s.free - Range(start, n) && y !in t.free) || (y in Range(start, n) && y in t.singles)
  {
    hide WordLeft, Block, Range, Leftover;
    var x, b := start + i, Block(start + i);
    NotYetTouched(s.free, start, i);
    InRange(start, i, x);
    InRange(start, n, x);
    if BlockPages(b) <= Range(start, n) {
      y := FirstPushed(s.singles, x);
    } else {
      y :| y in BlockPages(b) && y !in Range(start, n);
    }
  }

  /** An all-free block has no page of the run marked so far. */
  lemma NotYetTouched(free: set<nat>, start: nat, i: nat)
    requires AllFree(free - Range(start, i), Block(start + i))
    ensures i > 0 ==> Block(start + i - 1) != Block(start + i)
  {
    if i > 0 {
      InBlock(start + i - 1, Block(start + i));
    }
  }

  lemma FirstPushed(singles: seq<nat>, x: nat) returns (y: nat)
    requires |singles| < SINGLE_STACK
    ensures y in Pushed(singles, Block(x), Bit(x)) && y in BlockPages(Block(x))
  {
    hide Leftover;
    y := Pushed(singles, Block(x), Bit(x))[0];
    assert y in Leftover(Block(x), Bit(x), PER_BLOCK);
  }

  // ---- the same from the blocks of the run ----

  /** The words in use once the run has passed its first block: one more if that block was all free
      and the run does not start at its first page, one fewer if the run completes it. */
  ghost function WordsAfterFirst(free: set<nat>, start: nat): int {
    var b := Block(start);
    |MixedOf(free)| + (if AllFree(free, b) then (if Bit(start) == 0 then 0 else 1)
                       else if Range(b * PER_BLOCK, Bit(start)) !! free then -1 else 0)
  }

  /** Block `b` is a later block of the run and all free. */
  ghost predicate LaterFree(free: set<nat>, start: nat, n: nat, b: nat) {
    Block(start) < b && b * PER_BLOCK < start + n && AllFree(free, b)
  }

  /** There is a word for the first block if it is all free, and one for later blocks that are, or
      doing without is harmless. */
  ghost predicate RunFits(free: set<nat>, full: bool, start: nat, n: nat) {
    && (AllFree(free, Block(start)) && |MixedOf(free)| >= MAX_MIXED ==> Harmless(full, start, n, start))
    && (WordsAfterFirst(free, start) >= MAX_MIXED ==>
          forall b: nat :: LaterFree(free, start, n, b) ==> Harmless(full, start, n, b * PER_BLOCK))
  }

  /** Whether a run is marked exactly can be told beforehand, from its first block, where in it the
      run starts, the words left, and the all-free blocks further on. */
  lemma RunCleanIff(free: set<nat>, full: bool, start: nat, n: nat)
    requires n > 0 && start + n <= MAX_PAGES && Range(start, n) <= free
    ensures RunClean(free, full, start, n) <==> RunFits(free, full, start, n)
  {
    hide Range, AllFree, MixedOf, Block, Bit, WordsAfterFirst, Harmless;
    NothingTaken(free, start);
    assert CleanAt(free, full, start, n, 0) <==>
      (AllFree(free, Block(start)) && |MixedOf(free)| >= MAX_MIXED ==> Harmless(full, start, n, start));
    if RunFits(free, full, start, n) {
      forall i | 0 <= i < n ensures CleanAt(free, full, start, n, i) {
        if i > 0 {
          SplitsLater(free, start, n, i);
        }
      }
    } else if CleanAt(free, full, start, n, 0) {
      var b: nat :| LaterFree(free, start, n, b) && !Harmless(full, start, n, b * PER_BLOCK);
      var i := LaterStart(start, n, b);
      SplitsAtLater(free, start, n, i);
      assert !CleanAt(free, full, start, n, i);
    }
  }

  /** With two words left, or one for a single page, a run always fits. */
  lemma EnoughWords(free: set<nat>, full: bool, start: nat, n: nat)
    requires |MixedOf(free)| + 2 <= MAX_MIXED || (n <= 1 && |MixedOf(free)| < MAX_MIXED)
    ensures RunFits(free, full, start, n)
  {
    hide MixedOf, AllFree, Range, Harmless;
  }

  /** The first page of a later block. */
  lemma LaterStart(start: nat, n: nat, b: nat) returns (i: nat)
    requires Block(start) < b && b * PER_BLOCK < start + n
    ensures 0 < i < n && start + i == b * PER_BLOCK && Block(start + i) == b && Bit(start + i) == 0
  {
    i := b * PER_BLOCK - start;
  }

  /** After the first page, only the first page of a later block can need a word. */
  lemma SplitsLater(free: set<nat>, start: nat, n: nat, i: nat)
    requires 0 < i < n && start + n <= MAX_PAGES && Range(start, n) <= free
    ensures Splits(free - Range(start, i), start + i) ==>
      && LaterFree(free, start, n, Block(start + i)) && Block(start + i) * PER_BLOCK == start + i
      && WordsAfterFirst(free, start) >= MAX_MIXED
  {
    hide Range, AllFree, MixedOf, WordsAfterFirst;
    if Splits(free - Range(start, i), start + i) {
      NotYetTouched(free, start, i);
      var b := Block(start + i);
      assert Bit(start + i) == 0 && b * PER_BLOCK == start + i && Block(start) < b;
      AllFreeLess(free, Range(start, i), b);
      PassedFirst(free, start, n, i);
    }
  }

  lemma AllFreeLess(free: set<nat>, taken: set<nat>, b: nat)
    requires AllFree(free - taken, b)
    ensures AllFree(free, b)
  {
  }

  lemma SplitsAtLater(free: set<nat>, start: nat, n: nat, i: nat)
    requires 0 < i < n && start + n <= MAX_PAGES && Range(start, n) <= free
    requires Bit(start + i) == 0 && AllFree(free, Block(start + i)) && WordsAfterFirst(free, start) >= MAX_MIXED
    ensures Splits(free - Range(start, i), start + i)
  {
    hide Range, MixedOf, WordsAfterFirst;
    PassedFirst(free, start, n, i);
    var b := Block(start + i);
    forall p: nat | p in BlockPages(b) ensures p !in Range(start, i) {
      InBlock(p, b);
      InRange(start, i, p);
    }
  }

  /** Between the first block and a later one every block went from all free to all used. */
  lemma PassedFirst(free: set<nat>, start: nat, n: nat, i: nat)
    requires 0 < i <= n && start + n <= MAX_PAGES && Range(start, n) <= free && Bit(start + i) == 0
    ensures |MixedOf(free - Range(start, i))| == WordsAfterFirst(free, start)
  {
    hide Range, AllFree, NoneFree, Block, Bit;
    var b, after := Block(start), free - Range(start, i);
    assert b < MAX_BLOCKS by { FirstBlock(start); }
    forall c: nat | c < MAX_BLOCKS && c != b ensures c in MixedOf(after) <==> c in MixedOf(free) {
      OtherBlock(free, start, n, i, c);
    }
    FirstPassed(free, start, n, i);
    var rest := MixedOf(free) - {b};
    assert MixedOf(after) - {b} == rest;
    assert |MixedOf(free)| == |rest| + if b in MixedOf(free) then 1 else 0 by { WithOne(MixedOf(free), b); }
    assert |MixedOf(after)| == |rest| + if b in MixedOf(after) then 1 else 0 by { WithOne(MixedOf(after), b); }
  }

  lemma FirstBlock(start: nat)
    requires start < MAX_PAGES
    ensures Block(start) < MAX_BLOCKS
  {
  }

  lemma WithOne(s: set<nat>, b: nat)
    ensures |s| == |s - {b}| + if b in s then 1 else 0
  {
    if b in s {
      assert s == (s - {b}) + {b};
    } else {
      assert s == s - {b};
    }
  }

  lemma OtherBlock(free: set<nat>, start: nat, n: nat, i: nat, c: nat)
    requires 0 < i <= n && Range(start, n) <= free && Bit(start + i) == 0 && c != Block(start)
    ensures var after := free - Range(start, i);
            AllFree(after, c) || NoneFree(after, c) <==> AllFree(free, c) || NoneFree(free, c)
  {
    hide Range;
    if Block(start) < c && c * PER_BLOCK < start + i {
      InnerBlock(free, start, n, i, c);
    } else {
      forall p: nat | p in BlockPages(c) ensures p !in Range(start, i) {
        InBlock(p, c);
        InRange(start, i, p);
      }
    }
  }

  lemma InnerBlock(free: set<nat>, start: nat, n: nat, i: nat, c: nat)
    requires 0 < i <= n && Range(start, n) <= free && Bit(start + i) == 0 && Block(start) < c &&
        c * PER_BLOCK < start + i
    ensures AllFree(free, c) && NoneFree(free - Range(start, i), c)
  {
    hide Range;
    forall p: nat | p in BlockPages(c) ensures p in free && p in Range(start, i) {
      InBlock(p, c);
      InRange(start, i, p);
      InRange(start, n, p);
    }
  }

  lemma FirstPassed(free: set<nat>, start: nat, n: nat, i: nat)
    requires 0 < i <= n && start + n <= MAX_PAGES && Range(start, n) <= free && Bit(start + i) == 0
    ensures var b, after := Block(start), free - Range(start, i);
            && (b in MixedOf(free) <==> !AllFree(free, b))
            && (b in MixedOf(after) <==> !(Range(b * PER_BLOCK, Bit(start)) !! free))
            && (AllFree(free, b) ==> (Range(b * PER_BLOCK, Bit(start)) !! free <==> Bit(start) == 0))
  {
    hide Range;
    var b, after := Block(start), free - Range(start, i);
    var first := b * PER_BLOCK;
    FirstBlock(start);
    InBlock(start, b);
    InRange(start, n, start);
    InRange(start, i, start);
    assert start in BlockPages(b) && start in free && start !in after;
    forall p: nat ensures p in BlockPages(b) && p in after <==> p in Range(first, Bit(start)) && p in free {
      InBlock(p, b);
      InRange(start, i, p);
      InRange(first, Bit(start), p);
    }
    if Bit(start) > 0 {
      InBlock(first, b);
      InRange(first, Bit(start), first);
    }
  }

  // ---- a single page ----

  /** No page has two holders. */
  ghost predicate NoneTwice(q: Pool) {
    && SinglesDistinct(q.singles)
    && forall p: nat :: SoleHolder(q, p)
  }

  ghost predicate SoleHolder(q: Pool, p: nat) {
    && (p in q.held ==> p !in q.free && p !in q.singles && !OnRun(q.runs, p))
    && (p in q.free ==> p !in q.singles && !OnRun(q.runs, p))
    && (p in q.singles ==> !OnRun(q.runs, p))
  }

  /** One page more is used, and the pages the stack gained have been counted out although they were not in. */
  predicate Miscounted(s: Shelf, t: Shelf) {
    |s.singles| <= |t.singles| && t.used == 1 + Less(s.used, |t.singles| - |s.singles|)
  }

  lemma {:induction false} LeftoverDistinct(blk: nat, keep: nat, i: nat)
    requires i <= PER_BLOCK
    ensures SinglesDistinct(Leftover(blk, keep, i))
  {
    if i > 0 {
      LeftoverDistinct(blk, keep, i - 1);
      var before := Leftover(blk, keep, i - 1);
      assert forall k :: 0 <= k < |before| ==> before[k] in before;
    }
  }

  lemma PushedFrom(singles: seq<nat>, x: nat)
    requires |singles| <= SINGLE_STACK
    ensures SinglesDistinct(Pushed(singles, Block(x), Bit(x)))
    ensures forall p: nat :: p in Pushed(singles, Block(x), Bit(x)) ==> p in BlockPages(Block(x)) && p != x
    ensures |singles| + PER_BLOCK - 1 <= SINGLE_STACK ==>
      forall p: nat :: p in Pushed(singles, Block(x), Bit(x)) <==> p in BlockPages(Block(x)) && p != x
  {
    LeftoverDistinct(Block(x), Bit(x), PER_BLOCK);
    assert Block(x) * PER_BLOCK + Bit(x) == x;
    hide Leftover;
    var all, s := Leftover(Block(x), Bit(x), PER_BLOCK), Pushed(singles, Block(x), Bit(x));
    forall p: nat | p in s ensures p in all {
    }
  }

  /** Handing out one page of a block that is split without a word gives no page two holders; with room
      for the rest of the block on the stack none is lost either. */
  lemma LonePage(q: Pool, x: nat)
    requires Partition(q) && |q.singles| <= SINGLE_STACK && AllFree(q.free, Block(x))
    ensures var t := q.(held := q.held + {x}, free := q.free - BlockPages(Block(x)),
                        singles := q.singles + Pushed(q.singles, Block(x), Bit(x)));
            && x in q.free && NoneTwice(t) && (|q.singles| + PER_BLOCK - 1 <= SINGLE_STACK ==> Partition(t))
  {
    hide Range, Pushed, Block, Bit, OnRun;
    InBlock(x, Block(x));
    PushedFrom(q.singles, x);
    var more := Pushed(q.singles, Block(x), Bit(x));
    var t := q.(held := q.held + {x}, free := q.free - BlockPages(Block(x)), singles := q.singles + more);
    forall p: nat ensures SoleHolder(t, p) && (|q.singles| + PER_BLOCK - 1 <= SINGLE_STACK ==> OneHolder(t, p)) {
      assert OneHolder(q, p);
      assert p in t.singles <==> p in q.singles || p in more;
    }
    StackDistinct(q, x);
  }

  lemma StackDistinct(q: Pool, x: nat)
    requires Partition(q) && |q.singles| <= SINGLE_STACK && AllFree(q.free, Block(x))
    ensures SinglesDistinct(q.singles + Pushed(q.singles, Block(x), Bit(x)))
  {
    hide Range, Pushed, Block, Bit, OnRun;
    PushedFrom(q.singles, x);
    var more := Pushed(q.singles, Block(x), Bit(x));
    forall i, j | 0 <= i < |q.singles| && 0 <= j < |more| ensures q.singles[i] != more[j] {
      assert OneHolder(q, more[j]);
      assert more[j] in more && more[j] in q.free;
    }
  }

  // ---- taking pages back ----

  /** The page is in an all-used block, no word is left for it and the stack has no room. */
  ghost predicate Loses(s: Shelf, x: nat) {
    x !in s.free && NoneFree(s.free, Block(x)) && !WordLeft(s.free) && |s.singles| >= SINGLE_STACK
  }

  /** One page of the last loop of pmm_free_n, for a page of RAM. */
  ghost function PutBack(s: Shelf, x: nat): Shelf {
    if x in s.free then s
    else
      var used := Less(s.used, 1);
      if NoneFree(s.free, Block(x)) && !WordLeft(s.free) then
        Shelf(s.free, if |s.singles| < SINGLE_STACK then s.singles + [x] else s.singles, used)
      else Shelf(s.free + {x}, s.singles, used)
  }

  ghost function RunPutBack(s: Shelf, p: nat, n: nat): Shelf {
    if n == 0 then s else PutBack(RunPutBack(s, p, n - 1), p + n - 1)
  }

  /** The pages that end up nowhere. */
  ghost function Lost(s: Shelf, p: nat, n: nat): (r: set<nat>)
    ensures r <= Range(p, n)
  {
    if n == 0 then {}
    else
      var before := Lost(s, p, n - 1);
      if Loses(RunPutBack(s, p, n - 1), p + n - 1) then before + {p + n - 1} else before
  }

  lemma PutBackOne(s: Shelf, x: nat)
    ensures |PutBack(s, x).singles| <= |s.singles| + 1
    ensures PutBack(s, x).free == s.free || PutBack(s, x).free == s.free + {x}
  {
    hide NoneFree, WordLeft;
  }

  /** With room for all of them on the stack no page is lost. */
  lemma {:induction false} RoomLosesNone(s: Shelf, p: nat, n: nat)
    requires |s.singles| + n <= SINGLE_STACK
    ensures Lost(s, p, n) == {} && |RunPutBack(s, p, n).singles| <= |s.singles| + n
  {
    hide NoneFree, WordLeft, PutBack, Range;
    if n > 0 {
      RoomLosesNone(s, p, n - 1);
      PutBackOne(RunPutBack(s, p, n - 1), p + n - 1);
    }
  }

  /** Pages that are free already stay where they are. */
  lemma {:induction false} FreeLosesNone(s: Shelf, p: nat, n: nat)
    requires Range(p, n) <= s.free
    ensures Lost(s, p, n) == {} && RunPutBack(s, p, n) == s
  {
    if n > 0 {
      FreeLosesNone(s, p, n - 1);
    }
  }

  /** The blocks a range [start, start + i) reaches into without covering what comes after its start. */
  ghost function Edges(start: nat, i: nat): (e: set<nat>)
    ensures |e| <= 2
  {
    if i == 0 then {}
    else if Bit(start + i) == 0 then {Block(start)}
    else {Block(start)} + {Block(start + i)}
  }

  /** Adding or taking away a range leaves at most its two end blocks newly mixed. */
  lemma EdgesOnly(free: set<nat>, start: nat, i: nat)
    ensures MixedOf(free - Range(start, i)) <= MixedOf(free) + Edges(start, i)
    ensures MixedOf(free + Range(start, i)) <= MixedOf(free) + Edges(start, i)
  {
    hide Range, AllFree, NoneFree, Edges;
    forall b: nat | b !in Edges(start, i) && (AllFree(free, b) || NoneFree(free, b))
      ensures AllFree(free - Range(start, i), b) || NoneFree(free - Range(start, i), b)
      ensures AllFree(free + Range(start, i), b) || NoneFree(free + Range(start, i), b)
    {
      NotEdge(free, start, i, b);
    }
  }

  lemma NotEdge(free: set<nat>, start: nat, i: nat, b: nat)
    requires b !in Edges(start, i) && (AllFree(free, b) || NoneFree(free, b))
    ensures AllFree(free - Range(start, i), b) || NoneFree(free - Range(start, i), b)
    ensures AllFree(free + Range(start, i), b) || NoneFree(free + Range(start, i), b)
  {
    hide Range;
    var r := Range(start, i);
    if Block(start) < b && b * PER_BLOCK < start + i {
      forall p: nat | p in BlockPages(b) ensures p in r {
        InBlock(p, b);
        InRange(start, i, p);
      }
    } else {
      forall p: nat | p in BlockPages(b) ensures p !in r {
        InBlock(p, b);
        InRange(start, i, p);
      }
    }
  }

  /** With two words to start with (one for a single page) a block that is not mixed finds one. */
  lemma WordStays(free: set<nat>, now: set<nat>, start: nat, i: nat)
    requires now == free - Range(start, i) || now == free + Range(start, i)
    requires |MixedOf(free)| + 2 <= MAX_MIXED || (i == 0 && |MixedOf(free)| < MAX_MIXED)
    requires Block(start + i) !in MixedOf(now)
    ensures WordLeft(now)
  {
    hide Range, MixedOf;
    EdgesOnly(free, start, i);
    var rest := Edges(start, i) - {Block(start + i)};
    UnionSize(MixedOf(now), MixedOf(free), rest);
    SubsetSize(rest, if i == 0 then {} else {Block(start)});
  }

  /** With words enough every page goes back into the map. */
  lemma {:induction false} WordsLoseNone(s: Shelf, p: nat, n: nat, i: nat)
    requires i <= n && (|MixedOf(s.free)| + 2 <= MAX_MIXED || (n <= 1 && |MixedOf(s.free)| < MAX_MIXED))
    ensures Lost(s, p, i) == {} && RunPutBack(s, p, i).free == s.free + Range(p, i) &&
        RunPutBack(s, p, i).singles == s.singles
    decreases i
  {
    hide Range, MixedOf, PutBack, Loses;
    if i == 0 {
      NothingAdded(s.free, p);
    } else {
      WordsLoseNone(s, p, n, i - 1);
      OneAdded(s.free, p, i - 1);
      WordFound(s.free, RunPutBack(s, p, i - 1), p, i - 1);
    }
  }

  lemma WordFound(free: set<nat>, t: Shelf, p: nat, i: nat)
    requires |MixedOf(free)| + 2 <= MAX_MIXED || (i == 0 && |MixedOf(free)| < MAX_MIXED)
    requires t.free == free + Range(p, i)
    ensures var x := p + i;
            && !Loses(t, x) && PutBack(t, x).singles == t.singles
            && PutBack(t, x).free == if x in t.free then t.free else t.free + {x}
  {
    hide NoneFree, WordLeft, Range, MixedOf;
    if NoneFree(t.free, Block(p + i)) {
      NoneNotMixed(t.free, Block(p + i));
      WordStays(free, t.free, p, i);
    }
  }

  lemma NoneNotMixed(free: set<nat>, b: nat)
    requires NoneFree(free, b) || AllFree(free, b)
    ensures b !in MixedOf(free)
  {
  }

  lemma NothingAdded(free: set<nat>, start: nat)
    ensures free + Range(start, 0) == free
  {
  }

  lemma OneAdded(free: set<nat>, start: nat, i: nat)
    ensures free + Range(start, i) + {start + i} == free + Range(start, i + 1)
    ensures start + i in free + Range(start, i) ==> free + Range(start, i) == free + Range(start, i + 1)
  {
  }
}
