/**
 The physical page allocator (kernel/pmm.c): the two-level map, a stack of single pages
 and a list of runs, refining one set of free pages.
 */
module PageAllocator {
  import opened PageMap
  import opened PagePool
  import opened PageShelf
  import opened Sets

  const FREE_RUNS: nat := 128
  const LOW: nat := 256
  const NONE: int := -1

  // ---- from one block to the flat set ----

  /** A change inside one block changes the flat meaning of that block's pages only. */
  lemma OtherPagesSame(m: Map, a: Map, blk: nat, p: nat)
    requires SameElsewhere(m, a, blk) && (p >= MAX_PAGES || Block(p) != blk)
    ensures PageUsed(a, p) == PageUsed(m, p)
  {
  }

  lemma UsedShows(m: Map, a: Map, page: nat, w: set<nat>, free: set<nat>)
    requires page < MAX_PAGES && Shows(m, free) && SameElsewhere(m, a, Block(page))
    requires BlockShows(m, Block(page), w) && BlockShows(a, Block(page), w + {Bit(page)})
    ensures Shows(a, free - {page})
  {
    forall p: nat ensures p in free - {page} <==> !PageUsed(a, p) {
      if p >= MAX_PAGES || Block(p) != Block(page) {
        OtherPagesSame(m, a, Block(page), p);
      } else {
        assert BitUsed(m, Block(page), Bit(p)) <==> Bit(p) in w;
      }
    }
  }

  lemma FreeShows(m: Map, a: Map, page: nat, w: set<nat>, free: set<nat>)
    requires page < MAX_PAGES && Shows(m, free) && SameElsewhere(m, a, Block(page))
    requires BlockShows(m, Block(page), w) && BlockShows(a, Block(page), w - {Bit(page)})
    ensures Shows(a, free + {page})
  {
    forall p: nat ensures p in free + {page} <==> !PageUsed(a, p) {
      if p >= MAX_PAGES || Block(p) != Block(page) {
        OtherPagesSame(m, a, Block(page), p);
      } else {
        assert BitUsed(m, Block(page), Bit(p)) <==> Bit(p) in w;
      }
    }
  }

  lemma FullBlockShows(m: Map, a: Map, blk: nat, free: set<nat>)
    requires blk < MAX_BLOCKS && Shows(m, free) && SameElsewhere(m, a, blk) && BlockShows(a, blk, FULL)
    ensures Shows(a, free - Range(blk * PER_BLOCK, PER_BLOCK))
  {
    forall p: nat ensures p in free - Range(blk * PER_BLOCK, PER_BLOCK) <==> !PageUsed(a, p) {
      if p >= MAX_PAGES || Block(p) != blk {
        OtherPagesSame(m, a, blk, p);
      } else {
        assert Bit(p) in FULL;
      }
    }
  }

  lemma FreeBlockShows(m: Map, a: Map, blk: nat, free: set<nat>)
    requires blk < MAX_BLOCKS && Shows(m, free) && SameElsewhere(m, a, blk) && BlockShows(a, blk, {})
    ensures Shows(a, free + Range(blk * PER_BLOCK, PER_BLOCK))
  {
    forall p: nat ensures p in free + Range(blk * PER_BLOCK, PER_BLOCK) <==> !PageUsed(a, p) {
      if p >= MAX_PAGES || Block(p) != blk {
        OtherPagesSame(m, a, blk, p);
      }
    }
  }

  lemma SingletonsProper(bit: nat)
    requires bit < PER_BLOCK
    ensures Proper({bit}) && Proper(FULL - {bit})
  {
    var other := if bit == 0 then 1 else 0;
    assert other in FULL && bit in FULL;
  }

  class Pmm {
    var state: seq<BlockState>
    var slotOf: seq<nat>
    var bits: seq<Word>
    var slots: seq<nat>
    var total: nat
    var used: nat
    var highest: nat
    var cursor: nat
    var singles: seq<nat>
    var runs: seq<Run>
    ghost var ram: set<nat>
    ghost var held: set<nat>
    ghost var free: set<nat>

    ghost function M(): Map
      reads this
    {
      Map(state, slotOf, bits, slots)
    }

    ghost function P(): Pool
      reads this
    {
      Pool(ram, held, free, singles, runs)
    }

    ghost function S(): Shelf
      reads this
    {
      Shelf(free, singles, used)
    }

    /** The map is well formed and shows exactly `free`. */
    ghost predicate MapValid()
      reads this
    {
      MapOk(M()) && Shows(M(), free)
    }

    /** mixed_acquire, with a word available. */
    method Acquire(blk: nat, w: Word)
      requires MapOk(M()) && blk < MAX_BLOCKS && state[blk] != Mixed && |slots| > 0 && Proper(w)
      modifies `state, `slotOf, `bits, `slots
      ensures MapOk(M()) && SameElsewhere(old(M()), M(), blk) && BlockShows(M(), blk, w)
      ensures state == old(state)[blk := Mixed]
    {
      hide OwnersOk, SameElsewhere, BlockShows, MixedBlocks, StackOk;
      AcquireOk(M(), blk, w);
      var slot := slots[|slots| - 1];
      slots := slots[..|slots| - 1];
      bits := bits[slot := w];
      slotOf := slotOf[blk := slot];
      state := state[blk := Mixed];
    }

    /** mixed_release_to */
    method ReleaseTo(blk: nat, st: BlockState)
      requires MapOkBut(M(), blk) && blk < MAX_BLOCKS && st != Mixed
      modifies `state, `slotOf, `slots
      ensures MapOk(M()) && SameElsewhere(old(M()), M(), blk)
      ensures BlockShows(M(), blk, if st == Free then {} else FULL)
      ensures state == old(state)[blk := st]
      ensures old(state)[blk] != Mixed ==> slots == old(slots)
    {
      hide OwnersOk, SameElsewhere, BlockShows, MixedBlocks, StackOk;
      ReleaseOk(M(), blk, st);
      if state[blk] == Mixed {
        if |slots| < MAX_MIXED {
          slots := slots + [slotOf[blk]];
        }
        slotOf := slotOf[blk := 0];
      }
      state := state[blk := st];
    }

    /** page_is_used */
    method IsUsed(page: nat) returns (r: bool)
      requires MapValid()
      ensures r <==> page !in free
    {
      if page >= MAX_PAGES {
        return true;
      }
      var blk, bit := Block(page), Bit(page);
      match state[blk]
      case Unused => r := true;
      case Used => r := true;
      case Free => r := false;
      case Mixed => r := bit in bits[slotOf[blk]];
    }

    /** spill_block_pages_except: push the rest of a block on the single stack while there is room, and
        count them out of the used pages although they were not in. */
    method SpillExcept(blk: nat, keep: nat)
      requires keep < PER_BLOCK && |singles| <= SINGLE_STACK
      modifies `singles, `used
      ensures singles == old(singles) + Pushed(old(singles), blk, keep)
      ensures used == Less(old(used), |Pushed(old(singles), blk, keep)|)
    {
      var i := 0;
      while i < PER_BLOCK
        invariant 0 <= i <= PER_BLOCK && |singles| <= SINGLE_STACK
        invariant singles == old(singles) + Leftover(blk, keep, i)
        invariant used == Less(old(used), |Leftover(blk, keep, i)|)
      {
        if i != keep {
          if |singles| >= SINGLE_STACK {
            LeftoverPrefix(blk, keep, i, PER_BLOCK);
            return;
          }
          singles := singles + [blk * PER_BLOCK + i];
          if used > 0 {
            used := used - 1;
          }
        }
        i := i + 1;
      }
    }

    /** page_mark_used: one page leaves the free set, unless a block must be split with no word left. */
    method MarkUsed(page: nat)
      requires MapValid() && |singles| <= SINGLE_STACK
      modifies `state, `slotOf, `bits, `slots, `singles, `used, `free
      ensures MapValid() && S() == Marked(old(S()), page)
      ensures SameUnused(old(state), state)
    {
      hide OwnersOk, SameElsewhere, BlockShows, MixedBlocks, StackOk, Shows, AllFree, NoneFree, WordLeft, Pushed;
      if page >= MAX_PAGES {
        UsedAlready(M(), page, free);
        return;
      }
      var blk, bit := Block(page), Bit(page);
      StateShows(M(), free, blk);
      WordsShow(M(), free);
      if state[blk] == Used || state[blk] == Unused {
        UsedAlready(M(), page, free);
        return;
      }
      if state[blk] == Free {
        FreeAlready(M(), page, free);
        if |slots| == 0 {
          SpillBlock(page);
        } else {
          SplitFree(page);
        }
      } else {
        SetBit(page);
      }
    }

    /** The no-word case of page_mark_used: the block becomes all used, its other pages go on the stack. */
    method SpillBlock(page: nat)
      requires MapValid() && page < MAX_PAGES && state[Block(page)] == Free && |singles| <= SINGLE_STACK
      modifies `state, `slotOf, `slots, `singles, `used, `free
      ensures MapValid() && free == old(free) - BlockPages(Block(page)) && state == old(state)[Block(page) := Used]
      ensures singles == old(singles) + Pushed(old(singles), Block(page), Bit(page))
      ensures used == Less(old(used), |Pushed(old(singles), Block(page), Bit(page))|)
    {
      hide OwnersOk, SameElsewhere, BlockShows, MixedBlocks, StackOk, Shows, MapOkBut, Pushed;
      var blk := Block(page);
      BlockMeaning(M(), blk);
      ReleaseTo(blk, Used);
      FullBlockShows(old(M()), M(), blk, free);
      free := free - Range(blk * PER_BLOCK, PER_BLOCK);
      SpillExcept(blk, Bit(page));
    }

    /** The mixed case of page_mark_used. */
    method SetBit(page: nat)
      requires MapValid() && page < MAX_PAGES && state[Block(page)] == Mixed
      modifies `state, `slotOf, `bits, `slots, `free
      ensures MapValid() && free == old(free) - {page}
      ensures state == old(state)[Block(page) := state[Block(page)]] && state[Block(page)] != Unused
    {
      hide OwnersOk, SameElsewhere, BlockShows, MixedBlocks, StackOk, Shows, MapOkBut;
      var blk := Block(page);
      BlockMeaning(M(), blk);
      WriteBits(blk, bits[slotOf[blk]] + {Bit(page)});
      UsedShows(old(M()), M(), page, old(bits[slotOf[blk]]), free);
      free := free - {page};
    }

    /** The mixed case of page_mark_free. */
    method ClearBit(page: nat)
      requires MapValid() && page < MAX_PAGES && state[Block(page)] == Mixed
      modifies `state, `slotOf, `bits, `slots, `free
      ensures MapValid() && free == old(free) + {page}
      ensures state == old(state)[Block(page) := state[Block(page)]] && state[Block(page)] != Unused
    {
      hide OwnersOk, SameElsewhere, BlockShows, MixedBlocks, StackOk, Shows, MapOkBut;
      var blk := Block(page);
      BlockMeaning(M(), blk);
      WriteBits(blk, bits[slotOf[blk]] - {Bit(page)});
      FreeShows(old(M()), M(), page, old(bits[slotOf[blk]]), free);
      free := free + {page};
    }

    /** The split of an all-used or unused block in page_mark_free and mark_usable_range. */
    method SplitUsed(page: nat)
      requires MapValid() && page < MAX_PAGES && |slots| > 0
      requires state[Block(page)] == Used || state[Block(page)] == Unused
      modifies `state, `slotOf, `bits, `slots, `free
      ensures MapValid() && free == old(free) + {page}
      ensures state == old(state)[Block(page) := Mixed]
    {
      hide OwnersOk, SameElsewhere, BlockShows, MixedBlocks, StackOk, Shows, MapOkBut;
      SingletonsProper(Bit(page));
      BlockMeaning(M(), Block(page));
      Acquire(Block(page), FULL - {Bit(page)});
      FreeShows(old(M()), M(), page, FULL, free);
      free := free + {page};
    }

    /** page_mark_free: one page joins the free set; with no word left it goes on the single stack, and
        with no room there nowhere. */
    method MarkFree(page: nat)
      requires MapValid()
      modifies `state, `slotOf, `bits, `slots, `singles, `free
      ensures MapValid()
      ensures page < MAX_PAGES && old(state)[Block(page)] != Unused ==>
        var t := PutBack(old(S()), page);
        free == t.free && singles == t.singles
      ensures page >= MAX_PAGES || old(state)[Block(page)] == Unused ==>
        M() == old(M()) && free == old(free) && singles == old(singles)
      ensures SameUnused(old(state), state)
    {
      hide OwnersOk, MixedBlocks, StackOk, Shows, AllFree, NoneFree, WordLeft;
      if page >= MAX_PAGES {
        return;
      }
      var blk := Block(page);
      StateShows(M(), free, blk);
      WordsShow(M(), free);
      if state[blk] == Free {
        FreeAlready(M(), page, free);
        return;
      }
      if state[blk] == Unused {
        return;
      }
      if state[blk] == Used {
        UsedAlready(M(), page, free);
        if |slots| == 0 {
          if |singles| < SINGLE_STACK {
            singles := singles + [page];
          }
        } else {
          SplitUsed(page);
        }
        return;
      }
      ClearBit(page);
      assert page in old(free) ==> free == old(free);
    }

    /** The split of an all-free block in page_mark_used. */
    method SplitFree(page: nat)
      requires MapValid() && page < MAX_PAGES && state[Block(page)] == Free && |slots| > 0
      modifies `state, `slotOf, `bits, `slots, `free
      ensures MapValid() && free == old(free) - {page}
      ensures state == old(state)[Block(page) := Mixed]
    {
      hide OwnersOk, SameElsewhere, BlockShows, MixedBlocks, StackOk, Shows;
      SingletonsProper(Bit(page));
      BlockMeaning(M(), Block(page));
      Acquire(Block(page), {Bit(page)});
      assert {} + {Bit(page)} == {Bit(page)};
      UsedShows(old(M()), M(), page, {}, free);
      free := free - {page};
    }

    /** Store a word in a mixed block and make the block uniform if the word is all ones or all zeros. */
    method WriteBits(blk: nat, w: Word)
      requires MapOk(M()) && blk < MAX_BLOCKS && state[blk] == Mixed
      modifies `state, `slotOf, `bits, `slots
      ensures MapOk(M()) && SameElsewhere(old(M()), M(), blk) && BlockShows(M(), blk, w)
      ensures state == old(state)[blk := state[blk]] && state[blk] != Unused
    {
      hide OwnersOk, BlockShows, MixedBlocks, StackOk;
      WithBitsOk(M(), blk, w);
      bits := bits[slotOf[blk] := w];
      ghost var m := M();
      if w == FULL {
        ReleaseTo(blk, Used);
      } else if w == {} {
        ReleaseTo(blk, Free);
      }
      assert SameElsewhere(old(M()), m, blk) && SameElsewhere(m, M(), blk);
    }

    /** Everything the allocator keeps: one holder per page, right counts, RAM within reach of the scan. */
    ghost predicate Valid()
      reads this
    {
      MapValid() && Partition(P()) && Counted()
    }

    /** The same but that the pages of `lost` have no holder. */
    ghost predicate ValidBut(lost: set<nat>)
      reads this
    {
      MapValid() && Partition(P().(ram := ram - lost)) && Counted()
    }

    ghost predicate Counted()
      reads this
    {
      && Backed(ram, state, highest)
      && total == |ram| && used == |held|
      && |singles| <= SINGLE_STACK && |runs| <= FREE_RUNS && cursor >= LOW
    }

    /** The scan of alloc_from_map: the first run of `n` free pages inside [from, to), or NONE. */
    method ScanRun(n: nat, from: nat, to: nat) returns (start: int)
      requires MapValid() && n > 0
      ensures start == NONE || from <= start
      ensures start == NONE ==> forall s: nat :: from <= s && s + n <= to ==> !(Range(s, n) <= free)
      ensures start != NONE ==> start + n <= to && Range(start, n) <= free
      ensures start != NONE ==> forall s: nat :: from <= s < start ==> !(Range(s, n) <= free)
    {
      hide MapOk, Shows;
      start := from;
      while start + n <= to
        invariant from <= start
        invariant forall s: nat :: from <= s < start ==> !(Range(s, n) <= free)
      {
        var i := 0;
        while i < n
          invariant 0 <= i <= n && forall p: nat :: start <= p < start + i ==> p in free
        {
          var busy := IsUsed(start + i);
          if busy {
            break;
          }
          i := i + 1;
        }
        if i == n {
          return;
        }
        BusyPageBlocks(n, start, start + i, free);
        start := start + i + 1;
      }
      start := NONE;
    }

    /** The marking loop of alloc_from_map. */
    method MarkRange(start: nat, n: nat)
      requires MapValid() && |singles| <= SINGLE_STACK
      modifies `state, `slotOf, `bits, `slots, `singles, `used, `free
      ensures MapValid() && |singles| <= SINGLE_STACK && S() == RunMarked(old(S()), start, n)
      ensures SameUnused(old(state), state)
    {
      hide MapOk, Shows, Marked, SameUnused;
      SameUnusedSelf(state);
      var i := 0;
      while i < n
        invariant 0 <= i <= n && MapValid() && |singles| <= SINGLE_STACK
        invariant S() == RunMarked(old(S()), start, i) && SameUnused(old(state), state)
      {
        ghost var before := state;
        MarkUsed(start + i);
        SameUnusedChain(old(state), before, state);
        used := used + 1;
        i := i + 1;
      }
    }

    /** alloc_from_map: scan from the cursor to the end of RAM, then from LOW up to the cursor. */
    method AllocFromMap(n: nat) returns (start: int)
      requires Valid() && n > 0
      modifies `state, `slotOf, `bits, `slots, `singles, `used, `cursor, `free, `held
      ensures start == NONE ==>
        Valid() && P() == old(P()) && cursor == From(old(cursor), highest) && NoRunFound(n, cursor, highest, free)
      ensures start != NONE ==> start >= LOW && start + n <= MAX_PAGES && Range(start, n) <= old(free)
      ensures start != NONE ==>
        S() == RunMarked(old(S()), start, n) && held == old(held) + Range(start, n) && cursor == start + n
      ensures start != NONE ==>
        (Valid() && Taken(old(P()), P(), start, n) <==> RunFits(old(free), Full(old(S())), start, n))
      ensures start != NONE && n == 1 && Splits(old(free), start) ==>
        NoneTwice(P()) && Miscounted(old(S()), S())
      ensures start != NONE ==> FirstFit(n, From(old(cursor), highest), start, old(free))
    {
      hide MapOk, Shows, Partition, Backed, NoRunFound, Handed, RunFits, RunMarked, Range, FirstFit, Splits;
      start := FindRun(n);
      if start != NONE {
        TakeFound(start, n);
      }
    }

    /** The two scans of alloc_from_map. */
    method FindRun(n: nat) returns (start: int)
      requires Valid() && n > 0
      modifies `cursor
      ensures Valid() && start >= NONE && cursor == From(old(cursor), highest)
      ensures start == NONE ==> NoRunFound(n, cursor, highest, free)
      ensures start != NONE ==> Range(start, n) <= free && FirstFit(n, From(old(cursor), highest), start, free)
    {
      hide MapOk, Shows, Partition, Backed;
      var limit := if highest + 1 > MAX_PAGES then MAX_PAGES else highest + 1;
      if cursor >= limit {
        cursor := LOW;
      }
      start := ScanRun(n, cursor, limit);
      if start == NONE {
        start := ScanRun(n, LOW, cursor);
      }
    }

    /** Marking the run found, moving the cursor behind it. */
    method TakeFound(start: nat, n: nat)
      requires Valid() && n > 0 && Range(start, n) <= free
      modifies `state, `slotOf, `bits, `slots, `singles, `used, `cursor, `free, `held
      ensures start >= LOW && start + n <= MAX_PAGES
      ensures S() == RunMarked(old(S()), start, n) && held == old(held) + Range(start, n)
      ensures Valid() && Taken(old(P()), P(), start, n) <==> RunFits(old(free), Full(old(S())), start, n)
      ensures n == 1 && Splits(old(free), start) ==>
        NoneTwice(P()) && Miscounted(old(S()), S())
      ensures cursor == start + n
    {
      hide MapOk, Shows, Partition, Backed, SameUnused, Range, RunFits, RunClean, RunMarked, Splits;
      ghost var s, q := S(), P();
      LoneUnclean(free, Full(s), start);
      FreeInReach(q, state, highest, start, n);
      RunCleanIff(free, Full(s), start, n);
      TakeFree(q, Range(start, n));
      MarkRange(start, n);
      cursor := start + n;
      RangeCount(held, start, n);
      held := held + Range(start, n);
      BackedSame(ram, old(state), state, highest);
      if RunClean(q.free, Full(s), start, n) {
        CleanMarks(s, start, n);
      } else {
        ghost var y := UncleanMarks(s, start, n);
        if n == 1 && Splits(q.free, start) {
          LoneMarked(s, q, start);
          RangeOne(start);
        }
        if Valid() && Taken(q, P(), start, n) {
          BothHolders(P(), y);
        }
      }
    }

    /** pmm_alloc_pages */
    method AllocPages(n: nat) returns (start: int)
      requires Valid()
      modifies `state, `slotOf, `bits, `slots, `singles, `runs, `used, `cursor, `free, `held
      ensures start >= NONE
      ensures start == NONE ==> Valid() && P() == old(P())
      ensures start == NONE && n == 1 ==> singles == [] && free == {}
      ensures start == NONE && n > 1 ==>
        NoRunFound(n, From(old(cursor), highest), highest, free) && forall i :: 0 <= i < |runs| ==> runs[i].n < n
      ensures n == 1 && old(singles) != [] ==>
        && start == old(singles)[|old(singles)| - 1] && singles == old(singles)[..|old(singles)| - 1]
        && M() == old(M()) && free == old(free) && runs == old(runs) && cursor == old(cursor)
      ensures start != NONE && n > 1 && (forall i :: 0 <= i < |old(runs)| ==> old(runs)[i].n < n) ==>
          Range(start, n) <= old(free)
      ensures start != NONE && Range(start, n) !! old(free) ==> Valid() && Handed(old(P()), P(), start, n)
      ensures start != NONE && !(Range(start, n) !! old(free)) ==>
        && Range(start, n) <= old(free) && S() == RunMarked(old(S()), start, n)
        && runs == old(runs) && held == old(held) + Range(start, n) && cursor == start + n
        && FirstFit(n, From(old(cursor), highest), start, old(free))
        && (Valid() && Taken(old(P()), P(), start, n) <==> RunFits(old(free), Full(old(S())), start, n))
    {
      hide MapOk, Shows, Partition, Backed, RunFits, RunMarked, Range, Handed, Taken, NoRunFound, FirstFit;
      if n == 0 {
        return NONE;
      }
      if n == 1 && |singles| > 0 {
        start := TakeSingle();
        SingleApart(start, free);
        return;
      }
      if n > 1 {
        var i := FitRun(n);
        if i != NONE {
          start := CarveRun(i, n);
          return;
        }
      }
      start := AllocFromMap(n);
      if start == NONE {
        if n == 1 {
          NothingFree(P(), state, highest, cursor);
        }
      } else {
        RangeMeets(start, n, old(free));
      }
    }

    /** The first run on the list that is long enough. */
    method FitRun(n: nat) returns (i: int)
      ensures i == NONE || (0 <= i < |runs| && runs[i].n >= n)
      ensures forall k :: 0 <= k < |runs| && runs[k].n >= n ==> i != NONE && i <= k
    {
      i := 0;
      while i < |runs|
        invariant 0 <= i <= |runs| && forall k :: 0 <= k < i ==> runs[k].n < n
      {
        if runs[i].n >= n {
          return;
        }
        i := i + 1;
      }
      i := NONE;
    }

    /** The single-page stack of pmm_alloc_pages. */
    method TakeSingle() returns (start: nat)
      requires Valid() && |singles| > 0
      modifies `singles, `used, `held
      ensures Valid() && Handed(old(P()), P(), start, 1) && start !in free
      ensures start == old(singles)[|old(singles)| - 1] && singles == old(singles)[..|old(singles)| - 1]
    {
      hide MapOk, Shows, Partition, Backed;
      PopSingle(P());
      start := singles[|singles| - 1];
      StackedNotFree(P(), start);
      singles := singles[..|singles| - 1];
      used := used + 1;
      held := held + {start};
      assert Range(start, 1) == {start};
    }

    /** The run list of pmm_alloc_pages: first fit, the rest kept, a lone page moved to the stack. */
    method CarveRun(i: nat, n: nat) returns (start: nat)
      requires Valid() && i < |runs| && 0 < n <= runs[i].n
      modifies `singles, `runs, `used, `held
      ensures Valid() && Handed(old(P()), P(), start, n) && Range(start, n) !! free
    {
      hide MapOk, Shows, Partition, Backed, Range, WithoutRun;
      ghost var q := P();
      CarvedOk(q, i, n);
      start := runs[i].start;
      var left := runs[i].n - n;
      RangeCount(held, start, n);
      if left == 0 {
        runs := WithoutRun(runs, i);
      } else if left == 1 && |singles| < SINGLE_STACK {
        singles := singles + [start + n];
        runs := WithoutRun(runs, i);
      } else {
        runs := runs[i := Run(start + n, left)];
      }
      used := used + n;
      held := held + Range(start, n);
      assert P() == Carved(q, i, n);
    }

    /** pmm_free_pages: the pages that no client holds. */
    method FreePages() returns (r: nat)
      requires Valid()
      ensures r == |ram - held|
      ensures forall p: nat :: p in ram - held <==> p in free || p in singles || OnRun(runs, p)
    {
      Reclaimable(P());
      assert ram == held + (ram - held);
      r := if total > used then total - used else 0;
    }

    /** pmm_page_on_freelist */
    method OnFreelist(page: nat) returns (r: bool)
      ensures r <==> page in singles || OnRun(runs, page)
    {
      var i := 0;
      while i < |singles|
        invariant 0 <= i <= |singles| && page !in singles[..i]
      {
        if singles[i] == page {
          return true;
        }
        i := i + 1;
      }
      i := 0;
      while i < |runs|
        invariant 0 <= i <= |runs| && forall k :: 0 <= k < i ==> !InRun(runs[k], page)
      {
        if page >= runs[i].start && page < runs[i].start + runs[i].n {
          assert InRun(runs[i], page);
          return true;
        }
        i := i + 1;
      }
      r := false;
    }

    /** Some page of the range is beyond the map or already on a free list: the call is ignored. */
    ghost predicate Refused(p: nat, n: nat)
      reads this
    {
      n == 0 || exists x: nat :: x in Range(p, n) && (x >= MAX_PAGES || x in singles || OnRun(runs, x))
    }

    /** The range goes on a free list: a single page on the stack, a run of used pages on the run list. */
    ghost predicate Listed(p: nat, n: nat)
      reads this
    {
      if n == 1 then |singles| < SINGLE_STACK && p !in free else |runs| < FREE_RUNS && Range(p, n) !! free
    }

    /**
     pmm_free_n on RAM pages.  A refused call changes nothing; any other takes the held pages of the
     range back, and loses exactly those that are in an all-used block when no word is left and the
     stack is full.  Freeing pages nobody holds changes nothing.
     */
    method FreeN(p: nat, n: nat)
      requires Valid() && (forall x: nat :: x in Range(p, n) && x < MAX_PAGES ==> x in ram)
      modifies `state, `slotOf, `bits, `slots, `singles, `runs, `used, `free, `held
      ensures old(Refused(p, n)) ==> Valid() && P() == old(P()) && M() == old(M())
      ensures Range(p, n) !! old(held) ==> Valid() && P() == old(P()) && M() == old(M())
      ensures !old(Refused(p, n)) && old(Listed(p, n)) ==>
        && Valid() && held == old(held) - Range(p, n) && free == old(free) && M() == old(M())
        && (if n == 1 then singles == old(singles) + [p] && runs == old(runs)
            else singles == old(singles) && runs == old(runs) + [Run(p, n)])
      ensures !old(Refused(p, n)) && !old(Listed(p, n)) ==>
        && held == old(held) - Range(p, n) && runs == old(runs) && S() == RunPutBack(old(S()), p, n)
        && ValidBut(Lost(old(S()), p, n)) && (Valid() <==> Lost(old(S()), p, n) == {})
    {
      hide MapOk, Shows, Partition, Backed, RunPutBack, Lost, Listed, Range, OnRun;
      if n == 0 {
        EmptyRange(p);
        return;
      }
      RangeHas(p, n, p);
      if p >= MAX_PAGES {
        return;
      }
      var refused := AnyRefused(p, n);
      if !refused {
        RangeHas(p, n, p + n - 1);
        HeldOrFree(P(), p, n);
        FreeChecked(p, n);
      }
    }

    /** pmm_free_n after its double-free test. */
    method FreeChecked(p: nat, n: nat)
      requires Valid() && n > 0 && p + n <= MAX_PAGES && AllLoose(P(), p, p + n)
      modifies `state, `slotOf, `bits, `slots, `singles, `runs, `used, `free, `held
      ensures held == old(held) - Range(p, n)
      ensures Range(p, n) !! old(held) ==> Valid() && P() == old(P()) && M() == old(M())
      ensures old(Listed(p, n)) ==>
        && Valid() && free == old(free) && M() == old(M())
        && (if n == 1 then singles == old(singles) + [p] && runs == old(runs)
            else singles == old(singles) && runs == old(runs) + [Run(p, n)])
      ensures !old(Listed(p, n)) ==>
        && runs == old(runs) && S() == RunPutBack(old(S()), p, n)
        && ValidBut(Lost(old(S()), p, n)) && (Valid() <==> Lost(old(S()), p, n) == {})
    {
      hide MapOk, Shows, Partition, Backed, RunPutBack, Lost, Range, AllLoose;
      RangeHas(p, n, p);
      AllLooseAre(P(), p, n);
      if n == 1 && |singles| < SINGLE_STACK {
        var busy := IsUsed(p);
        if busy {
          StackPage(p);
          return;
        }
      }
      if n > 1 && |runs| < FREE_RUNS {
        var busy := AllUsed(p, n);
        if busy {
          KeepRun(p, n);
          return;
        }
      }
      if Range(p, n) <= free {
        FreeLosesNone(S(), p, n);
      }
      ReturnToMap(p, n);
    }

    /** Enough words, or enough room on the single stack, to take `n` pages back without a loss. */
    ghost predicate RoomFor(n: nat)
      reads this
    {
      |slots| >= 2 || (n <= 1 && |slots| >= 1) || |singles| + n <= SINGLE_STACK
    }

    lemma RoomSuffices(p: nat, n: nat)
      requires MapValid() && RoomFor(n)
      ensures Lost(S(), p, n) == {}
    {
      hide MapOk, Shows, Lost, RunPutBack;
      WordsShow(M(), free);
      if |singles| + n <= SINGLE_STACK {
        RoomLosesNone(S(), p, n);
      } else {
        WordsLoseNone(S(), p, n, n);
      }
    }

    /** The double-free test at the start of pmm_free_n. */
    method AnyRefused(p: nat, n: nat) returns (r: bool)
      requires n > 0
      ensures r <==> Refused(p, n)
    {
      hide Range, OnRun;
      var i := 0;
      while i < n
        invariant 0 <= i <= n
        invariant forall x: nat :: p <= x < p + i ==> x < MAX_PAGES && x !in singles && !OnRun(runs, x)
      {
        var listed := OnFreelist(p + i);
        if p + i >= MAX_PAGES || listed {
          assert p + i in Range(p, n) by { RangeHas(p, n, p + i); }
          return true;
        }
        i := i + 1;
      }
      r := false;
      forall x: nat | x in Range(p, n) ensures x < MAX_PAGES && x !in singles && !OnRun(runs, x) {
        RangeOnly(p, n, x);
        ghost var listed := OnRun(runs, x);
      }
    }

    /** The all-used test of pmm_free_n. */
    method AllUsed(p: nat, n: nat) returns (r: bool)
      requires MapValid()
      ensures r <==> Range(p, n) !! free && (n == 0 || p + n <= MAX_PAGES)
    {
      hide MapOk, Shows;
      var i := 0;
      while i < n
        invariant 0 <= i <= n && (i == 0 || p + i <= MAX_PAGES)
        invariant forall x: nat :: p <= x < p + i ==> x !in free
      {
        var busy := IsUsed(p + i);
        if p + i >= MAX_PAGES || !busy {
          assert p + i in Range(p, n);
          return false;
        }
        i := i + 1;
      }
      r := true;
    }

    /** A single page goes on the stack. */
    method StackPage(p: nat)
      requires Valid() && p in held && |singles| < SINGLE_STACK
      modifies `singles, `used, `held
      ensures Valid() && held == old(held) - Range(p, 1) && singles == old(singles) + [p]
    {
      hide MapOk, Shows, Partition, Backed;
      PushSingle(P(), p);
      singles := singles + [p];
      if used > 0 {
        used := used - 1;
      }
      held := held - {p};
      assert Range(p, 1) == {p};
    }

    /** One page of the last loop of pmm_free_n. */
    method ReturnPage(p: nat, ghost lost: set<nat>)
      requires ValidBut(lost) && Loose(P(), p) && p !in lost
      modifies `state, `slotOf, `bits, `slots, `singles, `used, `free, `held
      ensures S() == PutBack(old(S()), p) && held == old(held) - {p}
      ensures ValidBut(if Loses(old(S()), p) then lost + {p} else lost)
      ensures p in old(free) ==> M() == old(M())
    {
      hide MapOk, Shows, Partition, SameUnused, Backed, PutBack, Loses;
      var busy := IsUsed(p);
      PutBackUsed(S(), p);
      if !busy {
        assert held - {p} == held;
        return;
      }
      ReturnedPool(P().(ram := ram - lost), S(), p);
      HeldSplit(held, p);
      BackedAt(ram, state, highest, p);
      MarkFree(p);
      if used > 0 {
        used := used - 1;
      }
      held := held - {p};
      BackedSame(ram, old(state), state, highest);
      assert ram - (lost + {p}) == ram - lost - {p};
    }

    /** The last loop of pmm_free_n: the held pages of the range go back into the map. */
    method ReturnToMap(p: nat, n: nat)
      requires Valid() && p + n <= MAX_PAGES && AllLoose(P(), p, p + n)
      modifies `state, `slotOf, `bits, `slots, `singles, `used, `free, `held
      ensures S() == RunPutBack(old(S()), p, n) && held == old(held) - Range(p, n)
      ensures ValidBut(Lost(old(S()), p, n)) && (Valid() <==> Lost(old(S()), p, n) == {})
      ensures Range(p, n) <= old(free) ==> M() == old(M())
    {
      hide MapOk, Shows, Partition, Counted, AllLoose, Range, RunPutBack, Lost;
      ghost var s := S();
      NothingLost(P());
      NothingBack(s, p);
      RangeEmpty(held, p);
      var i := 0;
      while i < n
        invariant 0 <= i <= n && S() == RunPutBack(s, p, i) && held == old(held) - Range(p, i)
        invariant ValidBut(Lost(s, p, i)) && AllLoose(P(), p + i, p + n)
        invariant Range(p, n) <= old(free) ==> M() == old(M()) && free == old(free)
      {
        RangeHas(p, n, p + i);
        RangeGrows(old(held), p, i);
        ReturnNext(p, i, n, s);
        i := i + 1;
      }
      NothingLost(P());
      if Lost(s, p, n) != {} {
        ghost var x :| x in Lost(s, p, n);
        LostHasNone(old(P()), P(), Lost(s, p, n), p, n, x);
      }
    }

    method ReturnNext(p: nat, i: nat, n: nat, ghost s: Shelf)
      requires i < n && p + n <= MAX_PAGES && S() == RunPutBack(s, p, i)
      requires ValidBut(Lost(s, p, i)) && AllLoose(P(), p + i, p + n)
      modifies `state, `slotOf, `bits, `slots, `singles, `used, `free, `held
      ensures S() == RunPutBack(s, p, i + 1) && held == old(held) - {p + i}
      ensures ValidBut(Lost(s, p, i + 1)) && AllLoose(P(), p + i + 1, p + n)
      ensures p + i in old(free) ==> M() == old(M()) && free == old(free)
    {
      hide MapOk, Shows, Partition, Counted, AllLoose, Range, PutBack, Loses;
      ghost var q := P();
      LooseNext(q, p + i, p + n);
      NotLost(s, p, i);
      PutBackOne(S(), p + i);
      if p + i in free {
        PutBackFree(S(), p + i);
      }
      ReturnPage(p + i, Lost(s, p, i));
      LooseStep(q, P(), p + i, p + n);
    }

    /** A run of held pages goes on the run list. */
    method KeepRun(p: nat, n: nat)
      requires Valid() && n > 0 && Range(p, n) <= held && |runs| < FREE_RUNS
      modifies `runs, `used, `held
      ensures Valid() && held == old(held) - Range(p, n) && runs == old(runs) + [Run(p, n)]
    {
      hide MapOk, Shows, Partition, Backed;
      PushRun(P(), p, n);
      runs := runs + [Run(p, n)];
      HeldCount(held, p, n);
      used := if used > n then used - n else 0;
      held := held - Range(p, n);
    }

    /** mark_usable_range: the pages [start, end) below the map's end become free. */
    method UsableRange(start: nat, end: nat)
      requires MapValid() && |singles| <= SINGLE_STACK
      requires forall x: nat :: x in free ==> x < start && x <= highest
      modifies `state, `slotOf, `bits, `slots, `singles, `total, `highest, `free
      ensures MapValid() && |singles| <= SINGLE_STACK
      ensures |old(slots)| >= 2 ==>
        && free == old(free) + Range(start, Span(start, end)) && total == old(total) + Span(start, end)
        && |slots| + 2 >= |old(slots)| && forall x: nat :: x in free ==> x <= highest
    {
      hide MapOk, Shows, MixedOf, Block, Range, Bit, Grown;
      ghost var enough, g := |slots| >= 2, Growth(free, total, start);
      WordsShow(M(), free);
      GrownStart(free, total, highest, start);
      var p := start;
      var stop := if end > MAX_PAGES then MAX_PAGES else end;
      while p < stop
        invariant start <= p && (p <= stop || p == start) && MapValid() && |singles| <= SINGLE_STACK
        invariant enough ==> Growing(g, p)
      {
        if Bit(p) == 0 && p + PER_BLOCK <= stop {
          AddBlock(g, p);
          p := p + PER_BLOCK;
        } else {
          AddPage(g, p);
          p := p + 1;
        }
      }
      if enough {
        GrownEnd(free, g.free, total, g.total, highest, start, p);
        WordsShow(M(), free);
        WordsKept(g.free, free, start, p - start);
      }
    }

    /** [g.start, p) has been added to what was there when the range began. */
    ghost predicate Growing(g: Growth, p: nat)
      reads this
    {
      g.start <= p && Grown(free, g.free, total, g.total, highest, g.start, p)
    }

    method AddBlock(ghost g: Growth, p: nat)
      requires MapValid() && Bit(p) == 0 && p + PER_BLOCK <= MAX_PAGES
      modifies `state, `slotOf, `slots, `total, `highest, `free
      ensures MapValid() && (old(Growing(g, p)) ==> Growing(g, p + PER_BLOCK))
    {
      hide MapOk, Shows, Block, Range, Grown;
      FreeWholeBlock(p);
      total := total + PER_BLOCK;
      highest := p + PER_BLOCK - 1;
      if old(Growing(g, p)) {
        GrownStep(old(free), g.free, old(total), g.total, old(highest), highest, g.start, p, PER_BLOCK);
      }
    }

    method AddPage(ghost g: Growth, p: nat)
      requires MapValid() && p < MAX_PAGES && |singles| <= SINGLE_STACK
      modifies `state, `slotOf, `bits, `slots, `singles, `total, `highest, `free
      ensures MapValid() && |singles| <= SINGLE_STACK
      ensures |MixedOf(g.free)| + 2 <= MAX_MIXED && old(Growing(g, p)) ==> Growing(g, p + 1)
    {
      hide MapOk, Shows, MixedOf, WordLeft, Block, Range, Grown;
      ghost var enough := |MixedOf(g.free)| + 2 <= MAX_MIXED && Growing(g, p);
      if enough {
        GrownEnd(free, g.free, total, g.total, highest, g.start, p);
        if Block(p) !in MixedOf(free) {
          WordStays(g.free, free, g.start, p - g.start);
        }
      }
      FreeOnePage(p);
      total := total + 1;
      if p > highest {
        highest := p;
      }
      if enough {
        RangeOne(p);
        GrownStep(old(free), g.free, old(total), g.total, old(highest), highest, g.start, p, 1);
      }
    }

    /** The whole-block case of mark_usable_range. */
    method FreeWholeBlock(p: nat)
      requires MapValid() && Bit(p) == 0 && p + PER_BLOCK <= MAX_PAGES
      modifies `state, `slotOf, `slots, `free
      ensures MapValid() && |state| == MAX_BLOCKS
      ensures free == old(free) + Range(p, PER_BLOCK)
    {
      hide OwnersOk, StackOk, SameElsewhere, BlockShows, MixedBlocks, Shows;
      var blk := Block(p);
      BlockMeaning(M(), blk);
      ReleaseTo(blk, Free);
      FreeBlockShows(old(M()), M(), blk, free);
      assert blk * PER_BLOCK == p;
      free := free + Range(p, PER_BLOCK);
    }

    /** The single-page case of mark_usable_range; with no word the whole block is claimed. */
    method FreeOnePage(p: nat)
      requires MapValid() && p < MAX_PAGES && |singles| <= SINGLE_STACK
      modifies `state, `slotOf, `bits, `slots, `singles, `free
      ensures MapValid() && |state| == MAX_BLOCKS && |singles| <= SINGLE_STACK
      ensures WordLeft(old(free)) || Block(p) in MixedOf(old(free)) ==> free == old(free) + {p}
    {
      hide OwnersOk, StackOk, SameElsewhere, BlockShows, MixedBlocks, Shows, MixedOf, WordLeft, NoneFree;
      var blk := Block(p);
      WordsShow(M(), free);
      MixedState(M(), blk);
      BlockMeaning(M(), blk);
      match state[blk]
      case Unused =>
        if |slots| == 0 {
          ReleaseTo(blk, Free);
          FreeBlockShows(old(M()), M(), blk, free);
          free := free + Range(blk * PER_BLOCK, PER_BLOCK);
        } else {
          SplitUsed(p);
        }
      case Used =>
        MarkFree(p);
      case Mixed =>
        ClearBit(p);
      case Free =>
        FreeAlready(M(), p, free);
    }

    /** A reserve pass of pmm_init: pages of [start, end) that are free leave the free set and the total. */
    method Reserve(start: nat, end: nat)
      requires MapValid() && |singles| <= SINGLE_STACK
      modifies `state, `slotOf, `bits, `slots, `singles, `used, `total, `free
      ensures MapValid() && |singles| <= SINGLE_STACK
      ensures |old(slots)| >= 2 && old(total == |free|) ==>
        free == old(free) - Range(start, Span(start, end)) && total == |free| && |slots| + 2 >= |old(slots)|
    {
      hide MapOk, Shows, MixedOf, WordLeft, MixedBlocks, Block, Range, Rest;
      ghost var enough, free0 := |slots| >= 2 && total == |free|, free;
      WordsShow(M(), free);
      RestStart(free, start);
      var p := start;
      while p < end && p < MAX_PAGES
        invariant start <= p && ((p <= end && p <= MAX_PAGES) || p == start) && MapValid() && |singles| <= SINGLE_STACK
        invariant enough ==> free == Rest(free0, start, p - start) && total == |free|
      {
        ReservePage(p, start, free0, enough);
        p := p + 1;
      }
      if enough {
        WordsShow(M(), free);
        RestIs(free0, start, p - start);
        WordsKept(free0, free, start, p - start);
      }
    }

    method ReservePage(p: nat, ghost start: nat, ghost free0: set<nat>, ghost enough: bool)
      requires MapValid() && |singles| <= SINGLE_STACK && start <= p
      requires enough ==> free == Rest(free0, start, p - start) && total == |free| && |MixedOf(free0)| + 2 <= MAX_MIXED
      modifies `state, `slotOf, `bits, `slots, `singles, `used, `total, `free
      ensures MapValid() && |singles| <= SINGLE_STACK
      ensures enough ==> free == Rest(free0, start, p + 1 - start) && total == |free|
    {
      hide MapOk, Shows, MixedOf, Range, Marked, Rest;
      RestStep(free0, start, p - start);
      var busy := IsUsed(p);
      if !busy {
        if enough {
          RestIs(free0, start, p - start);
          MarkedFits(S(), free0, start, p);
          HeldSplit(free, p);
        }
        MarkUsed(p);
        if total > 0 {
          total := total - 1;
        }
      }
    }

    /**
     pmm_init over a memory map with sorted, disjoint usable ranges: RAM is exactly the usable
     pages that neither the low megabyte nor a kernel, loader or framebuffer entry reserves.
     */
    constructor (entries: seq<MmapEntry>)
      requires |entries| <= MMAP_MAX && SortedUsable(entries)
      ensures Valid() && held == {} && singles == [] && runs == [] && cursor == LOW
      ensures ram == UsableSet(entries, |entries|) - Range(0, LOW) - ReservedSet(entries, |entries|)
      ensures AllUnwrapped(entries) ==> forall p: nat :: p in ram <==> IsRam(entries, p)
    {
      state := seq(MAX_BLOCKS, _ => Unused);
      slotOf := seq(MAX_BLOCKS, _ => 0);
      bits := seq(MAX_MIXED, _ => {});
      slots := seq(MAX_MIXED, i => i);
      total, used, highest, cursor := 0, 0, 0, LOW;
      singles, runs := [], [];
      ram, held, free := {}, {}, {};
      new;
      FreshMap(M());
      Populate(entries);
      RamAll(entries, ram);
    }

    /** pmm_init after the tables have been cleared. */
    method Populate(entries: seq<MmapEntry>)
      requires MapValid() && free == {} && total == 0 && highest == 0 && singles == [] && |slots| == MAX_MIXED
      requires |entries| <= MMAP_MAX && SortedUsable(entries)
      modifies this
      ensures Valid() && held == {} && singles == [] && runs == [] && cursor == LOW
      ensures ram == UsableSet(entries, |entries|) - Range(0, LOW) - ReservedSet(entries, |entries|)
    {
      hide MapOk, Shows, Range, UsableSet, ReservedSet, SortedUsable, Partition, Counted;
      ClaimRam(entries);
      ClearLists();
    }

    /** The end of pmm_init: nothing is used, and whatever a spill left on the lists is dropped. */
    method ClearLists()
      requires MapValid() && total == |free| && forall x: nat :: x in free ==> LOW <= x <= highest
      modifies `used, `singles, `runs, `cursor, `ram, `held
      ensures Valid() && held == {} && singles == [] && runs == [] && cursor == LOW && ram == free
    {
      hide MapOk, Shows, Partition, Backed;
      FreshPool(Pool(free, {}, free, [], []), M(), highest);
      used := 0;
      singles := [];
      runs := [];
      cursor := LOW;
      ram, held := free, {};
    }

    /** The usable ranges, then the reserve passes of pmm_init. */
    method ClaimRam(entries: seq<MmapEntry>)
      requires MapValid() && free == {} && total == 0 && highest == 0 && singles == [] && |slots| == MAX_MIXED
      requires |entries| <= MMAP_MAX && SortedUsable(entries)
      modifies `state, `slotOf, `bits, `slots, `singles, `used, `total, `highest, `free
      ensures MapValid() && |singles| <= SINGLE_STACK && total == |free|
      ensures free == UsableSet(entries, |entries|) - Range(0, LOW) - ReservedSet(entries, |entries|)
      ensures forall x: nat :: x in free ==> LOW <= x <= highest
    {
      hide MapOk, Shows, Range, SortedUsable, UsableSet, ReservedSet;
      AddUsable(entries);
      Reserve(0, LOW);
      assert Span(0, LOW) == LOW;
      ReserveEntries(entries);
    }

    method AddUsable(entries: seq<MmapEntry>)
      requires MapValid() && free == {} && total == 0 && highest == 0 && singles == []
      requires |slots| == MAX_MIXED && |entries| <= MMAP_MAX && SortedUsable(entries)
      modifies `state, `slotOf, `bits, `slots, `singles, `total, `highest, `free
      ensures MapValid() && |singles| <= SINGLE_STACK && total == |free| && free == UsableSet(entries, |entries|)
      ensures |slots| + 2 * |entries| >= MAX_MIXED && (forall x: nat :: x in free ==> x <= highest)
    {
      hide MapOk, Shows, Range;
      var k := 0;
      while k < |entries|
        invariant 0 <= k <= |entries| && MapValid() && |singles| <= SINGLE_STACK
        invariant free == UsableSet(entries, k) && total == |free| && |slots| + 2 * k >= MAX_MIXED
        invariant forall x: nat :: x in free ==> x <= highest
      {
        if entries[k].kind == Usable {
          UsableBelow(entries, k, k);
          UsableRange(FirstWhole(entries[k]), EndWhole(entries[k]));
        }
        k := k + 1;
      }
    }

    method ReserveEntries(entries: seq<MmapEntry>)
      requires MapValid() && |singles| <= SINGLE_STACK && total == |free| && |slots| >= 2 + 2 * |entries|
      modifies `state, `slotOf, `bits, `slots, `singles, `used, `total, `free
      ensures MapValid() && |singles| <= SINGLE_STACK && total == |free|
      ensures free == old(free) - ReservedSet(entries, |entries|)
    {
      hide MapOk, Shows, Range;
      var k := 0;
      while k < |entries|
        invariant 0 <= k <= |entries| && MapValid() && |singles| <= SINGLE_STACK && total == |free|
        invariant free == old(free) - ReservedSet(entries, k) && |slots| >= 2 + 2 * (|entries| - k)
      {
        if Reserves(entries[k]) {
          Reserve(FirstTouched(entries[k]), EndTouched(entries[k]));
        }
        k := k + 1;
      }
    }
  }

  // ---- the boot memory map ----

  const MMAP_MAX: nat := 128
  const PAGE_BYTES: nat := 4096
  const U64: nat := 0x1_0000_0000_0000_0000

  datatype MmapKind = Usable | Reserved | AcpiReclaim | AcpiNvs | Bad | Bootloader | Kernel | Framebuffer

  datatype MmapEntry = MmapEntry(base: nat, length: nat, kind: MmapKind)

  /** The pages that lie wholly inside a usable entry, as the 64-bit sums have them. */
  function FirstWhole(e: MmapEntry): nat {
    (e.base + PAGE_BYTES - 1) % U64 / PAGE_BYTES
  }

  function EndWhole(e: MmapEntry): nat {
    (e.base + e.length) % U64 / PAGE_BYTES
  }

  /** The pages that a reserved entry touches at all, as the 64-bit sums have them. */
  function FirstTouched(e: MmapEntry): nat {
    e.base / PAGE_BYTES
  }

  function EndTouched(e: MmapEntry): nat {
    (e.base + e.length + PAGE_BYTES - 1) % U64 / PAGE_BYTES
  }

  predicate WhollyIn(e: MmapEntry, p: nat) {
    e.base <= p * PAGE_BYTES && (p + 1) * PAGE_BYTES <= e.base + e.length
  }

  predicate Touches(e: MmapEntry, p: nat) {
    p * PAGE_BYTES < e.base + e.length && e.base < (p + 1) * PAGE_BYTES
  }

  /** The sums name the pages wholly inside an entry exactly when they do not wrap, or it makes no difference
      below the map's end. */
  lemma UsableExactIff(e: MmapEntry)
    requires e.base < U64 && e.length < U64
    ensures (forall p: nat :: p < MAX_PAGES ==> (FirstWhole(e) <= p < EndWhole(e) <==> WhollyIn(e, p))) <==>
      if e.base + PAGE_BYTES - 1 >= U64 then EndWhole(e) == 0
      else if e.base + e.length >= U64 then FirstWhole(e) >= MAX_PAGES || EndWhole(e) >= MAX_PAGES
      else true
  {
    if e.base + PAGE_BYTES - 1 >= U64 {
      assert FirstWhole(e) == 0;
      assert forall p: nat :: p < MAX_PAGES ==> !WhollyIn(e, p);
      if EndWhole(e) != 0 {
        assert !WhollyIn(e, 0);
      }
    } else if e.base + e.length >= U64 {
      assert forall p: nat :: p < MAX_PAGES ==> (WhollyIn(e, p) <==> FirstWhole(e) <= p);
      if FirstWhole(e) < MAX_PAGES && EndWhole(e) < MAX_PAGES {
        assert WhollyIn(e, MAX_PAGES - 1);
      }
    }
  }

  lemma ReservedExactIff(e: MmapEntry)
    requires e.base < U64 && e.length < U64
    ensures (forall p: nat :: p < MAX_PAGES ==> (FirstTouched(e) <= p < EndTouched(e) <==> Touches(e, p))) <==>
      || e.base + e.length + PAGE_BYTES - 1 < U64
      || FirstTouched(e) >= MAX_PAGES || EndTouched(e) >= MAX_PAGES
  {
    if e.base + e.length + PAGE_BYTES - 1 >= U64 {
      assert forall p: nat :: p < MAX_PAGES ==> (Touches(e, p) <==> FirstTouched(e) <= p);
      if FirstTouched(e) < MAX_PAGES && EndTouched(e) < MAX_PAGES {
        assert Touches(e, MAX_PAGES - 1);
      }
    }
  }

  /** An entry of 2^64 - 512 KiB at 1 MiB wraps and gives no page at all; an empty one at the last byte gives all. */
  lemma UsableWraps()
    ensures var e := MmapEntry(0x10_0000, U64 - 0x8_0000, Usable);
            FirstWhole(e) == 0x100 && EndWhole(e) == 0x80 && WhollyIn(e, 0x100)
    ensures var e := MmapEntry(U64 - 1, 0, Usable);
            FirstWhole(e) == 0 && EndWhole(e) >= MAX_PAGES && !WhollyIn(e, 0)
  {
  }

  predicate Reserves(e: MmapEntry) {
    e.kind == Kernel || e.kind == Bootloader || e.kind == Framebuffer
  }

  /** The pages of a usable entry come after those of all usable entries before it. */
  ghost predicate SortedUsable(entries: seq<MmapEntry>) {
    forall i, j :: 0 <= i < j < |entries| && entries[i].kind == Usable && entries[j].kind == Usable ==>
      PagesBefore(entries[i], entries[j])
  }

  predicate PagesBefore(e: MmapEntry, f: MmapEntry) {
    var n := Span(FirstWhole(e), EndWhole(e));
    n == 0 || FirstWhole(e) + n <= FirstWhole(f)
  }

  /** Entries in ascending order without overlap, whose sums do not wrap, are sorted so. */
  lemma AscendingSorted(entries: seq<MmapEntry>)
    requires forall i :: 0 <= i < |entries| ==> entries[i].base + entries[i].length + PAGE_BYTES <= U64
    requires forall i, j :: 0 <= i < j < |entries| && entries[i].kind == Usable && entries[j].kind == Usable ==>
      entries[i].base + entries[i].length <= entries[j].base
    ensures SortedUsable(entries)
  {
    forall i, j | 0 <= i < j < |entries| && entries[i].kind == Usable && entries[j].kind == Usable
      ensures PagesBefore(entries[i], entries[j])
    {
      assert EndWhole(entries[i]) <= FirstWhole(entries[j]);
    }
  }

  ghost function UsableSet(entries: seq<MmapEntry>, k: nat): set<nat>
    requires k <= |entries|
  {
    if k == 0 then {}
    else if entries[k - 1].kind != Usable then UsableSet(entries, k - 1)
    else UsableSet(entries, k - 1) +
         Range(FirstWhole(entries[k - 1]), Span(FirstWhole(entries[k - 1]), EndWhole(entries[k - 1])))
  }

  ghost function ReservedSet(entries: seq<MmapEntry>, k: nat): set<nat>
    requires k <= |entries|
  {
    if k == 0 then {}
    else if !Reserves(entries[k - 1]) then ReservedSet(entries, k - 1)
    else ReservedSet(entries, k - 1) +
         Range(FirstTouched(entries[k - 1]), Span(FirstTouched(entries[k - 1]), EndTouched(entries[k - 1])))
  }

  /** The sums over an entry do not wrap. */
  predicate Unwrapped(e: MmapEntry) {
    e.base + e.length + PAGE_BYTES <= U64
  }

  predicate AllUnwrapped(entries: seq<MmapEntry>) {
    forall i :: 0 <= i < |entries| ==> Unwrapped(entries[i])
  }

  lemma {:induction false} UsableSetIs(entries: seq<MmapEntry>, k: nat, p: nat)
    requires k <= |entries| && forall i :: 0 <= i < k ==> Unwrapped(entries[i])
    ensures p in UsableSet(entries, k) <==>
      p < MAX_PAGES && exists i :: 0 <= i < k && entries[i].kind == Usable && WhollyIn(entries[i], p)
  {
    hide Range, WhollyIn;
    if k > 0 {
      UsableSetIs(entries, k - 1, p);
      WholePage(entries[k - 1], p);
    }
  }

  lemma WholePage(e: MmapEntry, p: nat)
    requires Unwrapped(e)
    ensures p in Range(FirstWhole(e), Span(FirstWhole(e), EndWhole(e))) <==> p < MAX_PAGES && WhollyIn(e, p)
    ensures p in Range(FirstTouched(e), Span(FirstTouched(e), EndTouched(e))) <==> p < MAX_PAGES && Touches(e, p)
  {
    assert FirstWhole(e) <= p < EndWhole(e) <==> WhollyIn(e, p);
    assert FirstTouched(e) <= p < EndTouched(e) <==> Touches(e, p);
    hide FirstWhole, EndWhole, FirstTouched, EndTouched, WhollyIn, Touches, Range;
  }

  /** A kernel, loader or framebuffer entry touches the page. */
  predicate Withheld(e: MmapEntry, p: nat) {
    e.kind in {Kernel, Bootloader, Framebuffer} && Touches(e, p)
  }

  lemma {:induction false} ReservedSetIs(entries: seq<MmapEntry>, k: nat, p: nat)
    requires k <= |entries| && forall i :: 0 <= i < k ==> Unwrapped(entries[i])
    ensures p in ReservedSet(entries, k) <==>
      p < MAX_PAGES && exists i :: 0 <= i < k && Withheld(entries[i], p)
  {
    hide Range, Touches;
    if k > 0 {
      ReservedSetIs(entries, k - 1, p);
      WholePage(entries[k - 1], p);
    }
  }

  /** A page of RAM, as a memory map has it: wholly in a usable entry, above the low megabyte, and touched by no
      kernel, loader or framebuffer entry. */
  predicate IsRam(entries: seq<MmapEntry>, p: nat) {
    && 0x100 <= p < MAX_PAGES
    && (exists i :: 0 <= i < |entries| && entries[i].kind == Usable && WhollyIn(entries[i], p))
    && forall i :: 0 <= i < |entries| ==> !Withheld(entries[i], p)
  }

  lemma RamAll(entries: seq<MmapEntry>, ram: set<nat>)
    requires ram == UsableSet(entries, |entries|) - Range(0, LOW) - ReservedSet(entries, |entries|)
    ensures AllUnwrapped(entries) ==> forall p: nat :: p in ram <==> IsRam(entries, p)
  {
    hide UsableSet, ReservedSet, Range, IsRam, AllUnwrapped;
    if AllUnwrapped(entries) {
      forall p: nat ensures p in ram <==> IsRam(entries, p) {
        RamIs(entries, p);
      }
    }
  }

  lemma RamIs(entries: seq<MmapEntry>, p: nat)
    requires AllUnwrapped(entries)
    ensures p in UsableSet(entries, |entries|) - Range(0, LOW) - ReservedSet(entries, |entries|) <==> IsRam(entries, p)
  {
    hide UsableSet, ReservedSet, WhollyIn, Touches, Unwrapped;
    UsableSetIs(entries, |entries|, p);
    ReservedSetIs(entries, |entries|, p);
  }

  /** Usable pages of earlier entries lie below a later usable entry. */
  lemma {:induction false} UsableBelow(entries: seq<MmapEntry>, k: nat, j: nat)
    requires k <= j < |entries| && SortedUsable(entries) && entries[j].kind == Usable
    ensures forall x: nat :: x in UsableSet(entries, k) ==> x < FirstWhole(entries[j])
  {
    hide Range, Span, FirstWhole, EndWhole;
    if k > 0 {
      UsableBelow(entries, k - 1, j);
      if entries[k - 1].kind == Usable {
        assert PagesBefore(entries[k - 1], entries[j]);
      }
    }
  }

  lemma FreshMap(m: Map)
    requires m.state == seq(MAX_BLOCKS, _ => Unused) && m.slotOf == seq(MAX_BLOCKS, _ => 0)
    requires |m.bits| == MAX_MIXED && m.slots == seq(MAX_MIXED, i => i)
    ensures MapOk(m) && Shows(m, {})
  {
    assert MixedBlocks(m) == {};
    forall s | 0 <= s < MAX_MIXED ensures s in m.slots {
      assert m.slots[s] == s;
    }
  }

  lemma FreshPool(q: Pool, m: Map, highest: nat)
    requires MapOk(m) && Shows(m, q.free) && q.ram == q.free && q.held == {} && q.singles == [] && q.runs == []
    requires forall x: nat :: x in q.free ==> LOW <= x <= highest
    ensures Partition(q) && Backed(q.ram, m.state, highest)
  {
    forall p: nat ensures OneHolder(q, p) {
    }
    forall p: nat | p in q.ram ensures p < MAX_PAGES && m.state[Block(p)] != Unused {
      assert !PageUsed(m, p);
    }
  }

  /** How many of the pages [start, end) the map covers. */
  function Span(start: nat, end: nat): nat {
    var stop := if end > MAX_PAGES then MAX_PAGES else end;
    if start < stop then stop - start else 0
  }

  /** The free set and the total when a usable range began, and where it starts. */
  datatype Growth = Growth(free: set<nat>, total: nat, start: nat)

  /** Part-way through adding usable pages: [start, p) has joined the free set and the total. */
  ghost predicate Grown(free: set<nat>, free0: set<nat>, total: nat, total0: nat, highest: nat, start: nat, p: nat) {
    && start <= p && free == free0 + Range(start, p - start) && total == total0 + (p - start)
    && forall x: nat :: x in free ==> x <= highest && x < p
  }

  lemma GrownStart(free: set<nat>, total: nat, highest: nat, start: nat)
    requires forall x: nat :: x in free ==> x < start && x <= highest
    ensures Grown(free, free, total, total, highest, start, start)
  {
    RangeNone(free, start);
  }

  lemma GrownStep(free: set<nat>, free0: set<nat>, total: nat, total0: nat, top: nat, highest: nat, start: nat,
      p: nat, k: nat)
    requires Grown(free, free0, total, total0, top, start, p) && k > 0
    requires highest == p + k - 1 || (highest == top >= p + k - 1)
    ensures Grown(free + Range(p, k), free0, total + k, total0, highest, start, p + k)
  {
    hide Range;
    RangeJoin(free0, start, p - start, k);
    assert start + (p - start) == p;
  }

  lemma GrownEnd(free: set<nat>, free0: set<nat>, total: nat, total0: nat, highest: nat, start: nat, p: nat)
    requires Grown(free, free0, total, total0, highest, start, p)
    ensures free == free0 + Range(start, p - start) && total == total0 + (p - start)
    ensures forall x: nat :: x in free ==> x <= highest && x < p
  {
  }

  lemma RangeNone(s: set<nat>, start: nat)
    ensures s + Range(start, 0) == s
  {
  }

  lemma RangeOne(p: nat)
    ensures Range(p, 1) == {p}
  {
  }

  lemma RangeJoin(s: set<nat>, start: nat, i: nat, k: nat)
    ensures s + Range(start, i) + Range(start + i, k) == s + Range(start, i + k)
  {
  }

  lemma HeldSplit(held: set<nat>, p: nat)
    requires p in held
    ensures |held - {p}| == |held| - 1
  {
  }

  lemma HeldCount(held: set<nat>, p: nat, n: nat)
    requires Range(p, n) <= held
    ensures |held - Range(p, n)| == |held| - n
  {
    assert held == (held - Range(p, n)) + Range(p, n);
  }

  /** A RAM page on no free list. */
  ghost predicate Loose(q: Pool, p: nat) {
    p in q.ram && (p in q.held <==> p !in q.free)
  }

  ghost predicate AllLoose(q: Pool, from: nat, to: nat) {
    forall x: nat :: from <= x < to ==> Loose(q, x)
  }

  lemma LooseNext(q: Pool, from: nat, to: nat)
    requires AllLoose(q, from, to) && from < to
    ensures Loose(q, from)
  {
  }

  lemma LooseStep(q: Pool, t: Pool, from: nat, to: nat)
    requires AllLoose(q, from, to)
    requires t.ram == q.ram && t.held == q.held - {from} && q.free <= t.free <= q.free + {from}
    ensures AllLoose(t, from + 1, to)
  {
    forall x: nat | from + 1 <= x < to ensures Loose(t, x) {
      assert Loose(q, x);
    }
  }

  lemma RangeOnly(p: nat, n: nat, x: nat)
    requires x in Range(p, n)
    ensures p <= x < p + n
  {
  }

  lemma RangeHas(p: nat, n: nat, x: nat)
    requires p <= x < p + n
    ensures x in Range(p, n)
  {
  }

  lemma RangeGrows(s: set<nat>, p: nat, i: nat)
    ensures s - Range(p, i) - {p + i} == s - Range(p, i + 1)
  {
  }

  lemma RangeEmpty(s: set<nat>, p: nat)
    ensures s - Range(p, 0) == s
  {
  }

  lemma HeldOrFree(q: Pool, p: nat, n: nat)
    requires Partition(q) && Range(p, n) <= q.ram
    requires forall x: nat :: x in Range(p, n) ==> x !in q.singles && !OnRun(q.runs, x)
    ensures forall x: nat :: x in Range(p, n) ==> (x in q.held <==> x !in q.free)
    ensures AllLoose(q, p, p + n)
  {
    forall x: nat | x in Range(p, n) ensures Loose(q, x) {
      assert OneHolder(q, x);
    }
  }

  /** The client got [start, start + n), which nobody else held; the rest of RAM keeps its holder. */
  ghost predicate Handed(q: Pool, t: Pool, start: nat, n: nat) {
    && Range(start, n) <= q.ram && Range(start, n) !! q.held
    && t.ram == q.ram && t.held == q.held + Range(start, n)
  }

  /** Where the scan starts. */
  function From(cursor: nat, highest: nat): nat {
    if cursor > highest || cursor >= MAX_PAGES then LOW else cursor
  }

  /** No run lies between where the scan started, at the cursor or again at LOW, and the one found. */
  ghost predicate FirstFit(n: nat, from: nat, start: nat, free: set<nat>) {
    forall s: nat :: (if start < from then LOW else from) <= s < start ==> !(Range(s, n) <= free)
  }

  /** No `n` free pages in a row below the limit, except perhaps across the cursor. */
  ghost predicate NoRunFound(n: nat, cursor: nat, highest: nat, free: set<nat>) {
    forall s: nat :: LOW <= s && s + n <= highest + 1 && s + n <= MAX_PAGES && !(s < cursor < s + n) ==>
      !(Range(s, n) <= free)
  }

  lemma FreeInReach(q: Pool, state: seq<BlockState>, highest: nat, start: nat, n: nat)
    requires Partition(q) && Backed(q.ram, state, highest) && n > 0 && Range(start, n) <= q.free
    ensures start >= LOW && start + n <= MAX_PAGES
  {
    assert OneHolder(q, start) && OneHolder(q, start + n - 1);
    assert start in Range(start, n) && start + n - 1 in Range(start, n);
  }

  lemma NothingFree(q: Pool, state: seq<BlockState>, highest: nat, cursor: nat)
    requires Partition(q) && Backed(q.ram, state, highest) && NoRunFound(1, cursor, highest, q.free)
    ensures q.free == {}
  {
    forall p: nat ensures p !in q.free {
      assert OneHolder(q, p);
      assert Range(p, 1) == {p};
    }
  }

  lemma BackedSame(ram: set<nat>, a: seq<BlockState>, b: seq<BlockState>, highest: nat)
    requires Backed(ram, a, highest) && SameUnused(a, b)
    ensures Backed(ram, b, highest)
  {
  }

  lemma RangeCount(held: set<nat>, start: nat, n: nat)
    ensures Range(start, n) !! held ==> |held + Range(start, n)| == |held| + n
    ensures Range(start, n) !! held && n > 0 ==> start in Range(start, n)
  {
  }

  // Each of the three ways to carve a run leaves one holder per page.

  lemma CarveWhole(q: Pool, i: nat)
    requires Partition(q) && i < |q.runs| && 0 < q.runs[i].n
    ensures Range(q.runs[i].start, q.runs[i].n) <= q.ram && Range(q.runs[i].start, q.runs[i].n) !! q.held
    ensures Partition(q.(held := q.held + Range(q.runs[i].start, q.runs[i].n), runs := WithoutRun(q.runs, i)))
  {
    hide OnRun, OneHolder;
    DropRun(q.runs, i);
    TakeRun(q, i, q.runs[i].n, WithoutRun(q.runs, i), q.singles);
  }

  lemma CarveToStack(q: Pool, i: nat, n: nat)
    requires Partition(q) && i < |q.runs| && 0 < n && n + 1 == q.runs[i].n
    ensures Range(q.runs[i].start, n) <= q.ram && Range(q.runs[i].start, n) !! q.held
    ensures Partition(q.(held := q.held + Range(q.runs[i].start, n), runs := WithoutRun(q.runs, i),
                         singles := q.singles + [q.runs[i].start + n]))
  {
    hide OnRun, OneHolder;
    DropRun(q.runs, i);
    TakeRun(q, i, n, WithoutRun(q.runs, i), q.singles + [q.runs[i].start + n]);
  }

  lemma CarveRest(q: Pool, i: nat, n: nat)
    requires Partition(q) && i < |q.runs| && 0 < n < q.runs[i].n
    ensures Range(q.runs[i].start, n) <= q.ram && Range(q.runs[i].start, n) !! q.held
    ensures Partition(q.(held := q.held + Range(q.runs[i].start, n),
                         runs := q.runs[i := Run(q.runs[i].start + n, q.runs[i].n - n)]))
  {
    hide OnRun, OneHolder;
    ShrinkRun(q.runs, i, n);
    TakeRun(q, i, n, q.runs[i := Run(q.runs[i].start + n, q.runs[i].n - n)], q.singles);
  }

  ghost function Carved(q: Pool, i: nat, n: nat): Pool
    requires i < |q.runs| && 0 < n <= q.runs[i].n
  {
    var start, left, held := q.runs[i].start, q.runs[i].n - n, q.held + Range(q.runs[i].start, n);
    if left == 0 then q.(held := held, runs := WithoutRun(q.runs, i))
    else if left == 1 && |q.singles| < SINGLE_STACK then
      q.(held := held, runs := WithoutRun(q.runs, i), singles := q.singles + [start + n])
    else q.(held := held, runs := q.runs[i := Run(start + n, left)])
  }

  lemma CarvedOk(q: Pool, i: nat, n: nat)
    requires Partition(q) && i < |q.runs| && 0 < n <= q.runs[i].n
    ensures var r := Range(q.runs[i].start, n);
            r <= q.ram && r !! q.held && r !! q.free && Partition(Carved(q, i, n))
  {
    hide Partition, Range, WithoutRun;
    var left := q.runs[i].n - n;
    if left == 0 {
      CarveWhole(q, i);
    } else if left == 1 && |q.singles| < SINGLE_STACK {
      CarveToStack(q, i, n);
    } else {
      CarveRest(q, i, n);
    }
    HeldNotFree(Carved(q, i, n), Range(q.runs[i].start, n));
  }

  ghost predicate SameUnused(a: seq<BlockState>, b: seq<BlockState>) {
    |a| == |b| && forall k :: 0 <= k < |a| ==> (a[k] == Unused <==> b[k] == Unused)
  }

  lemma SameUnusedChain(a: seq<BlockState>, b: seq<BlockState>, c: seq<BlockState>)
    requires SameUnused(a, b) && SameUnused(b, c)
    ensures SameUnused(a, c) && |a| == |c|
  {
  }

  ghost predicate Backed(ram: set<nat>, state: seq<BlockState>, highest: nat) {
    forall p: nat :: p in ram ==>
      LOW <= p <= highest && p < MAX_PAGES && Block(p) < |state| && state[Block(p)] != Unused
  }

  lemma BackedAt(ram: set<nat>, state: seq<BlockState>, highest: nat, p: nat)
    requires Backed(ram, state, highest) && p in ram
    ensures p < MAX_PAGES && Block(p) < |state| && state[Block(p)] != Unused
  {
  }

  // ---- one step of the loops ----

  lemma SameUnusedSelf(a: seq<BlockState>)
    ensures SameUnused(a, a)
  {
  }

  lemma {:induction false} LeftoverPrefix(blk: nat, keep: nat, i: nat, n: nat)
    requires i <= n <= PER_BLOCK
    ensures Leftover(blk, keep, i) <= Leftover(blk, keep, n)
    decreases n
  {
    if i < n {
      LeftoverPrefix(blk, keep, i, n - 1);
    }
  }

  lemma MixedState(m: Map, blk: nat)
    requires blk < |m.state|
    ensures blk in MixedBlocks(m) <==> m.state[blk] == Mixed
  {
  }

  ghost function Rest(free: set<nat>, start: nat, i: nat): set<nat> {
    free - Range(start, i)
  }

  lemma RestStart(free: set<nat>, start: nat)
    ensures Rest(free, start, 0) == free
  {
  }

  lemma RestIs(free: set<nat>, start: nat, i: nat)
    ensures Rest(free, start, i) == free - Range(start, i)
  {
  }

  lemma RestStep(free: set<nat>, start: nat, i: nat)
    ensures Rest(free, start, i + 1) == Rest(free, start, i) - {start + i}
    ensures start + i !in Rest(free, start, i) ==> Rest(free, start, i + 1) == Rest(free, start, i)
  {
  }

  /** A range costs at most two words. */
  lemma WordsKept(free0: set<nat>, free: set<nat>, start: nat, i: nat)
    requires free == free0 - Range(start, i) || free == free0 + Range(start, i)
    ensures |MixedOf(free)| <= |MixedOf(free0)| + 2
  {
    hide MixedOf, Range;
    EdgesOnly(free0, start, i);
    UnionSize(MixedOf(free), MixedOf(free0), Edges(start, i));
  }

  /** With a word to spare the next page of a range is marked by itself. */
  lemma MarkedFits(s: Shelf, free0: set<nat>, start: nat, p: nat)
    requires |s.singles| <= SINGLE_STACK && start <= p && s.free == free0 - Range(start, p - start)
    requires p in s.free && |MixedOf(free0)| + 2 <= MAX_MIXED
    ensures Marked(s, p) == s.(free := s.free - {p})
  {
    hide Range, MixedOf, AllFree, NoneFree;
    if AllFree(s.free, Block(p)) {
      NoneNotMixed(s.free, Block(p));
      WordStays(free0, s.free, start, p - start);
    }
  }

  lemma EmptyRange(p: nat)
    ensures Range(p, 0) == {}
  {
  }

  /** Loose pages are held or free, so a range of them with none held is free. */
  lemma AllLooseAre(q: Pool, p: nat, n: nat)
    requires AllLoose(q, p, p + n) && n > 0
    ensures Range(p, n) !! q.held <==> Range(p, n) <= q.free
    ensures Range(p, n) !! q.free <==> Range(p, n) <= q.held
    ensures Range(p, n) != {} && (p in q.held <==> p !in q.free)
    ensures Range(p, n) <= q.free ==> q.held - Range(p, n) == q.held
  {
    forall x | x in Range(p, n) ensures Loose(q, x) {
    }
    assert p in Range(p, n);
  }

  lemma SingleApart(x: nat, free: set<nat>)
    requires x !in free
    ensures Range(x, 1) !! free
  {
  }

  lemma RangeMeets(start: nat, n: nat, free: set<nat>)
    requires n > 0 && Range(start, n) <= free
    ensures !(Range(start, n) !! free)
  {
    assert start in Range(start, n);
  }

  lemma HeldNotFree(q: Pool, r: set<nat>)
    requires Partition(q) && r <= q.held
    ensures r !! q.free
  {
    forall x | x in r ensures x !in q.free {
      assert OneHolder(q, x);
    }
  }

  lemma StackedNotFree(q: Pool, p: nat)
    requires Partition(q) && p in q.singles
    ensures p !in q.free
  {
    assert OneHolder(q, p);
  }

  /** Splitting a block for one page of it is never harmless. */
  lemma LoneUnclean(free: set<nat>, full: bool, start: nat)
    ensures Splits(free, start) ==> !RunClean(free, full, start, 1)
  {
    hide Splits;
    NothingTaken(free, start);
    if Splits(free, start) {
      SubsetFails(start);
      assert !CleanAt(free, full, start, 1, 0);
    }
  }

  lemma SubsetFails(start: nat)
    ensures !(BlockPages(Block(start)) <= Range(start, 1))
  {
    var b := Block(start);
    InBlock(b * PER_BLOCK, b);
    InBlock(b * PER_BLOCK + 1, b);
    assert b * PER_BLOCK in BlockPages(b) && b * PER_BLOCK + 1 in BlockPages(b);
  }

  lemma LoneMarked(s: Shelf, q: Pool, x: nat)
    requires Partition(q) && q.free == s.free && q.singles == s.singles && |s.singles| <= SINGLE_STACK
    requires Splits(s.free, x)
    ensures var t := RunMarked(s, x, 1);
            && NoneTwice(q.(held := q.held + {x}, free := t.free, singles := t.singles))
            && Miscounted(s, t)
  {
    hide Pushed, NoneTwice, Partition, Range, BlockPages, AllFree, WordLeft, Block, Bit;
    LonePage(q, x);
    assert RunMarked(s, x, 0) == s;
  }

  /** A page of the run on the stack has two holders. */
  lemma BothHolders(q: Pool, y: nat)
    requires Partition(q) && y in q.held
    ensures y !in q.singles
  {
    assert OneHolder(q, y);
  }

  lemma DropHeld(q: Pool, p: nat)
    requires Partition(q) && p in q.held
    ensures Partition(q.(ram := q.ram - {p}, held := q.held - {p}))
  {
    forall x: nat ensures OneHolder(q.(ram := q.ram - {p}, held := q.held - {p}), x) {
      assert OneHolder(q, x);
    }
  }

  /** Taking a held page back leaves one holder per page, unless the page is lost. */
  lemma ReturnedPool(q: Pool, s: Shelf, p: nat)
    requires Partition(q) && p in q.held && q.free == s.free && q.singles == s.singles
    ensures var t := PutBack(s, p);
            Partition(q.(ram := if Loses(s, p) then q.ram - {p} else q.ram, held := q.held - {p},
                         free := t.free, singles := t.singles))
  {
    hide Partition, NoneFree, WordLeft;
    HeldNotFree(q, {p});
    ReturnFree(q, p);
    PushSingle(q, p);
    DropHeld(q, p);
  }

  lemma PutBackUsed(s: Shelf, p: nat)
    ensures PutBack(s, p).used == if p in s.free then s.used else Less(s.used, 1)
    ensures p in s.free ==> PutBack(s, p) == s && !Loses(s, p)
    ensures |s.singles| <= SINGLE_STACK ==> |PutBack(s, p).singles| <= SINGLE_STACK
  {
    hide NoneFree, WordLeft;
  }

  lemma NothingLost(q: Pool)
    ensures q.(ram := q.ram - {}) == q
  {
    assert q.ram - {} == q.ram;
  }

  lemma NothingBack(s: Shelf, p: nat)
    ensures RunPutBack(s, p, 0) == s && Lost(s, p, 0) == {}
  {
  }

  lemma NotLost(s: Shelf, p: nat, i: nat)
    ensures p + i !in Lost(s, p, i)
  {
  }

  lemma PutBackFree(s: Shelf, x: nat)
    requires x in s.free
    ensures PutBack(s, x) == s
  {
  }

  /** A lost page of RAM has no holder at all. */
  lemma LostHasNone(before: Pool, q: Pool, lost: set<nat>, p: nat, n: nat, x: nat)
    requires Partition(q.(ram := q.ram - lost)) && x in lost && lost <= Range(p, n)
    requires AllLoose(before, p, p + n) && q.ram == before.ram
    ensures !Partition(q)
  {
    assert Loose(before, x);
    assert OneHolder(q.(ram := q.ram - lost), x);
    assert !OneHolder(q, x);
  }

  /** The client got the run, and the map gave up exactly that. */
  ghost predicate Taken(q: Pool, t: Pool, start: nat, n: nat) {
    Handed(q, t, start, n) && t.free == q.free - Range(start, n)
  }

  /** No run of `n` pages starting after `start` and not after a busy page avoids that page. */
  lemma BusyPageBlocks(n: nat, start: nat, busy: nat, free: set<nat>)
    requires start <= busy < start + n && busy !in free
    ensures forall s: nat :: start <= s <= busy ==> !(Range(s, n) <= free)
  {
    forall s: nat | start <= s <= busy ensures !(Range(s, n) <= free) {
      assert busy in Range(s, n);
    }
  }

  lemma UsedAlready(m: Map, page: nat, free: set<nat>)
    requires Sized(m) && Shows(m, free)
    requires page >= MAX_PAGES || m.state[Block(page)] == Used || m.state[Block(page)] == Unused
    ensures page !in free
  {
  }

  lemma FreeAlready(m: Map, page: nat, free: set<nat>)
    requires Sized(m) && Shows(m, free) && page < MAX_PAGES && m.state[Block(page)] == Free
    ensures page in free && free == free + {page}
  {
    assert !PageUsed(m, page);
  }

  lemma BlockMeaning(m: Map, blk: nat)
    requires MapOk(m) && blk < MAX_BLOCKS
    ensures m.state[blk] == Free ==> BlockShows(m, blk, {})
    ensures m.state[blk] == Used || m.state[blk] == Unused ==> BlockShows(m, blk, FULL)
    ensures m.state[blk] == Mixed ==> m.slotOf[blk] < MAX_MIXED && BlockShows(m, blk, m.bits[m.slotOf[blk]])
    ensures MapOkBut(m, blk)
  {
  }
}
