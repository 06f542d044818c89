/**
 The compressed two-level page map of the physical allocator (kernel/pmm.c).  A block
 of 64 pages is unused, all free, all used or mixed; only a mixed block owns one of the
 recycled 64-bit words.  A word is modelled as the set of its one bits (one bit = used).
 */
module PageMap {

  const PER_BLOCK: nat := 64
  const MAX_PAGES: nat := 4096 * 1024
  const MAX_BLOCKS: nat := MAX_PAGES / PER_BLOCK
  const MAX_MIXED: nat := 4096

  datatype BlockState = Unused | Free | Used | Mixed

  type Word = w: set<nat> | forall k :: k in w ==> k < PER_BLOCK

  const FULL: Word := set k: nat | k < PER_BLOCK

  /** A word that is neither all free nor all used. */
  predicate Proper(w: Word) {
    w != {} && w != FULL
  }

  datatype Map = Map(state: seq<BlockState>, slotOf: seq<nat>, bits: seq<Word>, slots: seq<nat>)

  function Block(page: nat): nat {
    page / PER_BLOCK
  }

  function Bit(page: nat): (b: nat)
    ensures b < PER_BLOCK
  {
    page % PER_BLOCK
  }

  ghost predicate Sized(m: Map) {
    |m.state| == |m.slotOf| == MAX_BLOCKS && |m.bits| == MAX_MIXED
  }

  ghost function MixedBlocks(m: Map): set<nat> {
    set b | 0 <= b < |m.state| && m.state[b] == Mixed
  }

  /** No two mixed blocks share a word, and a mixed block's word is neither empty nor full. */
  ghost predicate OwnersOk(m: Map)
    requires Sized(m)
  {
    && (forall b :: 0 <= b < MAX_BLOCKS && m.state[b] == Mixed ==>
          m.slotOf[b] < MAX_MIXED && m.slotOf[b] !in m.slots && Proper(m.bits[m.slotOf[b]]))
    && (forall b, c :: 0 <= b < c < MAX_BLOCKS && m.state[b] == Mixed && m.state[c] == Mixed ==>
        m.slotOf[b] != m.slotOf[c])
  }

  ghost predicate Owned(m: Map, s: nat) {
    exists b :: 0 <= b < |m.state| && b < |m.slotOf| && m.state[b] == Mixed && m.slotOf[b] == s
  }

  /** The stack holds exactly the words that no mixed block owns, each once. */
  ghost predicate StackOk(m: Map)
    requires Sized(m)
  {
    && (forall i :: 0 <= i < |m.slots| ==> m.slots[i] < MAX_MIXED)
    && (forall i, j :: 0 <= i < j < |m.slots| ==> m.slots[i] != m.slots[j])
    && (forall s :: 0 <= s < MAX_MIXED && s !in m.slots ==> Owned(m, s))
    && |m.slots| + |MixedBlocks(m)| == MAX_MIXED
  }

  ghost predicate MapOk(m: Map) {
    Sized(m) && OwnersOk(m) && StackOk(m)
  }

  /** The flat meaning of the map: page `i` of block `b` may not be handed out. */
  ghost predicate BitUsed(m: Map, b: nat, i: nat) {
    b < |m.state| && b < |m.slotOf| ==>
      match m.state[b]
      case Unused => true
      case Used => true
      case Free => false
      case Mixed => m.slotOf[b] < |m.bits| ==> i in m.bits[m.slotOf[b]]
  }

  ghost predicate PageUsed(m: Map, page: nat) {
    page >= MAX_PAGES || BitUsed(m, Block(page), Bit(page))
  }

  /** The pages the map shows as free. */
  ghost predicate Shows(m: Map, free: set<nat>) {
    forall p: nat :: p in free <==> !PageUsed(m, p)
  }

  // ---- taking and returning words ----

  function Acquired(m: Map, blk: nat, w: Word): Map
    requires |m.slots| > 0 && blk < |m.state| && blk < |m.slotOf| && m.slots[|m.slots| - 1] < |m.bits|
  {
    var n := |m.slots| - 1;
    Map(m.state[blk := Mixed], m.slotOf[blk := m.slots[n]], m.bits[m.slots[n] := w], m.slots[..n])
  }

  /** Two maps show the same for every block but one. */
  ghost predicate SameElsewhere(m: Map, a: Map, blk: nat) {
    forall b: nat, i: nat :: b != blk ==> BitUsed(a, b, i) == BitUsed(m, b, i)
  }

  ghost predicate BlockShows(a: Map, blk: nat, w: set<nat>) {
    forall i: nat :: i < PER_BLOCK ==> (BitUsed(a, blk, i) <==> i in w)
  }

  lemma AcquireOk(m: Map, blk: nat, w: Word)
    requires MapOk(m) && blk < MAX_BLOCKS && m.state[blk] != Mixed && |m.slots| > 0 && Proper(w)
    ensures m.slots[|m.slots| - 1] < MAX_MIXED
    ensures var a := Acquired(m, blk, w);
            && MapOk(a) && SameElsewhere(m, a, blk) && BlockShows(a, blk, w)
            && MixedBlocks(a) == MixedBlocks(m) + {blk}
  {
    AcquireOwners(m, blk, w);
    AcquireStack(m, blk, w);
    AcquireShows(m, blk, w);
  }

  lemma AcquireShows(m: Map, blk: nat, w: Word)
    requires MapOk(m) && blk < MAX_BLOCKS && m.state[blk] != Mixed && |m.slots| > 0
    ensures SameElsewhere(m, Acquired(m, blk, w), blk) && BlockShows(Acquired(m, blk, w), blk, w)
  {
  }

  lemma AcquireOwners(m: Map, blk: nat, w: Word)
    requires MapOk(m) && blk < MAX_BLOCKS && m.state[blk] != Mixed && |m.slots| > 0 && Proper(w)
    ensures OwnersOk(Acquired(m, blk, w))
  {
  }

  lemma AcquireStack(m: Map, blk: nat, w: Word)
    requires MapOk(m) && blk < MAX_BLOCKS && m.state[blk] != Mixed && |m.slots| > 0
    ensures StackOk(Acquired(m, blk, w))
    ensures MixedBlocks(Acquired(m, blk, w)) == MixedBlocks(m) + {blk}
  {
    AcquireMixed(m, blk, w);
    AcquireOwned(m, blk, w);
    hide MixedBlocks, Owned, OwnersOk;
    assert blk !in MixedBlocks(m) by { NotMixed(m, blk); }
    assert |MixedBlocks(m) + {blk}| == |MixedBlocks(m)| + 1;
  }

  lemma NotMixed(m: Map, blk: nat)
    requires blk < |m.state|
    ensures blk in MixedBlocks(m) <==> m.state[blk] == Mixed
  {
  }

  lemma AcquireMixed(m: Map, blk: nat, w: Word)
    requires Sized(m) && blk < MAX_BLOCKS && |m.slots| > 0 && m.slots[|m.slots| - 1] < MAX_MIXED
    ensures MixedBlocks(Acquired(m, blk, w)) == MixedBlocks(m) + {blk}
  {
  }

  /** The word taken from the stack is owned now, and the others still are. */
  lemma AcquireOwned(m: Map, blk: nat, w: Word)
    requires MapOk(m) && blk < MAX_BLOCKS && m.state[blk] != Mixed && |m.slots| > 0
    ensures var a := Acquired(m, blk, w);
            forall s :: 0 <= s < MAX_MIXED && s !in a.slots ==> Owned(a, s)
  {
    hide MixedBlocks, OwnersOk;
    var n := |m.slots| - 1;
    var a := Acquired(m, blk, w);
    forall s | 0 <= s < MAX_MIXED && s !in a.slots ensures Owned(a, s) {
      if s == m.slots[n] {
        assert a.state[blk] == Mixed && a.slotOf[blk] == s;
      } else {
        assert m.slots == a.slots + [m.slots[n]];
        assert Owned(m, s);
        var b :| 0 <= b < |m.state| && m.state[b] == Mixed && m.slotOf[b] == s;
        assert a.state[b] == Mixed && a.slotOf[b] == s;
      }
    }
  }

  function Released(m: Map, blk: nat, st: BlockState): Map
    requires blk < |m.state| && blk < |m.slotOf|
  {
    if m.state[blk] == Mixed then
      Map(m.state[blk := st], m.slotOf[blk := 0], m.bits,
          if |m.slots| < MAX_MIXED then m.slots + [m.slotOf[blk]] else m.slots)
    else m.(state := m.state[blk := st])
  }

  /** Everything the map promises except that the word of block `but` is neither empty nor full. */
  ghost predicate MapOkBut(m: Map, but: int) {
    && Sized(m) && StackOk(m)
    && (forall b :: 0 <= b < MAX_BLOCKS && m.state[b] == Mixed ==>
          m.slotOf[b] < MAX_MIXED && m.slotOf[b] !in m.slots && (b != but ==> Proper(m.bits[m.slotOf[b]])))
    && (forall b, c :: 0 <= b < c < MAX_BLOCKS && m.state[b] == Mixed && m.state[c] == Mixed ==>
        m.slotOf[b] != m.slotOf[c])
  }

  lemma ReleaseOk(m: Map, blk: nat, st: BlockState)
    requires MapOkBut(m, blk) && blk < MAX_BLOCKS && st != Mixed
    ensures var a := Released(m, blk, st);
            && MapOk(a) && SameElsewhere(m, a, blk) && BlockShows(a, blk, if st == Free then {} else FULL)
            && MixedBlocks(a) == MixedBlocks(m) - {blk}
  {
    hide StackOk, OwnersOk, SameElsewhere, BlockShows, MixedBlocks;
    ReleaseStack(m, blk, st);
    ReleaseOwners(m, blk, st);
    ReleaseShows(m, blk, st);
  }

  lemma ReleaseShows(m: Map, blk: nat, st: BlockState)
    requires Sized(m) && blk < MAX_BLOCKS && st != Mixed
    ensures SameElsewhere(m, Released(m, blk, st), blk)
    ensures BlockShows(Released(m, blk, st), blk, if st == Free then {} else FULL)
  {
  }

  lemma ReleaseOwners(m: Map, blk: nat, st: BlockState)
    requires MapOkBut(m, blk) && blk < MAX_BLOCKS && st != Mixed
    ensures OwnersOk(Released(m, blk, st))
  {
  }

  lemma ReleaseStack(m: Map, blk: nat, st: BlockState)
    requires MapOkBut(m, blk) && blk < MAX_BLOCKS && st != Mixed
    ensures StackOk(Released(m, blk, st))
    ensures MixedBlocks(Released(m, blk, st)) == MixedBlocks(m) - {blk}
  {
    ReleaseMixed(m, blk, st);
    ReleaseOwned(m, blk, st);
    NotMixed(m, blk);
    hide MixedBlocks, Owned;
    var a := Released(m, blk, st);
    if m.state[blk] == Mixed {
      assert |MixedBlocks(m) - {blk}| == |MixedBlocks(m)| - 1;
      assert a.slots == m.slots + [m.slotOf[blk]];
    } else {
      assert MixedBlocks(m) - {blk} == MixedBlocks(m);
    }
  }

  lemma ReleaseMixed(m: Map, blk: nat, st: BlockState)
    requires Sized(m) && blk < MAX_BLOCKS && st != Mixed
    ensures MixedBlocks(Released(m, blk, st)) == MixedBlocks(m) - {blk}
  {
  }

  lemma ReleaseOwned(m: Map, blk: nat, st: BlockState)
    requires MapOkBut(m, blk) && blk < MAX_BLOCKS && st != Mixed
    ensures var a := Released(m, blk, st);
            forall s :: 0 <= s < MAX_MIXED && s !in a.slots ==> Owned(a, s)
  {
    var a := Released(m, blk, st);
    NotMixed(m, blk);
    if m.state[blk] == Mixed {
      assert |MixedBlocks(m)| > 0;
      assert a.slots == m.slots + [m.slotOf[blk]];
    }
    hide MixedBlocks;
    forall s | 0 <= s < MAX_MIXED && s !in a.slots ensures Owned(a, s) {
      assert Owned(m, s);
      var b :| 0 <= b < |m.state| && m.state[b] == Mixed && m.slotOf[b] == s;
      assert a.state[b] == Mixed && a.slotOf[b] == s;
    }
  }

  function WithBits(m: Map, blk: nat, w: Word): Map
    requires blk < |m.slotOf| && m.slotOf[blk] < |m.bits|
  {
    m.(bits := m.bits[m.slotOf[blk] := w])
  }

  lemma WithBitsOk(m: Map, blk: nat, w: Word)
    requires MapOk(m) && blk < MAX_BLOCKS && m.state[blk] == Mixed
    ensures var a := WithBits(m, blk, w);
            && MapOkBut(a, blk) && (Proper(w) ==> MapOk(a))
            && SameElsewhere(m, a, blk) && BlockShows(a, blk, w)
            && MixedBlocks(a) == MixedBlocks(m)
  {
    var a := WithBits(m, blk, w);
    forall s | 0 <= s < MAX_MIXED && s !in a.slots ensures Owned(a, s) {
      assert Owned(m, s);
      var b :| 0 <= b < |m.state| && m.state[b] == Mixed && m.slotOf[b] == s;
      assert a.state[b] == Mixed && a.slotOf[b] == s;
    }
    assert SameElsewhere(m, a, blk);
  }
}
