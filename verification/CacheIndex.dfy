/**
 The open-addressed index of the blob page cache (kernel/blobstore.c).

 `hash` maps a page number to the cache slot that holds it.  A page is looked for
 from its home position onwards, wrapping at the end, up to the first empty
 position.  Everything about probing is said with one cyclic distance, `Ring`: an
 entry is reachable when no empty position is nearer to its home than the entry is.
 */
module CacheIndex {

  const SIZE: nat := 64       // CACHE_HASH_SIZE
  const EMPTY: nat := 0xFF
  const PAGE_SIZE: nat := 4096

  newtype Byte = x: int | 0 <= x < 256

  type Page = s: seq<Byte> | |s| == PAGE_SIZE witness seq(PAGE_SIZE, _ => 0)

  const ZERO_PAGE: Page := seq(PAGE_SIZE, _ => 0)

  datatype CachePage = CachePage(page: nat, data: Page, valid: bool, dirty: bool, lru: nat)

  type Table = s: seq<nat> | |s| == SIZE witness seq(SIZE, _ => EMPTY)

  function Home(page: nat): (h: nat)
    ensures h < SIZE
  {
    page % SIZE
  }

  /** How many steps a probe that starts at `h` takes to arrive at `t`. */
  function Ring(h: nat, t: nat): (d: nat)
    requires h < SIZE && t < SIZE
    ensures d < SIZE
  {
    if t >= h then t - h else t + SIZE - h
  }

  /** A probe from `h` arrives at `t` before it meets an empty position. */
  ghost predicate Reaches(hash: Table, h: nat, t: nat)
    requires h < SIZE && t < SIZE
  {
    forall e :: 0 <= e < SIZE && hash[e] == EMPTY ==> Ring(h, t) <= Ring(h, e)
  }

  ghost predicate Holds(c: CachePage, page: nat) {
    c.valid && c.page == page
  }

  ghost predicate Cached(cache: seq<CachePage>, page: nat) {
    exists i :: 0 <= i < |cache| && Holds(cache[i], page)
  }

  ghost predicate Listed(hash: Table, i: nat) {
    exists t :: 0 <= t < SIZE && hash[t] == i
  }

  ghost predicate HasEmpty(hash: Table) {
    exists e :: 0 <= e < SIZE && hash[e] == EMPTY
  }

  /** Every entry names a valid slot other than `but`. */
  ghost predicate EntriesValid(hash: Table, cache: seq<CachePage>, but: int) {
    forall t :: 0 <= t < SIZE && hash[t] != EMPTY ==>
      hash[t] < |cache| && cache[hash[t]].valid && hash[t] != but
  }

  ghost predicate EntriesReachable(hash: Table, cache: seq<CachePage>) {
    forall t :: 0 <= t < SIZE && hash[t] != EMPTY && hash[t] < |cache| ==>
      Reaches(hash, Home(cache[hash[t]].page), t)
  }

  ghost predicate EntriesDistinct(hash: Table) {
    forall t, u :: 0 <= t < u < SIZE && hash[t] != EMPTY ==> hash[t] != hash[u]
  }

  ghost predicate AllListed(hash: Table, cache: seq<CachePage>, but: int) {
    forall i :: 0 <= i < |cache| && cache[i].valid && i != but ==> Listed(hash, i)
  }

  ghost predicate PagesDistinct(cache: seq<CachePage>) {
    forall i, j :: 0 <= i < j < |cache| && cache[i].valid && cache[j].valid ==> cache[i].page != cache[j].page
  }

  /** The index lists exactly the valid slots other than `but`, each within reach of its home. */
  ghost predicate IndexedBut(hash: Table, cache: seq<CachePage>, but: int) {
    && EntriesValid(hash, cache, but)
    && EntriesReachable(hash, cache)
    && EntriesDistinct(hash)
    && AllListed(hash, cache, but)
  }

  ghost predicate Indexed(hash: Table, cache: seq<CachePage>) {
    IndexedBut(hash, cache, -1) && PagesDistinct(cache)
  }

  // ---- the table never fills up ----

  ghost function FirstValues(s: seq<nat>, n: nat): set<nat>
    requires n <= |s|
  {
    if n == 0 then {} else FirstValues(s, n - 1) + {s[n - 1]}
  }

  lemma {:induction false} FirstValuesSize(s: seq<nat>, n: nat)
    requires n <= |s|
    requires forall t, u :: 0 <= t < u < |s| ==> s[t] != s[u]
    ensures |FirstValues(s, n)| == n
    ensures forall x :: x in FirstValues(s, n) ==> exists t :: 0 <= t < n && s[t] == x
  {
    if n > 0 {
      FirstValuesSize(s, n - 1);
      assert s[n - 1] !in FirstValues(s, n - 1);
    }
  }

  lemma {:induction false} BoundedSetSize(a: set<nat>, bound: nat)
    requires forall x :: x in a ==> x < bound
    ensures |a| <= bound
  {
    if bound > 0 {
      BoundedSetSize(a - {bound - 1}, bound - 1);
    }
  }

  lemma DistinctEntriesFit(s: seq<nat>, bound: nat)
    requires forall t :: 0 <= t < |s| ==> s[t] < bound
    requires forall t, u :: 0 <= t < u < |s| ==> s[t] != s[u]
    ensures |s| <= bound
  {
    FirstValuesSize(s, |s|);
    BoundedSetSize(FirstValues(s, |s|), bound);
  }

  /** With fewer slots than positions some position is empty. */
  lemma SomeEmpty(hash: Table, cache: seq<CachePage>, but: int)
    requires EntriesValid(hash, cache, but) && EntriesDistinct(hash)
    requires |cache| < SIZE
    ensures HasEmpty(hash)
  {
    if forall e :: 0 <= e < SIZE ==> hash[e] != EMPTY {
      DistinctEntriesFit(hash, |cache|);
    }
  }

  // ---- looking a page up ----

  /**
   An empty position that a probe for `page` has just met, with every earlier position
   holding other pages, proves that the page is in no slot.
   */
  lemma MissMeansUncached(hash: Table, cache: seq<CachePage>, page: nat, s: nat)
    requires IndexedBut(hash, cache, -1) && |cache| < SIZE
    requires s < SIZE && hash[s] == EMPTY
    requires forall t :: 0 <= t < SIZE && Ring(Home(page), t) < Ring(Home(page), s) ==>
      hash[t] != EMPTY && !(hash[t] < |cache| && Holds(cache[hash[t]], page))
    ensures !Cached(cache, page)
  {
    forall i | 0 <= i < |cache| && cache[i].valid ensures cache[i].page != page {
      assert Listed(hash, i);
      var t :| 0 <= t < SIZE && hash[t] == i;
      assert Reaches(hash, Home(cache[i].page), t);
    }
  }

  // ---- deletion: re-inserting the cluster that follows ----

  /**
   Part-way through a deletion at `s`, with the scan about to look at `next`: the only
   entries that may be cut off from their homes are those not yet scanned (from `next`
   up to `stop`), and only by positions vacated so far (from `s` up to `next`).
   */
  ghost predicate ReachableOutside(hash: Table, cache: seq<CachePage>, s: nat, next: nat, stop: nat)
    requires s < SIZE && next < SIZE && stop < SIZE
  {
    forall t, e :: 0 <= t < SIZE && 0 <= e < SIZE && hash[t] != EMPTY && hash[t] < |cache| && hash[e] == EMPTY ==>
      PairFine(s, next, stop, Home(cache[hash[t]].page), t, e)
  }

  /** Clearing the entry found at `s` starts a scan in which only later entries can be cut off. */
  lemma ClearStartsScan(hash: Table, cache: seq<CachePage>, s: nat, stop: nat)
    requires EntriesReachable(hash, cache) && EntriesDistinct(hash)
    requires s < SIZE && stop < SIZE && stop != s && hash[stop] == EMPTY && hash[s] != EMPTY
    ensures ReachableOutside(hash[s := EMPTY], cache, s, (s + 1) % SIZE, stop)
  {
    var cleared := hash[s := EMPTY];
    forall t, e | 0 <= t < SIZE && 0 <= e < SIZE && cleared[t] != EMPTY && cleared[t] < |cache| && cleared[e] == EMPTY
      ensures PairFine(s, (s + 1) % SIZE, stop, Home(cache[cleared[t]].page), t, e)
    {
      assert Reaches(hash, Home(cache[hash[t]].page), t);
      assert Ring(Home(cache[hash[t]].page), t) <= Ring(Home(cache[hash[t]].page), stop);
    }
  }

  /** Entry `t` (home `h`) is not cut off by the empty position `e`, or the scan has yet to mend it. */
  predicate PairFine(s: nat, next: nat, stop: nat, h: nat, t: nat, e: nat)
    requires s < SIZE && next < SIZE && stop < SIZE && h < SIZE && t < SIZE && e < SIZE
  {
    || Ring(h, t) <= Ring(h, e)
    || (Ring(s, e) < Ring(s, next) <= Ring(s, t) < Ring(s, stop))
  }

  /** An entry other than the one lifted out of `next` stays fine, also against `next` itself. */
  lemma PairStep(s: nat, next: nat, stop: nat, h: nat, t: nat, e: nat)
    requires s < SIZE && next < SIZE && stop < SIZE && h < SIZE && t < SIZE && e < SIZE
    requires Ring(s, next) < Ring(s, stop) && t != next && t != stop
    requires PairFine(s, next, stop, h, t, stop)
    requires e != next ==> PairFine(s, next, stop, h, t, e)
    ensures PairFine(s, (next + 1) % SIZE, stop, h, t, e)
  {
    var n := if next == SIZE - 1 then 0 else next + 1;
    assert n == (next + 1) % SIZE;
    assert Ring(s, n) == Ring(s, next) + 1;
  }

  /** The unscanned stretch and the vacated stretch each move on by one position. */
  lemma ScanAdvances(s: nat, next: nat, stop: nat)
    requires s < SIZE && next < SIZE && stop < SIZE
    requires Ring(s, next) < Ring(s, stop)
    ensures Ring(s, (next + 1) % SIZE) == Ring(s, next) + 1
  {
  }

  /**
   One step of the scan: the entry at `next` is lifted out and put back at the first
   empty position `at` from its home.  It never moves past `next`, so `stop` stays empty.
   */
  lemma ReinsertKeepsScan(hash: Table, cache: seq<CachePage>, s: nat, next: nat, stop: nat, at: nat)
    requires s < SIZE && next < SIZE && stop < SIZE && at < SIZE
    requires hash[next] != EMPTY && hash[next] < |cache| && hash[stop] == EMPTY
    requires 0 < Ring(s, next) < Ring(s, stop)
    requires ReachableOutside(hash, cache, s, next, stop)
    requires hash[next := EMPTY][at] == EMPTY
    requires Reaches(hash[next := EMPTY], Home(cache[hash[next]].page), at)
    ensures at != stop
    ensures ReachableOutside(hash[next := EMPTY][at := hash[next]], cache, s, (next + 1) % SIZE, stop)
  {
    var h := Home(cache[hash[next]].page);
    var lifted := hash[next := EMPTY];
    assert lifted[next] == EMPTY;
    assert PairFine(s, next, stop, h, next, stop);
    var after := lifted[at := hash[next]];
    forall t, e | 0 <= t < SIZE && 0 <= e < SIZE && after[t] != EMPTY && after[t] < |cache| && after[e] == EMPTY
      ensures PairFine(s, (next + 1) % SIZE, stop, Home(cache[after[t]].page), t, e)
    {
      if t == at {
        assert lifted[e] == EMPTY;
      } else {
        assert hash[t] == after[t];
        PairStep(s, next, stop, Home(cache[hash[t]].page), t, e);
      }
    }
  }

  /** Once the scan meets an empty position nothing is cut off any more. */
  lemma ScanEnd(hash: Table, cache: seq<CachePage>, s: nat, next: nat, stop: nat)
    requires s < SIZE && next < SIZE && stop < SIZE
    requires hash[next] == EMPTY && hash[stop] == EMPTY
    requires 0 < Ring(s, next) <= Ring(s, stop)
    requires ReachableOutside(hash, cache, s, next, stop)
    ensures EntriesReachable(hash, cache)
  {
    forall t | 0 <= t < SIZE && hash[t] != EMPTY && hash[t] < |cache|
      ensures Reaches(hash, Home(cache[hash[t]].page), t)
    {
      var h := Home(cache[hash[t]].page);
      forall e | 0 <= e < SIZE && hash[e] == EMPTY ensures Ring(h, t) <= Ring(h, e) {
        assert PairFine(s, next, stop, h, t, e);
        assert PairFine(s, next, stop, h, t, next);
        assert PairFine(s, next, stop, h, t, stop);
      }
    }
  }
}
