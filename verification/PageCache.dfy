/**
 The write-back page cache of the blob store (kernel/blobstore.c): an index, a
 least-recently-used choice of victim and a "hot slot" shortcut in front of a block
 device.  `flat` is what the cache and the device mean together: one array of pages.
 */
module PageCache {
  import opened CacheIndex

  ghost function CountValid(cache: seq<CachePage>): nat {
    if cache == [] then 0 else CountValid(cache[..|cache| - 1]) + (if cache[|cache| - 1].valid then 1 else 0)
  }

  lemma {:induction false} CountValidUpdate(cache: seq<CachePage>, i: nat, c: CachePage)
    requires i < |cache|
    ensures CountValid(cache[i := c]) ==
            CountValid(cache) - (if cache[i].valid then 1 else 0) + (if c.valid then 1 else 0)
  {
    var n := |cache| - 1;
    if i < n {
      CountValidUpdate(cache[..n], i, c);
      assert cache[i := c][..n] == cache[..n][i := c];
    } else {
      assert cache[i := c][..n] == cache[..n];
    }
  }

  /** The live count reaches the number of slots exactly when every slot is valid. */
  lemma {:induction false} CountValidFull(cache: seq<CachePage>)
    ensures CountValid(cache) <= |cache|
    ensures CountValid(cache) == |cache| <==> forall i :: 0 <= i < |cache| ==> cache[i].valid
  {
    if cache != [] {
      CountValidFull(cache[..|cache| - 1]);
    }
  }

  lemma {:induction false} CountValidNone(cache: seq<CachePage>)
    requires forall i :: 0 <= i < |cache| ==> !cache[i].valid
    ensures CountValid(cache) == 0
  {
    if cache != [] {
      CountValidNone(cache[..|cache| - 1]);
    }
  }

  /** What the operations keep, as one value; `lastUse` and `now` record when each slot was last asked for. */
  datatype View = View(disk: seq<Page>, cache: seq<CachePage>, hash: Table, tick: nat, live: nat,
                       flat: seq<Page>, lastUse: seq<nat>, now: nat)

  /** The stamps order the valid slots exactly as their last uses do. */
  ghost predicate StampsOrdered(cache: seq<CachePage>, tick: nat, lastUse: seq<nat>, now: nat) {
    && |lastUse| == |cache|
    && (forall i :: 0 <= i < |cache| && cache[i].valid ==> cache[i].lru <= tick && lastUse[i] <= now)
    && (forall i, j :: 0 <= i < |cache| && 0 <= j < |cache| && i != j && cache[i].valid && cache[j].valid ==>
          cache[i].lru != cache[j].lru && (cache[i].lru < cache[j].lru <==> lastUse[i] < lastUse[j]))
  }

  /** A cached copy that is not dirty equals the page on the device. */
  ghost predicate CleanOn(c: CachePage, disk: seq<Page>) {
    c.valid && !c.dirty && c.page < |disk| ==> c.data == disk[c.page]
  }

  ghost predicate CleanBut(cache: seq<CachePage>, disk: seq<Page>, but: int) {
    forall i :: 0 <= i < |cache| && i != but ==> CleanOn(cache[i], disk)
  }

  /** Cached pages show their copies, all others what the device holds. */
  ghost predicate Shows(cache: seq<CachePage>, disk: seq<Page>, flat: seq<Page>) {
    && |flat| == |disk|
    && (forall i :: 0 <= i < |cache| && cache[i].valid ==>
          cache[i].page < |flat| && cache[i].data == flat[cache[i].page])
    && (forall p :: 0 <= p < |flat| && !Cached(cache, p) ==> flat[p] == disk[p])
  }

  /** Everything but the promise that clean copies match the device. */
  ghost predicate Sound(v: View) {
    && 0 < |v.cache| == |v.lastUse| < SIZE
    && |v.flat| == |v.disk|
    && Indexed(v.hash, v.cache)
    && v.live == CountValid(v.cache)
    && Shows(v.cache, v.disk, v.flat)
    && StampsOrdered(v.cache, v.tick, v.lastUse, v.now)
  }

  ghost predicate Good(v: View) {
    Sound(v) && CleanBut(v.cache, v.disk, -1)
  }

  /** The flat array is determined by the cache and the device. */
  lemma ShowsIsFunctional(cache: seq<CachePage>, disk: seq<Page>, f: seq<Page>, g: seq<Page>)
    requires Shows(cache, disk, f) && Shows(cache, disk, g)
    ensures f == g
  {
    forall p | 0 <= p < |f| ensures f[p] == g[p] {
      if Cached(cache, p) {
        var i :| 0 <= i < |cache| && Holds(cache[i], p);
      }
    }
  }

  /** With no dirty copy left the device itself is the flat array. */
  lemma CleanCacheMeansDisk(cache: seq<CachePage>, disk: seq<Page>, flat: seq<Page>)
    requires Shows(cache, disk, flat) && CleanBut(cache, disk, -1)
    requires forall i :: 0 <= i < |cache| ==> !(cache[i].valid && cache[i].dirty)
    ensures disk == flat
  {
    forall p | 0 <= p < |flat| ensures disk[p] == flat[p] {
      if Cached(cache, p) {
        var i :| 0 <= i < |cache| && Holds(cache[i], p);
        assert CleanOn(cache[i], disk);
      }
    }
  }

  // ---- what each update of one slot keeps ----

  /** Two slot arrays that agree on which pages are where have the same index. */
  lemma IndexIgnoresContents(hash: Table, a: seq<CachePage>, b: seq<CachePage>)
    requires |a| == |b|
    requires forall i :: 0 <= i < |a| ==> a[i].valid == b[i].valid && a[i].page == b[i].page
    requires Indexed(hash, a)
    ensures Indexed(hash, b)
    ensures forall p :: Cached(a, p) == Cached(b, p)
  {
    forall t | 0 <= t < SIZE && hash[t] != EMPTY && hash[t] < |b|
      ensures Reaches(hash, Home(b[hash[t]].page), t)
    {
      assert Reaches(hash, Home(a[hash[t]].page), t);
    }
    forall p ensures Cached(a, p) == Cached(b, p) {
      if i :| 0 <= i < |a| && Holds(a[i], p) {
        assert Holds(b[i], p);
      } else if i :| 0 <= i < |b| && Holds(b[i], p) {
        assert Holds(a[i], p);
      }
    }
  }

  ghost function Flushed(v: View, i: nat): View
    requires i < |v.cache| && v.cache[i].page < |v.disk|
  {
    v.(disk := v.disk[v.cache[i].page := v.cache[i].data], cache := v.cache[i := v.cache[i].(dirty := false)])
  }

  lemma FlushKeeps(v: View, i: nat)
    requires Good(v) && i < |v.cache| && v.cache[i].valid
    ensures Good(Flushed(v, i))
  {
    var w := Flushed(v, i);
    IndexIgnoresContents(v.hash, v.cache, w.cache);
    CountValidUpdate(v.cache, i, w.cache[i]);
    FlushShows(v.cache, v.disk, v.flat, i);
  }

  lemma FlushShows(cache: seq<CachePage>, disk: seq<Page>, flat: seq<Page>, i: nat)
    requires i < |cache| && cache[i].valid && PagesDistinct(cache)
    requires Shows(cache, disk, flat) && CleanBut(cache, disk, -1)
    ensures var c := cache[i := cache[i].(dirty := false)];
            var d := disk[cache[i].page := cache[i].data];
            Shows(c, d, flat) && CleanBut(c, d, -1)
  {
    var c := cache[i := cache[i].(dirty := false)];
    forall j | 0 <= j < |c| ensures CleanOn(c[j], disk[cache[i].page := cache[i].data]) {
      assert CleanOn(cache[j], disk);
    }
    assert Holds(c[i], cache[i].page);
    forall p | Cached(cache, p) ensures Cached(c, p) {
      var j :| 0 <= j < |cache| && Holds(cache[j], p);
      assert Holds(c[j], p);
    }
  }

  ghost function Touched(v: View, i: nat): View
    requires i < |v.cache| && |v.lastUse| == |v.cache|
  {
    var used := v.(lastUse := v.lastUse[i := v.now + 1], now := v.now + 1);
    if v.cache[i].lru == v.tick then used
    else used.(cache := v.cache[i := v.cache[i].(lru := v.tick + 1)], tick := v.tick + 1)
  }

  /** Not restamping a slot that already has the newest stamp loses no ordering. */
  lemma TouchKeeps(v: View, i: nat)
    requires Good(v) && i < |v.cache| && v.cache[i].valid
    ensures Good(Touched(v, i))
  {
    hide EntriesValid, EntriesReachable, EntriesDistinct, AllListed, PagesDistinct, StampsOrdered;
    var w := Touched(v, i);
    IndexIgnoresContents(v.hash, v.cache, w.cache);
    CountValidUpdate(v.cache, i, w.cache[i]);
    TouchOrder(v.cache, v.tick, v.lastUse, v.now, i);
    assert forall j :: 0 <= j < |w.cache| ==> CleanOn(v.cache[j], v.disk);
  }

  lemma TouchOrder(cache: seq<CachePage>, tick: nat, lastUse: seq<nat>, now: nat, i: nat)
    requires StampsOrdered(cache, tick, lastUse, now) && i < |cache| && cache[i].valid
    ensures var stamp := if cache[i].lru != tick then tick + 1 else tick;
            StampsOrdered(if cache[i].lru == tick then cache else cache[i := cache[i].(lru := stamp)],
                          stamp, lastUse[i := now + 1], now + 1)
  {
  }

  ghost function Dropped(v: View, i: nat, hash: Table): View
    requires i < |v.cache|
  {
    v.(cache := v.cache[i := v.cache[i].(valid := false, dirty := false)], hash := hash,
       live := if v.live > 0 then v.live - 1 else 0)
  }

  /** Marking a slot unused that the index no longer lists, once its page is on the device. */
  lemma DropKeeps(v: View, i: nat, hash: Table)
    requires Good(v) && i < |v.cache| && v.cache[i].valid && !v.cache[i].dirty
    requires IndexedBut(hash, v.cache, i)
    ensures Good(Dropped(v, i, hash))
  {
    var w := Dropped(v, i, hash);
    CountValidUpdate(v.cache, i, w.cache[i]);
    DropIndex(hash, v.cache, i);
    DropShows(v.cache, v.disk, v.flat, i);
  }

  lemma DropIndex(hash: Table, cache: seq<CachePage>, i: nat)
    requires i < |cache| && IndexedBut(hash, cache, i) && PagesDistinct(cache)
    ensures Indexed(hash, cache[i := cache[i].(valid := false, dirty := false)])
  {
    var c := cache[i := cache[i].(valid := false, dirty := false)];
    forall t | 0 <= t < SIZE && hash[t] != EMPTY && hash[t] < |c|
      ensures Reaches(hash, Home(c[hash[t]].page), t)
    {
      assert Reaches(hash, Home(cache[hash[t]].page), t);
    }
  }

  lemma DropShows(cache: seq<CachePage>, disk: seq<Page>, flat: seq<Page>, i: nat)
    requires i < |cache| && !(cache[i].valid && cache[i].dirty)
    requires Shows(cache, disk, flat) && CleanBut(cache, disk, -1)
    ensures var c := cache[i := cache[i].(valid := false, dirty := false)];
            Shows(c, disk, flat) && CleanBut(c, disk, -1)
  {
    var c := cache[i := cache[i].(valid := false, dirty := false)];
    assert CleanOn(cache[i], disk);
    forall p | Cached(cache, p) && (cache[i].valid ==> p != cache[i].page) ensures Cached(c, p) {
      var j :| 0 <= j < |cache| && Holds(cache[j], p);
      assert Holds(c[j], p);
    }
    forall j | 0 <= j < |c| ensures CleanOn(c[j], disk) {
      assert CleanOn(cache[j], disk);
    }
  }

  ghost function Forgotten(v: View, i: nat): View
    requires i < |v.cache|
  {
    v.(cache := v.cache[i := v.cache[i].(valid := false, dirty := false)])
  }

  lemma ForgetKeeps(v: View, i: nat)
    requires Good(v) && i < |v.cache| && !v.cache[i].valid
    ensures Good(Forgotten(v, i))
  {
    var w := Forgotten(v, i);
    IndexIgnoresContents(v.hash, v.cache, w.cache);
    CountValidUpdate(v.cache, i, w.cache[i]);
    DropShows(v.cache, v.disk, v.flat, i);
  }

  ghost function Installed(v: View, i: nat, page: nat, bytes: Page, hash: Table): View
    requires i < |v.cache| && |v.lastUse| == |v.cache| && page < |v.flat|
  {
    v.(cache := v.cache[i := CachePage(page, bytes, true, false, v.tick + 1)], tick := v.tick + 1,
       live := v.live + 1, hash := hash, flat := v.flat[page := bytes],
       lastUse := v.lastUse[i := v.now + 1], now := v.now + 1)
  }

  /** Filling an unused slot with a page that was in no slot. */
  lemma InstallKeeps(v: View, i: nat, page: nat, bytes: Page, at: nat)
    requires Good(v) && i < |v.cache| && !v.cache[i].valid && page < |v.disk| && !Cached(v.cache, page)
    requires at < SIZE && v.hash[at] == EMPTY && Reaches(v.hash, Home(page), at)
    ensures var w := Installed(v, i, page, bytes, v.hash[at := i]);
            && Sound(w) && CleanBut(w.cache, w.disk, i)
            && (bytes == v.disk[page] ==> w.flat == v.flat && CleanBut(w.cache, w.disk, -1))
  {
    hide EntriesValid, EntriesReachable, EntriesDistinct, AllListed, PagesDistinct, Shows, StampsOrdered, CleanBut,
         CountValid;
    var entry := CachePage(page, bytes, true, false, v.tick + 1);
    CountValidUpdate(v.cache, i, entry);
    InstallIndexed(v.hash, v.cache, i, entry);
    InsertKeeps(v.hash, v.cache[i := entry], i, at);
    InstallShows(v.cache, v.disk, v.flat, i, entry);
    InstallClean(v.cache, v.disk, i, entry);
    InstallStamps(v.cache, v.tick, v.lastUse, v.now, i, entry);
  }

  lemma InstallClean(cache: seq<CachePage>, disk: seq<Page>, i: nat, entry: CachePage)
    requires i < |cache| && entry.page < |disk| && CleanBut(cache, disk, -1)
    ensures CleanBut(cache[i := entry], disk, i)
    ensures entry.data == disk[entry.page] ==> CleanBut(cache[i := entry], disk, -1)
  {
    var c := cache[i := entry];
    forall j | 0 <= j < |c| && j != i ensures CleanOn(c[j], disk) {
      assert CleanOn(cache[j], disk);
    }
  }

  lemma InstallIndexed(hash: Table, cache: seq<CachePage>, i: nat, entry: CachePage)
    requires i < |cache| && !cache[i].valid && entry.valid && !Cached(cache, entry.page)
    requires Indexed(hash, cache)
    ensures IndexedBut(hash, cache[i := entry], i) && PagesDistinct(cache[i := entry])
  {
    var c := cache[i := entry];
    assert forall j :: 0 <= j < |cache| ==> !Holds(cache[j], entry.page);
    forall t | 0 <= t < SIZE && hash[t] != EMPTY && hash[t] < |c|
      ensures Reaches(hash, Home(c[hash[t]].page), t)
    {
      assert Reaches(hash, Home(cache[hash[t]].page), t);
    }
  }

  lemma InstallShows(cache: seq<CachePage>, disk: seq<Page>, flat: seq<Page>, i: nat, entry: CachePage)
    requires i < |cache| && !cache[i].valid && entry.valid && entry.page < |disk| && !Cached(cache, entry.page)
    requires Shows(cache, disk, flat)
    ensures Shows(cache[i := entry], disk, flat[entry.page := entry.data])
    ensures entry.data == disk[entry.page] ==> flat[entry.page := entry.data] == flat
  {
    var c := cache[i := entry];
    assert forall j :: 0 <= j < |cache| ==> !Holds(cache[j], entry.page);
    assert Holds(c[i], entry.page);
    forall p | Cached(cache, p) ensures Cached(c, p) {
      var j :| 0 <= j < |cache| && Holds(cache[j], p);
      assert Holds(c[j], p);
    }
  }

  lemma InstallStamps(cache: seq<CachePage>, tick: nat, lastUse: seq<nat>, now: nat, i: nat, entry: CachePage)
    requires i < |cache| && entry.lru == tick + 1
    requires StampsOrdered(cache, tick, lastUse, now)
    ensures StampsOrdered(cache[i := entry], tick + 1, lastUse[i := now + 1], now + 1)
  {
  }

  /** Listing the one missing slot completes the index. */
  lemma InsertKeeps(hash: Table, cache: seq<CachePage>, i: nat, at: nat)
    requires i < |cache| < SIZE && cache[i].valid && at < SIZE && hash[at] == EMPTY
    requires IndexedBut(hash, cache, i) && Reaches(hash, Home(cache[i].page), at)
    ensures IndexedBut(hash[at := i], cache, -1)
  {
    var after := hash[at := i];
    forall t | 0 <= t < SIZE && after[t] != EMPTY && after[t] < |cache|
      ensures Reaches(after, Home(cache[after[t]].page), t)
    {
      assert Reaches(hash, Home(cache[after[t]].page), t);
    }
    forall k | 0 <= k < |cache| && cache[k].valid ensures Listed(after, k) {
      if k == i {
        assert after[at] == k;
      } else {
        assert Listed(hash, k);
        var t :| 0 <= t < SIZE && hash[t] == k;
        assert after[t] == k;
      }
    }
  }

  function Patched(data: Page, off: nat, bytes: seq<Byte>): (r: Page)
    requires off + |bytes| <= PAGE_SIZE
    ensures forall k :: 0 <= k < PAGE_SIZE ==>
      r[k] == if off <= k < off + |bytes| then bytes[k - off] else data[k]
  {
    data[..off] + bytes + data[off + |bytes|..]
  }

  ghost function Overwritten(v: View, i: nat, data: Page): View
    requires i < |v.cache| && v.cache[i].page < |v.flat|
  {
    v.(cache := v.cache[i := v.cache[i].(data := data, dirty := true)], flat := v.flat[v.cache[i].page := data])
  }

  lemma OverwriteKeeps(v: View, i: nat, data: Page)
    requires Sound(v) && i < |v.cache| && v.cache[i].valid && CleanBut(v.cache, v.disk, i)
    ensures Good(Overwritten(v, i, data))
  {
    var w := Overwritten(v, i, data);
    IndexIgnoresContents(v.hash, v.cache, w.cache);
    CountValidUpdate(v.cache, i, w.cache[i]);
    assert Holds(w.cache[i], v.cache[i].page);
    forall j | 0 <= j < |w.cache| ensures CleanOn(w.cache[j], v.disk) {
      if j != i {
        assert CleanOn(v.cache[j], v.disk);
      }
    }
  }

  // ---- the deletion scan of the index, step by step ----

  /** The state of the deletion scan between two steps. */
  ghost predicate Scanning(hash: Table, cache: seq<CachePage>, idx: nat, s: nat, next: nat, stop: nat)
    requires s < SIZE && next < SIZE && stop < SIZE
  {
    && hash[stop] == EMPTY
    && 0 < Ring(s, next) <= Ring(s, stop)
    && EntriesValid(hash, cache, idx) && EntriesDistinct(hash) && AllListed(hash, cache, idx)
    && ReachableOutside(hash, cache, s, next, stop)
  }

  lemma ScanStart(hash: Table, cache: seq<CachePage>, idx: nat, s: nat, stop: nat)
    requires |cache| < SIZE && IndexedBut(hash, cache, -1)
    requires s < SIZE && stop < SIZE && hash[s] == idx != EMPTY && hash[stop] == EMPTY
    ensures Scanning(hash[s := EMPTY], cache, idx, s, (s + 1) % SIZE, stop)
  {
    ClearStartsScan(hash, cache, s, stop);
    ClearKeepsListed(hash, cache, idx, s);
  }

  lemma ClearKeepsListed(hash: Table, cache: seq<CachePage>, idx: nat, s: nat)
    requires s < SIZE && hash[s] == idx && AllListed(hash, cache, -1)
    ensures AllListed(hash[s := EMPTY], cache, idx)
  {
    forall i | 0 <= i < |cache| && cache[i].valid && i != idx ensures Listed(hash[s := EMPTY], i) {
      assert Listed(hash, i);
      var t :| 0 <= t < SIZE && hash[t] == i;
      assert hash[s := EMPTY][t] == i;
    }
  }

  lemma ScanStep(hash: Table, cache: seq<CachePage>, idx: nat, s: nat, next: nat, stop: nat, at: nat)
    requires |cache| < SIZE && s < SIZE && next < SIZE && stop < SIZE && at < SIZE
    requires Scanning(hash, cache, idx, s, next, stop)
    requires hash[next] != EMPTY && hash[next := EMPTY][at] == EMPTY
    requires Reaches(hash[next := EMPTY], Home(cache[hash[next]].page), at)
    ensures Scanning(hash[next := EMPTY][at := hash[next]], cache, idx, s, (next + 1) % SIZE, stop)
    ensures Ring(s, (next + 1) % SIZE) == Ring(s, next) + 1
  {
    assert next != stop;
    ReinsertKeepsScan(hash, cache, s, next, stop, at);
    MoveKeepsEntries(hash, cache, idx, next, at);
    ScanAdvances(s, next, stop);
  }

  /** Moving one entry to an empty position loses no entry and duplicates none. */
  lemma MoveKeepsEntries(hash: Table, cache: seq<CachePage>, but: int, next: nat, at: nat)
    requires next < SIZE && at < SIZE && hash[next] != EMPTY && |cache| < SIZE
    requires EntriesValid(hash, cache, but) && EntriesDistinct(hash) && AllListed(hash, cache, but)
    requires hash[next := EMPTY][at] == EMPTY
    ensures var moved := hash[next := EMPTY][at := hash[next]];
            EntriesValid(moved, cache, but) && EntriesDistinct(moved) && AllListed(moved, cache, but)
  {
    var moved := hash[next := EMPTY][at := hash[next]];
    forall i | 0 <= i < |cache| && cache[i].valid && i != but ensures Listed(moved, i) {
      assert Listed(hash, i);
      var t :| 0 <= t < SIZE && hash[t] == i;
      assert moved[if t == next then at else t] == i;
    }
  }

  class Cache {
    var disk: seq<Page>
    var cache: seq<CachePage>
    var hash: Table
    var tick: nat
    var hot: int
    var live: nat
    ghost var flat: seq<Page>
    ghost var lastUse: seq<nat>
    ghost var now: nat

    ghost function V(): View
      reads this
    {
      View(disk, cache, hash, tick, live, flat, lastUse, now)
    }

    ghost predicate Valid()
      reads this
    {
      Good(V())
    }

    /** cache_hash_clear, the cleared slots and the counters (blobstore_init, blobstore_load). */
    constructor (slots: nat, device: seq<Page>)
      requires 0 < slots < SIZE
      ensures Valid() && disk == flat == device && |cache| == slots && live == 0
    {
      disk := device;
      cache := seq(slots, _ => CachePage(0, ZERO_PAGE, false, false, 0));
      hash := seq(SIZE, _ => EMPTY);
      tick, hot, live := 0, -1, 0;
      flat, lastUse, now := device, seq(slots, _ => 0), 0;
      new;
      CountValidNone(cache);
    }

    /** The cache side of blobstore_load: forget every copy, so the device is what remains. */
    method Reset()
      requires 0 < |cache| < SIZE
      modifies this
      ensures Valid() && disk == flat == old(disk) && |cache| == |old(cache)| && live == 0
    {
      hash := seq(SIZE, _ => EMPTY);
      cache := seq(|cache|, _ => CachePage(0, ZERO_PAGE, false, false, 0));
      tick, hot, live := 0, -1, 0;
      flat, lastUse, now := disk, seq(|cache|, _ => 0), 0;
      CountValidNone(cache);
    }

    /** flush_page: write a dirty copy back. */
    method Flush(i: nat)
      requires Valid() && i < |cache|
      modifies `disk, `cache
      ensures Valid()
      ensures if old(cache)[i].valid && old(cache)[i].dirty
              then old(cache)[i].page < |old(disk)| && V() == Flushed(old(V()), i) else V() == old(V())
    {
      if !cache[i].valid || !cache[i].dirty {
        return;
      }
      FlushKeeps(V(), i);
      disk := disk[cache[i].page := cache[i].data];
      cache := cache[i := cache[i].(dirty := false)];
    }

    /** cache_touch: restamp a slot unless it already carries the newest stamp. */
    method Touch(i: nat)
      requires Valid() && i < |cache| && cache[i].valid
      modifies `cache, `tick, `hot, `lastUse, `now
      ensures Valid() && hot == i
      ensures |old(lastUse)| == |old(cache)| && V() == Touched(old(V()), i)
    {
      hide Indexed, Shows, StampsOrdered, CleanBut, CountValid;
      TouchKeeps(V(), i);
      if cache[i].lru != tick {
        tick := tick + 1;
        cache := cache[i := cache[i].(lru := tick)];
      }
      hot := i;
      now := now + 1;
      lastUse := lastUse[i := now];
    }

    /** cache_evict: an unused slot if there is one, otherwise the least recently used, emptied. */
    method Evict() returns (v: nat)
      requires Valid()
      modifies `disk, `cache, `hash, `hot, `live
      ensures Valid() && v < |cache| == |old(cache)| && !cache[v].valid && |disk| == |old(disk)|
      ensures old(cache)[v].valid ==> |old(lastUse)| == |old(cache)| && forall j :: 0 <= j < |old(cache)| ==>
        old(cache)[j].valid && old(lastUse)[v] <= old(lastUse)[j]
      ensures forall j :: 0 <= j < |cache| && j != v ==> cache[j] == old(cache)[j]
    {
      v := ChooseVictim();
      if cache[v].valid {
        FlushAndDrop(v);
      }
      ForgetKeeps(V(), v);
      cache := cache[v := cache[v].(valid := false, dirty := false)];
    }

    /** The scan of cache_evict for an unused slot or the smallest stamp. */
    method ChooseVictim() returns (v: nat)
      requires Valid()
      ensures v < |cache| == |lastUse|
      ensures cache[v].valid ==> forall j :: 0 <= j < |cache| ==> cache[j].valid && lastUse[v] <= lastUse[j]
    {
      CountValidFull(cache);
      v := 0;
      if live < |cache| {
        var i := 0;
        while i < |cache|
          invariant 0 <= i <= |cache|
          invariant forall j :: 0 <= j < i ==> cache[j].valid
        {
          if !cache[i].valid {
            return i;
          }
          i := i + 1;
        }
      }
      var i := 1;
      while i < |cache|
        invariant 1 <= i <= |cache| && 0 <= v < i
        invariant forall j :: 0 <= j < i ==> cache[v].lru <= cache[j].lru
      {
        if cache[i].lru < cache[v].lru {
          v := i;
        }
        i := i + 1;
      }
    }

    /** Write a valid slot back if dirty, take it out of the index and mark it unused. */
    method FlushAndDrop(i: nat)
      requires Valid() && i < |cache| && cache[i].valid
      modifies `disk, `cache, `hash, `hot, `live
      ensures Valid() && |disk| == |old(disk)|
      ensures cache == old(cache)[i := old(cache)[i].(valid := false, dirty := false)]
    {
      hide Shows, StampsOrdered, CleanBut, CountValid, EntriesValid, EntriesReachable, EntriesDistinct, AllListed;
      if cache[i].dirty {
        Flush(i);
      }
      ghost var v := V();
      Remove(cache[i].page, i);
      DropKeeps(v, i, hash);
      if live > 0 {
        live := live - 1;
      }
      if hot == i {
        hot := -1;
      }
      cache := cache[i := cache[i].(valid := false, dirty := false)];
      assert V() == Dropped(v, i, hash);
    }

    /** cache_get: the slot that holds `page`, loading it on a miss unless `fetch` is off. */
    method Get(page: nat, fetch: bool) returns (slot: nat)
      requires Valid() && page < |disk|
      modifies this
      ensures Sound(V()) && |cache| == |old(cache)| && |disk| == |old(disk)|
      ensures slot < |cache| && Holds(cache[slot], page) && CleanBut(cache, disk, slot)
      ensures page < |old(flat)| && flat == old(flat)[page := cache[slot].data]
      ensures fetch ==> Valid() && flat == old(flat)
    {
      if 0 <= hot < |cache| && cache[hot].valid && cache[hot].page == page {
        Touch(hot);
        assert flat[page := flat[page]] == flat;
        return hot;
      }
      var hit := Find(page);
      if hit >= 0 {
        Touch(hit);
        assert flat[page := flat[page]] == flat;
        return hit;
      }
      slot := Evict();
      Install(page, slot, if fetch then disk[page] else ZERO_PAGE);
    }

    /** The copy out of a cached page in blobstore_read. */
    method ReadPage(page: nat, off: nat, len: nat) returns (piece: seq<Byte>)
      requires Valid() && page < |flat| == |disk| && off + len <= PAGE_SIZE
      modifies this
      ensures Valid() && flat == old(flat) && |disk| == |old(disk)|
      ensures piece == flat[page][off..off + len]
    {
      hide Good, Sound, CleanBut;
      var slot := Get(page, true);
      piece := cache[slot].data[off..off + len];
    }

    /** The copy into a cached page in blobstore_write; a whole page is not fetched first. */
    method WritePage(page: nat, off: nat, piece: seq<Byte>) returns (ghost under: Page)
      requires Valid() && page < |flat| == |disk| && off + |piece| <= PAGE_SIZE
      modifies this
      ensures Valid() && |disk| == |old(disk)|
      ensures under == old(flat)[page] || |piece| == PAGE_SIZE
      ensures flat == old(flat)[page := Patched(under, off, piece)]
    {
      hide Good, Sound, CleanBut, Patched;
      var fetch := !(off == 0 && |piece| == PAGE_SIZE);
      var slot := Get(page, fetch);
      under := cache[slot].data;
      Patch(slot, off, piece);
    }

    /** The miss path of cache_get once the slot is free and the bytes are at hand. */
    method Install(page: nat, i: nat, bytes: Page)
      requires Valid() && page < |disk| && i < |cache| && !cache[i].valid && !Cached(cache, page)
      modifies `cache, `tick, `hash, `live, `hot, `flat, `lastUse, `now
      ensures Sound(V()) && |cache| == |old(cache)| && page < |old(flat)|
      ensures Holds(cache[i], page) && cache[i].data == bytes && flat == old(flat)[page := bytes]
      ensures CleanBut(cache, disk, i) && (bytes == disk[page] ==> Valid() && flat == old(flat))
    {
      SomeEmpty(hash, cache, -1);
      tick := tick + 1;
      cache := cache[i := CachePage(page, bytes, true, false, tick)];
      ghost var at := Insert(page, i);
      InstallKeeps(old(V()), i, page, bytes, at);
      live := live + 1;
      hot := i;
      flat := flat[page := bytes];
      now := now + 1;
      lastUse := lastUse[i := now];
      assert V() == Installed(old(V()), i, page, bytes, hash);
    }

    /** The copy into a cached page and the dirty mark of blobstore_write. */
    method Patch(slot: nat, off: nat, bytes: seq<Byte>)
      requires Sound(V()) && slot < |cache| && cache[slot].valid && CleanBut(cache, disk, slot)
      requires off + |bytes| <= PAGE_SIZE
      modifies `cache, `flat
      ensures Valid() && |cache| == |old(cache)| && old(cache)[slot].page < |old(flat)|
      ensures flat == old(flat)[old(cache)[slot].page := Patched(old(cache)[slot].data, off, bytes)]
    {
      var data := Patched(cache[slot].data, off, bytes);
      OverwriteKeeps(V(), slot, data);
      flat := flat[cache[slot].page := data];
      cache := cache[slot := cache[slot].(data := data, dirty := true)];
    }

    /** cache_evict_object_pages: flush and drop every cached page in [start, start + npages). */
    method EvictRange(start: nat, npages: nat)
      requires Valid()
      modifies `disk, `cache, `hash, `hot, `live
      ensures Valid() && |cache| == |old(cache)| && |disk| == |old(disk)|
      ensures forall i :: 0 <= i < |cache| && cache[i].valid ==> !(start <= cache[i].page < start + npages)
    {
      var i := 0;
      while i < |cache|
        invariant 0 <= i <= |cache| == |old(cache)| && Valid() && |disk| == |old(disk)|
        invariant forall j :: 0 <= j < i && cache[j].valid ==> !(start <= cache[j].page < start + npages)
      {
        if cache[i].valid && start <= cache[i].page < start + npages {
          FlushAndDrop(i);
        }
        i := i + 1;
      }
    }

    /** The flush loop of blobstore_sync: afterwards the device is the flat array. */
    method FlushAll()
      requires Valid()
      modifies `disk, `cache
      ensures Valid() && disk == flat && |cache| == |old(cache)| && |disk| == |old(disk)|
    {
      var i := 0;
      while i < |cache|
        invariant 0 <= i <= |cache| == |old(cache)| && Valid() && |disk| == |old(disk)|
        invariant forall j :: 0 <= j < i ==> !(cache[j].valid && cache[j].dirty)
      {
        if cache[i].valid && cache[i].dirty {
          Flush(i);
        }
        i := i + 1;
      }
      CleanCacheMeansDisk(cache, disk, flat);
    }

    /** cache_hash_find: the slot that holds `page`, or -1. */
    method Find(page: nat) returns (slot: int)
      requires Indexed(hash, cache) && |cache| < SIZE
      ensures slot == -1 <==> !Cached(cache, page)
      ensures slot != -1 ==> 0 <= slot < |cache| && Holds(cache[slot], page)
    {
      var h := Home(page);
      var n := 0;
      while n < SIZE
        invariant n <= SIZE
        invariant forall t :: 0 <= t < SIZE && Ring(h, t) < n ==>
          hash[t] != EMPTY && !(hash[t] < |cache| && Holds(cache[hash[t]], page))
      {
        var s := (h + n) % SIZE;
        assert Ring(h, s) == n;
        var idx := hash[s];
        if idx == EMPTY {
          MissMeansUncached(hash, cache, page, s);
          return -1;
        }
        if idx < |cache| && cache[idx].valid && cache[idx].page == page {
          return idx;
        }
        n := n + 1;
      }
      forall i | 0 <= i < |cache| && cache[i].valid ensures cache[i].page != page {
        assert Listed(hash, i);
        ghost var t :| 0 <= t < SIZE && hash[t] == i;
        assert Ring(h, t) < SIZE;
      }
      return -1;
    }

    /** The residency test of blobstore_cached_at: the hot slot first, then the index. */
    method Resident(page: nat) returns (r: bool)
      requires Indexed(hash, cache) && |cache| < SIZE
      ensures r <==> Cached(cache, page)
    {
      if 0 <= hot < |cache| && cache[hot].valid && cache[hot].page == page {
        assert Holds(cache[hot], page);
        return true;
      }
      var slot := Find(page);
      r := slot >= 0;
    }

    /** cache_hash_insert: `idx` goes to the first empty position from the page's home. */
    method Insert(page: nat, idx: nat) returns (ghost at: nat)
      modifies `hash
      ensures !HasEmpty(old(hash)) ==> hash == old(hash)
      ensures HasEmpty(old(hash)) ==>
        && at < SIZE && old(hash)[at] == EMPTY
        && hash == old(hash)[at := idx]
        && Reaches(old(hash), Home(page), at)
    {
      var h := Home(page);
      var n := 0;
      at := 0;
      while n < SIZE
        invariant n <= SIZE && hash == old(hash)
        invariant forall t :: 0 <= t < SIZE && Ring(h, t) < n ==> hash[t] != EMPTY
      {
        var s := (h + n) % SIZE;
        assert Ring(h, s) == n;
        if hash[s] == EMPTY {
          hash := hash[s := idx];
          at := s;
          return;
        }
        n := n + 1;
      }
      forall t | 0 <= t < SIZE ensures hash[t] != EMPTY {
        assert Ring(h, t) < SIZE;
      }
    }

    /** cache_hash_remove: clear the entry of `idx`, then re-insert the cluster behind it. */
    method Remove(page: nat, idx: nat)
      requires |cache| < SIZE && IndexedBut(hash, cache, -1)
      requires idx < |cache| && Holds(cache[idx], page)
      modifies `hash
      ensures IndexedBut(hash, cache, idx)
    {
      ghost var where := EntryOf(hash, cache, idx);
      var h := Home(page);
      var n := 0;
      while n < SIZE
        invariant n <= Ring(h, where) && hash == old(hash)
      {
        var s := (h + n) % SIZE;
        assert Ring(h, s) == n;
        if hash[s] == EMPTY {
          return;
        }
        if hash[s] == idx {
          ClearAndRescan(s, idx);
          return;
        }
        assert s != where;
        n := n + 1;
      }
    }

    /** The part of cache_hash_remove that starts once the entry has been found at `s`. */
    method ClearAndRescan(s: nat, idx: nat)
      requires |cache| < SIZE && IndexedBut(hash, cache, -1)
      requires s < SIZE && hash[s] == idx != EMPTY
      modifies `hash
      ensures IndexedBut(hash, cache, idx)
    {
      SomeEmpty(hash, cache, -1);
      ghost var stop: nat :| stop < SIZE && hash[stop] == EMPTY;
      ScanStart(hash, cache, idx, s, stop);
      hash := hash[s := EMPTY];
      var next: nat := (s + 1) % SIZE;
      while hash[next] != EMPTY
        invariant next < SIZE && Scanning(hash, cache, idx, s, next, stop)
        decreases SIZE - Ring(s, next)
      {
        ghost var before := hash;
        var re := hash[next];
        hash := hash[next := EMPTY];
        if re < |cache| && cache[re].valid {
          assert hash[next] == EMPTY;
          ghost var at := Insert(cache[re].page, re);
          ScanStep(before, cache, idx, s, next, stop, at);
        }
        next := (next + 1) % SIZE;
      }
      ScanEnd(hash, cache, s, next, stop);
    }
  }

  /** Where the index lists a valid slot: no empty position is nearer to its home. */
  ghost function EntryOf(hash: Table, cache: seq<CachePage>, idx: nat): (t: nat)
    requires |cache| < SIZE && IndexedBut(hash, cache, -1) && idx < |cache| && cache[idx].valid
    ensures t < SIZE && hash[t] == idx && Reaches(hash, Home(cache[idx].page), t)
  {
    assert Listed(hash, idx);
    var t :| 0 <= t < SIZE && hash[t] == idx;
    t
  }
}
