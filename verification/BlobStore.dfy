/**
 The block-backed object store (kernel/blobstore.c).  Objects are extents of the flat
 page array that the cache and the device show together; `contents` is the store a
 client sees, a map from object id to its bytes.
 */
module BlobStore {
  import opened CacheIndex
  import opened PageCache
  import opened BlobLayout
  import opened BlobBytes

  /** What a client knows of an object: its size and every byte of its extent. */
  datatype Blob = Blob(size: nat, bytes: seq<Byte>)

  type Store = map<nat, Blob>

  // ---- the table shows the contents ----

  ghost predicate HasId(objects: seq<Obj>, id: nat) {
    exists i :: 0 <= i < |objects| && objects[i].inUse && objects[i].id == id
  }

  ghost predicate Depicts(objects: seq<Obj>, flat: seq<Page>, contents: Store) {
    && (forall i :: 0 <= i < |objects| && objects[i].inUse ==>
          && objects[i].start + objects[i].npages <= |flat|
          && objects[i].id in contents
          && contents[objects[i].id] == Blob(objects[i].size, Bytes(flat, objects[i].start, objects[i].npages)))
    && (forall id :: id in contents ==> HasId(objects, id))
  }

  ghost predicate IdsDistinct(objects: seq<Obj>) {
    forall i, j :: 0 <= i < j < |objects| && objects[i].inUse && objects[j].inUse ==> objects[i].id != objects[j].id
  }

  /** Replacing the entry of one id, whether it was in use before or not. */
  lemma DepictsUpdate(objects: seq<Obj>, flat: seq<Page>, contents: Store, i: nat, o: Obj)
    requires Depicts(objects, flat, contents) && IdsDistinct(objects) && i < |objects|
    requires o.inUse && o.start + o.npages <= |flat|
    requires objects[i].inUse ==> objects[i].id == o.id
    requires !objects[i].inUse ==> o.id !in contents
    ensures Depicts(objects[i := o], flat, contents[o.id := Blob(o.size, Bytes(flat, o.start, o.npages))])
  {
    hide Bytes;
    var after := objects[i := o];
    assert after[i].inUse && after[i].id == o.id;
    forall id | id in contents && id != o.id ensures HasId(after, id) {
      var j :| 0 <= j < |objects| && objects[j].inUse && objects[j].id == id;
      assert after[j].inUse && after[j].id == id;
    }
  }

  lemma DepictsRemove(objects: seq<Obj>, flat: seq<Page>, contents: Store, i: nat)
    requires Depicts(objects, flat, contents) && IdsDistinct(objects) && i < |objects| && objects[i].inUse
    ensures Depicts(objects[i := objects[i].(inUse := false)], flat, contents - {objects[i].id})
  {
    hide Bytes;
    var after := objects[i := objects[i].(inUse := false)];
    forall id | id in contents && id != objects[i].id ensures HasId(after, id) {
      var j :| 0 <= j < |objects| && objects[j].inUse && objects[j].id == id;
      assert after[j].inUse && after[j].id == id;
    }
  }

  /** Changing pages inside one object's extent changes that object's bytes only. */
  lemma DepictsWrite(l: Layout, leak: nat, f: seq<Page>, g: seq<Page>, contents: Store, i: nat)
    requires Tidy(l, leak) && Depicts(l.objects, f, contents)
    requires i < |l.objects| && l.objects[i].inUse && |f| == |g|
    requires l.objects[i].start + l.objects[i].npages <= |g|
    requires forall p :: 0 <= p < |f| && !(l.objects[i].start <= p < l.objects[i].start + l.objects[i].npages) ==>
      f[p] == g[p]
    ensures Depicts(l.objects, g, contents[l.objects[i].id :=
                      Blob(l.objects[i].size, Bytes(g, l.objects[i].start, l.objects[i].npages))])
  {
    hide Bytes, Sum, ObjPages, ObjMarks, SpanPages, SpansFit, SpansApart, SpansOffObjects;
    forall j | 0 <= j < |l.objects| && l.objects[j].inUse && j != i
      ensures l.objects[j].id != l.objects[i].id
      ensures Bytes(f, l.objects[j].start, l.objects[j].npages) == Bytes(g, l.objects[j].start, l.objects[j].npages)
    {
      BytesSame(f, g, l.objects[j].start, l.objects[j].npages);
    }
  }

  // ---- what a client may rely on ----

  ghost predicate CreateStep(s: Store, t: Store, size: nat, id: int) {
    if id == -1 then t == s
    else id > 0 && id !in s && t.Keys == s.Keys + {id as nat} && t - {id as nat} == s &&
         t[id].size == size && |t[id].bytes| >= size
  }

  ghost predicate DeleteStep(s: Store, t: Store, id: nat, r: int) {
    if id !in s then r == -1 && t == s else r == 0 && t == s - {id}
  }

  /** Resizing keeps every byte the object already had, even when the size shrinks. */
  ghost predicate ResizeStep(s: Store, t: Store, id: nat, size: nat, r: int) {
    if id !in s then r == -1 && t == s
    else if r == -1 then t == s && size > |s[id].bytes|
    else && r == 0 && t.Keys == s.Keys && t - {id} == s - {id}
         && t[id].size == size && size <= |t[id].bytes| && s[id].bytes <= t[id].bytes
  }

  ghost predicate ReadStep(s: Store, id: nat, off: nat, len: nat, r: int, data: seq<Byte>) {
    if id !in s then r == -1
    else && r == |data|
         && r == (if off >= s[id].size then 0 else if off + len > s[id].size then s[id].size - off else len)
         && (r > 0 ==> off + |data| <= |s[id].bytes| && data == s[id].bytes[off..off + |data|])
  }

  ghost predicate WriteStep(s: Store, t: Store, id: nat, off: nat, buf: seq<Byte>, r: int) {
    if id !in s then r == -1 && t == s
    else if r == -1 then t == s && off + |buf| > |s[id].bytes|
    else && r == |buf| && t.Keys == s.Keys && t - {id} == s - {id}
         && t[id].size == (if off + |buf| > s[id].size then off + |buf| else s[id].size)
         && |s[id].bytes| <= |t[id].bytes| && off + |buf| <= |t[id].bytes|
         && (forall k :: 0 <= k < |t[id].bytes| && off <= k < off + |buf| ==> t[id].bytes[k] == buf[k - off])
         && (forall k :: 0 <= k < |s[id].bytes| && !(off <= k < off + |buf|) ==> t[id].bytes[k] == s[id].bytes[k])
  }

  // ---- every run of the store ----

  datatype Step =
    | Create(size: nat, newId: int)
    | Delete(id: nat, r: int)
    | Resize(id: nat, size: nat, r: int)
    | Read(id: nat, off: nat, len: nat, r: int, data: seq<Byte>)
    | Write(id: nat, off: nat, buf: seq<Byte>, r: int)
    | Sync

  ghost predicate StepOk(s: Store, t: Store, e: Step) {
    match e
    case Create(size, newId) => CreateStep(s, t, size, newId)
    case Delete(id, r) => DeleteStep(s, t, id, r)
    case Resize(id, size, r) => ResizeStep(s, t, id, size, r)
    case Read(id, off, len, r, data) => t == s && ReadStep(s, id, off, len, r, data)
    case Write(id, off, buf, r) => WriteStep(s, t, id, off, buf, r)
    case Sync => t == s
  }

  ghost predicate IsRun(stores: seq<Store>, steps: seq<Step>) {
    |stores| == |steps| + 1 && forall i :: 0 <= i < |steps| ==> StepOk(stores[i], stores[i + 1], steps[i])
  }

  /** The step can change byte `pos` of object `id`. */
  predicate Disturbs(e: Step, id: nat, pos: nat) {
    match e
    case Delete(d, r) => d == id && r == 0
    case Write(w, off, buf, r) => w == id && r != -1 && off <= pos < off + |buf|
    case _ => false
  }

  lemma UndisturbedStep(s: Store, t: Store, e: Step, id: nat, pos: nat)
    requires StepOk(s, t, e) && id in s && pos < |s[id].bytes| && !Disturbs(e, id, pos)
    ensures id in t && pos < |t[id].bytes| && t[id].bytes[pos] == s[id].bytes[pos]
  {
    match e
    case Create(_, c) =>
      if c != -1 {
        assert id in t - {c as nat};
      }
    case Delete(d, _) =>
    case Resize(d, _, r) =>
      if d != id && d in s && r != -1 {
        assert id in s - {d} && (t - {d})[id] == (s - {d})[id];
      }
    case Read(_, _, _, _, _) =>
    case Write(d, _, _, r) =>
      if d != id && d in s && r != -1 {
        assert id in s - {d} && (t - {d})[id] == (s - {d})[id];
      }
    case Sync =>
  }

  lemma {:induction false} UndisturbedRun(stores: seq<Store>, steps: seq<Step>, i: nat, j: nat, id: nat, pos: nat)
    requires IsRun(stores, steps) && i <= j <= |steps|
    requires id in stores[i] && pos < |stores[i][id].bytes|
    requires forall k :: i <= k < j ==> !Disturbs(steps[k], id, pos)
    ensures id in stores[j] && pos < |stores[j][id].bytes|
    ensures stores[j][id].bytes[pos] == stores[i][id].bytes[pos]
    decreases j - i
  {
    if i < j {
      UndisturbedStep(stores[i], stores[i + 1], steps[i], id, pos);
      UndisturbedRun(stores, steps, i + 1, j, id, pos);
    }
  }

  /**
   A read returns the bytes last written, over every run: if step `i` wrote byte `pos` of
   an object and no later step deleted the object or wrote that byte again, a read at
   step `j` that covers `pos` delivers it.
   */
  lemma LastWriteWins(stores: seq<Store>, steps: seq<Step>, i: nat, j: nat, id: nat, pos: nat)
    requires IsRun(stores, steps) && i < j < |steps|
    requires steps[i].Write? && steps[i].id == id && steps[i].r > 0 && id in stores[i]
    requires steps[i].off <= pos < steps[i].off + |steps[i].buf|
    requires steps[j].Read? && steps[j].id == id && steps[j].off <= pos < steps[j].off + |steps[j].data|
    requires forall k :: i < k < j ==> !Disturbs(steps[k], id, pos)
    ensures steps[j].data[pos - steps[j].off] == steps[i].buf[pos - steps[i].off]
  {
    assert StepOk(stores[i], stores[i + 1], steps[i]);
    assert StepOk(stores[j], stores[j + 1], steps[j]);
    UndisturbedRun(stores, steps, i + 1, j, id, pos);
  }

  // ---- the store itself ----

  /** The superblock counters and the object table as kept in the metadata sectors. */
  datatype Meta = Meta(objects: seq<Obj>, nextPage: nat, totalPages: nat, nextId: nat, nobjects: nat)

  class ObjectStore {
    const pages: Cache
    var objects: seq<Obj>
    var spans: seq<Span>
    var nextPage: nat
    var totalPages: nat
    var nextId: nat
    var nobjects: nat
    var freeTotal: nat
    var saved: Meta
    ghost var contents: Store
    ghost var leak: nat

    function L(): Layout
      reads this
    {
      Layout(objects, spans, nextPage, totalPages, nextId, nobjects, freeTotal)
    }

    ghost predicate InPlace()
      reads this
    {
      Tidy(L(), leak) && NoSpanAtTip(L())
    }

    ghost predicate Coherent()
      reads this, pages
    {
      && pages.Valid() && |pages.flat| == |pages.disk| == U32
      && InPlace()
      && Depicts(objects, pages.flat, contents)
    }

    ghost predicate Valid()
      reads this, pages
    {
      Coherent() && MetaOk(L(), leak, saved)
    }

    function CurrentMeta(): Meta
      reads this
    {
      Meta(objects, nextPage, totalPages, nextId, nobjects)
    }

    /** blobstore_init on a device without a superblock (format_new). */
    constructor (slots: nat, device: seq<Page>)
      requires 0 < slots < SIZE && |device| == U32
      ensures Valid() && contents == map[] && leak == 0 && saved == CurrentMeta() && fresh(pages)
      ensures nextId == 1 && nextPage == 0 && totalPages == MAX_PAGES && !HasSpan(L(), 1)
      ensures forall i :: 0 <= i < |objects| ==> !objects[i].inUse
    {
      pages := new Cache(slots, device);
      objects := seq(MAX_OBJECTS, _ => Obj(0, 0, 0, 0, false));
      spans := seq(FREE_MAX, _ => Span(0, 0, false));
      nextPage, totalPages, nextId, nobjects, freeTotal := 0, MAX_PAGES, 1, 0, 0;
      saved := Meta(seq(MAX_OBJECTS, _ => Obj(0, 0, 0, 0, false)), 0, MAX_PAGES, 1, 0);
      contents, leak := map[], 0;
      new;
      FreshTidy(L());
      MetaNow(L(), leak);
    }

    /** find_obj */
    method FindObj(id: nat) returns (i: int)
      ensures i == -1 <==> !HasId(objects, id)
      ensures i != -1 ==> 0 <= i < |objects| && objects[i].inUse && objects[i].id == id
      ensures Coherent() ==> (i == -1 <==> id !in contents)
    {
      hide Bytes;
      i := 0;
      while i < |objects|
        invariant 0 <= i <= |objects|
        invariant forall j :: 0 <= j < i ==> !(objects[j].inUse && objects[j].id == id)
      {
        if objects[i].inUse && objects[i].id == id {
          return;
        }
        i := i + 1;
      }
      i := -1;
    }

    /** free_span_take: the smallest free span that is large enough, carved from its front. */
    method SpanTake(need: nat) returns (start: int, ghost best: nat)
      requires InPlace() && 0 < need < U32
      modifies `spans, `freeTotal, `leak
      ensures InPlace()
      ensures start == -1 ==>
        && L() == old(L()) && leak == old(leak)
        && forall i :: 0 <= i < |spans| && spans[i].inUse ==> spans[i].npages < need
      ensures start != -1 ==>
        && best < |old(spans)| && old(spans)[best].inUse && need <= old(spans)[best].npages && need <= old(freeTotal)
        && start == old(spans)[best].start && L() == SpanTaken(old(L()), best, need)
        && leak == old(leak) + need && Vacant(L(), start, need)
        && forall i :: 0 <= i < |old(spans)| && old(spans)[i].inUse && need <= old(spans)[i].npages ==>
             old(spans)[best].npages <= old(spans)[i].npages
    {
      hide Accounted, ObjectsFit, ObjectsApart, SpansApart, SpansOffObjects, Vacant;
      var chosen := -1;
      var bestExtra: nat := U32 - 1;
      best := 0;
      var i := 0;
      while i < |spans|
        invariant 0 <= i <= |spans| && -1 <= chosen < i
        invariant chosen == -1 ==>
          && bestExtra == U32 - 1
          && forall j :: 0 <= j < i && spans[j].inUse ==> spans[j].npages < need
        invariant chosen != -1 ==>
          && spans[chosen].inUse && spans[chosen].npages == need + bestExtra
          && forall j :: 0 <= j < i && spans[j].inUse && need <= spans[j].npages ==>
               spans[chosen].npages <= spans[j].npages
      {
        if spans[i].inUse && spans[i].npages >= need {
          var extra := spans[i].npages - need;
          assert extra < U32 - 1;
          if extra < bestExtra {
            bestExtra := extra;
            chosen := i;
          }
        }
        i := i + 1;
      }
      if chosen < 0 {
        return -1, 0;
      }
      best := chosen;
      start := spans[chosen].start;
      SpanWithinTotal(L(), leak, chosen);
      TakeTidy(L(), leak, chosen, need);
      if spans[chosen].npages > need {
        spans := spans[chosen := Span(spans[chosen].start + need, spans[chosen].npages - need, true)];
      } else {
        spans := spans[chosen := spans[chosen].(inUse := false)];
      }
      freeTotal := freeTotal - need;
      leak := leak + need;
    }

    /** The extent of blobstore_create: a free span if one fits, otherwise pages at the tip. */
    method ReservePages(npages: nat) returns (start: int)
      requires InPlace() && 0 < npages < U32
      modifies `spans, `freeTotal, `nextPage, `leak
      ensures start >= -1 && (start == -1 <==> !Reserves(old(L()), npages))
      ensures start == -1 ==> L() == old(L()) && leak == old(leak)
      ensures start != -1 ==> leak == old(leak) + npages
      ensures start != -1 && !TipWraps(old(L()), npages) ==> InPlace() && Vacant(L(), start, npages)
      ensures start != -1 && !TipWraps(old(L()), npages) && old(MetaOk(L(), leak, saved)) ==> MetaOk(L(), leak, saved)
      ensures start != -1 && !HasSpan(old(L()), npages) ==>
        start == old(nextPage) && L() == old(L()).(nextPage := Add32(old(nextPage), npages))
    {
      hide Tidy, NoSpanAtTip, Vacant, MetaOk;
      assert Sized(L()) by {
        TidySized(L(), leak);
      }
      ghost var l, best := L(), 0;
      start, best := SpanTake(npages);
      if start != -1 && MetaOk(l, old(leak), saved) {
        MetaTaken(l, old(leak), saved, best, npages);
      }
      if start == -1 {
        if Add32(nextPage, npages) > totalPages {
          return -1;
        }
        if nextPage + npages < U32 {
          BumpTidy(L(), leak, npages);
          if MetaOk(l, leak, saved) {
            MetaBumped(l, leak, saved, npages);
          }
        }
        start := nextPage;
        nextPage := Add32(nextPage, npages);
        leak := leak + npages;
      }
    }

    /** blobstore_create: the new id, or -1.  Without a free table entry the pages found are lost. */
    method Create(permitted: bool, size: nat) returns (id: int)
      requires Valid() && size < U64 && nextId < U32 - 1
      modifies this
      ensures id == -1 <==> CreateRefused(old(L()), permitted, size)
      ensures Valid() && CreateStep(old(contents), contents, size, id) <==> CreateSound(old(L()), permitted, size)
      ensures leak == old(leak) +
        if permitted && Reserves(old(L()), PagesFor32(size)) && !HasSlot(old(objects)) then PagesFor32(size) else 0
      ensures nextId == old(nextId) + if id == -1 then 0 else 1
      ensures id != -1 ==> id == old(nextId) && saved == CurrentMeta()
      ensures id != -1 && !HasSpan(old(L()), PagesFor32(size)) ==>
        exists slot: nat :: slot < |old(objects)| && !old(objects)[slot].inUse &&
          L() == Placed(old(L()).(nextPage := Add32(old(nextPage), PagesFor32(size))), slot,
                        Obj(id, old(nextPage), PagesFor32(size), size % U32, true))
    {
      hide Good, Tidy, NoSpanAtTip, MetaOk, Vacant, Depicts, CreateStep, TipWraps, HasSpan, HasSlot, Reserves, Placed,
           PagesFor32;
      ghost var l := L();
      RefusedStep(contents, size);
      if !permitted {
        return -1;
      }
      PageCountExactIff(size);
      var npages := PagesFor32(size);
      var start := ReservePages(npages);
      if start == -1 {
        return -1;
      }
      ghost var slot;
      id, slot := PlaceObject(start, npages, size);
      if id == -1 {
        NoSlotSound(l, L(), old(leak), npages);
      } else if Valid() && CreateStep(old(contents), contents, size, id) {
        CreateFitted(l, old(leak), old(contents), L(), leak, pages.flat, contents, size, id);
      }
    }

    /** The slot search and the new table entry of blobstore_create. */
    method PlaceObject(start: nat, npages: nat, size: nat) returns (id: int, ghost slot: nat)
      requires leak >= npages
      modifies `objects, `nextId, `nobjects, `contents, `leak, `saved
      ensures id == -1 <==> !HasSlot(old(objects))
      ensures id == -1 ==> L() == old(L()) && contents == old(contents) && leak == old(leak) && saved == old(saved)
      ensures id != -1 ==>
        && id == old(nextId) && nextId == old(nextId) + 1 && leak == old(leak) - npages && saved == CurrentMeta()
        && slot < |old(objects)| && !old(objects)[slot].inUse
        && L() == Placed(old(L()), slot, Obj(id, start, npages, size % U32, true))
      ensures id != -1 && old(Valid() && Vacant(L(), start, npages)) && PagesFor(size) <= npages ==>
        Valid() && CreateStep(old(contents), contents, size, id)
    {
      hide Good, Tidy, NoSpanAtTip, MetaOk, Vacant, Depicts, CreateStep, Bytes;
      var free := FreeSlot();
      slot := 0;
      if free == -1 {
        return -1, 0;
      }
      slot := free;
      id := nextId;
      ghost var l, o := L(), Obj(nextId, start, npages, size % U32, true);
      leak := leak - npages;
      if old(Valid() && Vacant(L(), start, npages)) && PagesFor(size) <= npages {
        NewObjectShown(l, leak, pages.flat, contents, slot, o, size);
        contents := contents[nextId := Blob(o.size, Bytes(pages.flat, o.start, o.npages))];
      }
      objects := objects[free := Obj(nextId, start, npages, size % U32, true)];
      nextId := nextId + 1;
      nobjects := nobjects + 1;
      saved := CurrentMeta();
      if InPlace() {
        MetaNow(L(), leak);
      }
    }

    /** blob_rewind_tip: give back every free span that ends at the tip. */
    method RewindTip()
      requires Tidy(L(), leak)
      modifies `nextPage, `freeTotal, `spans
      ensures InPlace()
    {
      hide Accounted, ObjectsFit, ObjectsApart, SpansApart, SpansOffObjects;
      while true
        invariant Tidy(L(), leak)
        decreases nextPage
      {
        var i := 0;
        while i < |spans| && !(spans[i].inUse && spans[i].start + spans[i].npages == nextPage)
          invariant 0 <= i <= |spans|
          invariant forall j :: 0 <= j < i && spans[j].inUse ==> spans[j].start + spans[j].npages != nextPage
        {
          i := i + 1;
        }
        if i == |spans| {
          break;
        }
        SpanWithinTotal(L(), leak, i);
        RewindTidy(L(), leak, i);
        nextPage := spans[i].start;
        freeTotal := freeTotal - spans[i].npages;
        spans := spans[i := spans[i].(inUse := false)];
      }
    }

    /** free_span_add: remember a freed extent, or lose it when the span table is full. */
    method SpanAdd(start: nat, npages: nat)
      requires InPlace() && Vacant(L(), start, npages) && start + npages != nextPage && npages <= leak
      modifies `spans, `freeTotal, `leak
      ensures InPlace()
      ensures leak == old(leak) - npages ||
              (leak == old(leak) && L() == old(L()) && forall i :: 0 <= i < |spans| ==> spans[i].inUse)
    {
      hide Tidy, NoSpanAtTip, Vacant;
      var i := 0;
      while i < |spans|
        invariant 0 <= i <= |spans|
        invariant forall j :: 0 <= j < i ==> spans[j].inUse
      {
        if !spans[i].inUse {
          SpanAddTidy(L(), leak - npages, i, Span(start, npages, true));
          spans := spans[i := Span(start, npages, true)];
          freeTotal := freeTotal + npages;
          leak := leak - npages;
          return;
        }
        i := i + 1;
      }
    }

    /** blobstore_delete */
    method Delete(id: nat) returns (r: int)
      requires Valid()
      modifies this, pages
      ensures Valid() && DeleteStep(old(contents), contents, id, r)
      ensures leak != old(leak) ==> leak > old(leak) && forall i :: 0 <= i < |spans| ==> old(spans)[i].inUse
      ensures nextId == old(nextId)
      ensures r == 0 ==> saved == CurrentMeta()
    {
      hide Good, Tidy, NoSpanAtTip, MetaOk, Depicts, Vacant;
      var i := FindObj(id);
      if i == -1 {
        return -1;
      }
      var start := objects[i].start;
      var npages := objects[i].npages;
      pages.EvictRange(start, npages);
      ClearEntry(i);
      ReleaseExtent(start, npages);
      saved := CurrentMeta();
      MetaNow(L(), leak);
      r := 0;
    }

    /** The table update of blobstore_delete; the extent counts as leaked until it is released. */
    method ClearEntry(i: nat)
      requires Coherent() && i < |objects| && objects[i].inUse
      modifies `objects, `nobjects, `leak, `contents
      ensures Coherent() && contents == old(contents) - {old(objects)[i].id}
      ensures leak == old(leak) + old(objects)[i].npages
      ensures Vacant(L(), old(objects)[i].start, old(objects)[i].npages)
    {
      hide Good, Tidy, NoSpanAtTip, MetaOk, Depicts, Vacant;
      FreedExtent(L(), leak, pages.flat, contents, i);
      leak := leak + objects[i].npages;
      contents := contents - {objects[i].id};
      objects := objects[i := objects[i].(inUse := false)];
      if nobjects > 0 {
        nobjects := nobjects - 1;
      }
    }

    /** The end of blobstore_delete: lower the tip over the extent, or remember it as free. */
    method ReleaseExtent(start: nat, npages: nat)
      requires InPlace() && Vacant(L(), start, npages) && npages <= leak
      modifies `nextPage, `freeTotal, `spans, `leak
      ensures InPlace()
      ensures leak == old(leak) - npages || (leak == old(leak) && forall i :: 0 <= i < |spans| ==> old(spans)[i].inUse)
    {
      hide Tidy, NoSpanAtTip, Vacant;
      if start + npages == nextPage {
        LowerTidy(L(), leak - npages, start, npages);
        leak := leak - npages;
        nextPage := start;
        RewindTip();
      } else {
        SpanAdd(start, npages);
      }
    }

    /** blobstore_resize: within the pages it has, or further only for the object at the tip. */
    method Resize(id: nat, size: nat) returns (r: int)
      requires Valid() && size < U64
      modifies `objects, `nextPage, `contents, `saved
      ensures r == 0 || r == -1
      ensures r == -1 ==> L() == old(L()) && contents == old(contents) && saved == old(saved)
      ensures r == 0 ==> saved == CurrentMeta()
      ensures if id !in old(contents) then r == -1 && Valid() && ResizeStep(old(contents), contents, id, size, r)
              else
                var o := ObjNamed(old(objects), id);
                && (r == -1 <==> ResizeRefused(old(L()), o, size))
                && (Valid() && ResizeStep(old(contents), contents, id, size, r) <==> ResizeSound(old(L()), o, size))
      ensures r == 0 ==> HasId(objects, id) && HasId(old(objects), id)
      ensures r == 0 ==> forall j :: 0 <= j < |objects| && objects[j].inUse && objects[j].id == id ==>
        objects[j].start == ObjNamed(old(objects), id).start
    {
      hide Good, Tidy, NoSpanAtTip, MetaOk, Depicts, ResizeStep, Bytes, PagesFor32, PagesFor, HasId;
      ghost var l := L();
      var i := FindObj(id);
      if i == -1 {
        ResizeAbsent(contents, id, size);
        return -1;
      }
      ghost var o := objects[i];
      NamedIs(l, leak, i);
      PageCountExactIff(size);
      TidyObject(l, leak, i);
      var need := PagesFor32(size);
      if need <= objects[i].npages {
        if ResizeSound(l, o, size) {
          ResizeShown(l, leak, pages.flat, contents, i, o.npages, size);
          contents := contents[id := Blob(size, Bytes(pages.flat, o.start, o.npages))];
        }
        objects := objects[i := objects[i].(size := size % U32)];
      } else {
        if objects[i].start + objects[i].npages != nextPage {
          ResizeDenied(l, leak, pages.flat, contents, i, size);
          return -1;
        }
        var extra := need - objects[i].npages;
        if Add32(nextPage, extra) > totalPages {
          ResizeDenied(l, leak, pages.flat, contents, i, size);
          return -1;
        }
        if ResizeSound(l, o, size) {
          ResizeShown(l, leak, pages.flat, contents, i, need, size);
          contents := contents[id := Blob(size, Bytes(pages.flat, o.start, need))];
        }
        objects := objects[i := objects[i].(npages := need, size := size % U32)];
        nextPage := Add32(nextPage, extra);
      }
      saved := CurrentMeta();
      r := 0;
      if InPlace() {
        MetaNow(L(), leak);
      }
      StillNamed(l, leak, objects, i);
      if Valid() && ResizeStep(old(contents), contents, id, size, 0) {
        ResizeFitted(l, o, old(contents), L(), leak, pages.flat, contents, id, size);
      }
    }

    /** blobstore_read: up to `len` bytes from `off`, page by page through the cache. */
    method Read(id: nat, off: nat, len: nat) returns (r: int, data: seq<Byte>)
      requires Valid() && off < U64 && len < U64
      modifies pages
      ensures Valid() && pages.flat == old(pages.flat)
      ensures ReadStep(contents, id, off, len, r, data) <==>
        id !in contents || off >= contents[id].size || off + len < U64
    {
      hide Good, Tidy, NoSpanAtTip, MetaOk, Depicts, Bytes;
      data := [];
      var i := FindObj(id);
      if i == -1 {
        return -1, [];
      }
      ObjectShown(L(), leak, pages.flat, contents, i);
      var o := objects[i];
      if off >= o.size {
        return 0, [];
      }
      var n := if (off + len) % U64 > o.size then o.size - off else len;
      data := CopyOut(o.start, off, n);
      r := n;
      EndOf(off, len);
      if off + len < U64 {
        PeekedInside(pages.flat, o.start, o.npages, off, n);
      }
    }

    /** The copy loop of blobstore_read. */
    method CopyOut(start: nat, off: nat, n: nat) returns (data: seq<Byte>)
      requires pages.Valid() && |pages.flat| == |pages.disk| == U32
      modifies pages
      ensures pages.Valid() && pages.flat == old(pages.flat) && |pages.disk| == U32
      ensures data == Peeked(pages.flat, start, off, n)
    {
      hide Good, PageOf;
      data := [];
      var done := 0;
      while done < n
        invariant pages.Valid() && pages.flat == old(pages.flat) && |pages.disk| == U32
        invariant 0 <= done <= n && data == Peeked(pages.flat, start, off, done)
      {
        var pos := (off + done) % U64;
        var page := PageOf(start, pos);
        var pageOff := pos % PAGE_SIZE;
        var chunk := PAGE_SIZE - pageOff;
        if chunk > n - done {
          chunk := n - done;
        }
        PeekChunk(pages.flat, start, off, done, chunk);
        var piece := pages.ReadPage(page, pageOff, chunk);
        data := data + piece;
        done := done + chunk;
      }
    }

    /** blobstore_write: grow if needed, then patch page by page; whole pages are not fetched first. */
    method Write(id: nat, off: nat, buf: seq<Byte>) returns (r: int)
      requires Valid() && off < U64 && |buf| < U64
      modifies `objects, `nextPage, `contents, `saved, pages
      ensures if id !in old(contents) then r == -1 && Valid() && WriteStep(old(contents), contents, id, off, buf, r)
              else Valid() && WriteStep(old(contents), contents, id, off, buf, r) <==>
                   WriteSound(old(L()), ObjNamed(old(objects), id), off, |buf|)
      ensures id in old(contents) ==>
        var o, end := ObjNamed(old(objects), id), (off + |buf|) % U64;
        (r == -1 <==> end > o.size && ResizeRefused(old(L()), o, end)) && (end <= o.size ==> L() == old(L()))
      ensures r == -1 ==> L() == old(L()) && pages.flat == old(pages.flat)
      ensures r != -1 ==>
        && r == |buf| && HasId(old(objects), id) && |old(pages.flat)| == U32
        && pages.flat == Poked(old(pages.flat), ObjNamed(old(objects), id).start, off, buf, |buf|)
    {
      hide Good, Tidy, NoSpanAtTip, MetaOk, Depicts, Bytes, WriteStep, ResizeStep, ResizeSound, ResizeRefused, HasId,
           Poked;
      ghost var l, s := L(), contents;
      var i := FindObj(id);
      if i == -1 {
        WriteRefused(contents, id, off, buf);
        return -1;
      }
      ghost var o := objects[i];
      NamedIs(l, leak, i);
      ObjectShown(l, leak, pages.flat, s, i);
      TidyObject(l, leak, i);
      EndOf(off, |buf|);
      var end := (off + |buf|) % U64;
      if end > objects[i].size {
        r := Resize(id, end);
        if r != 0 {
          ResizeFailedWrite(l, o, s, id, off, buf);
          return -1;
        }
        i := FindObj(id);
      }
      ghost var sound, grown, flat := WriteSound(l, o, off, |buf|), contents, pages.flat;
      CopyIn(objects[i].start, off, buf);
      r := |buf|;
      if sound {
        WroteInside(L(), leak, flat, s, grown, i, off, buf);
        contents := contents[id := Blob(objects[i].size, Spliced(contents[id].bytes, off, buf))];
      } else if Valid() && WriteStep(s, contents, id, off, buf, r) {
        WriteFitted(l, o, s, L(), leak, pages.flat, contents, id, off, buf);
      }
    }

    /** The copy loop of blobstore_write. */
    method CopyIn(start: nat, off: nat, buf: seq<Byte>)
      requires pages.Valid() && |pages.flat| == |pages.disk| == U32
      modifies pages
      ensures pages.Valid() && |pages.flat| == |pages.disk| == |old(pages.flat)| == U32
      ensures pages.flat == Poked(old(pages.flat), start, off, buf, |buf|)
    {
      hide Good, Patched, PageOf;
      ghost var flat := pages.flat;
      var done := 0;
      while done < |buf|
        invariant 0 <= done <= |buf|
        invariant pages.Valid() && |pages.flat| == |pages.disk| == U32
        invariant pages.flat == Poked(flat, start, off, buf, done)
      {
        var pos := (off + done) % U64;
        var page := PageOf(start, pos);
        var pageOff := pos % PAGE_SIZE;
        var chunk := PAGE_SIZE - pageOff;
        if chunk > |buf| - done {
          chunk := |buf| - done;
        }
        var piece := buf[done..done + chunk];
        ghost var f := pages.flat;
        ghost var under := pages.WritePage(page, pageOff, piece);
        WholePage(under, f[page], pageOff, piece);
        PokeChunk(flat, start, off, buf, done, chunk);
        done := done + chunk;
      }
    }

    /** blobstore_sync: afterwards the device holds every byte and the table. */
    method Sync() returns (r: int)
      requires Valid()
      modifies `saved, pages
      ensures Valid() && r == 0
      ensures pages.disk == pages.flat && saved == CurrentMeta()
    {
      pages.FlushAll();
      saved := CurrentMeta();
      MetaNow(L(), leak);
      r := 0;
    }

    /** blobstore_load: start over from the device.  The objects are the same ones with the bytes the device has,
        and pages lost at the tip since the table was saved are back. */
    method Load() returns (r: int)
      requires Valid()
      modifies this, pages
      ensures r == 0 && pages.live == 0 && pages.flat == old(pages.disk) && CurrentMeta() == old(saved)
      ensures Valid() && objects == old(objects) && contents.Keys == old(contents).Keys
      ensures nextPage <= old(nextPage) && leak == old(leak) - (old(nextPage) - nextPage) && spans == old(spans)
      ensures old(pages.disk == pages.flat) ==> contents == old(contents)
    {
      hide Tidy, NoSpanAtTip, Depicts, Bytes;
      ghost var flat := pages.flat;
      MetaBack(L(), leak, saved);
      pages.Reset();
      RereadShows(L(), leak, flat, pages.flat, contents);
      contents := Reread(objects, pages.flat, contents.Keys);
      leak := leak - (nextPage - saved.nextPage);
      objects, nextPage, totalPages := saved.objects, saved.nextPage, saved.totalPages;
      nextId, nobjects := saved.nextId, saved.nobjects;
      MetaNow(L(), leak);
      r := 0;
    }

    /** blobstore_check: 0 exactly when every test on the tables holds. */
    method Check() returns (r: int)
      ensures r == 0 || r == -1
      ensures r == 0 <==> CheckPasses(L())
      ensures Valid() ==> r == 0
    {
      if Tidy(L(), leak) {
        TidyPasses(L(), leak);
      }
      if totalPages == 0 || totalPages > MAX_PAGES || nextPage > totalPages {
        return -1;
      }
      var live := 0;
      var i := 0;
      while i < |objects|
        invariant 0 <= i <= |objects|
        invariant live == Sum(ObjMarks(objects[..i]))
        invariant forall k :: 0 <= k < i && objects[k].inUse ==> ObjectPasses(L(), k)
      {
        assert objects[..i + 1][..i] == objects[..i];
        MarksExtend(objects, i);
        if objects[i].inUse {
          live := live + 1;
          var ok := CheckObject(i);
          if !ok {
            return -1;
          }
        }
        i := i + 1;
      }
      assert objects[..i] == objects;
      i := 0;
      while i < |spans|
        invariant 0 <= i <= |spans|
        invariant forall k :: 0 <= k < i && spans[k].inUse ==> SpanPasses(L(), k)
      {
        if spans[i].inUse {
          var ok := CheckSpan(i);
          if !ok {
            return -1;
          }
        }
        i := i + 1;
      }
      r := if live == nobjects then 0 else -1;
    }

    /** The tests of blobstore_check on one object: its own fields, then every later object. */
    method CheckObject(i: nat) returns (ok: bool)
      requires i < |objects|
      ensures ok <==> ObjectPasses(L(), i)
    {
      var o := objects[i];
      if o.id == 0 || o.npages == 0 {
        return false;
      }
      if Add32(o.start, o.npages) > nextPage || Add32(o.start, o.npages) > totalPages {
        return false;
      }
      if o.npages < CheckedNeed(o.size) {
        return false;
      }
      var j := i + 1;
      while j < |objects|
        invariant i < j <= |objects|
        invariant forall k :: i < k < j && objects[k].inUse ==>
          !Clash(o.start, o.npages, objects[k].start, objects[k].npages)
      {
        if objects[j].inUse && Clash(o.start, o.npages, objects[j].start, objects[j].npages) {
          return false;
        }
        j := j + 1;
      }
      ok := true;
    }

    /** The tests of blobstore_check on one free span. */
    method CheckSpan(i: nat) returns (ok: bool)
      requires i < |spans|
      ensures ok <==> SpanPasses(L(), i)
    {
      var f := spans[i];
      if f.npages == 0 || Add32(f.start, f.npages) > totalPages {
        return false;
      }
      var j := i + 1;
      while j < |spans|
        invariant i < j <= |spans|
        invariant forall k :: i < k < j && spans[k].inUse ==> !Clash(f.start, f.npages, spans[k].start, spans[k].npages)
      {
        if spans[j].inUse && Clash(f.start, f.npages, spans[j].start, spans[j].npages) {
          return false;
        }
        j := j + 1;
      }
      j := 0;
      while j < |objects|
        invariant 0 <= j <= |objects|
        invariant forall k :: 0 <= k < j && objects[k].inUse ==>
          !Clash(f.start, f.npages, objects[k].start, objects[k].npages)
      {
        if objects[j].inUse && Clash(f.start, f.npages, objects[j].start, objects[j].npages) {
          return false;
        }
        j := j + 1;
      }
      ok := true;
    }

    method FreeSlot() returns (slot: int)
      ensures slot == -1 ==> forall i :: 0 <= i < |objects| ==> objects[i].inUse
      ensures slot != -1 ==> 0 <= slot < |objects| && !objects[slot].inUse
    {
      slot := 0;
      while slot < |objects|
        invariant 0 <= slot <= |objects|
        invariant forall i :: 0 <= i < slot ==> objects[i].inUse
      {
        if !objects[slot].inUse {
          return;
        }
        slot := slot + 1;
      }
      slot := -1;
    }
  }

  // ---- any list of operations on a store is a run ----

  datatype Command =
    | DoCreate(permitted: bool, size: nat)
    | DoDelete(id: nat)
    | DoResize(id: nat, size: nat)
    | DoRead(id: nat, off: nat, len: nat)
    | DoWrite(id: nat, off: nat, buf: seq<Byte>)
    | DoSync

  /** Arguments on which the 32- and 64-bit arithmetic is right in every state. */
  predicate Bounded(c: Command) {
    match c
    case DoCreate(_, size) => size < SIZE_LIMIT
    case DoResize(_, size) => size < SIZE_LIMIT
    case DoRead(_, off, len) => off + len < U64
    case DoWrite(_, off, buf) => off + |buf| < SIZE_LIMIT
    case _ => true
  }

  /** The step is the command with its results filled in. */
  predicate Answers(c: Command, e: Step) {
    match c
    case DoCreate(_, size) => e.Create? && e.size == size
    case DoDelete(id) => e.Delete? && e.id == id
    case DoResize(id, size) => e.Resize? && e.id == id && e.size == size
    case DoRead(id, off, len) => e.Read? && e.id == id && e.off == off && e.len == len
    case DoWrite(id, off, buf) => e.Write? && e.id == id && e.off == off && e.buf == buf
    case DoSync => e.Sync?
  }

  /** The call keeps its step, in the state with layout `l`. */
  ghost predicate CallSound(l: Layout, c: Command) {
    match c
    case DoCreate(permitted, size) => size < U64 && l.nextId < U32 - 1 && CreateSound(l, permitted, size)
    case DoResize(id, size) => size < U64 && (HasId(l.objects, id) ==> ResizeSound(l, ObjNamed(l.objects, id), size))
    case DoRead(id, off, len) =>
      off < U64 && len < U64 && (HasId(l.objects, id) ==> off >= ObjNamed(l.objects, id).size || off + len < U64)
    case DoWrite(id, off, buf) =>
      off < U64 && |buf| < U64 && (HasId(l.objects, id) ==> WriteSound(l, ObjNamed(l.objects, id), off, |buf|))
    case _ => true
  }

  /** Decides that before the call. */
  method Decide(st: ObjectStore, c: Command) returns (b: bool)
    requires st.Valid()
    ensures b <==> CallSound(st.L(), c)
  {
    hide Good, Tidy, NoSpanAtTip, MetaOk, Depicts, CreateSound, ResizeSound, WriteSound, HasId;
    match c {
      case DoCreate(permitted, size) =>
        b := size < U64 && st.nextId < U32 - 1 && CreateSound(st.L(), permitted, size);
      case DoDelete(id) =>
        b := true;
      case DoResize(id, size) =>
        var i := st.FindObj(id);
        Named(st.L(), st.leak, i);
        b := size < U64 && (i == -1 || ResizeSound(st.L(), st.objects[i], size));
      case DoRead(id, off, len) =>
        var i := st.FindObj(id);
        Named(st.L(), st.leak, i);
        b := off < U64 && len < U64 && (i == -1 || off >= st.objects[i].size || off + len < U64);
      case DoWrite(id, off, buf) =>
        var i := st.FindObj(id);
        Named(st.L(), st.leak, i);
        b := off < U64 && |buf| < U64 && (i == -1 || WriteSound(st.L(), st.objects[i], off, |buf|));
      case DoSync =>
        b := true;
    }
  }

  lemma Named(l: Layout, leak: nat, i: int)
    requires Tidy(l, leak) && (i != -1 ==> 0 <= i < |l.objects| && l.objects[i].inUse)
    ensures i != -1 ==> HasId(l.objects, l.objects[i].id) && ObjNamed(l.objects, l.objects[i].id) == l.objects[i]
  {
    hide Tidy, HasId;
    if i != -1 {
      NamedIs(l, leak, i);
    }
  }

  method Do(st: ObjectStore, c: Command) returns (e: Step)
    requires st.Valid() && CallSound(st.L(), c)
    modifies st, st.pages
    ensures st.Valid() && StepOk(old(st.contents), st.contents, e) && Answers(c, e)
    ensures st.nextId <= old(st.nextId) + 1
  {
    hide Good, Tidy, NoSpanAtTip, MetaOk, Depicts, CreateStep, DeleteStep, ResizeStep, ReadStep, WriteStep, CreateSound,
         ResizeSound, WriteSound, HasId;
    ghost var known := st.contents;
    KnownIds(st.L(), st.leak, st.pages.flat, known, c);
    match c {
      case DoCreate(permitted, size) =>
        var id := st.Create(permitted, size);
        e := Create(size, id);
      case DoDelete(id) =>
        var r := st.Delete(id);
        e := Delete(id, r);
      case DoResize(id, size) =>
        var r := st.Resize(id, size);
        e := Resize(id, size, r);
      case DoRead(id, off, len) =>
        var r, data := st.Read(id, off, len);
        e := Read(id, off, len, r, data);
      case DoWrite(id, off, buf) =>
        var r := st.Write(id, off, buf);
        e := Write(id, off, buf, r);
      case DoSync =>
        var r := st.Sync();
        e := Step.Sync;
    }
  }

  /** The table and the contents agree on the object a command names. */
  lemma KnownIds(l: Layout, leak: nat, flat: seq<Page>, contents: Store, c: Command)
    requires Tidy(l, leak) && Depicts(l.objects, flat, contents)
    ensures (c.DoRead? || c.DoResize? || c.DoWrite?) && c.id in contents ==>
      HasId(l.objects, c.id) && contents[c.id].size == ObjNamed(l.objects, c.id).size
  {
    hide Tidy, Bytes;
    if (c.DoRead? || c.DoResize? || c.DoWrite?) && c.id in contents {
      var i :| 0 <= i < |l.objects| && l.objects[i].inUse && l.objects[i].id == c.id;
      NamedIs(l, leak, i);
    }
  }

  /** Commands within the bounds are sound in every state, as long as there are ids. */
  lemma SmallEnough(l: Layout, leak: nat, c: Command)
    requires Tidy(l, leak) && Bounded(c) && l.nextId < U32 - 1
    ensures CallSound(l, c)
    ensures c.DoCreate? ==> CreateSound(l, c.permitted, c.size)
  {
    hide CreateSound, ResizeSound, ResizeRefused, Tidy, HasId;
    TidySized(l, leak);
    match c
    case DoCreate(permitted, size) =>
      SmallSound(l, Obj(0, 0, 0, 0, false), size);
      NotPermitted(l, size);
    case DoResize(id, size) =>
      if HasId(l.objects, id) {
        SmallSound(l, ObjNamed(l.objects, id), size);
      }
    case DoWrite(id, off, buf) =>
      if HasId(l.objects, id) {
        SmallSound(l, ObjNamed(l.objects, id), off + |buf|);
      }
    case _ =>
  }

  lemma NotPermitted(l: Layout, size: nat)
    ensures CreateSound(l, false, size)
  {
  }

  /** Every list of operations on a valid store makes a run of its contents, up to the first call that would not
      keep its step; with arguments within the bounds there is none. */
  method Drive(st: ObjectStore, cs: seq<Command>) returns (steps: seq<Step>, ghost stores: seq<Store>)
    requires st.Valid()
    modifies st, st.pages
    ensures st.Valid() && IsRun(stores, steps) && |steps| <= |cs|
    ensures stores[0] == old(st.contents) && stores[|steps|] == st.contents
    ensures forall i :: 0 <= i < |steps| ==> Answers(cs[i], steps[i])
    ensures |steps| < |cs| ==> !CallSound(st.L(), cs[|steps|])
    ensures (forall i :: 0 <= i < |cs| ==> Bounded(cs[i])) && old(st.nextId) + |cs| < U32 ==> |steps| == |cs|
  {
    hide Good, Tidy, NoSpanAtTip, MetaOk, Depicts, StepOk, Bounded, Answers, CallSound;
    steps, stores := [], [st.contents];
    for n := 0 to |cs|
      invariant st.Valid() && st.nextId <= old(st.nextId) + n
      invariant |steps| == n && IsRun(stores, steps) && stores[0] == old(st.contents) && stores[n] == st.contents
      invariant forall i :: 0 <= i < n ==> Answers(cs[i], steps[i])
    {
      if Bounded(cs[n]) && st.nextId < U32 - 1 {
        SmallEnough(st.L(), st.leak, cs[n]);
      }
      var sound := Decide(st, cs[n]);
      if !sound {
        return;
      }
      var e := Do(st, cs[n]);
      RunExtends(stores, steps, st.contents, e);
      steps, stores := steps + [e], stores + [st.contents];
    }
  }

  lemma RunExtends(stores: seq<Store>, steps: seq<Step>, t: Store, e: Step)
    requires IsRun(stores, steps) && StepOk(stores[|steps|], t, e)
    ensures IsRun(stores + [t], steps + [e])
  {
    hide StepOk;
    var ss, es := stores + [t], steps + [e];
    forall i | 0 <= i < |es| ensures StepOk(ss[i], ss[i + 1], es[i]) {
      if i < |steps| {
        assert ss[i] == stores[i] && ss[i + 1] == stores[i + 1] && es[i] == steps[i];
      }
    }
  }

  // ---- a write that wraps ----

  /** For an object whose extent ends where another one's starts, a two-byte write to the other at
      offset 2^64 - 1 changes its last byte. */
  lemma WrapHitsNeighbour(flat: seq<Page>, o: Obj, other: Obj, x: Byte, y: Byte)
    requires |flat| == U32 && o.npages > 0 && o.start + o.npages == other.start < U32
    ensures var g := Poked(flat, other.start, U64 - 1, [x, y], 2);
            Bytes(g, o.start, o.npages)[o.npages * PAGE_SIZE - 1] == x
  {
    hide Poked, Patched;
    PokeBeforeStart(flat, other.start, x, y);
    var g, last := Poked(flat, other.start, U64 - 1, [x, y], 2), o.npages * PAGE_SIZE - 1;
    Quotient(last, o.npages - 1, PAGE_SIZE - 1, PAGE_SIZE);
    assert Bytes(g, o.start, o.npages)[last] == ByteAt(g, o.start, last);
  }

  /** Such a write on a store that was just formatted: two objects of one page, the second written. */
  method WrapAtWork(slots: nat, device: seq<Page>, x: Byte, y: Byte) returns (st: ObjectStore)
    requires 0 < slots < SIZE && |device| == U32
    ensures HasId(st.objects, 1) && |st.pages.flat| == U32
    ensures var o := ObjNamed(st.objects, 1);
            o.npages == 1 && o.start < U32 && Bytes(st.pages.flat, o.start, 1)[PAGE_SIZE - 1] == x
  {
    hide Good, Tidy, NoSpanAtTip, MetaOk, Depicts, WriteStep, Poked, Bytes, HasId, Placed;
    st := TwoPages(slots, device);
    ghost var o, other := ObjNamed(st.objects, 1), ObjNamed(st.objects, 2);
    ghost var flat := st.pages.flat;
    var r := st.Write(2, U64 - 1, [x, y]);
    WrapHitsNeighbour(flat, o, other, x, y);
  }

  /** A formatted store with one page for each of two new objects. */
  method TwoPages(slots: nat, device: seq<Page>) returns (st: ObjectStore)
    requires 0 < slots < SIZE && |device| == U32
    ensures fresh(st) && fresh(st.pages) && st.Valid() && 2 in st.contents
    ensures HasId(st.objects, 1) && HasId(st.objects, 2)
    ensures var o, other := ObjNamed(st.objects, 1), ObjNamed(st.objects, 2);
            o.start == 0 && o.npages == 1 && other.start == 1 && other.npages == 1 && other.size == PAGE_SIZE
  {
    hide Good, Tidy, NoSpanAtTip, MetaOk, Depicts, CreateSound, Bytes, HasId, HasSpan, HasSlot;
    assert PagesFor32(PAGE_SIZE) == 1 && PAGE_SIZE % U32 == PAGE_SIZE;
    st := new ObjectStore(slots, device);
    SmallEnough(st.L(), st.leak, DoCreate(true, PAGE_SIZE));
    TidySized(st.L(), st.leak);
    FreeEntry(st.objects, 0);
    ghost var none := st.L();
    var a := st.Create(true, PAGE_SIZE);
    ghost var one := st.L();
    ghost var i: nat :| i < |none.objects| && one == Placed(none.(nextPage := 1), i, Obj(1, 0, 1, PAGE_SIZE, true));
    SmallEnough(st.L(), st.leak, DoCreate(true, PAGE_SIZE));
    SpansSame(none, one);
    FreeEntry(st.objects, if i == 0 then 1 else 0);
    var b := st.Create(true, PAGE_SIZE);
    ghost var j: nat :| j < |one.objects| && !one.objects[j].inUse
                        && st.L() == Placed(one.(nextPage := 2), j, Obj(2, 1, 1, PAGE_SIZE, true));
    assert st.objects[i] == Obj(1, 0, 1, PAGE_SIZE, true) && st.objects[j] == Obj(2, 1, 1, PAGE_SIZE, true);
    NamedIs(st.L(), st.leak, i);
    NamedIs(st.L(), st.leak, j);
  }

  lemma FreeEntry(objects: seq<Obj>, i: nat)
    requires i < |objects| && !objects[i].inUse
    ensures HasSlot(objects)
  {
  }

  lemma SpansSame(l: Layout, m: Layout)
    requires l.spans == m.spans
    ensures HasSpan(l, 1) <==> HasSpan(m, 1)
  {
  }

  lemma MarksExtend(objects: seq<Obj>, i: nat)
    requires i < |objects|
    ensures Sum(ObjMarks(objects[..i + 1])) == Sum(ObjMarks(objects[..i])) + (if objects[i].inUse then 1 else 0)
  {
    var a, b := ObjMarks(objects[..i + 1]), ObjMarks(objects[..i]);
    assert a[..i] == b;
  }

  lemma TidySized(l: Layout, leak: nat)
    requires Tidy(l, leak)
    ensures Sized(l) && l.nextId > 0
  {
  }

  lemma NewObjectShown(l: Layout, leak: nat, flat: seq<Page>, contents: Store, slot: nat, o: Obj, size: nat)
    requires Tidy(l, leak + o.npages) && NoSpanAtTip(l) && Vacant(l, o.start, o.npages)
    requires Depicts(l.objects, flat, contents) && |flat| == U32
    requires slot < |l.objects| && !l.objects[slot].inUse
    requires o.inUse && o.id == l.nextId && o.size == size % U32 && PagesFor(size) <= o.npages
    ensures o.start + o.npages <= |flat|
    ensures Tidy(Placed(l, slot, o), leak) && NoSpanAtTip(Placed(l, slot, o))
    ensures var t := contents[o.id := Blob(o.size, Bytes(flat, o.start, o.npages))];
            Depicts(l.objects[slot := o], flat, t) && CreateStep(contents, t, size, o.id)
  {
    hide Sum, ObjPages, ObjMarks, SpanPages;
    assert size <= PagesFor(size) * PAGE_SIZE;
    PlaceTidy(l, leak, slot, o);
    assert forall id :: id in contents ==> HasId(l.objects, id);
    DepictsUpdate(l.objects, flat, contents, slot, o);
    var t := contents[o.id := Blob(o.size, Bytes(flat, o.start, o.npages))];
    assert t - {o.id} == contents;
  }

  /** A removed object leaves its extent vacant and its id unknown. */
  lemma FreedExtent(l: Layout, leak: nat, flat: seq<Page>, contents: Store, i: nat)
    requires Tidy(l, leak) && NoSpanAtTip(l) && Depicts(l.objects, flat, contents)
    requires i < |l.objects| && l.objects[i].inUse
    ensures var m := Removed(l, i);
            && Tidy(m, leak + l.objects[i].npages) && NoSpanAtTip(m)
            && Vacant(m, l.objects[i].start, l.objects[i].npages)
            && Depicts(m.objects, flat, contents - {l.objects[i].id})
  {
    hide Sum, ObjPages, ObjMarks, SpanPages, Bytes, Vacant;
    RemoveTidy(l, leak, i);
    DepictsRemove(l.objects, flat, contents, i);
  }

  lemma EndOf(off: nat, len: nat)
    requires off < U64 && len < U64
    ensures (off + len) % U64 == if off + len < U64 then off + len else off + len - U64
  {
  }

  /** Under a whole page it does not matter what was there. */
  lemma WholePage(under: Page, page: Page, off: nat, piece: seq<Byte>)
    requires off + |piece| <= PAGE_SIZE && (under == page || |piece| == PAGE_SIZE)
    ensures Patched(under, off, piece) == Patched(page, off, piece)
  {
  }

  /** A write that stays inside the object, grown if need be. */
  lemma WroteInside(l: Layout, leak: nat, flat: seq<Page>, s: Store, grown: Store, i: nat, off: nat, buf: seq<Byte>)
    requires Tidy(l, leak) && Depicts(l.objects, flat, grown) && |flat| == U32 && i < |l.objects| && l.objects[i].inUse
    requires var id := l.objects[i].id;
             id in s && if off + |buf| > s[id].size then ResizeStep(s, grown, id, off + |buf|, 0) else grown == s
    ensures var o := l.objects[i];
            && o.id in grown && off + |buf| <= |grown[o.id].bytes|
            && var t := grown[o.id := Blob(o.size, Spliced(grown[o.id].bytes, off, buf))];
            && Depicts(l.objects, Poked(flat, o.start, off, buf, |buf|), t)
            && WriteStep(s, t, o.id, off, buf, |buf|)
  {
    hide Tidy, Depicts, Bytes, Spliced, Poked, WriteStep;
    var o := l.objects[i];
    ObjectShown(l, leak, flat, grown, i);
    var g := Poked(flat, o.start, off, buf, |buf|);
    PokedInside(flat, o.start, o.npages, off, buf, |buf|);
    assert buf[..|buf|] == buf;
    DepictsWrite(l, leak, flat, g, grown, i);
    var t := grown[o.id := Blob(o.size, Spliced(grown[o.id].bytes, off, buf))];
    WriteShown(s, grown, t, o.id, off, buf);
  }

  // ---- the saved table ----

  /** The saved table is the current one, but that pages may have been lost at the tip since; without those the
      layout is in order too. */
  ghost predicate MetaOk(l: Layout, leak: nat, m: Meta) {
    && m == Meta(l.objects, m.nextPage, l.totalPages, l.nextId, l.nobjects)
    && m.nextPage <= l.nextPage && l.nextPage - m.nextPage <= leak
    && Tidy(l.(nextPage := m.nextPage), leak - (l.nextPage - m.nextPage)) && NoSpanAtTip(l.(nextPage := m.nextPage))
  }

  lemma MetaNow(l: Layout, leak: nat)
    requires Tidy(l, leak) && NoSpanAtTip(l)
    ensures MetaOk(l, leak, Meta(l.objects, l.nextPage, l.totalPages, l.nextId, l.nobjects))
  {
    hide Tidy, NoSpanAtTip;
    assert l.(nextPage := l.nextPage) == l;
  }

  lemma MetaTaken(l: Layout, leak: nat, m: Meta, i: nat, need: nat)
    requires MetaOk(l, leak, m) && i < |l.spans| && l.spans[i].inUse && 0 < need <= l.spans[i].npages
    requires need <= l.freeTotal
    ensures MetaOk(SpanTaken(l, i, need), leak + need, m)
  {
    hide Tidy, NoSpanAtTip;
    var low := l.(nextPage := m.nextPage);
    TakeTidy(low, leak - (l.nextPage - m.nextPage), i, need);
    assert SpanTaken(low, i, need) == SpanTaken(l, i, need).(nextPage := m.nextPage);
  }

  lemma MetaBumped(l: Layout, leak: nat, m: Meta, npages: nat)
    requires MetaOk(l, leak, m)
    ensures MetaOk(l.(nextPage := l.nextPage + npages), leak + npages, m)
  {
    hide Tidy, NoSpanAtTip;
    assert l.(nextPage := l.nextPage + npages).(nextPage := m.nextPage) == l.(nextPage := m.nextPage);
  }

  /** Going back to the saved table. */
  lemma MetaBack(l: Layout, leak: nat, m: Meta)
    requires MetaOk(l, leak, m)
    ensures m.nextPage <= l.nextPage && l.nextPage - m.nextPage <= leak
    ensures var b := Layout(m.objects, l.spans, m.nextPage, m.totalPages, m.nextId, m.nobjects, l.freeTotal);
            Tidy(b, leak - (l.nextPage - m.nextPage)) && NoSpanAtTip(b) && m.objects == l.objects
  {
    hide Tidy, NoSpanAtTip;
    assert l.(nextPage := m.nextPage) ==
      Layout(m.objects, l.spans, m.nextPage, m.totalPages, m.nextId, m.nobjects, l.freeTotal);
  }

  /** The objects named by `ids`, with the bytes of another array. */
  ghost function Reread(objects: seq<Obj>, flat: seq<Page>, ids: set<nat>): Store
    requires forall id :: id in ids ==>
      HasId(objects, id) && ObjNamed(objects, id).start + ObjNamed(objects, id).npages <= |flat|
  {
    map id | id in ids ::
      Blob(ObjNamed(objects, id).size, Bytes(flat, ObjNamed(objects, id).start, ObjNamed(objects, id).npages))
  }

  lemma RereadShows(l: Layout, leak: nat, f: seq<Page>, g: seq<Page>, contents: Store)
    requires Tidy(l, leak) && Depicts(l.objects, f, contents) && |f| == |g|
    ensures forall id :: id in contents ==>
      HasId(l.objects, id) && ObjNamed(l.objects, id).start + ObjNamed(l.objects, id).npages <= |g|
    ensures Depicts(l.objects, g, Reread(l.objects, g, contents.Keys))
    ensures f == g ==> Reread(l.objects, g, contents.Keys) == contents
  {
    hide Tidy, Bytes;
    forall i | 0 <= i < |l.objects| && l.objects[i].inUse
      ensures HasId(l.objects, l.objects[i].id) && ObjNamed(l.objects, l.objects[i].id) == l.objects[i]
    {
      NamedIs(l, leak, i);
    }
  }

  // ---- the entry of an id ----

  ghost function ObjNamed(objects: seq<Obj>, id: nat): (o: Obj)
    requires HasId(objects, id)
    ensures o.inUse && o.id == id && o in objects
  {
    var i :| 0 <= i < |objects| && objects[i].inUse && objects[i].id == id;
    objects[i]
  }

  lemma NamedIs(l: Layout, leak: nat, i: nat)
    requires Tidy(l, leak) && i < |l.objects| && l.objects[i].inUse
    ensures HasId(l.objects, l.objects[i].id) && ObjNamed(l.objects, l.objects[i].id) == l.objects[i]
  {
    hide Accounted, ObjectsFit, SpansApart, SpansOffObjects, SpansFit;
    var o := ObjNamed(l.objects, l.objects[i].id);
    var j :| 0 <= j < |l.objects| && l.objects[j] == o;
  }

  /** Changing an entry's pages and size leaves it the entry of its id. */
  lemma StillNamed(l: Layout, leak: nat, after: seq<Obj>, i: nat)
    requires Tidy(l, leak) && i < |l.objects| && l.objects[i].inUse
    requires |after| == |l.objects| && after[i].inUse && after[i].id == l.objects[i].id &&
        after[i].start == l.objects[i].start
    requires forall j :: 0 <= j < |after| && j != i ==> after[j] == l.objects[j]
    ensures HasId(after, l.objects[i].id)
    ensures forall j :: 0 <= j < |after| && after[j].inUse && after[j].id == l.objects[i].id ==> j == i
  {
    hide Accounted, ObjectsFit, SpansApart, SpansOffObjects, SpansFit;
  }

  lemma BlobBound(l: Layout, leak: nat, flat: seq<Page>, contents: Store, id: nat)
    requires Tidy(l, leak) && Depicts(l.objects, flat, contents) && id in contents
    ensures |contents[id].bytes| <= MAX_PAGES * PAGE_SIZE
  {
    var i :| 0 <= i < |l.objects| && l.objects[i].inUse && l.objects[i].id == id;
    ObjectShown(l, leak, flat, contents, i);
  }

  lemma RefusedStep(s: Store, size: nat)
    ensures CreateStep(s, s, size, -1)
  {
  }

  /** Pages taken for nothing: in order unless the tip wrapped. */
  lemma NoSlotSound(l: Layout, m: Layout, leak: nat, npages: nat)
    requires Tidy(l, leak) && Reserves(l, npages) && npages > 0
    requires !HasSpan(l, npages) ==> m == l.(nextPage := Add32(l.nextPage, npages))
    ensures TipWraps(l, npages) ==> !Tidy(m, leak + npages)
  {
    hide ObjectsFit, ObjectsApart, SpansFit, SpansApart, SpansOffObjects, Sum, HasSpan;
  }

  /** Whatever a valid store holds has a size the 32-bit arithmetic is right about. */
  lemma CreateFitted(l: Layout, leak0: nat, s: Store, m: Layout, leak: nat, flat: seq<Page>, t: Store, size: nat,
      id: nat)
    requires Tidy(l, leak0) && Tidy(m, leak) && Depicts(m.objects, flat, t) && CreateStep(s, t, size, id)
    ensures CreateSound(l, true, size)
  {
    hide Depicts, Tidy;
    TidySized(l, leak0);
    BlobBound(m, leak, flat, t, id);
    SmallSound(l, Obj(0, 0, 0, 0, false), size);
  }

  lemma ResizeFitted(l: Layout, o: Obj, s: Store, m: Layout, leak: nat, flat: seq<Page>, t: Store, id: nat, size: nat)
    requires l.nextPage <= MAX_PAGES && Tidy(m, leak) && Depicts(m.objects, flat, t)
    requires id in s && ResizeStep(s, t, id, size, 0)
    ensures ResizeSound(l, o, size)
  {
    hide Depicts, Tidy;
    BlobBound(m, leak, flat, t, id);
    SmallSound(l, o, size);
  }

  lemma WriteFitted(l: Layout, o: Obj, s: Store, m: Layout, leak: nat, flat: seq<Page>, t: Store, id: nat,
      off: nat, buf: seq<Byte>)
    requires l.nextPage <= MAX_PAGES && Tidy(m, leak) && Depicts(m.objects, flat, t)
    requires id in s && WriteStep(s, t, id, off, buf, |buf|)
    ensures WriteSound(l, o, off, |buf|)
  {
    hide Depicts, Tidy;
    BlobBound(m, leak, flat, t, id);
    SmallSound(l, o, off + |buf|);
  }

  lemma TidyObject(l: Layout, leak: nat, i: nat)
    requires Tidy(l, leak) && i < |l.objects| && l.objects[i].inUse
    ensures 0 < l.objects[i].npages &&
        l.objects[i].start + l.objects[i].npages <= l.nextPage <= l.totalPages <= MAX_PAGES
  {
  }

  lemma ResizeAbsent(contents: Store, id: nat, size: nat)
    requires id !in contents
    ensures ResizeStep(contents, contents, id, size, -1)
  {
  }

  /** More pages than the object has in 32 bits means more bytes than it has. */
  lemma ResizeDenied(l: Layout, leak: nat, flat: seq<Page>, contents: Store, i: nat, size: nat)
    requires Tidy(l, leak) && Depicts(l.objects, flat, contents) && size < U64
    requires i < |l.objects| && l.objects[i].inUse && PagesFor32(size) > l.objects[i].npages
    ensures ResizeStep(contents, contents, l.objects[i].id, size, -1)
  {
    ObjectShown(l, leak, flat, contents, i);
    PageCountExactIff(size);
  }

  /** Another size within the pages an object has, or more pages at the tip. */
  lemma ResizeShown(l: Layout, leak: nat, flat: seq<Page>, contents: Store, i: nat, npages: nat, size: nat)
    requires Tidy(l, leak) && NoSpanAtTip(l) && Depicts(l.objects, flat, contents) && |flat| == U32
    requires i < |l.objects| && l.objects[i].inUse && l.objects[i].npages <= npages && PagesFor(size) <= npages
    requires npages > l.objects[i].npages ==>
      l.objects[i].start + l.objects[i].npages == l.nextPage && l.objects[i].start + npages <= l.totalPages
    ensures l.objects[i].start + npages <= |flat| && size % U32 == size
    ensures var o := l.objects[i].(npages := npages, size := size);
            var m := l.(objects := l.objects[i := o], nextPage := l.nextPage + (npages - l.objects[i].npages));
            var t := contents[o.id := Blob(size, Bytes(flat, o.start, npages))];
            && Tidy(m, leak) && NoSpanAtTip(m)
            && Depicts(m.objects, flat, t) && ResizeStep(contents, t, o.id, size, 0)
  {
    hide Sum, ObjPages, ObjMarks, SpanPages;
    var o := l.objects[i].(npages := npages, size := size);
    assert ObjFits(l.objects[i], l.nextPage, l.nextId);
    assert size <= PagesFor(size) * PAGE_SIZE;
    ResizeTidy(l, leak, i, npages, size);
    DepictsUpdate(l.objects, flat, contents, i, o);
    var t := contents[o.id := Blob(size, Bytes(flat, o.start, npages))];
    assert t - {o.id} == contents - {o.id};
    BytesPrefix(flat, o.start, l.objects[i].npages, npages);
  }

  lemma ObjectShown(l: Layout, leak: nat, flat: seq<Page>, contents: Store, i: nat)
    requires Tidy(l, leak) && Depicts(l.objects, flat, contents) && i < |l.objects| && l.objects[i].inUse
    ensures l.objects[i].start + l.objects[i].npages <= |flat|
    ensures l.objects[i].start + l.objects[i].npages <= l.nextPage <= MAX_PAGES
    ensures l.objects[i].id in contents && l.objects[i].size <= l.objects[i].npages * PAGE_SIZE
    ensures contents[l.objects[i].id] == Blob(l.objects[i].size, Bytes(flat, l.objects[i].start, l.objects[i].npages))
  {
    assert ObjFits(l.objects[i], l.nextPage, l.nextId);
  }

  lemma WriteRefused(contents: Store, id: nat, off: nat, buf: seq<Byte>)
    requires id !in contents
    ensures WriteStep(contents, contents, id, off, buf, -1)
  {
  }

  lemma FewPages(size: nat, npages: nat)
    requires 0 < npages <= MAX_PAGES && size <= npages * PAGE_SIZE
    ensures size % U64 == size && PagesFor32(size) <= npages
  {
    PageCountExactIff(size);
  }

  lemma ResizeFailedWrite(l: Layout, o: Obj, s: Store, id: nat, off: nat, buf: seq<Byte>)
    requires id in s && |s[id].bytes| == o.npages * PAGE_SIZE && 0 < o.npages <= MAX_PAGES
    requires ResizeRefused(l, o, (off + |buf|) % U64)
    ensures WriteStep(s, s, id, off, buf, -1)
  {
    var size := off + |buf|;
    if size <= o.npages * PAGE_SIZE {
      FewPages(size, o.npages);
    }
  }

  /** Growing and then splicing is a write. */
  lemma WriteShown(s: Store, grown: Store, t: Store, id: nat, off: nat, buf: seq<Byte>)
    requires id in s && id in grown && off + |buf| <= |grown[id].bytes|
    requires if off + |buf| > s[id].size then ResizeStep(s, grown, id, off + |buf|, 0) else grown == s
    requires t == grown[id := Blob(grown[id].size, Spliced(grown[id].bytes, off, buf))]
    ensures WriteStep(s, t, id, off, buf, |buf|)
  {
    assert t - {id} == grown - {id};
  }
}
