/**
 Where the blob store keeps its objects (kernel/blobstore.c): an object table, a bump
 "tip" and a small table of freed spans.  This module says what every operation keeps
 and accounts for every page below the tip.
 */
module BlobLayout {
  import opened CacheIndex

  const U32: nat := 0x1_0000_0000
  const U64: nat := 0x1_0000_0000_0000_0000
  const MAX_OBJECTS: nat := 256
  const FREE_MAX: nat := 32
  const MAX_PAGES: nat := 65536

  datatype Obj = Obj(id: nat, start: nat, npages: nat, size: nat, inUse: bool)

  datatype Span = Span(start: nat, npages: nat, inUse: bool)

  datatype Layout = Layout(objects: seq<Obj>, spans: seq<Span>, nextPage: nat, totalPages: nat,
                           nextId: nat, nobjects: nat, freeTotal: nat)

  // ---- request sizes in the source's arithmetic ----

  /** The pages a request of `size` bytes needs; even an empty object has one. */
  function PagesFor(size: nat): (n: nat)
    ensures n >= 1 && n * PAGE_SIZE >= size
  {
    if size == 0 then 1 else (size + PAGE_SIZE - 1) / PAGE_SIZE
  }

  /** The same as computed in C: a 64-bit sum, divided, then cut to 32 bits. */
  function PagesFor32(size: nat): (n: nat)
    ensures 1 <= n < U32
  {
    var n := ((size + PAGE_SIZE - 1) % U64) / PAGE_SIZE % U32;
    if n == 0 then 1 else n
  }

  function Add32(a: nat, b: nat): nat {
    (a + b) % U32
  }

  /** Beyond this size the 32-bit page arithmetic of create and resize can wrap. */
  const SIZE_LIMIT: nat := (U32 - 1 - MAX_PAGES) * PAGE_SIZE

  /** The 32-bit page count is right exactly for sizes whose true count fits 32 bits. */
  lemma PageCountExactIff(size: nat)
    requires size < U64
    ensures PagesFor32(size) == PagesFor(size) <==> size <= (U32 - 1) * PAGE_SIZE
  {
  }

  /** The 32-bit tip test accepts an extent exactly when it fits or when the sum wraps. */
  lemma TipTestExactIff(nextPage: nat, totalPages: nat, npages: nat)
    requires nextPage <= totalPages <= MAX_PAGES && npages < U32
    ensures Add32(nextPage, npages) <= totalPages <==> nextPage + npages <= totalPages || nextPage + npages >= U32
  {
  }

  // ---- what the 32-bit tests let through ----

  /** The largest size whose page count fits 32 bits. */
  const COUNTABLE: nat := (U32 - 1) * PAGE_SIZE

  predicate HasSpan(l: Layout, npages: nat) {
    exists i :: 0 <= i < |l.spans| && l.spans[i].inUse && l.spans[i].npages >= npages
  }

  predicate HasSlot(objects: seq<Obj>) {
    exists i :: 0 <= i < |objects| && !objects[i].inUse
  }

  /** blobstore_create finds pages: a span, or by the 32-bit test the tip. */
  predicate Reserves(l: Layout, npages: nat) {
    HasSpan(l, npages) || Add32(l.nextPage, npages) <= l.totalPages
  }

  /** The pages come from the tip and the 32-bit sum there wraps. */
  predicate TipWraps(l: Layout, npages: nat) {
    !HasSpan(l, npages) && l.nextPage + npages >= U32
  }

  predicate CreateRefused(l: Layout, permitted: bool, size: nat) {
    !permitted || !Reserves(l, PagesFor32(size)) || !HasSlot(l.objects)
  }

  /** The calls of blobstore_create that keep the store in order: those that find no pages, and those
      whose tip sum does not wrap and whose page count fits 32 bits or is not used. */
  predicate CreateSound(l: Layout, permitted: bool, size: nat) {
    || !permitted || !Reserves(l, PagesFor32(size))
    || (!TipWraps(l, PagesFor32(size)) && (size <= COUNTABLE || !HasSlot(l.objects)))
  }

  /** blobstore_resize turns the size down: more pages than the object has, and no room at the tip. */
  predicate ResizeRefused(l: Layout, o: Obj, size: nat) {
    && PagesFor32(size) > o.npages
    && (o.start + o.npages != l.nextPage || Add32(l.nextPage, PagesFor32(size) - o.npages) > l.totalPages)
  }

  /** The calls of blobstore_resize that keep the store in order: those it turns down, and those whose
      page count fits 32 bits and whose tip sum does not wrap. */
  predicate ResizeSound(l: Layout, o: Obj, size: nat) {
    || ResizeRefused(l, o, size)
    || (size <= COUNTABLE && (PagesFor(size) <= o.npages || l.nextPage + (PagesFor(size) - o.npages) < U32))
  }

  /** The calls of blobstore_write that keep the store in order: with the 64-bit end of the write inside
      the object's size nothing may have wrapped, and otherwise the resize must be in order too. */
  predicate WriteSound(l: Layout, o: Obj, off: nat, len: nat) {
    var end := (off + len) % U64;
    if end <= o.size then off + len < U64
    else ResizeRefused(l, o, end) || (off + len < U64 && ResizeSound(l, o, end))
  }

  /** Sizes up to what 2^32 - 1 - 65536 pages hold are always in order. */
  lemma SmallSound(l: Layout, o: Obj, size: nat)
    requires l.nextPage <= MAX_PAGES && size < SIZE_LIMIT
    ensures CreateSound(l, true, size) && ResizeSound(l, o, size)
  {
    PageCountExactIff(size);
  }

  /** With a page in use and no span, a request of 2^44 - 4096 bytes is granted 2^32 - 1 pages at the tip. */
  lemma CreateUnsound(l: Layout)
    requires 0 < l.nextPage <= l.totalPages <= MAX_PAGES && forall i :: 0 <= i < |l.spans| ==> !l.spans[i].inUse
    ensures PagesFor32(COUNTABLE) == U32 - 1 && Reserves(l, U32 - 1) && !CreateSound(l, true, COUNTABLE)
  {
  }

  /** A write of no byte at 2^64 - 1 makes the size 2^32 - 1 whatever the pages; one of two bytes there
      ends at 1 and is not refused; and one of 8192 bytes at 2^44 - 4096 is taken to need one page. */
  lemma WriteUnsound(l: Layout, o: Obj)
    requires o.npages > 0 && o.size <= MAX_PAGES * PAGE_SIZE
    ensures !WriteSound(l, o, U64 - 1, 0) && !WriteSound(l, o, U64 - 1, 2)
    ensures PagesFor32(COUNTABLE + 2 * PAGE_SIZE) == 1 && !WriteSound(l, o, COUNTABLE, 2 * PAGE_SIZE)
  {
  }

  // ---- sums over a table ----

  ghost function Sum(s: seq<nat>): nat {
    if s == [] then 0 else Sum(s[..|s| - 1]) + s[|s| - 1]
  }

  lemma {:induction false} SumUpdate(s: seq<nat>, i: nat, x: nat)
    requires i < |s|
    ensures Sum(s[i := x]) + s[i] == Sum(s) + x
  {
    var n := |s| - 1;
    if i < n {
      SumUpdate(s[..n], i, x);
      assert s[i := x][..n] == s[..n][i := x];
    } else {
      assert s[i := x][..n] == s[..n];
    }
  }

  lemma {:induction false} SumZeros(s: seq<nat>)
    requires forall i :: 0 <= i < |s| ==> s[i] == 0
    ensures Sum(s) == 0
  {
    if s != [] {
      SumZeros(s[..|s| - 1]);
    }
  }

  ghost function ObjPages(objects: seq<Obj>): seq<nat> {
    seq(|objects|, i requires 0 <= i < |objects| => if objects[i].inUse then objects[i].npages else 0)
  }

  ghost function ObjMarks(objects: seq<Obj>): seq<nat> {
    seq(|objects|, i requires 0 <= i < |objects| => if objects[i].inUse then 1 else 0)
  }

  ghost function SpanPages(spans: seq<Span>): seq<nat> {
    seq(|spans|, i requires 0 <= i < |spans| => if spans[i].inUse then spans[i].npages else 0)
  }

  lemma ObjectSums(objects: seq<Obj>, i: nat, o: Obj)
    requires i < |objects|
    ensures Sum(ObjPages(objects[i := o])) + (if objects[i].inUse then objects[i].npages else 0) ==
            Sum(ObjPages(objects)) + (if o.inUse then o.npages else 0)
    ensures Sum(ObjMarks(objects[i := o])) + (if objects[i].inUse then 1 else 0) ==
            Sum(ObjMarks(objects)) + (if o.inUse then 1 else 0)
  {
    SumUpdate(ObjPages(objects), i, if o.inUse then o.npages else 0);
    assert ObjPages(objects[i := o]) == ObjPages(objects)[i := if o.inUse then o.npages else 0];
    SumUpdate(ObjMarks(objects), i, if o.inUse then 1 else 0);
    assert ObjMarks(objects[i := o]) == ObjMarks(objects)[i := if o.inUse then 1 else 0];
  }

  lemma SpanSums(spans: seq<Span>, i: nat, f: Span)
    requires i < |spans|
    ensures Sum(SpanPages(spans[i := f])) + (if spans[i].inUse then spans[i].npages else 0) ==
            Sum(SpanPages(spans)) + (if f.inUse then f.npages else 0)
  {
    SumUpdate(SpanPages(spans), i, if f.inUse then f.npages else 0);
    assert SpanPages(spans[i := f]) == SpanPages(spans)[i := if f.inUse then f.npages else 0];
  }

  // ---- the invariant ----

  /** Two extents share no page. */
  predicate Apart(a: nat, an: nat, b: nat, bn: nat) {
    a + an <= b || b + bn <= a
  }

  ghost predicate ObjFits(o: Obj, nextPage: nat, nextId: nat) {
    0 < o.id < nextId && o.npages > 0 && o.start + o.npages <= nextPage && PagesFor(o.size) <= o.npages
  }

  ghost predicate ObjectsFit(l: Layout) {
    forall i :: 0 <= i < |l.objects| && l.objects[i].inUse ==> ObjFits(l.objects[i], l.nextPage, l.nextId)
  }

  ghost predicate ObjectsApart(objects: seq<Obj>) {
    forall i, j :: 0 <= i < j < |objects| && objects[i].inUse && objects[j].inUse ==>
      objects[i].id != objects[j].id &&
      Apart(objects[i].start, objects[i].npages, objects[j].start, objects[j].npages)
  }

  ghost predicate SpansFit(l: Layout) {
    forall i :: 0 <= i < |l.spans| && l.spans[i].inUse ==>
      l.spans[i].npages > 0 && l.spans[i].start + l.spans[i].npages <= l.nextPage
  }

  ghost predicate SpansApart(spans: seq<Span>) {
    forall i, j :: 0 <= i < j < |spans| && spans[i].inUse && spans[j].inUse ==>
      Apart(spans[i].start, spans[i].npages, spans[j].start, spans[j].npages)
  }

  ghost predicate SpansOffObjects(spans: seq<Span>, objects: seq<Obj>) {
    forall i, j :: 0 <= i < |spans| && 0 <= j < |objects| && spans[i].inUse && objects[j].inUse ==>
      Apart(spans[i].start, spans[i].npages, objects[j].start, objects[j].npages)
  }

  ghost predicate Sized(l: Layout) {
    |l.objects| == MAX_OBJECTS && |l.spans| == FREE_MAX && 0 < l.totalPages <= MAX_PAGES && l.nextPage <= l.totalPages
  }

  /** Every page below the tip is in one live object, in one free span, or leaked. */
  ghost predicate Accounted(l: Layout, leak: nat) {
    && l.nobjects == Sum(ObjMarks(l.objects))
    && l.freeTotal == Sum(SpanPages(l.spans))
    && l.nextPage == Sum(ObjPages(l.objects)) + l.freeTotal + leak
  }

  ghost predicate Tidy(l: Layout, leak: nat) {
    && Sized(l) && l.nextId > 0
    && ObjectsFit(l) && ObjectsApart(l.objects)
    && SpansFit(l) && SpansApart(l.spans) && SpansOffObjects(l.spans, l.objects)
    && Accounted(l, leak)
  }

  ghost predicate NoSpanAtTip(l: Layout) {
    forall i :: 0 <= i < |l.spans| && l.spans[i].inUse ==> l.spans[i].start + l.spans[i].npages != l.nextPage
  }

  /** An extent below the tip that neither an object nor a span touches. */
  ghost predicate Vacant(l: Layout, start: nat, npages: nat) {
    && npages > 0 && start + npages <= l.nextPage
    && (forall i :: 0 <= i < |l.objects| && l.objects[i].inUse ==>
          Apart(start, npages, l.objects[i].start, l.objects[i].npages))
    && (forall i :: 0 <= i < |l.spans| && l.spans[i].inUse ==>
          Apart(start, npages, l.spans[i].start, l.spans[i].npages))
  }

  // ---- what each change of the layout keeps ----

  lemma FreshTidy(l: Layout)
    requires Sized(l) && l.nextId == 1 && l.nextPage == 0 && l.nobjects == 0 && l.freeTotal == 0
    requires forall i :: 0 <= i < |l.objects| ==> !l.objects[i].inUse
    requires forall i :: 0 <= i < |l.spans| ==> !l.spans[i].inUse
    ensures Tidy(l, 0) && NoSpanAtTip(l)
  {
    SumZeros(ObjPages(l.objects));
    SumZeros(ObjMarks(l.objects));
    SumZeros(SpanPages(l.spans));
  }

  function Bumped(l: Layout, npages: nat): Layout {
    l.(nextPage := l.nextPage + npages)
  }

  /** Raising the tip makes the new pages vacant; until an object takes them they count as leaked. */
  lemma BumpTidy(l: Layout, leak: nat, npages: nat)
    requires Tidy(l, leak) && NoSpanAtTip(l) && npages > 0 && l.nextPage + npages <= l.totalPages
    ensures Tidy(Bumped(l, npages), leak + npages) && NoSpanAtTip(Bumped(l, npages))
    ensures Vacant(Bumped(l, npages), l.nextPage, npages)
  {
  }

  function SpanTaken(l: Layout, i: nat, need: nat): Layout
    requires i < |l.spans| && need <= l.spans[i].npages && need <= l.freeTotal
  {
    var f := l.spans[i];
    var left := if f.npages > need then Span(f.start + need, f.npages - need, true) else f.(inUse := false);
    l.(spans := l.spans[i := left], freeTotal := l.freeTotal - need)
  }

  lemma SpanWithinTotal(l: Layout, leak: nat, i: nat)
    requires Accounted(l, leak) && i < |l.spans| && l.spans[i].inUse
    ensures l.spans[i].npages <= l.freeTotal
  {
    SumUpdate(SpanPages(l.spans), i, 0);
  }

  /** Carving a free span leaves its end where it was. */
  lemma TakeTidy(l: Layout, leak: nat, i: nat, need: nat)
    requires Tidy(l, leak) && NoSpanAtTip(l)
    requires i < |l.spans| && l.spans[i].inUse && 0 < need <= l.spans[i].npages && need <= l.freeTotal
    ensures Tidy(SpanTaken(l, i, need), leak + need) && NoSpanAtTip(SpanTaken(l, i, need))
    ensures Vacant(SpanTaken(l, i, need), l.spans[i].start, need)
  {
    hide Sum, ObjPages, ObjMarks, SpanPages;
    SpanSums(l.spans, i, SpanTaken(l, i, need).spans[i]);
  }

  function Placed(l: Layout, slot: nat, o: Obj): Layout
    requires slot < |l.objects|
  {
    l.(objects := l.objects[slot := o], nextId := l.nextId + 1, nobjects := l.nobjects + 1)
  }

  lemma PlaceTidy(l: Layout, leak: nat, slot: nat, o: Obj)
    requires Tidy(l, leak + o.npages) && Vacant(l, o.start, o.npages)
    requires slot < |l.objects| && !l.objects[slot].inUse
    requires o.inUse && o.id == l.nextId && PagesFor(o.size) <= o.npages
    ensures Tidy(Placed(l, slot, o), leak)
  {
    hide Sum, ObjPages, ObjMarks, SpanPages;
    ObjectSums(l.objects, slot, o);
  }

  function Removed(l: Layout, i: nat): Layout
    requires i < |l.objects|
  {
    l.(objects := l.objects[i := l.objects[i].(inUse := false)],
       nobjects := if l.nobjects > 0 then l.nobjects - 1 else 0)
  }

  lemma RemoveTidy(l: Layout, leak: nat, i: nat)
    requires Tidy(l, leak) && NoSpanAtTip(l) && i < |l.objects| && l.objects[i].inUse
    ensures Tidy(Removed(l, i), leak + l.objects[i].npages) && NoSpanAtTip(Removed(l, i))
    ensures Vacant(Removed(l, i), l.objects[i].start, l.objects[i].npages)
  {
    hide Sum, ObjPages, ObjMarks, SpanPages;
    ObjectSums(l.objects, i, l.objects[i].(inUse := false));
  }

  lemma SpanAddTidy(l: Layout, leak: nat, i: nat, f: Span)
    requires Tidy(l, leak + f.npages) && NoSpanAtTip(l) && Vacant(l, f.start, f.npages)
    requires i < |l.spans| && !l.spans[i].inUse && f.inUse && f.start + f.npages != l.nextPage
    ensures var m := l.(spans := l.spans[i := f], freeTotal := l.freeTotal + f.npages);
            Tidy(m, leak) && NoSpanAtTip(m)
  {
    hide Sum, ObjPages, ObjMarks, SpanPages;
    SpanSums(l.spans, i, f);
  }

  /** Lowering the tip over a vacant extent that ends there. */
  lemma LowerTidy(l: Layout, leak: nat, start: nat, npages: nat)
    requires Tidy(l, leak + npages) && Vacant(l, start, npages) && start + npages == l.nextPage
    ensures Tidy(l.(nextPage := start), leak)
  {
  }

  /** Lowering the tip over a free span that ends there. */
  lemma RewindTidy(l: Layout, leak: nat, i: nat)
    requires Tidy(l, leak) && i < |l.spans| && l.spans[i].inUse
    requires l.spans[i].start + l.spans[i].npages == l.nextPage && l.spans[i].npages <= l.freeTotal
    ensures Tidy(l.(nextPage := l.spans[i].start, freeTotal := l.freeTotal - l.spans[i].npages,
                    spans := l.spans[i := l.spans[i].(inUse := false)]), leak)
  {
    hide Sum, ObjPages, ObjMarks, SpanPages;
    SpanSums(l.spans, i, l.spans[i].(inUse := false));
  }

  /** Giving the object at the tip more pages, or any object another size within its pages. */
  lemma ResizeTidy(l: Layout, leak: nat, i: nat, npages: nat, size: nat)
    requires Tidy(l, leak) && NoSpanAtTip(l) && i < |l.objects| && l.objects[i].inUse
    requires PagesFor(size) <= npages && l.objects[i].npages <= npages
    requires npages > l.objects[i].npages ==>
      l.objects[i].start + l.objects[i].npages == l.nextPage && l.objects[i].start + npages <= l.totalPages
    ensures var m := l.(objects := l.objects[i := l.objects[i].(npages := npages, size := size)],
                        nextPage := l.nextPage + (npages - l.objects[i].npages));
            Tidy(m, leak) && NoSpanAtTip(m)
  {
    hide Sum, ObjPages, ObjMarks, SpanPages;
    ObjectSums(l.objects, i, l.objects[i].(npages := npages, size := size));
  }

  // ---- the store's own checker ----

  /** The object tests of blobstore_check for entry `i`, in 32-bit arithmetic. */
  predicate ObjPasses(l: Layout, i: nat)
    requires i < |l.objects|
  {
    var o := l.objects[i];
    && o.id != 0 && o.npages != 0
    && Add32(o.start, o.npages) <= l.nextPage
    && Add32(o.start, o.npages) <= l.totalPages
    && CheckedNeed(o.size) <= o.npages
  }

  function CheckedNeed(size: nat): nat {
    var n := ((size + PAGE_SIZE - 1) % U32) / PAGE_SIZE;
    if n == 0 then 1 else n
  }

  predicate Clash(a: nat, an: nat, b: nat, bn: nat) {
    a < Add32(b, bn) && b < Add32(a, an)
  }

  ghost predicate ObjectPasses(l: Layout, i: nat)
    requires i < |l.objects|
  {
    && ObjPasses(l, i)
    && (forall j :: i < j < |l.objects| && l.objects[j].inUse ==>
          !Clash(l.objects[i].start, l.objects[i].npages, l.objects[j].start, l.objects[j].npages))
  }

  ghost predicate SpanPasses(l: Layout, i: nat)
    requires i < |l.spans|
  {
    var f := l.spans[i];
    && f.npages != 0 && Add32(f.start, f.npages) <= l.totalPages
    && (forall j :: i < j < |l.spans| && l.spans[j].inUse ==>
        !Clash(f.start, f.npages, l.spans[j].start, l.spans[j].npages))
    && (forall k :: 0 <= k < |l.objects| && l.objects[k].inUse ==>
          !Clash(f.start, f.npages, l.objects[k].start, l.objects[k].npages))
  }

  ghost predicate CheckPasses(l: Layout) {
    && 0 < l.totalPages <= MAX_PAGES && l.nextPage <= l.totalPages
    && (forall i :: 0 <= i < |l.objects| && l.objects[i].inUse ==> ObjectPasses(l, i))
    && (forall i :: 0 <= i < |l.spans| && l.spans[i].inUse ==> SpanPasses(l, i))
    && Sum(ObjMarks(l.objects)) == l.nobjects
  }

  /** No extent in use ends at or beyond 2^32. */
  ghost predicate EndsFit(l: Layout) {
    && (forall i :: 0 <= i < |l.objects| && l.objects[i].inUse ==> l.objects[i].start + l.objects[i].npages < U32)
    && (forall i :: 0 <= i < |l.spans| && l.spans[i].inUse ==> l.spans[i].start + l.spans[i].npages < U32)
  }

  /** What a passed check means then: no two extents share a page, the objects end below the tip and all the spans
      inside the device, and the object count is right. */
  lemma CheckMeans(l: Layout)
    requires CheckPasses(l) && EndsFit(l)
    ensures forall i, j :: 0 <= i < j < |l.objects| && l.objects[i].inUse && l.objects[j].inUse ==>
      Apart(l.objects[i].start, l.objects[i].npages, l.objects[j].start, l.objects[j].npages)
    ensures forall i, j :: 0 <= i < j < |l.spans| && l.spans[i].inUse && l.spans[j].inUse ==>
      Apart(l.spans[i].start, l.spans[i].npages, l.spans[j].start, l.spans[j].npages)
    ensures forall i, k :: 0 <= i < |l.spans| && 0 <= k < |l.objects| && l.spans[i].inUse && l.objects[k].inUse ==>
      Apart(l.spans[i].start, l.spans[i].npages, l.objects[k].start, l.objects[k].npages)
    ensures forall i :: 0 <= i < |l.objects| && l.objects[i].inUse ==>
      l.objects[i].start + l.objects[i].npages <= l.nextPage <= l.totalPages
    ensures forall i :: 0 <= i < |l.spans| && l.spans[i].inUse ==>
      l.spans[i].start + l.spans[i].npages <= l.totalPages
  {
    hide Sum, ObjMarks, CheckedNeed, Clash, Apart;
    forall i, j | 0 <= i < j < |l.objects| && l.objects[i].inUse && l.objects[j].inUse
      ensures Apart(l.objects[i].start, l.objects[i].npages, l.objects[j].start, l.objects[j].npages)
    {
      assert ObjectPasses(l, i);
      ClashIff(l.objects[i].start, l.objects[i].npages, l.objects[j].start, l.objects[j].npages);
    }
    forall i, j | 0 <= i < j < |l.spans| && l.spans[i].inUse && l.spans[j].inUse
      ensures Apart(l.spans[i].start, l.spans[i].npages, l.spans[j].start, l.spans[j].npages)
    {
      assert SpanPasses(l, i);
      ClashIff(l.spans[i].start, l.spans[i].npages, l.spans[j].start, l.spans[j].npages);
    }
    forall i, k | 0 <= i < |l.spans| && 0 <= k < |l.objects| && l.spans[i].inUse && l.objects[k].inUse
      ensures Apart(l.spans[i].start, l.spans[i].npages, l.objects[k].start, l.objects[k].npages)
    {
      assert SpanPasses(l, i);
      ClashIff(l.spans[i].start, l.spans[i].npages, l.objects[k].start, l.objects[k].npages);
    }
    forall i | 0 <= i < |l.objects| && l.objects[i].inUse ensures ObjPasses(l, i) {
      assert ObjectPasses(l, i);
    }
    forall i | 0 <= i < |l.spans| && l.spans[i].inUse ensures l.spans[i].start + l.spans[i].npages <= l.totalPages {
      assert SpanPasses(l, i);
    }
  }

  lemma ClashIff(a: nat, an: nat, b: nat, bn: nat)
    requires a + an < U32 && b + bn < U32
    ensures Clash(a, an, b, bn) <==> !Apart(a, an, b, bn)
  {
  }

  lemma TidyPasses(l: Layout, leak: nat)
    requires Tidy(l, leak)
    ensures CheckPasses(l)
  {
    hide Sum, ObjMarks, ObjPages, SpanPages, CheckedNeed;
    forall i | 0 <= i < |l.objects| && l.objects[i].inUse ensures ObjectPasses(l, i) {
      assert ObjFits(l.objects[i], l.nextPage, l.nextId);
      NeedWithinPages(l.objects[i].size, l.objects[i].npages);
    }
  }

  lemma NeedWithinPages(size: nat, npages: nat)
    requires PagesFor(size) <= npages <= MAX_PAGES
    ensures CheckedNeed(size) <= npages
  {
  }
}
