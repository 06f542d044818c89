/**
 The vector index (kernel/peakvec.c): a table of entries with cached norms and buckets,
 and the top-k query with early-out and bucket probing.
 */
module PeakVec {
  import opened VecMath
  import opened TopK

  const KEY_MAX: nat := 64
  const META_MAX: nat := 96
  const NS_MAX: nat := 32
  const TOPK_MAX: nat := 8
  const ANN_THRESHOLD: nat := 64
  const MAX_ENTRIES: nat := 4096
  const EMPTY: int := -1_000_000

  datatype Entry = Entry(key: string, meta: string, vec: Vec, inUse: bool)
  datatype Hit = Hit(key: string, meta: string, score: int)

  /** A string copied into a buffer of `n` bytes. */
  function Fit(s: string, n: nat): string
    requires n > 0
  {
    if |s| < n then s else s[..n - 1]
  }

  /** ns_copy: the tag a namespace name stands for. */
  function Ns(ns: string): string {
    if ns == "" then "agent" else Fit(ns, NS_MAX)
  }

  lemma NsTwice(ns: string)
    ensures Ns(Ns(ns)) == Ns(ns)
  {
  }

  /** Names of one namespace are equal in their first 31 characters; no name stands for "agent". */
  lemma NsSameIff(a: string, b: string)
    requires a != "" && b != ""
    ensures Ns(a) == Ns(b) <==> a == b || (|a| >= 31 && |b| >= 31 && a[..31] == b[..31])
    ensures Ns("") == Ns("agent")
  {
  }

  // ---- the slots a pass visits ----

  datatype Filter = All | Near(qb: nat) | Far(qb: nat)

  predicate Passes(f: Filter, b: nat) {
    match f
    case All => true
    case Near(qb) => Probed(b, qb)
    case Far(qb) => !Probed(b, qb)
  }

  function Members(tag: seq<string>, bucket: seq<nat>, ns: string, f: Filter, n: nat): (m: seq<nat>)
    requires n <= |tag| && n <= |bucket|
    ensures forall i :: 0 <= i < |m| ==> m[i] < n
  {
    if n == 0 then []
    else
      var m := Members(tag, bucket, ns, f, n - 1);
      if Ns(tag[n - 1]) == ns && Passes(f, bucket[n - 1]) then m + [n - 1] else m
  }

  /** A pass visits exactly the namespace's slots that pass its filter, in slot order. */
  lemma {:induction false} MembersExact(tag: seq<string>, bucket: seq<nat>, ns: string, f: Filter, n: nat)
    requires n <= |tag| && n <= |bucket|
    ensures var m := Members(tag, bucket, ns, f, n);
            && (forall i, j :: 0 <= i < j < |m| ==> m[i] < m[j])
            && (forall x: nat :: x in m <==> x < n && Ns(tag[x]) == ns && Passes(f, bucket[x]))
  {
    hide Ns, Passes;
    if n > 0 {
      MembersExact(tag, bucket, ns, f, n - 1);
      var before := Members(tag, bucket, ns, f, n - 1);
      assert forall i :: 0 <= i < |before| ==> before[i] in before;
    }
  }

  // ---- what the hit list shows ----

  function HitOf(e: Entry, q: Vec): Hit {
    Hit(e.key, e.meta, Score(q, e.vec))
  }

  ghost predicate Within(order: seq<nat>, n: nat) {
    forall j :: 0 <= j < |order| ==> order[j] < n
  }

  /** The hits a full scan of the visited slots computes. */
  function Hits(es: seq<Entry>, q: Vec, order: seq<nat>): (hv: seq<Hit>)
    requires forall j :: 0 <= j < |order| ==> order[j] < |es|
    ensures |hv| == |order|
    ensures forall j :: 0 <= j < |order| ==> hv[j] == HitOf(es[order[j]], q)
  {
    seq(|order|, j requires 0 <= j < |order| => HitOf(es[order[j]], q))
  }

  function Scores(hv: seq<Hit>): (sc: seq<int>)
    ensures |sc| == |hv| && forall j :: 0 <= j < |hv| ==> sc[j] == hv[j].score
  {
    seq(|hv|, j requires 0 <= j < |hv| => hv[j].score)
  }

  /** The list holds the `|hs|` best of all hits, best first, and empty hits after them. */
  ghost predicate Shows(hs: seq<Hit>, hv: seq<Hit>) {
    Listed(hs, hv, Best(Scores(hv), |hs|))
  }

  ghost predicate Listed(hs: seq<Hit>, hv: seq<Hit>, at: seq<nat>) {
    && Within(at, |hv|) && |at| <= |hs|
    && (forall i :: 0 <= i < |at| ==> hs[i] == hv[at[i]])
    && (forall i :: |at| <= i < |hs| ==> hs[i] == Hit("", "", EMPTY))
  }

  /** All scores are above the empty hit's. */
  ghost predicate Scored(hv: seq<Hit>) {
    forall j :: 0 <= j < |hv| ==> hv[j].score > EMPTY
  }

  /** The first hit a score exceeds. */
  function Slot(hs: seq<Hit>, sc: int): (p: nat)
    ensures p <= |hs|
    ensures forall i :: 0 <= i < p ==> sc <= hs[i].score
    ensures p < |hs| ==> sc > hs[p].score
  {
    if |hs| == 0 || sc > hs[0].score then 0 else 1 + Slot(hs[1..], sc)
  }

  function Offered(hs: seq<Hit>, h: Hit): (r: seq<Hit>)
    ensures |r| == |hs|
  {
    Cut(Inserted(hs, Slot(hs, h.score), h), |hs|)
  }

  lemma SlotUnique(hs: seq<Hit>, sc: int, p: nat)
    requires p <= |hs|
    requires forall i :: 0 <= i < p ==> sc <= hs[i].score
    requires p < |hs| ==> sc > hs[p].score
    ensures p == Slot(hs, sc)
  {
  }

  /** One more candidate offered to the list. */
  lemma OfferStep(hs: seq<Hit>, hv: seq<Hit>, h: Hit)
    requires Shows(hs, hv) && h.score > EMPTY
    ensures Shows(Offered(hs, h), hv + [h])
  {
    hide Best, Slot, Place, Inserted, Cut;
    var sc := Scores(hv);
    assert Scores(hv + [h]) == sc + [h.score];
    var at := Best(sc, |hs|);
    var p := Place(sc + [h.score], at, h.score);
    SlotUnique(hs, h.score, p);
    BestSnoc(sc, h.score, |hs|);
    ListedShift(hs, hv, at, h, p);
  }

  lemma BestSnoc(sc: seq<int>, s: int, k: nat)
    ensures var at := Best(sc, k);
            Best(sc + [s], k) == Cut(Inserted(at, Place(sc + [s], at, s), |sc|), k)
  {
    assert (sc + [s])[..|sc|] == sc;
  }

  lemma ListedShift(hs: seq<Hit>, hv: seq<Hit>, at: seq<nat>, h: Hit, p: nat)
    requires Listed(hs, hv, at) && p <= |at|
    ensures Listed(Cut(Inserted(hs, p, h), |hs|), hv + [h], Cut(Inserted(at, p, |hv|), |hs|))
  {
    hide Inserted, Cut;
    var r, c := Cut(Inserted(hs, p, h), |hs|), Cut(Inserted(at, p, |hv|), |hs|);
    forall j | 0 <= j < |c| ensures c[j] <= |hv| && r[j] == (hv + [h])[c[j]] {
      if j > p {
        assert r[j] == hs[j - 1] && c[j] == at[j - 1];
      }
    }
  }

  /** A candidate no better than the worst of a full list changes nothing. */
  lemma SkipStep(hs: seq<Hit>, hv: seq<Hit>, h: Hit)
    requires Shows(hs, hv) && |hs| > 0 && Scored(hv) && EMPTY < h.score <= hs[|hs| - 1].score
    ensures Shows(hs, hv + [h])
  {
    hide Best, Slot, Listed;
    Descending(hs, hv);
    SlotUnique(hs, h.score, |hs|);
    OfferStep(hs, hv, h);
    assert Offered(hs, h) == hs;
  }

  lemma Descending(hs: seq<Hit>, hv: seq<Hit>)
    requires Shows(hs, hv) && Scored(hv)
    ensures forall i, j :: 0 <= i <= j < |hs| ==> hs[i].score >= hs[j].score
  {
    hide Best;
    var sc := Scores(hv);
    BestRanked(sc, |hs|);
    var at := Best(sc, |hs|);
    forall i, j | 0 <= i < j < |hs| ensures hs[i].score >= hs[j].score {
      if j < |at| {
        assert Before(sc, at[i], at[j]);
      }
    }
  }

  // ---- the answer to a query ----

  /** The slots a query looks at, in order. */
  ghost function Visited(tag: seq<string>, bucket: seq<nat>, ns: string, qb: nat, n: nat, ann: bool,
      shortcut: bool): seq<nat>
    requires n <= |tag| && n <= |bucket|
  {
    if !ann then Members(tag, bucket, ns, All, n)
    else if shortcut then Members(tag, bucket, ns, Near(qb), n)
    else Members(tag, bucket, ns, Near(qb), n) + Members(tag, bucket, ns, Far(qb), n)
  }

  ghost predicate NoRepeats(s: seq<nat>) {
    forall i, j :: 0 <= i < j < |s| ==> s[i] != s[j]
  }

  /** Without the shortcut every slot of the namespace is looked at once; with it, those of the
      three probed buckets. */
  lemma VisitedExact(tag: seq<string>, bucket: seq<nat>, ns: string, qb: nat, n: nat, ann: bool, shortcut: bool)
    requires n <= |tag| && n <= |bucket|
    ensures var o := Visited(tag, bucket, ns, qb, n, ann, shortcut);
            && NoRepeats(o)
            && forall x: nat :: x in o <==>
                 x < n && Ns(tag[x]) == ns && (ann && shortcut ==> Probed(bucket[x], qb))
  {
    hide Members, Probed;
    MembersExact(tag, bucket, ns, All, n);
    MembersExact(tag, bucket, ns, Near(qb), n);
    MembersExact(tag, bucket, ns, Far(qb), n);
    var a, b := Members(tag, bucket, ns, Near(qb), n), Members(tag, bucket, ns, Far(qb), n);
    forall i, j | 0 <= i < |a| && 0 <= j < |b| ensures a[i] != b[j] {
      assert a[i] in a && b[j] in b;
    }
  }

  /** `picked` are the best slots of `slots` for the query: sorted by score, nothing better left out. */
  ghost predicate TopSlots(es: seq<Entry>, q: Vec, slots: seq<nat>, picked: seq<nat>, k: nat)
    requires Within(slots, |es|)
  {
    && |picked| == Min(k, |slots|) && NoRepeats(picked)
    && (forall i :: 0 <= i < |picked| ==> picked[i] in slots)
    && (forall i, j :: 0 <= i < j < |picked| ==> Score(q, es[picked[i]].vec) >= Score(q, es[picked[j]].vec))
    && (forall i, x :: 0 <= i < |picked| && x in slots && x !in picked ==>
          Score(q, es[picked[i]].vec) >= Score(q, es[x].vec))
  }

  /** Equal scores keep slot order, both among the picked and against those left out. */
  ghost predicate TiesBySlot(es: seq<Entry>, q: Vec, slots: seq<nat>, picked: seq<nat>)
    requires Within(slots, |es|) && forall i :: 0 <= i < |picked| ==> picked[i] in slots
  {
    && (forall i, j :: 0 <= i < j < |picked| && Score(q, es[picked[i]].vec) == Score(q, es[picked[j]].vec) ==>
          picked[i] < picked[j])
    && (forall i, x :: 0 <= i < |picked| && x in slots && x !in picked ==>
          Score(q, es[picked[i]].vec) == Score(q, es[x].vec) ==> picked[i] < x)
  }

  ghost function Picked(order: seq<nat>, at: seq<nat>): (p: seq<nat>)
    requires Within(at, |order|)
    ensures |p| == |at| && forall i :: 0 <= i < |at| ==> p[i] == order[at[i]]
  {
    seq(|at|, i requires 0 <= i < |at| => order[at[i]])
  }

  /** A hit list that shows the visited slots is the top of them. */
  lemma ShowsTop(hs: seq<Hit>, es: seq<Entry>, q: Vec, order: seq<nat>)
    requires Within(order, |es|) && NoRepeats(order) && Shows(hs, Hits(es, q, order))
    ensures var at := Best(Scores(Hits(es, q, order)), |hs|);
            && Within(at, |order|) && TopSlots(es, q, order, Picked(order, at), |hs|)
            && forall i :: 0 <= i < |at| ==> hs[i] == HitOf(es[order[at[i]]], q)
  {
    hide Best, Score, Hits, Scores;
    var sc := Scores(Hits(es, q, order));
    var at := Best(sc, |hs|);
    BestRanked(sc, |hs|);
    PickedInOrder(es, q, order, at, |hs|);
    PickedFirst(es, q, order, at, |hs|);
    forall i | 0 <= i < |at| ensures hs[i] == HitOf(es[order[at[i]]], q) {
      assert hs[i] == Hits(es, q, order)[at[i]];
    }
  }

  lemma PickedInOrder(es: seq<Entry>, q: Vec, order: seq<nat>, at: seq<nat>, k: nat)
    requires Within(order, |es|) && NoRepeats(order) && Ranked(Scores(Hits(es, q, order)), at, k)
    ensures var p := Picked(order, at);
            NoRepeats(p) && forall i, j :: 0 <= i < j < |p| ==> Score(q, es[p[i]].vec) >= Score(q, es[p[j]].vec)
  {
    hide Score, Hits;
    var p := Picked(order, at);
    forall i, j | 0 <= i < j < |p| ensures p[i] != p[j] && Score(q, es[p[i]].vec) >= Score(q, es[p[j]].vec) {
      assert Before(Scores(Hits(es, q, order)), at[i], at[j]);
    }
  }

  lemma PickedFirst(es: seq<Entry>, q: Vec, order: seq<nat>, at: seq<nat>, k: nat)
    requires Within(order, |es|) && Ranked(Scores(Hits(es, q, order)), at, k)
    ensures var p := Picked(order, at);
            forall i, x :: 0 <= i < |p| && x in order && x !in p ==> Score(q, es[p[i]].vec) >= Score(q, es[x].vec)
  {
    hide Score, Hits;
    var p := Picked(order, at);
    forall i, x | 0 <= i < |p| && x in order && x !in p ensures Score(q, es[p[i]].vec) >= Score(q, es[x].vec) {
      var y := LeftOut(order, at, x);
      assert Before(Scores(Hits(es, q, order)), at[i], y);
    }
  }

  /** A stored vector that is asked for itself, and is not zero, makes the best hit score at least 1000. */
  lemma SelfFound(es: seq<Entry>, q: Vec, slots: seq<nat>, picked: seq<nat>, k: nat, x: nat)
    requires Within(slots, |es|) && TopSlots(es, q, slots, picked, k) && k > 0
    requires x in slots && es[x].vec == q && Norm(q) > 0
    ensures |picked| > 0 && Score(q, es[picked[0]].vec) >= 1000
  {
    hide Score, Norm;
    ScoreSelf(q);
    if x in picked {
      var i :| 0 <= i < |picked| && picked[i] == x;
    }
  }

  lemma LeftOut(order: seq<nat>, at: seq<nat>, x: nat) returns (y: nat)
    requires Within(at, |order|) && x in order && x !in Picked(order, at)
    ensures y < |order| && order[y] == x && y !in at
  {
    y :| 0 <= y < |order| && order[y] == x;
    assert forall i :: 0 <= i < |at| ==> Picked(order, at)[i] == order[at[i]];
  }

  lemma TiesFollowSlots(hs: seq<Hit>, es: seq<Entry>, q: Vec, order: seq<nat>)
    requires Within(order, |es|) && (forall i, j :: 0 <= i < j < |order| ==> order[i] < order[j])
    requires Shows(hs, Hits(es, q, order))
    ensures var at := Best(Scores(Hits(es, q, order)), |hs|);
            Within(at, |order|) && TiesBySlot(es, q, order, Picked(order, at))
  {
    hide Best, Score, Hits, Scores;
    var sc := Scores(Hits(es, q, order));
    var at := Best(sc, |hs|);
    BestRanked(sc, |hs|);
    TiesPicked(es, q, order, at, |hs|);
    TiesLeftOut(es, q, order, at, |hs|);
  }

  lemma TiesPicked(es: seq<Entry>, q: Vec, order: seq<nat>, at: seq<nat>, k: nat)
    requires Within(order, |es|) && (forall i, j :: 0 <= i < j < |order| ==> order[i] < order[j])
    requires Ranked(Scores(Hits(es, q, order)), at, k)
    ensures var p := Picked(order, at);
            forall i, j :: 0 <= i < j < |p| && Score(q, es[p[i]].vec) == Score(q, es[p[j]].vec) ==> p[i] < p[j]
  {
    hide Score, Hits, Scores;
    var p := Picked(order, at);
    forall i, j | 0 <= i < j < |p| && Score(q, es[p[i]].vec) == Score(q, es[p[j]].vec) ensures p[i] < p[j] {
      TieOrder(es, q, order, at[i], at[j]);
    }
  }

  lemma TiesLeftOut(es: seq<Entry>, q: Vec, order: seq<nat>, at: seq<nat>, k: nat)
    requires Within(order, |es|) && (forall i, j :: 0 <= i < j < |order| ==> order[i] < order[j])
    requires Ranked(Scores(Hits(es, q, order)), at, k)
    ensures var p := Picked(order, at);
            forall i, x :: 0 <= i < |p| && x in order && x !in p && Score(q, es[p[i]].vec) == Score(q, es[x].vec) ==>
              p[i] < x
  {
    hide Score, Hits, Scores;
    var p := Picked(order, at);
    forall i, x | 0 <= i < |p| && x in order && x !in p && Score(q, es[p[i]].vec) == Score(q, es[x].vec)
      ensures p[i] < x
    {
      var y := LeftOut(order, at, x);
      TieOrder(es, q, order, at[i], y);
    }
  }

  lemma TieOrder(es: seq<Entry>, q: Vec, order: seq<nat>, a: nat, b: nat)
    requires Within(order, |es|) && (forall i, j :: 0 <= i < j < |order| ==> order[i] < order[j])
    requires a < |order| && b < |order| && Before(Scores(Hits(es, q, order)), a, b)
    requires Score(q, es[order[a]].vec) == Score(q, es[order[b]].vec)
    ensures order[a] < order[b]
  {
  }

  /** The list in full: the k best hits, then empty ones. */
  ghost function Shown(hv: seq<Hit>, k: nat): (hs: seq<Hit>)
    ensures |hs| == k
  {
    var at := Best(Scores(hv), k);
    seq(k, i requires 0 <= i < k => if i < |at| then hv[at[i]] else Hit("", "", EMPTY))
  }

  lemma ShownIs(hs: seq<Hit>, hv: seq<Hit>)
    requires Shows(hs, hv)
    ensures hs == Shown(hv, |hs|)
  {
    hide Best;
  }

  lemma NothingShown(hs: seq<Hit>, es: seq<Entry>, q: Vec)
    requires forall i :: 0 <= i < |hs| ==> hs[i] == Hit("", "", EMPTY)
    ensures Within([], |es|) && Shows(hs, Hits(es, q, []))
  {
  }

  /** The outcome of a query: the list shows the slots visited, the probe applies from 64 entries
      on, and the second pass is dropped exactly when the probed buckets fill the list above 500. */
  ghost predicate Answers(hs: seq<Hit>, es: seq<Entry>, tag: seq<string>, bucket: seq<nat>, ns: string, q: Vec, n: nat,
                          found: int, ann: bool, shortcut: bool)
    requires n <= |tag| && n <= |bucket| && n <= |es| && |hs| > 0
  {
    var order := Visited(tag, bucket, Ns(ns), Bucket(q), n, ann, shortcut);
    var near := Members(tag, bucket, Ns(ns), Near(Bucket(q)), n);
    && Within(order, |es|) && Within(near, |es|)
    && Shows(hs, Hits(es, q, order)) && found == Min(|hs|, |order|)
    && (ann <==> |Members(tag, bucket, Ns(ns), All, n)| >= ANN_THRESHOLD)
    && (shortcut <==> ann && |near| >= |hs| && Shown(Hits(es, q, near), |hs|)[|hs| - 1].score > 500)
  }

  /** What the caller learns.  Without the shortcut the hits are the top of the whole namespace,
      and ties go by slot when the buckets are not probed; with it they are the top of the three
      probed buckets and every one scores above 500. */
  lemma QueryMeaning(hs: seq<Hit>, es: seq<Entry>, tag: seq<string>, bucket: seq<nat>, ns: string, q: Vec, n: nat,
                     found: int, ann: bool, shortcut: bool) returns (slots: seq<nat>, picked: seq<nat>)
    requires n <= |tag| && n <= |bucket| && n <= |es| && |hs| > 0
    requires Answers(hs, es, tag, bucket, ns, q, n, found, ann, shortcut)
    ensures NoRepeats(slots) && forall x: nat :: x in slots <==>
      x < n && Ns(tag[x]) == Ns(ns) && (shortcut ==> Probed(bucket[x], Bucket(q)))
    ensures Within(slots, |es|) && TopSlots(es, q, slots, picked, |hs|) && found == |picked|
    ensures forall i :: 0 <= i < found ==> hs[i] == HitOf(es[picked[i]], q)
    ensures !ann ==> TiesBySlot(es, q, slots, picked)
    ensures shortcut ==> found == |hs| && forall i :: 0 <= i < found ==> hs[i].score > 500
  {
    hide Score, Best, Hits, Scores, Bucket, Members, Ns, Probed, Shows, Shown, TiesBySlot;
    slots := Visited(tag, bucket, Ns(ns), Bucket(q), n, ann, shortcut);
    VisitedExact(tag, bucket, Ns(ns), Bucket(q), n, ann, shortcut);
    ShowsTop(hs, es, q, slots);
    picked := Picked(slots, Best(Scores(Hits(es, q, slots)), |hs|));
    if !ann {
      assert slots == Members(tag, bucket, Ns(ns), All, n);
      MembersExact(tag, bucket, Ns(ns), All, n);
      assert forall i, j :: 0 <= i < j < |slots| ==> slots[i] < slots[j];
      TiesFollowSlots(hs, es, q, slots);
    }
    if shortcut {
      ShownIs(hs, Hits(es, q, slots));
      AllScored(es, q, slots);
      Descending(hs, Hits(es, q, slots));
    }
  }

  lemma AllScored(es: seq<Entry>, q: Vec, order: seq<nat>)
    requires Within(order, |es|)
    ensures Scored(Hits(es, q, order))
  {
    hide Score;
    forall j | 0 <= j < |order| ensures Hits(es, q, order)[j].score > EMPTY {
      ScoreBound(q, es[order[j]].vec);
    }
  }

  // ---- the table as a map from namespace and key ----

  datatype Row = Row(ns: string, e: Entry)
  datatype Option<T> = None | Some(value: T)

  predicate Is(r: Row, ns: string, key: string) {
    r.ns == ns && r.e.key == key
  }

  /** The first row for a key, as the loops of upsert and delete find it. */
  function Find(rows: seq<Row>, ns: string, key: string): (i: nat)
    ensures i <= |rows|
    ensures forall j :: 0 <= j < i ==> !Is(rows[j], ns, key)
    ensures i < |rows| ==> Is(rows[i], ns, key)
  {
    if |rows| == 0 || Is(rows[0], ns, key) then 0 else 1 + Find(rows[1..], ns, key)
  }

  function Lookup(rows: seq<Row>, ns: string, key: string): Option<(Vec, string)> {
    var i := Find(rows, ns, key);
    if i < |rows| then Some((rows[i].e.vec, rows[i].e.meta)) else None
  }

  ghost predicate Distinct(rows: seq<Row>) {
    forall i, j :: 0 <= i < j < |rows| ==> !Is(rows[j], rows[i].ns, rows[i].e.key)
  }

  function Upserted(rows: seq<Row>, ns: string, key: string, vec: Vec, meta: string): seq<Row> {
    var i := Find(rows, ns, key);
    if i < |rows| then rows[i := Row(ns, Entry(key, Fit(meta, META_MAX), vec, true))]
    else rows + [Row(ns, Entry(Fit(key, KEY_MAX), Fit(meta, META_MAX), vec, true))]
  }

  function Deleted(rows: seq<Row>, i: nat): seq<Row>
    requires i < |rows|
  {
    rows[i := rows[|rows| - 1]][..|rows| - 1]
  }

  lemma FindUnique(rows: seq<Row>, ns: string, key: string, i: nat)
    requires i <= |rows| && (forall j :: 0 <= j < i ==> !Is(rows[j], ns, key))
    requires i < |rows| ==> Is(rows[i], ns, key)
    ensures Find(rows, ns, key) == i
  {
  }

  /** An upsert is a map update: its key (as stored) gets the vector, every other key keeps its own. */
  lemma UpsertLookup(rows: seq<Row>, ns: string, key: string, vec: Vec, meta: string, ns2: string, key2: string)
    requires |key| < KEY_MAX
    ensures Lookup(Upserted(rows, ns, key, vec, meta), ns2, key2) ==
            if ns2 == ns && key2 == key then Some((vec, Fit(meta, META_MAX))) else Lookup(rows, ns2, key2)
  {
    hide Find;
    var after, i := Upserted(rows, ns, key, vec, meta), Find(rows, ns, key);
    var j := Find(rows, ns2, key2);
    if ns2 == ns && key2 == key {
      FindUnique(after, ns, key, i);
    } else if j < |rows| {
      FindUnique(after, ns2, key2, j);
    } else {
      FindUnique(after, ns2, key2, |after|);
    }
  }

  /** One row per key survives an upsert if and only if the key fits its buffer, or its
      truncation is not the key of another row. */
  lemma UpsertDistinctIff(rows: seq<Row>, ns: string, key: string, vec: Vec, meta: string)
    requires Distinct(rows)
    ensures Distinct(Upserted(rows, ns, key, vec, meta)) <==>
            Find(rows, ns, key) < |rows| || Find(rows, ns, Fit(key, KEY_MAX)) == |rows|
  {
    hide Find, Fit;
    var after, i, t := Upserted(rows, ns, key, vec, meta), Find(rows, ns, key), Find(rows, ns, Fit(key, KEY_MAX));
    if i < |rows| {
      assert forall j :: 0 <= j < |rows| ==> after[j].ns == rows[j].ns && after[j].e.key == rows[j].e.key;
    } else if t < |rows| {
      assert Is(after[|rows|], after[t].ns, after[t].e.key);
    }
  }

  /** A key that does not fit is not found again, so writing it twice makes two rows. */
  lemma LongKeyTwice(ns: string, key: string, vec: Vec, meta: string)
    requires |key| >= KEY_MAX
    ensures !Distinct(Upserted(Upserted([], ns, key, vec, meta), ns, key, vec, meta))
  {
    var one := Upserted([], ns, key, vec, meta);
    assert |one| == 1 && !Is(one[0], ns, key);
    var two := Upserted(one, ns, key, vec, meta);
    assert two == one + one;
    assert Is(two[1], two[0].ns, two[0].e.key);
  }

  /** Deleting a row removes its key and no other, although the last row takes its place. */
  lemma DeleteLookup(rows: seq<Row>, ns: string, key: string, ns2: string, key2: string)
    requires Distinct(rows) && Find(rows, ns, key) < |rows|
    ensures var after := Deleted(rows, Find(rows, ns, key));
            && Distinct(after)
            && Lookup(after, ns2, key2) == if ns2 == ns && key2 == key then None else Lookup(rows, ns2, key2)
  {
    hide Find;
    var i, last := Find(rows, ns, key), |rows| - 1;
    var after := Deleted(rows, i);
    assert forall j :: 0 <= j < last ==> after[j] == if j == i then rows[last] else rows[j];
    var j := Find(rows, ns2, key2);
    if (ns2 == ns && key2 == key) || j == |rows| {
      FindUnique(after, ns2, key2, last);
    } else {
      FindUnique(after, ns2, key2, if j == last then i else j);
    }
  }

  class Index {
    var entries: seq<Entry>
    var nsq: seq<nat>
    var nroot: seq<nat>
    var tag: seq<string>
    var bucket: seq<nat>
    var capacity: nat
    var count: nat
    var ready: bool

    /** The caches of slot `i` agree with its vector. */
    ghost predicate Cached(i: nat)
      requires i < |entries| && i < |nsq| && i < |nroot| && i < |bucket| && i < |tag|
      reads this
    {
      && entries[i].inUse && tag[i] == Ns(tag[i])
      && nsq[i] == Norm(entries[i].vec) && nroot[i] == Root(Norm(entries[i].vec)) && bucket[i] == Bucket(entries[i].vec)
    }

    ghost predicate Sized()
      reads this
    {
      && count <= capacity <= MAX_ENTRIES
      && |entries| == |nsq| == |nroot| == |tag| == |bucket| == capacity
    }

    ghost predicate Valid()
      reads this
    {
      Sized() && forall i :: 0 <= i < count ==> Cached(i)
    }

    function Rows(): (rows: seq<Row>)
      requires count <= |tag| && count <= |entries|
      reads this
      ensures |rows| == count && forall i :: 0 <= i < count ==> rows[i] == Row(tag[i], entries[i])
    {
      seq(count, i requires 0 <= i < count && count <= |tag| &&
          count <= |entries| reads this => Row(tag[i], entries[i]))
    }

    /** peakvec_init, up to the fresh index. */
    constructor (memOk: bool)
      ensures Valid() && count == 0 && Rows() == [] && ready == memOk
    {
      entries, nsq, nroot, tag, bucket := [], [], [], [], [];
      capacity, count, ready := 0, 0, false;
      new;
      ready := EnsureCapacity(64, memOk);
    }

    /** ensure_capacity: doubles, up to the maximum, and keeps every row and cache. */
    method EnsureCapacity(need: nat, memOk: bool) returns (ok: bool)
      requires Valid()
      modifies `entries, `nsq, `nroot, `tag, `bucket, `capacity
      ensures Valid() && Rows() == old(Rows())
      ensures ok <==> need <= old(capacity) || (need <= MAX_ENTRIES && memOk)
      ensures ok ==> need <= capacity
      ensures !ok ==> capacity == old(capacity)
    {
      hide Norm, Root, Bucket, Ns;
      if need <= capacity {
        return true;
      }
      var nc := NewCapacity(need);
      if need > nc || !memOk {
        return false;
      }
      Regrow(nc);
      return true;
    }

    /** The new size: doubled until it is enough, and no more than the most there may be. */
    method NewCapacity(need: nat) returns (nc: nat)
      ensures nc <= MAX_ENTRIES && (need <= MAX_ENTRIES ==> need <= nc)
    {
      nc := if capacity != 0 then capacity * 2 else 64;
      while nc < need
        invariant nc > 0
      {
        nc := nc * 2;
      }
      if nc > MAX_ENTRIES {
        nc := MAX_ENTRIES;
      }
    }

    /** The new arrays, with the old rows copied over. */
    method Regrow(nc: nat)
      requires Valid() && capacity <= nc <= MAX_ENTRIES
      modifies `entries, `nsq, `nroot, `tag, `bucket, `capacity
      ensures Valid() && Rows() == old(Rows()) && capacity == nc
    {
      hide Norm, Root, Bucket, Ns;
      entries := entries[..count] + seq(nc - count, _ => Entry("", "", seq(DIM, _ => 0), false));
      nsq := nsq[..count] + seq(nc - count, _ => 0);
      nroot := nroot[..count] + seq(nc - count, _ => 0);
      tag := tag[..count] + seq(nc - count, _ => "");
      bucket := bucket[..count] + seq(nc - count, _ => 0);
      capacity := nc;
      assert forall i :: 0 <= i < count ==> old(Cached(i)) ==> Cached(i);
    }

    /** cache_entry_norm */
    method CacheEntry(i: nat)
      requires Sized() && i < capacity && entries[i].inUse && tag[i] == Ns(tag[i])
      requires forall j :: 0 <= j < count && j != i ==> Cached(j)
      modifies `nsq, `nroot, `bucket
      ensures Sized() && Cached(i) && forall j :: 0 <= j < count && j != i ==> Cached(j)
    {
      hide Norm, Root, Bucket, Ns;
      var n := NormBatched(entries[i].vec);
      var r := ISqrt(n);
      var b := VecBucket(entries[i].vec);
      nsq := nsq[i := n];
      nroot := nroot[i := r];
      bucket := bucket[i := b];
      assert forall j :: 0 <= j < count && j != i ==> old(Cached(j)) ==> Cached(j);
    }

    method FindRow(ns: string, key: string) returns (i: nat)
      requires Valid() && ns == Ns(ns)
      ensures i == Find(Rows(), ns, key)
    {
      i := 0;
      while i < count
        invariant i <= count && forall j :: 0 <= j < i ==> !Is(Rows()[j], ns, key)
      {
        assert Cached(i);
        if entries[i].inUse && Ns(ns) == Ns(tag[i]) && entries[i].key == key {
          FindUnique(Rows(), ns, key, i);
          return;
        }
        i := i + 1;
      }
      FindUnique(Rows(), ns, key, count);
    }

    /** peakvec_upsert; `allowed` is the capability check and `memOk` whether the heap can grow. */
    method Upsert(ns: string, key: string, vec: Vec, meta: string, allowed: bool, memOk: bool) returns (r: int)
      requires Valid()
      modifies this
      ensures Valid() && ready == old(ready)
      ensures r == 0 ==> Rows() == Upserted(old(Rows()), Ns(ns), key, vec, meta)
      ensures r != 0 ==> r == -1 && Rows() == old(Rows())
      ensures r == 0 <==>
              && ready && allowed
              && (Find(old(Rows()), Ns(ns), key) < old(count) || old(count) < old(capacity) ||
                  (old(count) < MAX_ENTRIES && memOk))
    {
      hide Norm, Root, Bucket, Find, Fit;
      if !ready || !allowed {
        return -1;
      }
      var nsb := Ns(ns);
      NsTwice(ns);
      var i := FindRow(nsb, key);
      if i < count {
        entries := entries[i := Entry(entries[i].key, Fit(meta, META_MAX), vec, true)];
        assert forall j :: 0 <= j < count && j != i ==> old(Cached(j)) ==> Cached(j);
        assert old(Cached(i));
        CacheEntry(i);
        assert Rows() == Upserted(old(Rows()), nsb, key, vec, meta);
        return 0;
      }
      var ok := EnsureCapacity(count + 1, memOk);
      if !ok {
        return -1;
      }
      Append(nsb, key, vec, meta);
      return 0;
    }

    method Append(ns: string, key: string, vec: Vec, meta: string)
      requires Valid() && count < capacity && ns == Ns(ns)
      modifies `entries, `nsq, `nroot, `tag, `bucket, `count
      ensures Valid()
      ensures Rows() == old(Rows()) + [Row(ns, Entry(Fit(key, KEY_MAX), Fit(meta, META_MAX), vec, true))]
    {
      hide Norm, Root, Bucket, Fit, Ns;
      entries := entries[count := Entry(Fit(key, KEY_MAX), Fit(meta, META_MAX), vec, true)];
      tag := tag[count := ns];
      assert forall j :: 0 <= j < count ==> old(Cached(j)) ==> Cached(j);
      CacheEntry(count);
      label Filled:
      count := count + 1;
      assert forall j :: 0 <= j < count ==> old@Filled(Cached(j)) ==> Cached(j);
    }

    /** peakvec_delete */
    method Delete(ns: string, key: string) returns (r: int)
      requires Valid()
      modifies this
      ensures Valid() && ready == old(ready)
      ensures r == 0 <==> ready && Find(old(Rows()), Ns(ns), key) < old(count)
      ensures r == 0 ==> Rows() == Deleted(old(Rows()), Find(old(Rows()), Ns(ns), key))
      ensures r != 0 ==> r == -1 && Rows() == old(Rows())
    {
      hide Norm, Root, Bucket, Find;
      if !ready {
        return -1;
      }
      NsTwice(ns);
      var i := FindRow(Ns(ns), key);
      if i == count {
        return -1;
      }
      MoveLast(i);
      return 0;
    }

    method MoveLast(i: nat)
      requires Valid() && i < count
      modifies this
      ensures Valid() && ready == old(ready) && Rows() == Deleted(old(Rows()), i)
    {
      hide Norm, Root, Bucket, Ns;
      var last := count - 1;
      entries := entries[i := entries[last]];
      nsq := nsq[i := nsq[last]];
      nroot := nroot[i := nroot[last]];
      tag := tag[i := tag[last]];
      bucket := bucket[i := bucket[last]];
      count := last;
      assert forall j :: 0 <= j < count ==> old(Cached(j)) && old(Cached(last)) ==> Cached(j);
    }

    /** The insertion loops of peakvec_query_ex. */
    method Offer(hits: array<Hit>, k: nat, h: Hit) returns (placed: bool)
      requires 0 < k <= hits.Length
      modifies hits
      ensures hits[..k] == Offered(old(hits[..k]), h) && hits[k..] == old(hits[k..])
      ensures placed <==> Slot(old(hits[..k]), h.score) < k
    {
      hide Slot, Inserted, Cut;
      var place := k;
      for j := 0 to k
        invariant place == k && forall i :: 0 <= i < j ==> h.score <= hits[i].score
      {
        if h.score > hits[j].score {
          place := j;
          break;
        }
      }
      ghost var was := hits[..];
      SlotUnique(hits[..k], h.score, place);
      if place >= k {
        assert hits[..k] == Offered(was[..k], h);
        return false;
      }
      var m := k - 1;
      while m > place
        invariant place <= m < k
        invariant forall i :: m < i < k ==> hits[i] == was[i - 1]
        invariant forall i :: 0 <= i <= m ==> hits[i] == was[i]
        invariant hits[k..] == was[k..]
      {
        hits[m] := hits[m - 1];
        m := m - 1;
      }
      hits[place] := h;
      assert hits[..k] == Offered(was[..k], h);
      return true;
    }

    /** One pass over the table. */
    method Scan(ns: string, q: Vec, qroot: nat, f: Filter, hits: array<Hit>, k: nat,
                found0: nat, ghost order: seq<nat>) returns (found: nat)
      requires Valid() && qroot == Root(Norm(q)) && 0 < k <= hits.Length
      requires Within(order, count) && Shows(hits[..k], Hits(entries, q, order)) && found0 == Min(k, |order|)
      modifies hits
      ensures hits[k..] == old(hits[k..])
      ensures var o := order + Members(tag, bucket, ns, f, count);
              Within(o, count) && Shows(hits[..k], Hits(entries, q, o)) && found == Min(k, |o|)
    {
      hide Shows, Score, Best, Root, Norm, Bucket, Offered, Slot, Hits, Passes, Ns;
      found := found0;
      assert order + Members(tag, bucket, ns, f, 0) == order;
      for i := 0 to count
        invariant hits[k..] == old(hits[k..])
        invariant var o := order + Members(tag, bucket, ns, f, i);
                  Within(o, count) && Shows(hits[..k], Hits(entries, q, o)) && found == Min(k, |o|)
      {
        if Ns(tag[i]) != ns || !Passes(f, bucket[i]) {
          continue;
        }
        ghost var o := order + Members(tag, bucket, ns, f, i);
        assert order + Members(tag, bucket, ns, f, i + 1) == o + [i];
        HitsSnoc(entries, q, o, i);
        ScoreBound(q, entries[i].vec);
        found := Consider(q, qroot, i, hits, k, found, Hits(entries, q, o));
      }
    }

    /** The body of the pass for one slot: early-out, then insertion. */
    method Consider(q: Vec, qroot: nat, i: nat, hits: array<Hit>, k: nat, found0: nat, ghost hv: seq<Hit>)
      returns (found: nat)
      requires Valid() && qroot == Root(Norm(q)) && 0 < k <= hits.Length && i < count
      requires Shows(hits[..k], hv) && Scored(hv) && found0 == Min(k, |hv|) && Score(q, entries[i].vec) > EMPTY
      modifies hits
      ensures hits[k..] == old(hits[k..])
      ensures Shows(hits[..k], hv + [HitOf(entries[i], q)]) && found == Min(k, |hv| + 1)
    {
      hide Shows, Best, Root, Norm, Bucket, Offered, Slot, Dot;
      found := found0;
      var worst := hits[k - 1].score;
      assert Cached(i);
      ghost var h := HitOf(entries[i], q);
      var sc, skipped := Cosine(q, qroot, entries[i].vec, nroot[i], found >= k, worst);
      if skipped || (found >= k && sc <= worst) {
        SkipStep(hits[..k], hv, h);
        return;
      }
      OfferStep(hits[..k], hv, h);
      SlotFound(hits[..k], hv, sc);
      var placed := Offer(hits, k, Hit(entries[i].key, entries[i].meta, sc));
      if placed && found < k {
        found := found + 1;
      }
    }

    method CountNs(ns: string) returns (n: nat)
      requires Valid()
      ensures n == |Members(tag, bucket, ns, All, count)|
    {
      n := 0;
      for i := 0 to count
        invariant n == |Members(tag, bucket, ns, All, i)|
      {
        if Ns(tag[i]) == ns {
          n := n + 1;
        }
      }
    }

    method ClearHits(hits: array<Hit>, k: nat)
      requires k <= hits.Length
      modifies hits
      ensures hits[k..] == old(hits[k..]) && forall i :: 0 <= i < k ==> hits[i] == Hit("", "", EMPTY)
    {
      for i := 0 to k
        invariant hits[k..] == old(hits[k..]) && forall j :: 0 <= j < i ==> hits[j] == Hit("", "", EMPTY)
      {
        hits[i] := Hit("", "", EMPTY);
      }
    }

    /** peakvec_query_ex */
    method Query(ns: string, q: Vec, topk: int, hits: array<Hit>) returns (found: int, ann: bool, shortcut: bool)
      requires Valid() && (topk > 0 ==> Min(topk, TOPK_MAX) <= hits.Length)
      modifies hits
      ensures !ready || topk <= 0 ==> found == -1 && hits[..] == old(hits[..])
      ensures ready && topk > 0 ==>
        var k := Min(topk, TOPK_MAX);
        && hits[k..] == old(hits[k..])
        && Answers(hits[..k], entries, tag, bucket, ns, q, count, found, ann, shortcut)
    {
      hide Shows, Shown, Score, Best, Hits, Bucket, Norm, Root, Members, Ns;
      if !ready || topk <= 0 {
        return -1, false, false;
      }
      var k := if topk > TOPK_MAX then TOPK_MAX else topk;
      var nsb := Ns(ns);
      ClearHits(hits, k);
      var qnorm := NormBatched(q);
      var qroot := ISqrt(qnorm);
      var qb := VecBucket(q);
      var live := CountNs(nsb);
      ann, shortcut := live >= ANN_THRESHOLD, false;
      NothingShown(hits[..k], entries, q);
      if !ann {
        found := Scan(nsb, q, qroot, All, hits, k, 0, []);
        assert [] + Members(tag, bucket, nsb, All, count) == Members(tag, bucket, nsb, All, count);
        return;
      }
      found := Scan(nsb, q, qroot, Near(qb), hits, k, 0, []);
      ghost var near := Members(tag, bucket, nsb, Near(qb), count);
      assert [] + near == near;
      ShownIs(hits[..k], Hits(entries, q, near));
      if found >= k && hits[k - 1].score > 500 {
        shortcut := true;
        return;
      }
      found := Scan(nsb, q, qroot, Far(qb), hits, k, found, near);
    }
  }

  /** A list with room takes every score. */
  lemma SlotFound(hs: seq<Hit>, hv: seq<Hit>, sc: int)
    requires Shows(hs, hv) && sc > EMPTY
    ensures |hv| < |hs| ==> Slot(hs, sc) < |hs|
  {
    hide Best, Slot;
    BestRanked(Scores(hv), |hs|);
    if |hv| < |hs| {
      assert hs[|hs| - 1].score == EMPTY;
    }
  }

  lemma HitsSnoc(es: seq<Entry>, q: Vec, order: seq<nat>, i: nat)
    requires Within(order, |es|) && i < |es|
    ensures Within(order + [i], |es|)
    ensures Hits(es, q, order + [i]) == Hits(es, q, order) + [HitOf(es[i], q)]
    ensures Scored(Hits(es, q, order))
  {
    hide Score;
    AllScored(es, q, order);
  }
}
