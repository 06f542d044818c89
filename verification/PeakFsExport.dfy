/**
 Saving a PeakFS image (kernel/vfs_peakfs.c): the stream with its limit and the walk over the
 persistent namespaces.
 */
module PeakFsExport {
  import opened VfsPath
  import opened VfsTree
  import opened Vfs
  import opened VfsResolve
  import opened PeakImage
  import opened PeakFs
  import opened PeakFsIo

  const FULL: int := 2                        // the full persistence profile
  const EXPORT_MAX: nat := 32 * 1024 * 1024   // VFS_EXPORT_MAX_BYTES

  // ---- the export stream ----

  lemma {:induction false} EncodeConcat(a: seq<Entry>, b: seq<Entry>)
    requires Encodable(a) && Encodable(b)
    ensures Encodable(a + b) && EncodeAll(a + b) == EncodeAll(a) + EncodeAll(b)
  {
    hide EncodeEntry;
    BothEncodable(a, b);
    if a == [] {
      assert a + b == b;
    } else {
      assert Encodable(a[1..]);
      EncodeConcat(a[1..], b);
      assert (a + b)[1..] == a[1..] + b && (a + b)[0] == a[0];
      var e, x, y := EncodeEntry(a[0]), EncodeAll(a[1..]), EncodeAll(b);
      assert e + (x + y) == (e + x) + y;
    }
  }

  lemma BothEncodable(a: seq<Entry>, b: seq<Entry>)
    requires Encodable(a) && Encodable(b)
    ensures Encodable(a + b)
  {
  }

  /** stream_write: refuses to pass the limit. */
  method StreamWrite(out: seq<Byte>, data: seq<Byte>, limit: nat) returns (ok: bool, next: seq<Byte>)
    requires HEADER + |out| <= limit
    ensures ok <==> HEADER + |out| + |data| <= limit
    ensures next == if ok then out + data else out
  {
    ok := HEADER + |out| + |data| <= limit;
    next := if ok then out + data else out;
  }

  /** stream_write_entry, data in chunks. */
  method StreamEntry(out: seq<Byte>, e: Entry, limit: nat) returns (ok: bool, next: seq<Byte>)
    requires |e.name| < 0x1_0000 && |e.data| < 0x1_0000_0000 && HEADER + |out| <= limit
    ensures ok <==> HEADER + |out| + |EncodeEntry(e)| <= limit
    ensures ok ==> next == out + EncodeEntry(e)
  {
    hide U16, U32;
    ok, next := StreamWrite(out, U16(|e.name|), limit);
    if !ok {
      return;
    }
    ok, next := StreamWrite(next, e.name, limit);
    if !ok {
      return;
    }
    ok, next := StreamWrite(next, U32(|e.data|), limit);
    if !ok {
      return;
    }
    ok, next := StreamData(next, e.data, limit);
  }

  method StreamData(out: seq<Byte>, data: seq<Byte>, limit: nat) returns (ok: bool, next: seq<Byte>)
    requires HEADER + |out| <= limit
    ensures ok <==> HEADER + |out| + |data| <= limit
    ensures ok ==> next == out + data
  {
    ok, next := true, out;
    var at := 0;
    while at < |data|
      invariant 0 <= at <= |data| && next == out + data[..at] && HEADER + |next| <= limit && ok
    {
      var chunk := if |data| - at > 4096 then 4096 else |data| - at;
      ok, next := StreamWrite(next, data[at..at + chunk], limit);
      if !ok {
        return;
      }
      assert data[..at] + data[at..at + chunk] == data[..at + chunk];
      at := at + chunk;
    }
    assert data[..|data|] == data;
  }

  // ---- walk_rec with export_stream_cb ----

  ghost predicate EntryBelow(fs: Fs, q: Path, e: Entry) {
    exists k :: k in fs && q <= k && e == EntryFor(k, fs[k])
  }

  ghost predicate AllBelow(fs: Fs, q: Path, es: seq<Entry>) {
    forall i :: 0 <= i < |es| ==> EntryBelow(fs, q, es[i])
  }

  ghost predicate Covers(fs: Fs, q: Path, es: seq<Entry>) {
    forall k :: k in fs && q <= k ==> EntryFor(k, fs[k]) in es
  }

  /** The entries are those of the objects at and below `q`. */
  ghost predicate ListsBelow(fs: Fs, q: Path, es: seq<Entry>) {
    AllBelow(fs, q, es) && Covers(fs, q, es)
  }

  lemma CoversMore(fs: Fs, q: Path, a: seq<Entry>, b: seq<Entry>)
    requires Covers(fs, q, a) || Covers(fs, q, b)
    ensures Covers(fs, q, a + b)
  {
    hide EntryFor;
  }

  lemma BelowMore(fs: Fs, q: Path, kp: Path, a: seq<Entry>, b: seq<Entry>)
    requires AllBelow(fs, q, a) && AllBelow(fs, kp, b) && q <= kp
    ensures AllBelow(fs, q, a + b)
  {
    hide EntryFor;
    forall i | 0 <= i < |b| ensures EntryBelow(fs, q, b[i]) {
      assert EntryBelow(fs, kp, b[i]);
      var k :| k in fs && kp <= k && b[i] == EntryFor(k, fs[k]);
      assert q <= k;
    }
  }

  /** A persistent node of a tree that can be exported. */
  ghost predicate Walkable(t: Tree, n: nat) {
    && TreeOk(t) && NoLinks(FsOf(t)) && Exportable(FsOf(t))
    && Shaped(t) && Live(t, n) && Persist(t.path[n]) && |t.path[n]| <= DEEP
  }

  /** The entries of a node and of everything below it, in the order of the walk. */
  ghost function Listing(t: Tree, n: nat): (es: seq<Entry>)
    requires Walkable(t, n)
    ensures Encodable(es)
    decreases DEEP - |t.path[n]|, |t.kids[n]| + 1
  {
    hide TreeOk, FsOf, EntryFor, Encodable, Persist, Exportable, NoLinks;
    var own, more := [EntryFor(t.path[n], ObjOf(t.nodes[n]))], KidsListing(t, n, |t.kids[n]|);
    OwnEncodable(t, n);
    BothEncodable(own, more);
    own + more
  }

  lemma NoneEncodable()
    ensures Encodable([])
  {
  }

  lemma KidWalkable(t: Tree, n: nat, j: nat)
    requires Walkable(t, n) && j < |t.kids[n]|
    ensures Walkable(t, t.kids[n][j]) && |t.path[t.kids[n][j]]| == |t.path[n]| + 1 <= DEEP
  {
    hide FsOf, AllDirs, AllPaths, HeldBut, Slashed;
    ChildText(t, n, j);
  }

  lemma WalkShape(t: Tree, n: nat)
    requires Walkable(t, n)
    ensures TreeOk(t) && n < NODES && |t.nodes| == |t.kids| == |t.path| == NODES && |t.path[n]| <= DEEP
  {
    hide TreeOk, FsOf;
  }

  lemma KidText(t: Tree, n: nat, j: nat)
    requires Walkable(t, n) && j < |t.kids[n]|
    ensures var c := t.kids[n][j];
            && c < |t.nodes| && Walkable(t, c) && |t.path[n]| < |t.path[c]| <= DEEP
            && Slashed(t.path[c]) == Slashed(t.path[n]) + "/" + t.nodes[c].name
  {
    hide FsOf, AllDirs, AllPaths, HeldBut, Slashed;
    ChildText(t, n, j);
  }

  lemma OwnEncodable(t: Tree, n: nat)
    requires Walkable(t, n)
    ensures Encodable([EntryFor(t.path[n], ObjOf(t.nodes[n]))])
  {
    hide FsOf, AllDirs, AllPaths, HeldBut, EntryFor, Allowed, PathOf;
    NodeEntry(t, n);
  }

  /** The entries of the first `j` children and of everything below them. */
  ghost function KidsListing(t: Tree, n: nat, j: nat): (es: seq<Entry>)
    requires Walkable(t, n) && j <= |t.kids[n]|
    ensures Encodable(es)
    decreases DEEP - |t.path[n]|, j
  {
    hide TreeOk, FsOf, Encodable, Persist, Exportable, NoLinks, Slashed;
    if j == 0 then NoneEncodable(); []
    else
      KidWalkable(t, n, j - 1);
      var done, more := KidsListing(t, n, j - 1), Listing(t, t.kids[n][j - 1]);
      BothEncodable(done, more);
      done + more
  }

  /** The walk visits exactly the objects at and below its node. */
  lemma {:induction false} ListingLists(t: Tree, n: nat)
    requires Walkable(t, n)
    ensures ListsBelow(FsOf(t), t.path[n], Listing(t, n))
    decreases DEEP - |t.path[n]|, |t.kids[n]| + 1
  {
    hide AllDirs, AllPaths, HeldBut, FsOf, EncodeAll, EntryFor, Persist, Exportable, NoLinks, Slashed, Encodable;
    var fs, q := FsOf(t), t.path[n];
    NodeEntry(t, n);
    var e := EntryFor(q, fs[q]);
    SingleEntry(fs, q, e);
    KidsLists(t, n, |t.kids[n]|);
    JoinLists(t, n, [e], KidsListing(t, n, |t.kids[n]|));
  }

  lemma {:induction false} KidsLists(t: Tree, n: nat, j: nat)
    requires Walkable(t, n) && j <= |t.kids[n]|
    ensures AllBelow(FsOf(t), t.path[n], KidsListing(t, n, j))
    ensures forall i :: 0 <= i < j ==>
      t.kids[n][i] < |t.path| && Covers(FsOf(t), t.path[t.kids[n][i]], KidsListing(t, n, j))
    decreases DEEP - |t.path[n]|, j
  {
    hide AllDirs, AllPaths, HeldBut, FsOf, EncodeAll, EntryFor, Persist, Exportable, NoLinks, Slashed, Covers,
         AllBelow, Encodable;
    var fs, q := FsOf(t), t.path[n];
    if j == 0 {
      NoEntries(fs, q);
    } else {
      KidsLists(t, n, j - 1);
      ChildText(t, n, j - 1);
      var c, es := t.kids[n][j - 1], KidsListing(t, n, j - 1);
      ListingLists(t, c);
      var more := Listing(t, c);
      ListsCover(fs, t.path[c], more);
      BelowMore(fs, q, t.path[c], es, more);
      forall i | 0 <= i < j ensures t.kids[n][i] < |t.path| && Covers(fs, t.path[t.kids[n][i]], es + more) {
        CoversMore(fs, t.path[t.kids[n][i]], es, more);
      }
    }
  }

  // ---- each object once ----

  ghost function PathsBelow(fs: Fs, q: Path): set<Path> {
    set k | k in fs && q <= k
  }

  /** The paths at and below the first `j` children. */
  ghost function KidsBelow(t: Tree, n: nat, j: nat): set<Path>
    requires Walkable(t, n) && j <= |t.kids[n]|
  {
    if j == 0 then {}
    else
      KidWalkable(t, n, j - 1);
      KidsBelow(t, n, j - 1) + PathsBelow(FsOf(t), t.path[t.kids[n][j - 1]])
  }

  lemma {:induction false} KidsBelowIs(t: Tree, n: nat, j: nat, k: Path)
    requires Walkable(t, n) && j <= |t.kids[n]|
    ensures forall i :: 0 <= i < |t.kids[n]| ==> t.kids[n][i] < |t.path|
    ensures k in KidsBelow(t, n, j) <==> k in FsOf(t) && exists i :: 0 <= i < j && t.path[t.kids[n][i]] <= k
  {
    hide FsOf, AllDirs, AllPaths, HeldBut;
    forall i | 0 <= i < |t.kids[n]| ensures t.kids[n][i] < |t.path| {
      KidWalkable(t, n, i);
    }
    if j > 0 {
      KidsBelowIs(t, n, j - 1, k);
    }
  }

  /** A path is below one child at most. */
  lemma KidsOnce(t: Tree, n: nat, i: nat, j: nat, k: Path)
    requires Walkable(t, n) && i < j < |t.kids[n]|
    ensures t.kids[n][i] < |t.path| && t.kids[n][j] < |t.path|
    ensures !(t.path[t.kids[n][i]] <= k && t.path[t.kids[n][j]] <= k)
  {
    hide FsOf, AllDirs, AllPaths, HeldBut;
    NotOwnKid(t, n, i);
    NotOwnKid(t, n, j);
    DirAt(t, n);
    var a, b := t.path[t.kids[n][i]], t.path[t.kids[n][j]];
    assert a[|a| - 1] != b[|b| - 1];
  }

  /** The walk visits every object at and below its node exactly once. */
  lemma {:induction false} ListingCount(t: Tree, n: nat)
    requires Walkable(t, n)
    ensures |Listing(t, n)| == |PathsBelow(FsOf(t), t.path[n])|
    decreases DEEP - |t.path[n]|, |t.kids[n]| + 1
  {
    hide FsOf, AllDirs, AllPaths, HeldBut, EntryFor, Persist, Exportable, NoLinks, Encodable;
    var q, m := t.path[n], |t.kids[n]|;
    KidsCount(t, n, m);
    forall k ensures k in PathsBelow(FsOf(t), q) <==> k == q || k in KidsBelow(t, n, m) {
      KidsBelowIs(t, n, m, k);
      OwnOrBelow(t, n, k);
    }
    OwnNotBelow(t, n);
    assert PathsBelow(FsOf(t), q) == {q} + KidsBelow(t, n, m);
  }

  lemma OwnOrBelow(t: Tree, n: nat, k: Path)
    requires Walkable(t, n)
    ensures forall i :: 0 <= i < |t.kids[n]| ==> t.kids[n][i] < |t.path|
    ensures k in FsOf(t) && t.path[n] <= k <==>
      k == t.path[n] || (k in FsOf(t) && exists i :: 0 <= i < |t.kids[n]| && t.path[t.kids[n][i]] <= k)
  {
    hide FsOf, AllDirs, AllPaths, HeldBut;
    forall i | 0 <= i < |t.kids[n]| ensures t.kids[n][i] < |t.path| && t.path[n] <= t.path[t.kids[n][i]] {
      NotOwnKid(t, n, i);
    }
    if k in FsOf(t) && t.path[n] <= k && k != t.path[n] {
      var i := ChildOn(t, n, k);
    }
  }

  lemma OwnNotBelow(t: Tree, n: nat)
    requires Walkable(t, n)
    ensures t.path[n] !in KidsBelow(t, n, |t.kids[n]|)
  {
    hide FsOf, AllDirs, AllPaths, HeldBut;
    KidsBelowIs(t, n, |t.kids[n]|, t.path[n]);
    forall i | 0 <= i < |t.kids[n]| ensures !(t.path[t.kids[n][i]] <= t.path[n]) {
      NotOwnKid(t, n, i);
    }
  }

  lemma KidApart(t: Tree, n: nat, j: nat)
    requires Walkable(t, n) && j < |t.kids[n]|
    ensures t.kids[n][j] < |t.path| && KidsBelow(t, n, j) !! PathsBelow(FsOf(t), t.path[t.kids[n][j]])
  {
    hide FsOf, AllDirs, AllPaths, HeldBut, KidsBelow;
    KidWalkable(t, n, j);
    forall k | k in KidsBelow(t, n, j) ensures !(t.path[t.kids[n][j]] <= k) {
      KidsBelowIs(t, n, j, k);
      var i :| 0 <= i < j && t.path[t.kids[n][i]] <= k;
      KidsOnce(t, n, i, j, k);
    }
  }

  lemma {:induction false} KidsCount(t: Tree, n: nat, j: nat)
    requires Walkable(t, n) && j <= |t.kids[n]|
    ensures |KidsListing(t, n, j)| == |KidsBelow(t, n, j)|
    decreases DEEP - |t.path[n]|, j
  {
    hide TreeOk, FsOf, Persist, Exportable, NoLinks, Encodable, EncodeAll, Listing, PathsBelow;
    if j > 0 {
      KidsCount(t, n, j - 1);
      KidWalkable(t, n, j - 1);
      ListingCount(t, t.kids[n][j - 1]);
      KidApart(t, n, j - 1);
    }
  }

  /** Fewer children never take more bytes. */
  lemma {:induction false} KidsSize(t: Tree, n: nat, i: nat, j: nat)
    requires Walkable(t, n) && i <= j <= |t.kids[n]|
    ensures |EncodeAll(KidsListing(t, n, i))| <= |EncodeAll(KidsListing(t, n, j))|
    decreases j
  {
    hide Walkable, EncodeAll, Encodable, KidsListing, Listing;
    if i < j {
      KidsSize(t, n, i, j - 1);
      KidsStep(t, n, j - 1);
    }
  }

  lemma KidsStep(t: Tree, n: nat, j: nat)
    requires Walkable(t, n) && j < |t.kids[n]|
    ensures Walkable(t, t.kids[n][j])
    ensures var es, more := KidsListing(t, n, j), Listing(t, t.kids[n][j]);
            && KidsListing(t, n, j + 1) == es + more
            && EncodeAll(KidsListing(t, n, j + 1)) == EncodeAll(es) + EncodeAll(more)
  {
    hide FsOf, AllDirs, AllPaths, HeldBut, EncodeAll, Encodable;
    ChildText(t, n, j);
    EncodeConcat(KidsListing(t, n, j), Listing(t, t.kids[n][j]));
  }

  lemma ListingStep(t: Tree, n: nat)
    requires Walkable(t, n)
    ensures var e, more := EntryFor(t.path[n], ObjOf(t.nodes[n])), KidsListing(t, n, |t.kids[n]|);
            && |e.name| < 0x1_0000 && |e.data| < 0x1_0000_0000
            && |Listing(t, n)| == 1 + |more|
            && EncodeAll(Listing(t, n)) == EncodeEntry(e) + EncodeAll(more)
  {
    hide FsOf, AllDirs, AllPaths, HeldBut, EncodeEntry, EntryFor, KidsListing;
    NodeEntry(t, n);
    var e := EntryFor(t.path[n], ObjOf(t.nodes[n]));
    assert Listing(t, n)[1..] == KidsListing(t, n, |t.kids[n]|);
  }

  /** walk_rec with export_stream_cb: gets through exactly when all entries fit below the limit. */
  method WalkRec(p: Pool, n: nat, text: string, out: seq<Byte>, limit: nat)
    returns (ok: bool, next: seq<Byte>, count: nat)
    requires p.Valid() && Walkable(p.T(), n) && text == Slashed(p.path[n]) && HEADER + |out| <= limit
    ensures ok <==> HEADER + |out| + |EncodeAll(Listing(p.T(), n))| <= limit
    ensures ok ==> next == out + EncodeAll(Listing(p.T(), n)) && count == |Listing(p.T(), n)|
    decreases DEEP - |p.path[n]|, 1
  {
    hide AllDirs, AllPaths, HeldBut, FsOf, EncodeAll, EncodeEntry, EntryFor, Persist, Exportable, NoLinks, Slashed,
         Listing, KidsListing;
    ghost var t := p.T();
    ListingStep(t, n);
    ok, next := WriteNode(p, n, text, out, limit);
    count := 1;
    if !ok {
      return;
    }
    if p.nodes[n].kind != Dir {
      LeafListing(t, n);
      return;
    }
    var extra;
    ok, next, extra := WalkChildren(p, n, text, next, limit);
    count := count + extra;
  }

  lemma LeafListing(t: Tree, n: nat)
    requires Walkable(t, n) && t.nodes[n].kind != Dir
    ensures t.kids[n] == [] && KidsListing(t, n, |t.kids[n]|) == []
    ensures EncodeAll(KidsListing(t, n, |t.kids[n]|)) == []
  {
    NoKids(t, n);
  }

  /** export_stream_cb for one node. */
  method WriteNode(p: Pool, n: nat, text: string, out: seq<Byte>, limit: nat) returns (ok: bool, next: seq<Byte>)
    requires p.Valid() && Walkable(p.T(), n) && text == Slashed(p.path[n]) && HEADER + |out| <= limit
    ensures var e := EntryFor(p.path[n], ObjOf(p.nodes[n]));
            && |e.name| < 0x1_0000 && |e.data| < 0x1_0000_0000
            && (ok <==> HEADER + |out| + |EncodeEntry(e)| <= limit) && (ok ==> next == out + EncodeEntry(e))
  {
    hide AllDirs, AllPaths, HeldBut, FsOf, EncodeEntry, EntryFor, Persist, Exportable, NoLinks, Slashed, Allowed;
    NodeEntry(p.T(), n);
    ok, next := true, out;
    var allowed := PathAllowed(text, FULL);
    if allowed {
      var e := if p.nodes[n].kind == File then Entry(Bytes(text), p.nodes[n].data) else Entry(Bytes(text + "/"), []);
      ok, next := StreamEntry(out, e, limit);
    }
  }

  /** The loop over the children. */
  method WalkChildren(p: Pool, n: nat, text: string, out: seq<Byte>, limit: nat)
    returns (ok: bool, next: seq<Byte>, count: nat)
    requires p.Valid() && Walkable(p.T(), n) && text == Slashed(p.path[n]) && HEADER + |out| <= limit
    ensures var all := KidsListing(p.T(), n, |p.kids[n]|);
            && (ok <==> HEADER + |out| + |EncodeAll(all)| <= limit)
            && (ok ==> next == out + EncodeAll(all) && count == |all|)
    decreases DEEP - |p.path[n]|, 0
  {
    hide TreeOk, FsOf, Walkable, EncodeAll, Slashed, Listing, KidsListing, Encodable;
    ghost var t := p.T();
    WalkShape(t, n);
    ok, next, count := true, out, 0;
    NoKidsYet(t, n);
    KidsChain(t, n);
    var c := p.nodes[n].child;
    ghost var j := 0;
    while c != -1
      invariant 0 <= j <= |p.kids[n]| && c == At(p.kids[n], j) && ok
      invariant next == out + EncodeAll(KidsListing(t, n, j)) && HEADER + |next| <= limit
      invariant count == |KidsListing(t, n, j)|
      decreases |p.kids[n]| - j
    {
      KidsStep(t, n, j);
      KidText(t, n, j);
      ghost var done, more := EncodeAll(KidsListing(t, n, j)), EncodeAll(Listing(t, c));
      var extra;
      ok, next, extra := WalkRec(p, c, text + "/" + p.nodes[c].name, next, limit);
      if !ok {
        KidsSize(t, n, j + 1, |p.kids[n]|);
        return;
      }
      assert out + done + more == out + (done + more);
      count := count + extra;
      c, j := p.nodes[c].sibling, j + 1;
    }
  }

  lemma NoKidsYet(t: Tree, n: nat)
    requires Walkable(t, n)
    ensures KidsListing(t, n, 0) == [] && EncodeAll(KidsListing(t, n, 0)) == []
  {
  }

  /** The child and sibling fields run through the children in order. */
  lemma KidsChain(t: Tree, n: nat)
    requires TreeOk(t) && n < NODES
    ensures t.nodes[n].child == At(t.kids[n], 0)
    ensures forall j :: 0 <= j < |t.kids[n]| ==>
      t.kids[n][j] < NODES && t.nodes[t.kids[n][j]].sibling == At(t.kids[n], j + 1)
  {
    hide AllPaths, HeldBut;
    assert DirOk(t, n);
  }

  lemma NoEntries(fs: Fs, q: Path)
    ensures AllBelow(fs, q, [])
  {
  }

  lemma ListsCover(fs: Fs, q: Path, es: seq<Entry>)
    requires ListsBelow(fs, q, es)
    ensures Covers(fs, q, es)
  {
  }

  lemma ChildText(t: Tree, n: nat, j: nat)
    requires TreeOk(t) && Exportable(FsOf(t)) && Live(t, n) && Persist(t.path[n]) && j < |t.kids[n]|
    ensures var c := t.kids[n][j];
            && c < NODES && Live(t, c) && Persist(t.path[c]) && |t.path[c]| == |t.path[n]| + 1 && |t.path[c]| <= DEEP
            && t.path[n] <= t.path[c] && Slashed(t.path[c]) == Slashed(t.path[n]) + "/" + t.nodes[c].name
  {
    hide FsOf, AllDirs, AllPaths, HeldBut, Slashed;
    NotOwnKid(t, n, j);
    var c := t.kids[n][j];
    SlashedSnoc(t.path[n], t.nodes[c].name);
    assert t.path[c][..|t.path[n]|] == t.path[n];
    PersistUp(t.path[c], |t.path[n]|);
    ExportableAt(FsOf(t), t.path[c]);
  }

  /** The entry written for a node is that of its object, and the walk stays within the limits. */
  lemma NodeEntry(t: Tree, n: nat)
    requires TreeOk(t) && NoLinks(FsOf(t)) && Exportable(FsOf(t)) && Live(t, n) && Persist(t.path[n])
    ensures var q, fs := t.path[n], FsOf(t);
            && q in fs && fs[q] == ObjOf(t.nodes[n]) && Saveable(q) && Allowed(Slashed(q), FULL)
            && EntryOk(EntryFor(q, fs[q]), FULL)
            && EntryFor(q, fs[q]) == if t.nodes[n].kind == File then Entry(Bytes(Slashed(q)), t.nodes[n].data)
                                     else Entry(Bytes(Slashed(q) + "/"), [])
  {
    hide FsOf, AllDirs, AllPaths, HeldBut, Persist, Allowed, EntryOk, Slashed, Canonical, ByteText;
    var q, fs := t.path[n], FsOf(t);
    SaveableAllowed(q);
    EntryAccepted(fs, q);
    PersistNonEmpty(q);
  }

  lemma SingleEntry(fs: Fs, q: Path, e: Entry)
    requires q in fs && e == EntryFor(q, fs[q]) && EntryOk(e, FULL)
    ensures AllBelow(fs, q, [e]) && Encodable([e]) && EncodeAll([e]) == EncodeEntry(e)
  {
    hide EntryFor, EncodeEntry, Allowed, PathOf;
    assert EntryBelow(fs, q, e);
    assert [e][1..] == [];
    assert EncodeAll([]) == [];
  }

  /** A node's own entry and those below its children make the list of its subtree. */
  lemma JoinLists(t: Tree, n: nat, es: seq<Entry>, more: seq<Entry>)
    requires TreeOk(t) && Live(t, n)
    requires AllBelow(FsOf(t), t.path[n], es) && EntryFor(t.path[n], FsOf(t)[t.path[n]]) in es
    requires AllBelow(FsOf(t), t.path[n], more)
    requires forall i :: 0 <= i < |t.kids[n]| ==> t.kids[n][i] < |t.path| && Covers(FsOf(t), t.path[t.kids[n][i]], more)
    ensures ListsBelow(FsOf(t), t.path[n], es + more)
  {
    hide FsOf, AllDirs, AllPaths, HeldBut, EntryFor;
    var fs, q := FsOf(t), t.path[n];
    BelowMore(fs, q, q, es, more);
    forall k | k in fs && q <= k ensures EntryFor(k, fs[k]) in es + more {
      if k != q {
        var i := ChildOn(t, n, k);
        assert Covers(fs, t.path[t.kids[n][i]], more);
      }
    }
  }

  /** Something below a node is at or below one of its children. */
  lemma ChildOn(t: Tree, n: nat, k: Path) returns (i: nat)
    requires TreeOk(t) && Live(t, n) && k in FsOf(t) && t.path[n] <= k && k != t.path[n]
    ensures i < |t.kids[n]| && t.kids[n][i] < NODES && t.path[t.kids[n][i]] <= k
  {
    hide FsOf, AllDirs, AllPaths, HeldBut;
    var c: nat :| Live(t, c) && t.path[c] == k;
    PrefixIs(t.path[n], k);
    var a := Ancestor(t, c, |t.path[n]| + 1);
    ChildThere(t, n, a);
    i :| 0 <= i < |t.kids[n]| && t.kids[n][i] == a;
  }

  // ---- vfs_export_ramdisk ----

  ghost function NodeAt(t: Tree, q: Path): (n: nat)
    requires TreeOk(t) && q in FsOf(t)
    ensures Shaped(t) && Live(t, n) && t.path[n] == q
  {
    var n: nat :| Live(t, n) && t.path[n] == q; n
  }

  /** A tree whose namespaces exist and can be written to an image. */
  ghost predicate Ready(t: Tree) {
    TreeOk(t) && NoLinks(FsOf(t)) && Exportable(FsOf(t)) && Rooted(FsOf(t))
  }

  lemma RootWalkable(t: Tree, q: Path)
    requires Ready(t) && (q == Home() || q == Etc() || q == Var())
    ensures q in FsOf(t) && Walkable(t, NodeAt(t, q))
  {
    hide AllDirs, AllPaths, HeldBut, FsOf;
    ExportableAt(FsOf(t), q);
  }

  ghost function RootListing(t: Tree, q: Path): (es: seq<Entry>)
    requires Ready(t) && (q == Home() || q == Etc() || q == Var())
    ensures Encodable(es)
  {
    RootWalkable(t, q);
    Listing(t, NodeAt(t, q))
  }

  /** The entries of an image of the tree: the three namespaces one after another. */
  ghost function TreeEntries(t: Tree): (es: seq<Entry>)
    requires Ready(t)
    ensures Encodable(es)
  {
    hide Ready, RootListing;
    RootListing(t, Home()) + RootListing(t, Etc()) + RootListing(t, Var())
  }

  /** The bytes of an image of the tree. */
  ghost function ImageSize(t: Tree): nat
    requires Ready(t)
  {
    HEADER + |EncodeAll(TreeEntries(t))|
  }

  /** An image holds exactly the persistent objects. */
  lemma TreeEntriesList(t: Tree)
    requires Ready(t)
    ensures Lists(FsOf(t), TreeEntries(t))
    ensures EncodeAll(TreeEntries(t)) ==
            EncodeAll(RootListing(t, Home())) + EncodeAll(RootListing(t, Etc())) + EncodeAll(RootListing(t, Var()))
  {
    hide TreeOk, FsOf, EncodeAll, Encodable, Listing, ListsBelow, Lists, NoLinks, Exportable, Rooted;
    RootLists(t, Home());
    RootLists(t, Etc());
    RootLists(t, Var());
    ThreeLists(FsOf(t), RootListing(t, Home()), RootListing(t, Etc()), RootListing(t, Var()));
  }

  /** The persistent objects. */
  ghost function Inside(fs: Fs): set<Path> {
    set k | k in fs && Persist(k)
  }

  /** An image has one entry for each persistent object. */
  lemma TreeEntriesOnce(t: Tree)
    requires Ready(t)
    ensures |TreeEntries(t)| == |Inside(FsOf(t))|
  {
    hide TreeOk, FsOf, NoLinks, Exportable, Rooted, RootListing, Encodable, PathsBelow, Inside;
    RootCount(t, Home());
    RootCount(t, Etc());
    RootCount(t, Var());
    InsideSize(FsOf(t));
  }

  lemma InsideSize(fs: Fs)
    ensures |Inside(fs)| == |PathsBelow(fs, Home())| + |PathsBelow(fs, Etc())| + |PathsBelow(fs, Var())|
  {
    var a, b, c := PathsBelow(fs, Home()), PathsBelow(fs, Etc()), PathsBelow(fs, Var());
    hide Home, Etc, Var;
    forall k | k in fs
      ensures !(k in a && k in b) && !(k in a && k in c) && !(k in b && k in c)
    {
      RootsApart(k);
    }
    assert a !! b && (a + b) !! c;
    assert Inside(fs) == a + b + c;
    assert |a + b + c| == |a + b| + |c| && |a + b| == |a| + |b|;
  }

  lemma RootsApart(k: Path)
    ensures !(Home() <= k && Etc() <= k) && !(Home() <= k && Var() <= k) && !(Etc() <= k && Var() <= k)
  {
    assert |Home()[0]| == 4 && |Etc()[0]| == 3 && |Var()[0]| == 3 && Etc()[0][0] != Var()[0][0];
  }

  lemma RootCount(t: Tree, q: Path)
    requires Ready(t) && (q == Home() || q == Etc() || q == Var())
    ensures |RootListing(t, q)| == |PathsBelow(FsOf(t), q)|
  {
    hide FsOf, AllDirs, AllPaths, HeldBut, Listing, NoLinks, Exportable, Encodable;
    RootWalkable(t, q);
    ListingCount(t, NodeAt(t, q));
  }

  lemma EntrySize(e: Entry, longest: nat)
    requires |e.name| < PATH_MAX && |e.data| < 0x1_0000_0000 && |e.data| <= longest
    ensures |EncodeEntry(e)| <= PATH_MAX + 6 + longest
  {
  }

  lemma OneMoreTimes(n: nat, x: nat)
    ensures (n + 1) * x == n * x + x
  {
  }

  /** The bytes of an image, from the number of its entries and the longest file. */
  lemma {:induction false} EncodeBound(es: seq<Entry>, longest: nat)
    requires Encodable(es) && forall i :: 0 <= i < |es| ==> |es[i].name| < PATH_MAX && |es[i].data| <= longest
    ensures |EncodeAll(es)| <= |es| * (PATH_MAX + 6 + longest)
  {
    hide EncodeEntry;
    if es != [] {
      assert forall i :: 0 <= i < |es[1..]| ==> es[1..][i] == es[i + 1];
      EncodeBound(es[1..], longest);
      EntrySize(es[0], longest);
      OneMoreTimes(|es| - 1, PATH_MAX + 6 + longest);
    }
  }

  lemma RootLists(t: Tree, q: Path)
    requires Ready(t) && (q == Home() || q == Etc() || q == Var())
    ensures ListsBelow(FsOf(t), q, RootListing(t, q))
  {
    hide FsOf, AllDirs, AllPaths, HeldBut, Listing, ListsBelow, NoLinks, Exportable, Encodable;
    RootWalkable(t, q);
    ListingLists(t, NodeAt(t, q));
  }

  /** vfs_walk over one namespace. */
  method ExportRoot(p: Pool, root: string, ghost q: Path, out: seq<Byte>, limit: nat)
    returns (ok: bool, next: seq<Byte>, count: nat)
    requires p.Valid() && Ready(p.T()) && HEADER + |out| <= limit && (q == Home() || q == Etc() || q == Var())
    requires root != "" && root[0] == '/' && Parts(root, 1) == q && root == Slashed(q)
    ensures ok <==> HEADER + |out| + |EncodeAll(RootListing(p.T(), q))| <= limit
    ensures ok ==> next == out + EncodeAll(RootListing(p.T(), q)) && count == |RootListing(p.T(), q)|
  {
    hide AllDirs, AllPaths, HeldBut, FsOf, Parts, Persist, Exportable, NoLinks, EncodeAll, Slashed, Encodable, Listing;
    var n := p.Lookup(root);
    RootWalkable(p.T(), q);
    PathsUnique(p.T(), n, NodeAt(p.T(), q));
    ok, next, count := WalkRec(p, n, root, out, limit);
  }

  /** vfs_export_ramdisk into a buffer of `cap` bytes: the image, exactly when it fits. */
  method Export(p: Pool, cap: nat) returns (r: Result<seq<Byte>>)
    requires p.Valid() && Ready(p.T())
    ensures r.Ok? <==> ImageSize(p.T()) <= cap && ImageSize(p.T()) <= EXPORT_MAX
    ensures r.Ok? ==> |TreeEntries(p.T())| < 0x1_0000_0000 && r.value == Encode(TreeEntries(p.T()))
  {
    hide TreeOk, FsOf, Ready, EncodeAll, Encodable, TreeEntries, U32;
    if cap < HEADER {
      return Err(Io);
    }
    var ok, out, count := ExportAll(p, if cap < EXPORT_MAX then cap else EXPORT_MAX);
    if !ok {
      return Err(Io);
    }
    EncodeLength(TreeEntries(p.T()));
    r := Ok(Magic() + [0] + U32(count) + out);
  }

  /** The three namespaces one after another. */
  method ExportAll(p: Pool, limit: nat) returns (ok: bool, out: seq<Byte>, count: nat)
    requires p.Valid() && Ready(p.T()) && HEADER <= limit
    ensures ok <==> ImageSize(p.T()) <= limit
    ensures ok ==> out == EncodeAll(TreeEntries(p.T())) && count == |TreeEntries(p.T())|
  {
    hide TreeOk, FsOf, Ready, Parts, EncodeAll, Slashed, Encodable, RootListing, Lists;
    RootParts();
    RootTexts();
    ghost var t := p.T();
    TreeEntriesList(t);
    var extra;
    ok, out, count := ExportRoot(p, "/home", Home(), [], limit);
    if !ok {
      return;
    }
    ok, out, extra := ExportRoot(p, "/etc/peak", Etc(), out, limit);
    if !ok {
      return;
    }
    count := count + extra;
    ok, out, extra := ExportRoot(p, "/var/peak", Var(), out, limit);
    count := count + extra;
    assert [] + EncodeAll(RootListing(t, Home())) == EncodeAll(RootListing(t, Home()));
  }

  lemma ThreeLists(fs: Fs, a: seq<Entry>, b: seq<Entry>, c: seq<Entry>)
    requires ListsBelow(fs, Home(), a) && ListsBelow(fs, Etc(), b) && ListsBelow(fs, Var(), c)
    requires Encodable(a) && Encodable(b) && Encodable(c)
    ensures Lists(fs, a + b + c) && Encodable(a + b + c)
    ensures EncodeAll(a + b + c) == EncodeAll(a) + EncodeAll(b) + EncodeAll(c)
  {
    hide EntryFor, EncodeAll;
    EncodeConcat(a, b);
    EncodeConcat(a + b, c);
    FromRoot(fs, Home(), a);
    FromRoot(fs, Etc(), b);
    FromRoot(fs, Var(), c);
  }

  lemma FromRoot(fs: Fs, q: Path, es: seq<Entry>)
    requires AllBelow(fs, q, es) && (q == Home() || q == Etc() || q == Var())
    ensures forall i :: 0 <= i < |es| ==> FromTree(fs, es[i])
  {
    hide EntryFor;
    forall i | 0 <= i < |es| ensures FromTree(fs, es[i]) {
      assert EntryBelow(fs, q, es[i]);
      var k :| k in fs && q <= k && es[i] == EntryFor(k, fs[k]);
      assert Persist(k);
    }
  }

  lemma {:induction false} EncodeLength(es: seq<Entry>)
    requires Encodable(es)
    ensures |EncodeAll(es)| >= |es|
  {
    if es != [] {
      assert Encodable(es[1..]);
      EncodeLength(es[1..]);
    }
  }

  // ---- vfs_export_ramdisk_size ----

  /** size_cb on one entry: adds it up, or stops at the limit. */
  method AddSize(bytes: nat, e: Entry) returns (ok: bool, next: nat)
    requires |e.name| < 0x1_0000 && |e.data| < 0x1_0000_0000
    ensures ok <==> bytes + |EncodeEntry(e)| <= EXPORT_MAX
    ensures next == if ok then bytes + |EncodeEntry(e)| else bytes
  {
    ok := bytes + 2 + |e.name| + 4 + |e.data| <= EXPORT_MAX;
    next := if ok then bytes + 2 + |e.name| + 4 + |e.data| else bytes;
  }

  /** What the size walk makes of `bytes` over entries of `size` bytes: all of them, or fewer once it stops. */
  ghost predicate Sums(bytes: nat, size: nat, ok: bool, next: nat) {
    && (ok <==> bytes + size <= EXPORT_MAX)
    && bytes <= next <= EXPORT_MAX && (if ok then next == bytes + size else next < bytes + size)
  }

  /** walk_rec with size_cb. */
  method SizeRec(p: Pool, n: nat, text: string, bytes: nat) returns (ok: bool, next: nat)
    requires p.Valid() && Walkable(p.T(), n) && text == Slashed(p.path[n]) && bytes <= EXPORT_MAX
    ensures Sums(bytes, |EncodeAll(Listing(p.T(), n))|, ok, next)
    decreases DEEP - |p.path[n]|, 1
  {
    hide AllDirs, AllPaths, HeldBut, FsOf, EncodeAll, EncodeEntry, EntryFor, Persist, Exportable, NoLinks, Slashed,
         Listing, KidsListing, Allowed;
    ghost var t := p.T();
    ListingStep(t, n);
    NodeEntry(t, n);
    NodeTakes(EntryFor(t.path[n], ObjOf(t.nodes[n])));
    ok, next := true, bytes;
    var allowed := PathAllowed(text, FULL);
    if allowed {
      var e := if p.nodes[n].kind == File then Entry(Bytes(text), p.nodes[n].data) else Entry(Bytes(text + "/"), []);
      ok, next := AddSize(bytes, e);
    }
    if !ok {
      return;
    }
    if p.nodes[n].kind != Dir {
      LeafListing(t, n);
      return;
    }
    ok, next := SizeChildren(p, n, text, next);
  }

  lemma NodeTakes(e: Entry)
    requires |e.name| < 0x1_0000 && |e.data| < 0x1_0000_0000
    ensures |EncodeEntry(e)| >= 6
  {
  }

  method SizeChildren(p: Pool, n: nat, text: string, bytes: nat) returns (ok: bool, next: nat)
    requires p.Valid() && Walkable(p.T(), n) && text == Slashed(p.path[n]) && bytes <= EXPORT_MAX
    ensures Sums(bytes, |EncodeAll(KidsListing(p.T(), n, |p.kids[n]|))|, ok, next)
    decreases DEEP - |p.path[n]|, 0
  {
    hide TreeOk, FsOf, Walkable, EncodeAll, Slashed, Listing, KidsListing, Encodable;
    ghost var t := p.T();
    WalkShape(t, n);
    ok, next := true, bytes;
    NoKidsYet(t, n);
    KidsChain(t, n);
    var c := p.nodes[n].child;
    ghost var j := 0;
    while c != -1
      invariant 0 <= j <= |p.kids[n]| && c == At(p.kids[n], j) && ok
      invariant next == bytes + |EncodeAll(KidsListing(t, n, j))| && next <= EXPORT_MAX
      decreases |p.kids[n]| - j
    {
      KidsStep(t, n, j);
      KidText(t, n, j);
      ok, next := SizeRec(p, c, text + "/" + p.nodes[c].name, next);
      if !ok {
        KidsSize(t, n, j + 1, |p.kids[n]|);
        return;
      }
      c, j := p.nodes[c].sibling, j + 1;
    }
  }

  /** vfs_walk with size_cb over one namespace; after a stop the next one goes on from there. */
  method SizeRoot(p: Pool, root: string, ghost q: Path, bytes: nat) returns (ok: bool, next: nat)
    requires p.Valid() && Ready(p.T()) && bytes <= EXPORT_MAX && (q == Home() || q == Etc() || q == Var())
    requires root != "" && root[0] == '/' && Parts(root, 1) == q && root == Slashed(q)
    ensures Sums(bytes, |EncodeAll(RootListing(p.T(), q))|, ok, next)
  {
    hide AllDirs, AllPaths, HeldBut, FsOf, Parts, Persist, Exportable, NoLinks, EncodeAll, Slashed, Encodable, Listing;
    var n := p.Lookup(root);
    RootWalkable(p.T(), q);
    PathsUnique(p.T(), n, NodeAt(p.T(), q));
    ok, next := SizeRec(p, n, root, bytes);
  }

  /** vfs_export_ramdisk_size: the image's size if it is within the limit, and otherwise too small
      a number for the image to be written. */
  method ExportSize(p: Pool) returns (need: nat)
    requires p.Valid() && Ready(p.T())
    ensures ImageSize(p.T()) <= EXPORT_MAX ==> need == ImageSize(p.T())
    ensures ImageSize(p.T()) > EXPORT_MAX ==> need < ImageSize(p.T())
  {
    hide TreeOk, FsOf, Ready, Parts, EncodeAll, Slashed, Encodable, RootListing, Lists, Sums, TreeEntries;
    RootParts();
    RootTexts();
    ghost var t := p.T();
    TreeEntriesList(t);
    var ok1, home := SizeRoot(p, "/home", Home(), HEADER);
    SumsFit(HEADER, |EncodeAll(RootListing(t, Home()))|, ok1, home);
    var ok2, etc := SizeRoot(p, "/etc/peak", Etc(), home);
    SumsFit(home, |EncodeAll(RootListing(t, Etc()))|, ok2, etc);
    var ok3, all := SizeRoot(p, "/var/peak", Var(), etc);
    SumsFit(etc, |EncodeAll(RootListing(t, Var()))|, ok3, all);
    need := all;
  }

  lemma SumsFit(bytes: nat, size: nat, ok: bool, next: nat)
    requires Sums(bytes, size, ok, next) && bytes <= EXPORT_MAX
    ensures next <= bytes + size && next <= EXPORT_MAX && (next == bytes + size <==> bytes + size <= EXPORT_MAX)
  {
  }
}
