/**
 Loading PeakFS images (kernel/vfs_peakfs.c): applying validated entries, and the load with its
 snapshot and rollback.
 */
module PeakFsLoad {
  import opened VfsPath
  import opened VfsTree
  import opened Vfs
  import opened VfsResolve
  import opened PeakImage
  import opened PeakFs
  import opened PeakFsIo
  import opened PeakFsExport
  import opened Sets

  // ---- peakfs_apply_entries ----

  /** Entries whose paths can be taken apart again. */
  ghost predicate AllTargetsHandy(es: seq<Entry>) {
    forall i :: 0 <= i < |es| && Target(es[i]).Ok? ==> Handy(Target(es[i]).value)
  }

  lemma PathText(e: Entry, profile: int)
    requires Allowed(PathOf(e.name), profile)
    ensures PathOf(e.name) != "" && PathOf(e.name)[0] == '/'
  {
  }

  /** One entry can be applied: no obstacle on the way and room in the pool. */
  ghost predicate EntryFits(fs: Fs, e: Entry) {
    && Target(e).Ok?
    && if IsDirName(e.name) then CanMake(fs, Target(e).value) else CanWrite(fs, Target(e).value)
  }

  /** An entry about a persistent path that can be taken apart again. */
  ghost predicate EntryHandy(e: Entry) {
    && PathOf(e.name) != "" && PathOf(e.name)[0] == '/'
    && (Target(e).Ok? ==> Persist(Target(e).value) && Handy(Target(e).value))
  }

  method ApplyEntry(p: Pool, e: Entry, profile: int) returns (ok: bool)
    requires p.Valid() && Good(p.Files()) && Allowed(PathOf(e.name), profile)
    requires Target(e).Ok? ==> Handy(Target(e).value)
    modifies p`nodes, p`heads, p`used, p`kids, p`path
    ensures p.Valid() && Good(p.Files()) && SameOutside(old(p.Files()), p.Files())
    ensures ok ==> Target(e).Ok? && p.Files() == EntryFs(old(p.Files()), e)
    ensures !ok ==> OnlyDirsMade(old(p.Files()), p.Files())
    ensures !p.saving ==> (ok <==> EntryFits(old(p.Files()), e))
  {
    hide TreeOk, FsOf, Target, Good, Persist, Handy, Allowed, SameOutside, OnlyDirsMade, EntryFs, EntryFits;
    PathText(e, profile);
    if Target(e).Ok? {
      AllowedPersist(e, profile);
    }
    if IsDirName(e.name) {
      ok := ApplyDir(p, e);
    } else {
      ok := ApplyFile(p, e);
    }
  }

  method ApplyDir(p: Pool, e: Entry) returns (ok: bool)
    requires p.Valid() && Good(p.Files()) && EntryHandy(e) && IsDirName(e.name)
    modifies p`nodes, p`heads, p`used, p`kids, p`path
    ensures p.Valid() && Good(p.Files()) && SameOutside(old(p.Files()), p.Files())
    ensures ok ==> Target(e).Ok? && p.Files() == EntryFs(old(p.Files()), e)
    ensures OnlyDirsMade(old(p.Files()), p.Files())
    ensures ok <==> EntryFits(old(p.Files()), e)
  {
    hide TreeOk, FsOf, Parts, Good, Dirs, Persist, Handy, Grew, SameOutside, CanMake, OnlyDirsMade, IsDirName;
    ok := MakeDir(p, PathOf(e.name));
    TreeClosed(p.T());
    GrewGood(old(p.Files()), p.Files(), Target(e).value);
  }

  method ApplyFile(p: Pool, e: Entry) returns (ok: bool)
    requires p.Valid() && Good(p.Files()) && EntryHandy(e) && !IsDirName(e.name)
    modifies p`nodes, p`heads, p`used, p`kids, p`path
    ensures p.Valid() && Good(p.Files()) && SameOutside(old(p.Files()), p.Files())
    ensures ok ==> Target(e).Ok? && p.Files() == EntryFs(old(p.Files()), e)
    ensures !ok ==> OnlyDirsMade(old(p.Files()), p.Files())
    ensures ok <==> !p.saving && EntryFits(old(p.Files()), e)
  {
    hide TreeOk, FsOf, Target, Components, Good, Written, Grew, SameOutside, CanWrite, OnlyDirsMade, IsDirName,
         EntryHandy, EntryFits, EntryFs;
    ghost var fs := p.Files();
    GoodParts(fs);
    FileEntry(fs, e);
    var r := WriteAt(p, PathOf(e.name), e.data);
    TreeClosed(p.T());
    ok := r.Ok?;
    FileApplied(fs, p.Files(), e, ok);
  }

  lemma FileEntry(fs: Fs, e: Entry)
    requires EntryHandy(e) && !IsDirName(e.name)
    ensures Target(e) == Components(PathOf(e.name))
    ensures Target(e).Ok? ==> Target(e).value != []
    ensures EntryFits(fs, e) <==> Target(e).Ok? && CanWrite(fs, Target(e).value)
  {
    hide Handy, CanWrite;
    if Target(e).Ok? {
      PersistNonEmpty(Target(e).value);
    }
  }

  lemma FileApplied(fs: Fs, g: Fs, e: Entry, ok: bool)
    requires Good(fs) && Closed(g) && EntryHandy(e) && !IsDirName(e.name)
    requires ok ==> Target(e).Ok? && Written(fs, g, Target(e).value, e.data)
    requires !ok && g != fs ==> Target(e).Ok? && Grew(fs, g, Target(e).value)
    ensures Good(g) && SameOutside(fs, g) && (ok ==> g == EntryFs(fs, e))
  {
    hide Target, Good, Dirs, Persist, Handy, Written, Grew, SameOutside, Closed;
    GoodParts(fs);
    SameSelf(fs);
    if ok {
      WrittenGrew(fs, g, Target(e).value, e.data);
    }
    if g != fs {
      GrewGood(fs, g, Target(e).value);
    }
  }

  lemma SameSelf(fs: Fs)
    ensures SameOutside(fs, fs)
  {
  }

  lemma SameTrans(a: Fs, b: Fs, c: Fs)
    requires SameOutside(a, b) && SameOutside(b, c)
    ensures SameOutside(a, c)
  {
  }

  /** Entry `i` can be applied once those before it have been, and is not `failAt`. */
  ghost predicate FitsAt(fs: Fs, es: seq<Entry>, i: nat, failAt: int)
    requires i < |es|
  {
    i != failAt && EntryFits(Applied(fs, es[..i]), es[i])
  }

  /** The first `n` entries can be applied one after another. */
  ghost predicate FitTo(fs: Fs, es: seq<Entry>, n: nat, failAt: int)
    requires n <= |es|
  {
    forall i :: 0 <= i < n ==> FitsAt(fs, es, i, failAt)
  }

  /** Entry `at` is the first one that cannot be applied. */
  ghost predicate StopsAt(fs: Fs, es: seq<Entry>, at: nat, failAt: int) {
    at < |es| && FitTo(fs, es, at, failAt) && !FitTo(fs, es, at + 1, failAt)
  }

  lemma FitNone(fs: Fs, es: seq<Entry>, failAt: int)
    ensures FitTo(fs, es, 0, failAt)
  {
  }

  lemma FitNext(fs: Fs, es: seq<Entry>, i: nat, failAt: int)
    requires i < |es| && FitTo(fs, es, i, failAt)
    ensures FitTo(fs, es, i + 1, failAt) <==> i != failAt && EntryFits(Applied(fs, es[..i]), es[i])
  {
    hide EntryFits, Applied;
    assert FitsAt(fs, es, i, failAt) <==> i != failAt && EntryFits(Applied(fs, es[..i]), es[i]);
  }

  lemma FitShorter(fs: Fs, es: seq<Entry>, n: nat, failAt: int)
    requires n <= |es| && !FitTo(fs, es, n, failAt)
    ensures !FitTo(fs, es, |es|, failAt)
  {
    hide FitsAt;
  }

  /** peakfs_apply_entries on an image the validation pass accepted; entry `failAt` fails.  It gets
      through exactly when every entry can be applied, and otherwise stops at the first that cannot. */
  method ApplyEntries(p: Pool, img: seq<Byte>, count: nat, profile: int, failAt: int, ghost es: seq<Entry>)
    returns (r: Result<()>, ghost at: nat)
    requires p.Valid() && !p.saving && Good(p.Files())
    requires Parse(img, HEADER, count, profile) == Ok(es) && AllTargetsHandy(es)
    modifies p`nodes, p`heads, p`used, p`kids, p`path
    ensures p.Valid() && Good(p.Files()) && SameOutside(old(p.Files()), p.Files())
    ensures r.Ok? <==> FitTo(old(p.Files()), es, |es|, failAt)
    ensures r.Ok? ==> p.Files() == Applied(old(p.Files()), es)
    ensures r.Err? ==> StopsAt(old(p.Files()), es, at, failAt)
    ensures r.Err? ==> OnlyDirsMade(Applied(old(p.Files()), es[..at]), p.Files())
  {
    hide TreeOk, FsOf, Good, SameOutside, EntryFs, Parse, ReadEntry, Target, Allowed, PathOf, Handy, EntryFits,
         OnlyDirsMade, FitTo;
    ghost var fs := p.Files();
    FitNone(fs, es, failAt);
    SameSelf(fs);
    ParseCount(img, HEADER, count, profile);
    var off := HEADER;
    at := 0;
    assert es[..0] == [] && es[0..] == es;
    for i := 0 to count
      invariant p.Valid() && Good(p.Files()) && SameOutside(fs, p.Files())
      invariant |es| == count && Parse(img, off, count - i, profile) == Ok(es[i..])
      invariant p.Files() == Applied(fs, es[..i]) && FitTo(fs, es, i, failAt)
    {
      at := i;
      ghost var before := p.Files();
      FitNext(fs, es, i, failAt);
      if i == failAt {
        NothingMade(before);
        FitShorter(fs, es, i + 1, failAt);
        return Err(Io), i;
      }
      ParseFirst(img, off, count - i, profile, es[i..]);
      var e := NextEntry(img, off);
      assert es[i..][0] == es[i] && es[i..][1..] == es[i + 1..];
      var ok := ApplyEntry(p, e.value.0, profile);
      SameTrans(fs, before, p.Files());
      if !ok {
        FitShorter(fs, es, i + 1, failAt);
        return Err(Io), i;
      }
      assert es[..i + 1][..i] == es[..i] && es[..i + 1][i] == es[i];
      off := e.value.1;
    }
    assert es[..count] == es;
    r := Ok(());
  }

  lemma {:induction false} ParseCount(img: seq<Byte>, off: nat, count: nat, profile: int)
    ensures Parse(img, off, count, profile).Ok? ==> |Parse(img, off, count, profile).value| == count
    decreases count
  {
    hide ReadEntry, Allowed, PathOf;
    if count > 0 && ReadEntry(img, off).Ok? {
      ParseCount(img, ReadEntry(img, off).value.1, count - 1, profile);
    }
  }

  lemma ParseFirst(img: seq<Byte>, off: nat, count: nat, profile: int, es: seq<Entry>)
    requires count > 0 && Parse(img, off, count, profile) == Ok(es)
    ensures es != [] && ReadEntry(img, off).Ok? && ReadEntry(img, off).value.0 == es[0]
    ensures Allowed(PathOf(es[0].name), profile)
    ensures Parse(img, ReadEntry(img, off).value.1, count - 1, profile) == Ok(es[1..])
  {
    hide ReadEntry, Allowed, PathOf;
  }

  // ---- when the entries of a tree can be applied ----

  ghost function Outside(fs: Fs): set<Path> {
    set k | k in fs && !Persist(k)
  }

  /** Clearing `g` keeps a log that `fs` does not have. */
  ghost predicate KeepsLog(g: Fs, saved: bool, fs: Fs) {
    saved && HasAudit(g) && Audit() !in fs
  }

  /** The pool can hold `fs` in the namespaces, what `g` has outside them, and a kept log. */
  ghost predicate RoomFor(g: Fs, saved: bool, fs: Fs) {
    |Outside(g)| + |Inside(fs)| + (if KeepsLog(g, saved, fs) then 1 else 0) <= NODES
  }

  lemma {:induction false} AppliedGrows(b: Fs, es: seq<Entry>, i: nat)
    requires i <= |es|
    ensures Applied(b, es[..i]).Keys <= Applied(b, es).Keys
    decreases |es|
  {
    hide EntryFs;
    if i == |es| {
      assert es[..i] == es;
    } else {
      var n := |es| - 1;
      AppliedGrows(b, es[..n], i);
      assert es[..n][..i] == es[..i];
      EntryGrows(Applied(b, es[..n]), es[n]);
    }
  }

  lemma EntryGrows(fs: Fs, e: Entry)
    ensures fs.Keys <= EntryFs(fs, e).Keys
  {
    hide Dirs, Target;
    if Target(e).Ok? {
      var q := Target(e).value;
      var k := if IsDirName(e.name) then |q| else if q == [] then 0 else |q| - 1;
      forall m | m in fs ensures m in Dirs(fs, q, k) {
        DirsKeys(fs, q, k, m);
      }
    }
  }

  /** The directories on the way to a saved object are never obstructed while restoring. */
  lemma RestoringPassable(b: Fs, a: Fs, fs: Fs, done: seq<Entry>, k: Path)
    requires Compatible(b, fs) && Restoring(b, a, fs, done) && k in fs && Persist(k) && k != []
    ensures Passable(a, k, |k| - 1) && (k in a ==> a[k] == fs[k] || (a[k].FileObj? && fs[k].FileObj?))
  {
    hide Persist, Closed, Rooted, NoLinks;
    forall j | 0 < j <= |k| - 1 && k[..j] in a ensures a[k[..j]] == DirObj {
      var m := k[..j];
      AboveSaved(b, fs, k, m);
      if !Persist(m) {
        AboveRoot(b, k, j);
      }
    }
  }

  lemma AboveRoot(b: Fs, k: Path, j: nat)
    requires Closed(b) && Rooted(b) && Persist(k) && 0 < j < |k| && !Persist(k[..j])
    ensures HasDir(b, k[..j])
  {
    var r := RootOf(k);
    assert !(r <= k[..j]);
    assert k[..j] == r[..j];
  }

  /** The next entry of a saved tree can be applied as soon as there is room for it. */
  lemma RestoreFitsStep(b: Fs, a: Fs, fs: Fs, done: seq<Entry>, e: Entry)
    requires Compatible(b, fs) && Exportable(fs) && Restoring(b, a, fs, done) && FromTree(fs, e)
    ensures EntryFits(a, e) <==> |EntryFs(a, e)| <= NODES
  {
    hide Exportable, EntryFor, Persist, Target, Compatible, Restoring, Dirs, Saveable, CanWrite, CanMake, IsDirName;
    var k :| k in fs && Persist(k) && e == EntryFor(k, fs[k]);
    PersistNonEmpty(k);
    assert Saveable(k) by { ExportableAt(fs, k); }
    TargetBack(k, fs[k]);
    NameBack(k, fs[k]);
    RestoringPassable(b, a, fs, done, k);
    if fs[k].FileObj? {
      FileFits(a, k, e.data);
    } else {
      SavedDir(fs, b, k);
      DirFits(a, k);
    }
  }

  lemma FileFits(a: Fs, k: Path, data: seq<Byte>)
    requires k != [] && Passable(a, k, |k| - 1) && (k in a ==> a[k].FileObj?)
    ensures CanWrite(a, k) <==> |Dirs(a, k, |k| - 1)[k := FileObj(data)]| <= NODES
  {
    hide Dirs, Passable;
    var d := Dirs(a, k, |k| - 1);
    var x, y := d[k := FileObj([])], d[k := FileObj(data)];
    assert x.Keys == y.Keys && |x| == |x.Keys| && |y| == |y.Keys|;
  }

  lemma DirFits(a: Fs, k: Path)
    requires k != [] && Passable(a, k, |k| - 1) && (k in a ==> a[k] == DirObj)
    ensures CanMake(a, k) <==> |Dirs(a, k, |k|)| <= NODES
  {
    hide Dirs;
    assert k[..|k|] == k;
  }

  lemma SavedDir(fs: Fs, b: Fs, k: Path)
    requires Compatible(b, fs) && k in fs && !fs[k].FileObj?
    ensures fs[k] == DirObj
  {
  }

  lemma RestoreFitsAt(b: Fs, fs: Fs, es: seq<Entry>, i: nat)
    requires Compatible(b, fs) && Exportable(fs) && (forall j :: 0 <= j < |es| ==> FromTree(fs, es[j])) && i < |es|
    ensures EntryFits(Applied(b, es[..i]), es[i]) <==> |Applied(b, es[..i + 1])| <= NODES
  {
    hide Compatible, Exportable, FromTree, EntryFits, EntryFs, Restoring;
    assert forall j :: 0 <= j < i ==> es[..i][j] == es[j];
    AppliedRestores(b, fs, es[..i]);
    RestoreFitsStep(b, Applied(b, es[..i]), fs, es[..i], es[i]);
    assert es[..i + 1][..i] == es[..i] && es[..i + 1][i] == es[i];
  }

  lemma AppliedSize(b: Fs, es: seq<Entry>, i: nat)
    requires i <= |es|
    ensures |Applied(b, es[..i])| <= |Applied(b, es)|
  {
    hide Applied;
    AppliedGrows(b, es, i);
    var a, c := Applied(b, es[..i]), Applied(b, es);
    SubsetSize(a.Keys, c.Keys);
    assert |a| == |a.Keys| && |c| == |c.Keys|;
  }

  /** Entries of a saved tree can all be applied exactly when the outcome fits the pool. */
  lemma RestoreFits(b: Fs, fs: Fs, es: seq<Entry>)
    requires Compatible(b, fs) && Exportable(fs) && (forall i :: 0 <= i < |es| ==> FromTree(fs, es[i])) && |b| <= NODES
    ensures FitTo(b, es, |es|, -1) <==> |Applied(b, es)| <= NODES
  {
    hide Compatible, Exportable, FromTree, EntryFits, Applied;
    if |Applied(b, es)| <= NODES {
      forall i | 0 <= i < |es| ensures FitsAt(b, es, i, -1) {
        AppliedSize(b, es, i + 1);
        RestoreFitsAt(b, fs, es, i);
      }
    } else {
      LastUnfit(b, fs, es);
    }
  }

  lemma LastUnfit(b: Fs, fs: Fs, es: seq<Entry>)
    requires Compatible(b, fs) && Exportable(fs) && (forall i :: 0 <= i < |es| ==> FromTree(fs, es[i])) && |b| <= NODES
    requires |Applied(b, es)| > NODES
    ensures !FitTo(b, es, |es|, -1)
  {
    hide Compatible, Exportable, FromTree, EntryFits, EntryFs;
    var n := |es| - 1;
    assert es[..n + 1] == es;
    RestoreFitsAt(b, fs, es, n);
    assert !FitsAt(b, es, n, -1);
  }

  ghost function LogKept(g: Fs, saved: bool, fs: Fs): set<Path> {
    if KeepsLog(g, saved, fs) then {Audit()} else {}
  }

  lemma RestoredKeys(a: Fs, g: Fs, saved: bool, fs: Fs)
    requires RestoresTo(a, g, saved, fs)
    ensures a.Keys == Outside(g) + Inside(fs) + LogKept(g, saved, fs)
  {
    hide Persist, HasAudit, Head;
    assert Persist(Audit()) by { PersistPaths(); }
    forall k ensures k in a.Keys <==> k in Outside(g) + Inside(fs) + LogKept(g, saved, fs) {
      if Persist(k) && k != Audit() {
        assert k in a <==> k in fs;
      }
    }
  }

  /** How many objects a restored tree has. */
  lemma RestoredSize(a: Fs, g: Fs, saved: bool, fs: Fs)
    requires RestoresTo(a, g, saved, fs)
    ensures |a| <= NODES <==> RoomFor(g, saved, fs)
  {
    hide RestoresTo, HasAudit;
    RestoredKeys(a, g, saved, fs);
    assert Persist(Audit()) by { PersistPaths(); }
    hide Persist;
    var o, i, l := Outside(g), Inside(fs), LogKept(g, saved, fs);
    assert o !! i && (o + i) !! l;
    assert |o + i + l| == |o| + |i| + |l|;
    assert |a| == |a.Keys|;
  }

  lemma SplitSize(fs: Fs)
    ensures |fs| == |Outside(fs)| + |Inside(fs)|
  {
    hide Persist;
    assert fs.Keys == Outside(fs) + Inside(fs);
    assert |fs| == |fs.Keys|;
  }

  lemma ClearedSize(g: Fs, saved: bool)
    requires Good(g) && |g| <= NODES
    ensures |Cleared(g, saved)| <= NODES
  {
    hide Good, Persist, Cleared, HasAudit;
    GoodParts(g);
    forall k | k in Cleared(g, saved) ensures k in g {
      ClearedAt(g, saved, k);
      LogThere(g, saved);
    }
    SubsetSize(Cleared(g, saved).Keys, g.Keys);
    assert |g| == |g.Keys| && |Cleared(g, saved)| == |Cleared(g, saved).Keys|;
  }

  lemma LogThere(g: Fs, saved: bool)
    ensures saved && HasAudit(g) ==> Audit() in g
  {
  }

  /** After clearing `g`, the entries of `fs` can all be applied exactly when there is room. */
  lemma ListedLoads(g: Fs, saved: bool, fs: Fs, es: seq<Entry>)
    requires Loadable(g, saved, fs) && Lists(fs, es) && |g| <= NODES
    ensures FitTo(Cleared(g, saved), es, |es|, -1) <==> RoomFor(g, saved, fs)
    ensures RestoresTo(Applied(Cleared(g, saved), es), g, saved, fs)
  {
    hide Good, Cleared, Applied, Exportable, RestoresTo, RoomFor, Closed, NoLinks, Rooted, HasAudit, FromTree,
         EntryFor, FitTo;
    ClearedCompatible(g, saved, fs);
    ClearedSize(g, saved);
    RestoreFits(Cleared(g, saved), fs, es);
    LoadRestores(g, saved, fs, es);
    RestoredSize(Applied(Cleared(g, saved), es), g, saved, fs);
  }

  // ---- vfs_load_ramdisk ----

  /** Clearing a good tree leaves a good one. */
  lemma ClearedGood(g: Fs, saved: bool)
    requires Good(g)
    ensures Good(Cleared(g, saved)) && SameOutside(g, Cleared(g, saved))
  {
    hide Cleared, Persist, Closed, Handy;
    var c := Cleared(g, saved);
    ClearedClosed(g, saved);
    PersistPaths();
    forall k ensures (k in c && Persist(k) ==> Handy(k)) && (k in c ==> !c[k].LinkObj?)
      ensures !Persist(k) ==> (k in g <==> k in c) && (k in g ==> g[k] == c[k])
    {
      ClearedAt(g, saved, k);
    }
  }

  /** The entries of an exportable tree are accepted and can be taken apart again. */
  lemma ListedFits(fs: Fs, es: seq<Entry>)
    requires Exportable(fs) && Lists(fs, es)
    ensures AllTargetsHandy(es) && forall i :: 0 <= i < |es| ==> EntryOk(es[i], FULL)
  {
    hide EntryFor, EntryOk, Exportable, Persist, Target, Handy, Saveable;
    forall i | 0 <= i < |es| ensures EntryOk(es[i], FULL) && (Target(es[i]).Ok? ==> Handy(Target(es[i]).value)) {
      assert FromTree(fs, es[i]);
      var k :| k in fs && Persist(k) && es[i] == EntryFor(k, fs[k]);
      EntryAccepted(fs, k);
      PersistNonEmpty(k);
      ExportableAt(fs, k);
      TargetBack(k, fs[k]);
      SaveableHandy(k);
    }
  }

  lemma SaveableHandy(k: Path)
    requires Saveable(k)
    ensures Handy(k)
  {
    CanonicalPlain(k);
  }

  /** A tree with nothing to hinder a save or a load. */
  ghost predicate Savable(fs: Fs) {
    Good(fs) && Exportable(fs) && (Audit() in fs ==> fs[Audit()].FileObj?)
  }

  /** peakfs_restore_snapshot: succeeds exactly when the pool has room for the snapshot's tree. */
  method Restore(p: Pool, snap: seq<Byte>, saveOk: bool, ghost prior: Fs, ghost es: seq<Entry>) returns (r: Result<()>)
    requires p.Valid() && !p.saving && Good(p.Files()) && Savable(prior)
    requires Lists(prior, es) && |es| < 0x1_0000_0000 && Encodable(es) && snap == Encode(es)
    modifies p`nodes, p`heads, p`used, p`kids, p`path
    ensures p.Valid()
    ensures r.Ok? <==> RoomFor(old(p.Files()), saveOk, prior)
    ensures r.Ok? ==> RestoresTo(p.Files(), old(p.Files()), saveOk, prior)
  {
    hide TreeOk, FsOf, Good, Exportable, Lists, Cleared, Applied, RestoresTo, Parse, Encode, Encodable, EntryOk,
         AllTargetsHandy, FitTo, RoomFor, OnlyDirsMade;
    ghost var g := p.Files();
    PoolSize(p.T());
    ListedFits(prior, es);
    ImageRoundTrip(es, FULL);
    ClearedGood(g, saveOk);
    if !HasHeader(snap) {
      return Err(Io);
    }
    var count := Get32(snap, 8);
    ClearPersist(p, saveOk);
    ghost var at;
    r, at := ApplyEntries(p, snap, count, FULL, -1, es);
    assert Loadable(g, saveOk, prior) by { GoodParts(prior); }
    ListedLoads(g, saveOk, prior, es);
  }

  datatype Outcome = Rejected | Loaded | RolledBack | Emptied | Stuck

  /** With nothing changed outside the namespaces there is room to roll back, unless the pool was
      full and clearing the half-loaded tree keeps a log the prior tree did not have. */
  lemma RollBackRoom(g: Fs, saved: bool, prior: Fs)
    requires SameOutside(prior, g) && |prior| <= NODES
    ensures RoomFor(g, saved, prior) <==> !(KeepsLog(g, saved, prior) && |prior| == NODES)
  {
    hide Persist, KeepsLog;
    SplitSize(prior);
    assert Outside(g) == Outside(prior);
  }

  /** What vfs_load_ramdisk does after a failure: the snapshot, or empty namespaces without one. */
  method RollBack(p: Pool, snap: Result<seq<Byte>>, saveOk: bool, ghost prior: Fs, ghost es: seq<Entry>)
    returns (outcome: Outcome)
    requires p.Valid() && !p.saving && Good(p.Files()) && Savable(prior) && SameOutside(prior, p.Files()) &&
        |prior| <= NODES
    requires snap.Ok? ==> Lists(prior, es) && |es| < 0x1_0000_0000 && Encodable(es) && snap.value == Encode(es)
    modifies p`nodes, p`heads, p`used, p`kids, p`path
    ensures p.Valid()
    ensures outcome ==
      if snap.Err? then Emptied
      else if KeepsLog(old(p.Files()), saveOk, prior) && |prior| == NODES then Stuck
      else RolledBack
    ensures outcome == Emptied ==> p.Files() == Cleared(old(p.Files()), saveOk)
    ensures outcome == RolledBack ==> RestoresTo(p.Files(), old(p.Files()), saveOk, prior)
  {
    hide TreeOk, FsOf, Good, Savable, Lists, Cleared, RestoresTo, Encode, Encodable, SameOutside, RoomFor, KeepsLog;
    if snap.Err? {
      ClearPersist(p, saveOk);
      return Emptied;
    }
    RollBackRoom(p.Files(), saveOk, prior);
    var back := Restore(p, snap.value, saveOk, prior, es);
    outcome := if back.Ok? then RolledBack else Stuck;
  }

  lemma SavableReady(t: Tree)
    requires TreeOk(t) && Savable(FsOf(t))
    ensures Ready(t)
  {
    hide TreeOk, FsOf, Exportable;
    GoodParts(FsOf(t));
  }

  /** A snapshot can be had: its buffer, and an image within the format's limit. */
  ghost predicate SnapshotHad(t: Tree, snapOk: bool)
    requires Ready(t)
  {
    snapOk && ImageSize(t) <= EXPORT_MAX
  }

  /** peakfs_snapshot_persist */
  method Snapshot(p: Pool, snapOk: bool) returns (r: Result<seq<Byte>>)
    requires p.Valid() && Ready(p.T())
    ensures r.Ok? <==> SnapshotHad(p.T(), snapOk)
    ensures r.Ok? ==> |TreeEntries(p.T())| < 0x1_0000_0000 && r.value == Encode(TreeEntries(p.T()))
  {
    hide TreeOk, FsOf, Ready, Encode, TreeEntries, ImageSize;
    var need := ExportSize(p);
    if !snapOk {
      return Err(NoMemory);
    }
    r := Export(p, need);
  }

  /** What a load that got past the validation comes to: with `at` the first entry that cannot be
      applied to the cleared tree `c`, and `prior` the tree before the load. */
  ghost function Failed(prior: Fs, c: Fs, es: seq<Entry>, at: nat, snapshot: bool, save2: bool): Outcome
    requires at <= |es|
  {
    if !snapshot then Emptied
    else if KeepsLog(Applied(c, es[..at]), save2, prior) && |prior| == NODES then Stuck
    else RolledBack
  }

  /** vfs_load_ramdisk under the full profile.  `failAt` is an entry whose application fails,
      `snapOk` whether the snapshot's buffer could be had, `save1` and `save2` whether the audit
      log's could.  `mid` is the tree at the moment a load failed, `at` the entry it failed at. */
  method Load(p: Pool, img: seq<Byte>, failAt: int, snapOk: bool, save1: bool, save2: bool)
    returns (r: Result<()>, outcome: Outcome, ghost mid: Fs, ghost at: nat)
    requires p.Valid() && !p.saving && Savable(p.Files())
    requires ParseImage(img, FULL).Ok? ==> AllTargetsHandy(ParseImage(img, FULL).value)
    modifies p`nodes, p`heads, p`used, p`kids, p`path
    ensures p.Valid() && (r.Ok? <==> outcome == Loaded)
    ensures outcome == Rejected <==> ParseImage(img, FULL).Err?
    ensures outcome == Rejected ==> r == Err(ParseImage(img, FULL).error) && p.Files() == old(p.Files())
    ensures ParseImage(img, FULL).Ok? ==>
      var es, c := ParseImage(img, FULL).value, Cleared(old(p.Files()), save1);
      && (outcome == Loaded <==> FitTo(c, es, |es|, failAt))
      && (outcome == Loaded ==> p.Files() == Applied(c, es))
      && (outcome != Loaded ==>
            && StopsAt(c, es, at, failAt) && OnlyDirsMade(Applied(c, es[..at]), mid)
            && outcome == Failed(old(p.Files()), c, es, at, SnapshotHad(old(p.T()), snapOk), save2))
    ensures outcome == RolledBack ==> RestoresTo(p.Files(), mid, save2, old(p.Files()))
    ensures outcome == Emptied ==> p.Files() == Cleared(mid, save2)
    ensures r.Err? && outcome != Rejected ==> Good(mid) && SameOutside(old(p.Files()), mid)
  {
    hide TreeOk, FsOf, Good, Savable, Ready, Cleared, Applied, RestoresTo, Parse, AllTargetsHandy, SameOutside, FitTo,
         StopsAt, OnlyDirsMade, SnapshotHad, Failed;
    SavableReady(p.T());
    mid, at := p.Files(), 0;
    if !HasHeader(img) {
      return Err(Io), Rejected, mid, at;
    }
    var count := Get32(img, 8);
    var v := Validate(img, count, FULL);
    if v.Err? {
      return v, Rejected, mid, at;
    }
    r, outcome, mid, at := Replace(p, img, count, failAt, snapOk, save1, save2, ParseImage(img, FULL).value);
  }

  /** The part of vfs_load_ramdisk after the validation. */
  method Replace(p: Pool, img: seq<Byte>, count: nat, failAt: int, snapOk: bool, save1: bool, save2: bool,
      ghost es: seq<Entry>)
    returns (r: Result<()>, outcome: Outcome, ghost mid: Fs, ghost at: nat)
    requires p.Valid() && !p.saving && Savable(p.Files())
    requires Parse(img, HEADER, count, FULL) == Ok(es) && AllTargetsHandy(es)
    modifies p`nodes, p`heads, p`used, p`kids, p`path
    ensures p.Valid() && (r.Ok? <==> outcome == Loaded) && outcome != Rejected
    ensures var c := Cleared(old(p.Files()), save1);
      && (outcome == Loaded <==> FitTo(c, es, |es|, failAt))
      && (outcome == Loaded ==> p.Files() == Applied(c, es))
      && (outcome != Loaded ==>
            && StopsAt(c, es, at, failAt) && at < |es| && OnlyDirsMade(Applied(c, es[..at]), mid)
            && outcome == Failed(old(p.Files()), c, es, at, SnapshotHad(old(p.T()), snapOk), save2))
    ensures outcome == RolledBack ==> RestoresTo(p.Files(), mid, save2, old(p.Files()))
    ensures outcome == Emptied ==> p.Files() == Cleared(mid, save2)
    ensures r.Err? ==> Good(mid) && SameOutside(old(p.Files()), mid)
  {
    hide TreeOk, FsOf, Good, Savable, Ready, Lists, Cleared, Applied, RestoresTo, Parse, Encode, Encodable,
         AllTargetsHandy, SameOutside, TreeEntries, SnapshotHad, FitTo, StopsAt, OnlyDirsMade, KeepsLog;
    ghost var fs, t := p.Files(), p.T();
    SavableReady(t);
    ghost var c := Cleared(fs, save1);
    mid := fs;
    PoolSize(t);
    TreeEntriesList(t);
    SavableGood(fs);
    ClearedGood(fs, save1);
    var snap := Snapshot(p, snapOk);
    ClearPersist(p, save1);
    r, at := ApplyEntries(p, img, count, FULL, failAt, es);
    if r.Ok? {
      return r, Loaded, mid, at;
    }
    StopsOnce(c, es, at, failAt);
    mid := p.Files();
    SameTrans(fs, c, mid);
    SameLog(Applied(c, es[..at]), mid, save2, fs);
    outcome := RollBack(p, snap, save2, fs, TreeEntries(t));
  }

  lemma SavableGood(fs: Fs)
    requires Savable(fs)
    ensures Good(fs)
  {
  }

  lemma StopsOnce(c: Fs, es: seq<Entry>, at: nat, failAt: int)
    requires StopsAt(c, es, at, failAt)
    ensures at < |es|
  {
  }

  /** A failing entry does not touch the log. */
  lemma SameLog(a: Fs, b: Fs, saved: bool, prior: Fs)
    requires OnlyDirsMade(a, b)
    ensures KeepsLog(a, saved, prior) <==> KeepsLog(b, saved, prior)
  {
  }

  // ---- the round trip ----

  /** The entries of a saved tree make an image that a load accepts, and applying them restores the tree. */
  lemma ExportLoadRoundTrip(g: Fs, saved: bool, fs: Fs, es: seq<Entry>)
    requires Good(g) && |g| <= NODES && Savable(fs) && Lists(fs, es) && |es| < 0x1_0000_0000
    ensures Encodable(es) && ParseImage(Encode(es), FULL) == Ok(es) && AllTargetsHandy(es)
    ensures FitTo(Cleared(g, saved), es, |es|, -1) <==> RoomFor(g, saved, fs)
    ensures RestoresTo(Applied(Cleared(g, saved), es), g, saved, fs)
  {
    hide Good, Exportable, Lists, Cleared, Applied, RestoresTo, Parse, Encode, EntryOk, AllTargetsHandy, FitTo, RoomFor;
    ListedFits(fs, es);
    ImageRoundTrip(es, FULL);
    assert Loadable(g, saved, fs) by { GoodParts(fs); }
    ListedLoads(g, saved, fs, es);
  }

  /** Exporting one pool's tree into a buffer of `cap` bytes and loading the image into another:
      it works exactly when the image fits the buffer and the format and the pool has room, and
      then the namespaces are those of the exported tree and all else is as before. */
  method SaveAndLoad(from: Pool, to: Pool, cap: nat, snapOk: bool, save1: bool, save2: bool) returns (ok: bool)
    requires from.Valid() && Savable(from.Files())
    requires to.Valid() && !to.saving && Savable(to.Files())
    modifies to`nodes, to`heads, to`used, to`kids, to`path
    ensures to.Valid()
    ensures ok <==>
      && ImageSize(old(from.T())) <= cap && ImageSize(old(from.T())) <= EXPORT_MAX
      && RoomFor(old(to.Files()), save1, old(from.Files()))
    ensures ok ==> RestoresTo(to.Files(), old(to.Files()), save1, old(from.Files()))
  {
    hide TreeOk, FsOf, Good, Savable, Ready, Lists, Cleared, Applied, RestoresTo, ParseImage, Encode, Encodable,
         AllTargetsHandy, TreeEntries, ImageSize, FitTo, StopsAt, OnlyDirsMade, RoomFor, Failed;
    SavableReady(from.T());
    ghost var g, fs, es := to.Files(), from.Files(), TreeEntries(from.T());
    var img := Export(from, cap);
    if img.Err? {
      return false;
    }
    TreeEntriesList(from.T());
    PoolSize(to.T());
    SavableGood(g);
    ExportLoadRoundTrip(g, save1, fs, es);
    var r, outcome;
    ghost var mid, at;
    r, outcome, mid, at := Load(to, img.value, -1, snapOk, save1, save2);
    ok := r.Ok?;
  }
}
