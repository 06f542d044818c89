/**
 A load that cannot be rolled back (kernel/vfs_peakfs.c): a full pool without an audit log, and an
 image that writes one before an entry of it fails.
 */
module PeakFsStuck {
  import opened VfsPath
  import opened VfsTree
  import opened Vfs
  import opened VfsResolve
  import opened PeakImage
  import opened PeakFs
  import opened PeakFsIo
  import opened PeakFsExport
  import opened PeakFsLoad
  import opened Sets

  const SPARE: nat := NODES - 6

  function Letter(d: nat): char
    requires d < 64
  {
    (48 + d) as char
  }

  /** Different two-letter names. */
  function NameOf(i: nat): string
    requires i < SPARE
  {
    [Letter(i / 64), Letter(i % 64)]
  }

  function FileAt(i: nat): Path
    requires i < SPARE
  {
    ["home", NameOf(i)]
  }

  predicate IsRoot(k: Path) {
    k == [] || k == Home() || k == ["etc"] || k == Etc() || k == ["var"] || k == Var()
  }

  function RootSet(): set<Path> {
    {[], Home(), ["etc"], Etc(), ["var"], Var()}
  }

  /** The three namespaces with `n` empty files in /home. */
  ghost function Crowded(n: nat): Fs
    requires n <= SPARE
  {
    if n == 0 then map k | k in RootSet() :: DirObj
    else Crowded(n - 1)[FileAt(n - 1) := FileObj([])]
  }

  lemma NamesDiffer(i: nat, j: nat)
    requires i < SPARE && j < SPARE && NameOf(i) == NameOf(j)
    ensures i == j
  {
    assert NameOf(i)[0] == NameOf(j)[0] && NameOf(i)[1] == NameOf(j)[1];
    assert Letter(i / 64) as int == 48 + i / 64 && Letter(j / 64) as int == 48 + j / 64;
    assert Letter(i % 64) as int == 48 + i % 64 && Letter(j % 64) as int == 48 + j % 64;
  }

  lemma FileFine(i: nat)
    requires i < SPARE
    ensures !IsRoot(FileAt(i)) && FileAt(i) != Audit() && Persist(FileAt(i)) && Saveable(FileAt(i))
    ensures FileAt(i)[..0] == [] && FileAt(i)[..1] == Home()
  {
    NameFine(i);
    SlashedFile(NameOf(i));
    hide NameOf, Slashed;
    assert FileAt(i)[1] != "peak";
    assert Home() <= FileAt(i);
  }

  lemma NameFine(i: nat)
    requires i < SPARE
    ensures |NameOf(i)| == 2 && IsName(NameOf(i)) && ByteText(NameOf(i))
  {
    assert Letter(i / 64) as int == 48 + i / 64 && Letter(i % 64) as int == 48 + i % 64;
    assert NameOf(i)[0] != '.';
  }

  lemma SlashedFile(n: string)
    requires |n| == 2 && ByteText(n)
    ensures Slashed(["home", n]) == "/home/" + n && ByteText(Slashed(["home", n]))
  {
    SlashedSnoc(["home"], n);
    assert ["home"] + [n] == ["home", n];
    RootTexts();
    assert "/home" + "/" == "/home/";
  }

  lemma RootsSaved(k: Path)
    requires IsRoot(k)
    ensures Persist(k) ==> Saveable(k)
    ensures k != Audit()
  {
    hide Slashed;
    RootTexts();
    FourPaths();
    ShortNotPersist(["etc"]);
    ShortNotPersist(["var"]);
    RootNotPersist();
  }

  lemma RootPrefixes(k: Path, j: nat)
    requires IsRoot(k) && j < |k|
    ensures IsRoot(k[..j])
  {
    assert k[..0] == [];
    assert Etc()[..1] == ["etc"] && Var()[..1] == ["var"];
  }

  lemma RootsDiffer()
    ensures |RootSet()| == 6
  {
    assert "etc"[0] != "var"[0] && |"home"| != |"etc"|;
    assert ["etc"][0] != ["var"][0] && Etc()[0] != Var()[0] && Home()[0] != ["etc"][0] && Home()[0] != ["var"][0];
  }

  lemma {:induction false} CrowdedAt(n: nat, k: Path) returns (i: nat)
    requires n <= SPARE
    ensures IsRoot(k) ==> k in Crowded(n) && Crowded(n)[k] == DirObj
    ensures k in Crowded(n) && !IsRoot(k) ==> Crowded(n)[k] == FileObj([]) && i < n && k == FileAt(i)
  {
    hide NameOf;
    if n == 0 {
      i := 0;
    } else {
      i := CrowdedAt(n - 1, k);
      FileFine(n - 1);
      if k == FileAt(n - 1) {
        i := n - 1;
      }
    }
  }

  lemma {:induction false} CrowdedSize(n: nat)
    requires n <= SPARE
    ensures |Crowded(n)| == 6 + n
  {
    hide IsRoot, FileAt;
    if n == 0 {
      RootsDiffer();
      assert Crowded(0).Keys == RootSet();
      assert |Crowded(0)| == |Crowded(0).Keys|;
    } else {
      CrowdedSize(n - 1);
      FileNew(n - 1);
    }
  }

  lemma FileNew(n: nat)
    requires n < SPARE
    ensures FileAt(n) !in Crowded(n)
  {
    hide NameOf, Crowded, IsRoot;
    var i := CrowdedAt(n, FileAt(n));
    FileFine(n);
    if FileAt(n) in Crowded(n) {
      assert FileAt(i)[1] == FileAt(n)[1];
      NamesDiffer(i, n);
    }
  }

  /** The crowded tree is one that can be saved and loaded over, and has no log. */
  lemma CrowdedSavable(n: nat)
    requires n <= SPARE
    ensures Savable(Crowded(n)) && Audit() !in Crowded(n)
  {
    hide NameOf, Saveable, Persist, Crowded, Closed, Handy, IsRoot, FileAt;
    var fs := Crowded(n);
    forall k | k in fs
      ensures (Persist(k) ==> Saveable(k) && Handy(k)) && k != Audit()
      ensures !fs[k].LinkObj? && (fs[k].FileObj? ==> fs[k].bytes == [])
    {
      ObjectFine(n, k);
    }
    CrowdedClosed(n);
  }

  lemma ObjectFine(n: nat, k: Path)
    requires n <= SPARE && k in Crowded(n)
    ensures Persist(k) ==> Saveable(k) && Handy(k)
    ensures k != Audit() && (Crowded(n)[k] == DirObj || Crowded(n)[k] == FileObj([]))
  {
    hide Saveable, Persist, Crowded, Handy, IsRoot, FileAt;
    var i := CrowdedAt(n, k);
    if IsRoot(k) {
      RootsSaved(k);
    } else {
      FileFine(i);
    }
    if Persist(k) {
      SaveableHandy(k);
    }
  }

  lemma CrowdedClosed(n: nat)
    requires n <= SPARE
    ensures Closed(Crowded(n)) && Rooted(Crowded(n))
  {
    hide Crowded, NameOf;
    var fs := Crowded(n);
    var i := CrowdedAt(n, []);
    i := CrowdedAt(n, Home());
    i := CrowdedAt(n, Etc());
    i := CrowdedAt(n, Var());
    hide IsRoot, FileAt;
    forall k, j | k in fs && 0 <= j < |k| ensures k[..j] in fs && fs[k[..j]] == DirObj {
      PrefixFine(n, k, j);
    }
  }

  lemma PrefixFine(n: nat, k: Path, j: nat)
    requires n <= SPARE && k in Crowded(n) && j < |k|
    ensures HasDir(Crowded(n), k[..j])
  {
    hide Crowded, NameOf;
    var i := CrowdedAt(n, k);
    if IsRoot(k) {
      RootPrefixes(k, j);
    } else {
      FileFine(i);
    }
    var m := CrowdedAt(n, k[..j]);
  }

  lemma CrowdedHas(n: nat)
    requires 0 < n <= SPARE
    ensures FileAt(0) in Crowded(n)
  {
    hide FileAt;
    if n > 1 {
      CrowdedHas(n - 1);
    }
  }

  function LogEntry(): Entry {
    EntryFor(Audit(), FileObj([1]))
  }

  function BelowLog(): Path {
    Audit() + ["x"]
  }

  /** An entry below the log, where no directory can be. */
  function BadEntry(): Entry {
    EntryFor(BelowLog(), FileObj([]))
  }

  /** The promise to restore the prior tree fails for this one: its load stops at entry 1, and then
      the log written by entry 0 is kept and takes the last slot. */
  lemma RollBackGetsStuck()
    ensures var fs, es := Crowded(SPARE), [LogEntry(), BadEntry()];
            var c := Cleared(fs, true);
            && Savable(fs) && |fs| == NODES && EntryOk(LogEntry(), FULL) && EntryOk(BadEntry(), FULL)
            && StopsAt(c, es, 1, -1) && Failed(fs, c, es, 1, true, true) == Stuck
  {
    hide Crowded, Cleared, Savable, EntryFits, EntryFor, EntryFs, EntryOk, KeepsLog;
    var fs, es := Crowded(SPARE), [LogEntry(), BadEntry()];
    var c := Cleared(fs, true);
    CrowdedSavable(SPARE);
    CrowdedSize(SPARE);
    assert FileAt(0) in fs by { CrowdedHas(SPARE); }
    LogFits(fs);
    assert es[..0] == [] && es[..1] == [LogEntry()] && [LogEntry()][..0] == [];
    assert Applied(c, []) == c;
    assert Applied(c, es[..1]) == EntryFs(c, LogEntry());
    BadUnfit(Applied(c, es[..1]), fs);
    assert FitsAt(c, es, 0, -1) && !FitsAt(c, es, 1, -1);
  }

  lemma BadUnfit(a: Fs, fs: Fs)
    requires KeepsLog(a, true, fs)
    ensures EntryOk(BadEntry(), FULL) && !EntryFits(a, BadEntry())
  {
    hide EntryOk, Target, EntryFor, Dirs, Saveable;
    BadSaved();
    TargetBack(BelowLog(), FileObj([]));
    NameBack(BelowLog(), FileObj([]));
    assert BelowLog()[..3] == Audit();
  }

  lemma BadSaved()
    ensures Saveable(BelowLog()) && EntryOk(BadEntry(), FULL)
  {
    hide EntryOk, EntryFor, Slashed;
    AuditText();
    SlashedSnoc(Audit(), "x");
    PersistPaths();
    PersistUp(BelowLog(), 3);
    assert BelowLog()[..3] == Audit();
    assert ByteText("/var/peak/audit.log") && ByteText("/" + "x");
    assert Canonical(BelowLog());
    var fs := map[BelowLog() := FileObj([])];
    EntryAccepted(fs, BelowLog());
  }

  lemma LogFits(fs: Fs)
    requires Savable(fs) && Audit() !in fs && |fs| == NODES && FileAt(0) in fs
    ensures EntryOk(LogEntry(), FULL) && EntryFits(Cleared(fs, true), LogEntry())
    ensures KeepsLog(EntryFs(Cleared(fs, true), LogEntry()), true, fs)
  {
    hide Cleared, Savable, EntryOk, CanWrite, Target, EntryFor, Dirs, IsDirName, Saveable;
    var c := Cleared(fs, true);
    AuditSaved();
    TargetBack(Audit(), FileObj([1]));
    NameBack(Audit(), FileObj([1]));
    LogRoom(fs);
    FitsWrites(c, Audit());
  }

  lemma AuditSaved()
    ensures Saveable(Audit()) && EntryOk(LogEntry(), FULL) && LogEntry().data == [1]
  {
    assert LogEntry().data == [1];
    hide EntryOk, EntryFor, Slashed;
    AuditText();
    PersistPaths();
    assert Canonical(Audit());
    assert ByteText("/var/peak/audit.log");
    var fs := map[Audit() := FileObj([1])];
    EntryAccepted(fs, Audit());
  }

  /** Clearing frees at least the file's slot. */
  lemma LogRoom(fs: Fs)
    requires Savable(fs) && Audit() !in fs && |fs| == NODES && FileAt(0) in fs
    ensures WriteFits(Cleared(fs, true), Audit())
  {
    hide Cleared, Exportable, Good, NameOf, Persist;
    var c := Cleared(fs, true);
    ClearedClosed(fs, true);
    GoodParts(fs);
    FileFine(0);
    forall k | k in c ensures k in fs && k != FileAt(0) && k != Audit() {
      ClearedAt(fs, true, k);
      assert FileAt(0) != Home() && FileAt(0) != Etc() && FileAt(0) != Var();
      FourPaths();
    }
    OneMore(c.Keys, FileAt(0), fs.Keys);
    assert Closed(c) && HasDir(c, Var());
    AuditParents(c);
    assert |c| == |c.Keys| && |fs| == |fs.Keys|;
  }

  // ---- the same through the code ----

  /** A new pool with the three namespaces, filled up with empty files. */
  method Crowd() returns (p: Pool)
    ensures fresh(p) && p.Valid() && !p.saving && p.Files() == Crowded(SPARE)
  {
    hide TreeOk, FsOf, Parts, Crowded, CanWrite, NameOf, Components, Written, NoLinks;
    p := BareRoots();
    for i := 0 to SPARE
      invariant p.Valid() && !p.saving && p.Files() == Crowded(i)
    {
      ghost var fs := p.Files();
      NextFile(i);
      var r := WriteAt(p, "/home/" + NameOf(i), []);
      FileWritten(fs, p.Files(), i);
    }
  }

  /** The namespaces alone. */
  method BareRoots() returns (p: Pool)
    ensures fresh(p) && p.Valid() && !p.saving && p.Files() == Crowded(0)
  {
    hide TreeOk, FsOf, Parts, Crowded, CanMake, Dirs, Slashed;
    RootParts();
    p := new Pool();
    RootsMade();
    var ok := MakeDir(p, "/home");
    ok := MakeDir(p, "/etc/peak");
    ok := MakeDir(p, "/var/peak");
  }

  lemma RootsMade()
    ensures var f0: Fs := map[[] := DirObj];
            var f1 := Dirs(f0, Home(), 1);
            var f2 := Dirs(f1, Etc(), 2);
            && CanMake(f0, Home()) && CanMake(f1, Etc()) && CanMake(f2, Var()) && Dirs(f2, Var(), 2) == Crowded(0)
  {
    var f0: Fs := map[[] := DirObj];
    var f1 := f0[Home() := DirObj];
    var f2 := f1[["etc"] := DirObj][Etc() := DirObj];
    var f3 := f2[["var"] := DirObj][Var() := DirObj];
    RootsDiffer();
    assert Home()[..1] == Home() && Etc()[..1] == ["etc"] && Etc()[..2] == Etc();
    assert Var()[..1] == ["var"] && Var()[..2] == Var();
    assert Dirs(f0, Home(), 0) == f0 && Dirs(f0, Home(), 1) == f1;
    assert Dirs(f1, Etc(), 0) == f1 && Dirs(f1, Etc(), 1) == f1[["etc"] := DirObj] && Dirs(f1, Etc(), 2) == f2;
    assert Dirs(f2, Var(), 0) == f2 && Dirs(f2, Var(), 1) == f2[["var"] := DirObj] && Dirs(f2, Var(), 2) == f3;
    assert f3 == Crowded(0);
  }

  lemma NextFile(i: nat)
    requires i < SPARE
    ensures Components("/home/" + NameOf(i)) == Ok(FileAt(i)) && NoLinks(Crowded(i)) && CanWrite(Crowded(i), FileAt(i))
  {
    hide Crowded, NameOf, Slashed, Clean, CanWrite, Saveable, Closed;
    NameFine(i);
    SlashedFile(NameOf(i));
    FileFine(i);
    assert Canonical(FileAt(i)) && |Slashed(FileAt(i))| < PATH_MAX by { assert Saveable(FileAt(i)); }
    RenderCleans(FileAt(i));
    CrowdedSavable(i);
    FileFits(i);
  }

  lemma FileFits(i: nat)
    requires i < SPARE
    ensures WriteFits(Crowded(i), FileAt(i)) && CanWrite(Crowded(i), FileAt(i))
  {
    hide Crowded, NameOf, CanWrite;
    FileNew(i);
    FileFine(i);
    CrowdedSize(i);
    CrowdedClosed(i);
    FitsWrites(Crowded(i), FileAt(i));
  }

  lemma FileWritten(a: Fs, b: Fs, i: nat)
    requires i < SPARE && a == Crowded(i) && Written(a, b, FileAt(i), [])
    ensures b == Crowded(i + 1)
  {
    hide NameOf, Dirs, CanWrite;
    FileFits(i);
    DirsThere(a, FileAt(i), 1);
  }

  /** An image of the crowded tree is within the limit. */
  lemma CrowdedImage(t: Tree)
    requires Ready(t) && FsOf(t) == Crowded(SPARE)
    ensures SnapshotHad(t, true)
  {
    hide TreeOk, FsOf, NoLinks, Exportable, Rooted, Crowded, TreeEntries, EncodeAll, Encodable, EntryOk, Lists, Inside;
    var es, fs := TreeEntries(t), FsOf(t);
    TreeEntriesList(t);
    TreeEntriesOnce(t);
    InsideFew(fs);
    CrowdedSize(SPARE);
    ListedFits(fs, es);
    forall i | 0 <= i < |es| ensures |es[i].name| < PATH_MAX && |es[i].data| <= 0 {
      EntrySmall(fs, es, i);
    }
    EncodeBound(es, 0);
  }

  lemma InsideFew(fs: Fs)
    ensures |Inside(fs)| <= |fs|
  {
    hide Persist;
    SubsetSize(Inside(fs), fs.Keys);
    assert |fs| == |fs.Keys|;
  }

  lemma EntrySmall(fs: Fs, es: seq<Entry>, i: nat)
    requires fs == Crowded(SPARE) && Lists(fs, es) && i < |es| && EntryOk(es[i], FULL)
    ensures |es[i].name| < PATH_MAX && es[i].data == []
  {
    hide Crowded, Persist, Allowed, PathOf, Bytes;
    assert FromTree(fs, es[i]);
    var k :| k in fs && Persist(k) && es[i] == EntryFor(k, fs[k]);
    ObjectFine(SPARE, k);
  }

  lemma StopsUnique(c: Fs, es: seq<Entry>, i: nat, j: nat, failAt: int)
    requires StopsAt(c, es, i, failAt) && StopsAt(c, es, j, failAt)
    ensures i == j
  {
    hide FitsAt;
  }

  /** vfs_load_ramdisk on that pool and the image of the two entries, with all memory it asks for: it fails, and the
      tree before it is not put back. */
  method StuckAtWork() returns (p: Pool, r: Result<()>, outcome: Outcome)
    ensures r.Err? && outcome == Stuck
  {
    hide TreeOk, FsOf, Crowded, Savable, Ready, StopsAt, FitTo, Failed, Encode, ParseImage, EntryOk, Cleared, Applied,
         AllTargetsHandy, SnapshotHad, RestoresTo, EntryFor, SameOutside, Good;
    p := Crowd();
    var es := [LogEntry(), BadEntry()];
    RollBackGetsStuck();
    ImageRoundTrip(es, FULL);
    EntriesHandy();
    SavableReady(p.T());
    CrowdedImage(p.T());
    ghost var fs := p.Files();
    ghost var mid, at;
    r, outcome, mid, at := Load(p, Encode(es), -1, true, true, true);
    ghost var c := Cleared(fs, true);
    StoppedShort(c, es, 1);
    if outcome != Loaded {
      StopsUnique(c, es, at, 1, -1);
    }
  }

  lemma StoppedShort(c: Fs, es: seq<Entry>, at: nat)
    requires StopsAt(c, es, at, -1)
    ensures !FitTo(c, es, |es|, -1)
  {
    hide FitTo;
    FitShorter(c, es, at + 1, -1);
  }

  lemma EntriesHandy()
    ensures AllTargetsHandy([LogEntry(), BadEntry()])
  {
    hide Target, EntryFor, Saveable, Handy;
    AuditSaved();
    BadSaved();
    TargetBack(Audit(), FileObj([1]));
    TargetBack(BelowLog(), FileObj([]));
    SaveableHandy(Audit());
    SaveableHandy(BelowLog());
  }
}
