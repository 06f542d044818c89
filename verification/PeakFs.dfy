/**
 What saving and loading a PeakFS image do to the map from paths to objects
 (kernel/vfs_peakfs.c): the persistent namespaces, clearing them, and applying entries.
 */
module PeakFs {
  import opened VfsPath
  import opened VfsTree
  import opened Vfs
  import opened VfsResolve
  import opened PeakImage

  const AUDIT_MAX: nat := 0x1_0000     // PEAKFS_AUDIT_PRESERVE_MAX
  const DEEP: nat := 16                // levels node_path can write

  function Home(): Path { ["home"] }
  function Etc(): Path { ["etc", "peak"] }
  function Var(): Path { ["var", "peak"] }
  function Audit(): Path { ["var", "peak", "audit.log"] }

  predicate Persist(q: Path) {
    Home() <= q || Etc() <= q || Var() <= q
  }

  // ---- trees that can be cleared and loaded ----

  /** Every proper prefix of a path is a directory. */
  ghost predicate Closed(fs: Fs) {
    && HasDir(fs, [])
    && forall k, j :: k in fs && 0 <= j < |k| ==> k[..j] in fs && fs[k[..j]] == DirObj
  }

  ghost predicate NoLinks(fs: Fs) {
    forall k :: k in fs ==> !fs[k].LinkObj?
  }

  predicate HasDir(fs: Fs, q: Path) {
    q in fs && fs[q] == DirObj
  }

  predicate Rooted(fs: Fs) {
    HasDir(fs, Home()) && HasDir(fs, Etc()) && HasDir(fs, Var())
  }

  /** A path that vfs_remove_tree can take apart. */
  predicate Handy(k: Path) {
    Plain(k) && |k| <= DEEP && |Slashed(k)| < PATH_MAX
  }

  ghost predicate AllHandy(fs: Fs) {
    forall k :: k in fs && Persist(k) ==> Handy(k)
  }

  ghost predicate Good(fs: Fs) {
    Closed(fs) && NoLinks(fs) && Rooted(fs) && AllHandy(fs)
  }

  /** Outside the persistent namespaces nothing differs. */
  ghost predicate SameOutside(a: Fs, b: Fs) {
    forall k :: !Persist(k) ==> (k in a <==> k in b) && (k in a ==> a[k] == b[k])
  }

  lemma TreeClosed(t: Tree)
    requires TreeOk(t)
    ensures Closed(FsOf(t))
  {
    hide AllDirs, AllPaths, HeldBut, FsOf;
    var fs := FsOf(t);
    assert Live(t, 0);
    forall k, j | k in fs && 0 <= j < |k| ensures k[..j] in fs && fs[k[..j]] == DirObj {
      var c: nat :| Live(t, c) && t.path[c] == k;
      var a := Ancestor(t, c, j);
    }
  }

  // ---- clearing ----

  function Head(b: seq<Byte>): seq<Byte> {
    if |b| <= AUDIT_MAX then b else b[..AUDIT_MAX]
  }

  ghost predicate HasAudit(fs: Fs) {
    Audit() in fs && fs[Audit()].FileObj? && fs[Audit()].bytes != []
  }

  ghost function Bare(fs: Fs): Fs {
    CutBelow(CutBelow(CutBelow(fs, Home()), Etc()), Var())
  }

  /** peakfs_clear_persist: empty namespaces, with the audit log (its first 64 KiB) kept when saved. */
  ghost function Cleared(fs: Fs, saved: bool): Fs {
    var c := Bare(fs)[Home() := DirObj][Etc() := DirObj][Var() := DirObj];
    if saved && HasAudit(fs) then c[Audit() := FileObj(Head(fs[Audit()].bytes))] else c
  }

  lemma PersistPaths()
    ensures Persist(Audit()) && Persist(Home()) && Persist(Etc()) && Persist(Var())
    ensures Var() <= Audit() && !(Home() <= Audit()) && !(Etc() <= Audit())
    ensures Handy(Audit()) && Handy(Home()) && Handy(Etc()) && Handy(Var())
  {
    assert Slashed(Audit()) == "/var" + ("/peak" + ("/audit.log" + ""));
    assert Slashed(Etc()) == "/etc" + ("/peak" + "");
    assert Slashed(Var()) == "/var" + ("/peak" + "");
    assert Slashed(Home()) == "/home" + "";
  }

  /** What is left after clearing, path by path. */
  lemma ClearedAt(fs: Fs, saved: bool, k: Path)
    ensures !Persist(k) ==> (k in Cleared(fs, saved) <==> k in fs) && (k in fs ==> Cleared(fs, saved)[k] == fs[k])
    ensures Persist(k) && k in Cleared(fs, saved) ==>
      k == Home() || k == Etc() || k == Var() || (saved && HasAudit(fs) && k == Audit())
    ensures HasDir(Cleared(fs, saved), Home()) && HasDir(Cleared(fs, saved), Etc()) && HasDir(Cleared(fs, saved), Var())
    ensures saved && HasAudit(fs) ==>
      Audit() in Cleared(fs, saved) && Cleared(fs, saved)[Audit()] == FileObj(Head(fs[Audit()].bytes))
  {
    PersistPaths();
  }

  // ---- entries ----

  /** The path an entry writes: directories by the names in it, files by the normalised path. */
  function Target(e: Entry): Result<Path> {
    var p := PathOf(e.name);
    if p == "" then Err(Invalid) else if IsDirName(e.name) then Ok(Parts(p, 1)) else Components(p)
  }

  /** What applying one entry makes of the map. */
  ghost function EntryFs(fs: Fs, e: Entry): Fs {
    match Target(e)
    case Err(_) => fs
    case Ok(q) =>
      if IsDirName(e.name) then Dirs(fs, q, |q|)
      else if q == [] then fs
      else Dirs(fs, q, |q| - 1)[q := FileObj(e.data)]
  }

  ghost function Applied(fs: Fs, es: seq<Entry>): Fs {
    if es == [] then fs else EntryFs(Applied(fs, es[..|es| - 1]), es[|es| - 1])
  }

  /** Which keys making directories can add. */
  lemma {:induction false} DirsKeys(fs: Fs, q: Path, k: nat, m: Path)
    requires k <= |q|
    ensures m in Dirs(fs, q, k) && m !in fs ==> m <= q && 0 < |m| <= k && Dirs(fs, q, k)[m] == DirObj
    ensures m in fs ==> m in Dirs(fs, q, k) && Dirs(fs, q, k)[m] == fs[m]
    ensures m <= q && 0 < |m| <= k ==> m in Dirs(fs, q, k)
  {
    if k > 0 {
      DirsKeys(fs, q, k - 1, m);
      if m <= q && |m| == k {
        assert m == q[..k];
      }
    }
  }

  lemma {:induction false} DirsClosed(fs: Fs, q: Path, k: nat)
    requires Closed(fs) && q in fs && k <= |q|
    ensures Dirs(fs, q, k) == fs
  {
    if k > 0 {
      DirsClosed(fs, q, k - 1);
      if k == |q| {
        assert q[..k] == q;
      }
    }
  }

  /** The step from `a` to `b` wrote only at `q` and made only directories above it. */
  ghost predicate Grew(a: Fs, b: Fs, q: Path) {
    && (forall k :: k in b && k !in a ==> k <= q && (b[k] == DirObj || (k == q && b[k].FileObj?)))
    && (forall k :: k in a ==> k in b && (b[k] == a[k] || (k == q && a[k].FileObj? && b[k].FileObj?)))
  }

  lemma RootOf(q: Path) returns (r: Path)
    requires Persist(q)
    ensures r <= q && (r == Home() || r == Etc() || r == Var())
  {
    r := if Home() <= q then Home() else if Etc() <= q then Etc() else Var();
  }

  /** Writing inside the namespaces keeps a good tree and everything outside them. */
  lemma GrewGood(a: Fs, b: Fs, q: Path)
    requires Good(a) && Closed(b) && Grew(a, b, q) && Persist(q) && Handy(q)
    ensures Good(b) && SameOutside(a, b)
  {
    var r := RootOf(q);
    forall k | k in b && k !in a ensures Persist(k) && Handy(k) {
      NewKey(a, q, r, k);
    }
    forall k | !Persist(k) ensures (k in a <==> k in b) && (k in a ==> a[k] == b[k]) {
    }
  }

  /** A new path above a persistent one is persistent itself. */
  lemma NewKey(a: Fs, q: Path, r: Path, k: Path)
    requires Closed(a) && Rooted(a) && r <= q && (r == Home() || r == Etc() || r == Var())
    requires k <= q && k !in a && Handy(q)
    ensures Persist(k) && Handy(k)
  {
    assert |k| <= |r| ==> k == r[..|k|];
    assert r <= k;
    PrefixHandy(q, |k|);
    assert k == q[..|k|];
  }

  lemma PrefixHandy(q: Path, k: nat)
    requires Handy(q) && k <= |q|
    ensures Handy(q[..k])
  {
    SlashedPrefix(q, k);
  }

  lemma DirsGrew(fs: Fs, q: Path, k: nat)
    requires k <= |q|
    ensures Grew(fs, Dirs(fs, q, k), q)
  {
    var b := Dirs(fs, q, k);
    forall m | m in b || m in fs
      ensures m in b && (m !in fs ==> m <= q && b[m] == DirObj) && (m in fs ==> b[m] == fs[m])
    {
      DirsKeys(fs, q, k, m);
    }
  }

  lemma WrittenGrew(a: Fs, b: Fs, q: Path, data: seq<Byte>)
    requires Closed(a) && Written(a, b, q, data)
    ensures q != [] && b == Dirs(a, q, |q| - 1)[q := FileObj(data)] && Grew(a, b, q)
  {
    if q in a {
      DirsClosed(a, q, |q| - 1);
    } else {
      DirsGrew(a, q, |q| - 1);
    }
  }

  // ---- allowed paths stay in the namespaces ----

  lemma {:induction false} CleanKeeps(path: string, i: nat, stack: seq<string>, root: Path)
    requires 0 < i <= |path| && (forall j :: 0 <= j < |path| ==> !DotDotAt(path, j)) && root <= stack
    requires i == |path| || path[i] == '/' || path[i - 1] == '/'
    ensures Clean(path[i..], stack).Ok? ==> root <= Clean(path[i..], stack).value
    decreases |path| - i
  {
    hide DotDotAt;
    var s := path[i..];
    if i < |path| && |stack| < DEPTH_MAX {
      if path[i] == '/' {
        CleanSlash(path, i, stack);
        CleanKeeps(path, i + 1, stack, root);
      } else {
        var j := i + PartLen(s);
        assert s[..j - i] == path[i..j];
        assert j > i;
        assert j < |path| ==> path[j] == s[j - i];
        CleanStep(path, i, j, stack);
        NotDotDot(path, i, j);
        if j - i < NAME_MAX {
          CleanKeeps(path, j, Pushed(stack, path[i..j]), root);
        }
      }
    }
  }

  lemma NotDotDot(path: string, i: nat, j: nat)
    requires 0 < i < j <= |path| && !DotDotAt(path, i) && path[i - 1] == '/' && (j == |path| || path[j] == '/')
    ensures path[i..j] != ".."
  {
  }

  lemma PartsUnder(s: string, i: nat, j: nat)
    requires 0 < i < j <= |s| && '/' !in s[i..j] && j - i < NAME_MAX && (j == |s| || s[j] == '/')
    ensures Parts(s, i) == [s[i..j]] + Parts(s, After(s, j))
  {
    PartStopsAt(s, i, i, j);
  }

  lemma CleanUnder(s: string, i: nat, j: nat, stack: seq<string>)
    requires 0 < i < j <= |s| && '/' !in s[i..j] && j - i < NAME_MAX && (j == |s| || s[j] == '/')
    requires |stack| < DEPTH_MAX && s[i..j] != "." && s[i..j] != ".."
    ensures Clean(s[i..], stack) == Clean(s[j..], stack + [s[i..j]])
  {
    CleanStep(s, i, j, stack);
  }

  /** Every entry the validation accepts is about a path in the persistent namespaces. */
  lemma AllowedPersist(e: Entry, profile: int)
    requires Allowed(PathOf(e.name), profile) && Target(e).Ok?
    ensures Persist(Target(e).value)
  {
    hide Clean, Parts, DotDotAt, PathOf;
    var s := PathOf(e.name);
    if Under(s, "/home") {
      assert "/home" == "/" + "home";
      UnderTop(s, "home");
    } else if Under(s, "/etc/peak") {
      UnderPeak(s, "etc");
    } else {
      UnderPeak(s, "var");
    }
  }

  lemma UnderTop(s: string, top: string)
    requires 2 < |top| < NAME_MAX && '/' !in top && Under(s, "/" + top) && forall i :: 0 <= i < |s| ==> !DotDotAt(s, i)
    ensures [top] <= Parts(s, 1)
    ensures Components(s).Ok? ==> [top] <= Components(s).value
  {
    hide DotDotAt, Clean, Parts;
    var r, n := "/" + top, 1 + |top|;
    assert s[..n] == r;
    assert s[1..n] == r[1..n] == top;
    PartsUnder(s, 1, n);
    CleanUnder(s, 1, n, []);
    assert [] + [top] == [top];
    CleanKeeps(s, n, [top], [top]);
  }

  lemma UnderPeak(s: string, top: string)
    requires |top| == 3 && '/' !in top && Under(s, "/" + top + "/peak")
    requires forall i :: 0 <= i < |s| ==> !DotDotAt(s, i)
    ensures [top, "peak"] <= Parts(s, 1)
    ensures Components(s).Ok? ==> [top, "peak"] <= Components(s).value
  {
    hide DotDotAt, Clean, Parts;
    var r := "/" + top + "/peak";
    assert s[..9] == r;
    assert s[1..4] == r[1..4] == top;
    assert s[4] == r[4] == '/';
    assert s[5..9] == r[5..9] == "peak";
    PartsUnder(s, 1, 4);
    PartsUnder(s, 5, 9);
    CleanUnder(s, 1, 4, []);
    CleanSlash(s, 4, [top]);
    CleanUnder(s, 5, 9, [top]);
    assert [] + [top] == [top] && [top] + ["peak"] == [top, "peak"];
    CleanKeeps(s, 9, [top, "peak"], [top, "peak"]);
  }

  // ---- the entries of a tree ----

  function Bytes(s: string): (b: seq<Byte>)
    ensures |b| == |s|
  {
    seq(|s|, i requires 0 <= i < |s| => (s[i] as int % 256) as Byte)
  }

  /** Text that C strings of bytes can hold. */
  predicate ByteText(s: string) {
    forall i :: 0 <= i < |s| ==> 0 < s[i] as int < 256
  }

  /** What export_stream_cb writes for an object. */
  function EntryFor(k: Path, obj: Obj): Entry {
    match obj
    case FileObj(b) => Entry(Bytes(Render(k)), b)
    case _ => Entry(Bytes(Render(k) + "/"), [])
  }

  /** A path within the limits of the image format. */
  predicate Saveable(k: Path) {
    Canonical(k) && |k| <= DEEP && |Slashed(k)| + 2 < PATH_MAX && ByteText(Slashed(k))
  }

  ghost predicate Exportable(fs: Fs) {
    forall k :: k in fs && Persist(k) ==> Saveable(k) && (fs[k].FileObj? ==> |fs[k].bytes| < 0x1_0000_0000)
  }

  /** The entries are those of the persistent objects, each at least once. */
  ghost predicate Lists(fs: Fs, es: seq<Entry>) {
    && (forall i :: 0 <= i < |es| ==> FromTree(fs, es[i]))
    && (forall k :: k in fs && Persist(k) ==> EntryFor(k, fs[k]) in es)
  }

  ghost predicate FromTree(fs: Fs, e: Entry) {
    exists k :: k in fs && Persist(k) && e == EntryFor(k, fs[k])
  }

  lemma BytesText(s: string)
    requires ByteText(s)
    ensures Text(Bytes(s)) == s && CStr(s) == s
  {
    assert forall i :: 0 <= i < |s| ==> Text(Bytes(s))[i] == s[i];
    WholeCStr(s);
  }

  lemma {:induction false} WholeCStr(s: string)
    requires ByteText(s)
    ensures CStr(s) == s
  {
    if s != "" {
      assert s[0] != '\0';
      assert forall i :: 0 <= i < |s[1..]| ==> s[1..][i] == s[i + 1];
      WholeCStr(s[1..]);
      assert [s[0]] + s[1..] == s;
    }
  }

  /** The name written for a directory is its path and a slash; for a file it does not end in one. */
  lemma NameBack(k: Path, obj: Obj)
    requires Saveable(k) && k != []
    ensures PathOf(EntryFor(k, obj).name) == Slashed(k)
    ensures IsDirName(EntryFor(k, obj).name) <==> !obj.FileObj?
  {
    hide Slashed, CStr, IsName;
    var s := Slashed(k);
    assert Render(k) == s;
    BytesText(s);
    if obj.FileObj? {
      LastChar(k);
      assert Bytes(s)[|s| - 1] != 0x2f;
    } else {
      var b := Bytes(s + "/");
      assert b[..|b| - 1] == Bytes(s);
    }
  }

  lemma {:induction false} LastChar(k: Path)
    requires k != [] && (forall i :: 0 <= i < |k| ==> IsName(k[i])) && ByteText(Slashed(k))
    ensures Slashed(k) != "" && Slashed(k)[|Slashed(k)| - 1] != '/' && 0 < Slashed(k)[|Slashed(k)| - 1] as int < 256
  {
    if |k| == 1 {
      assert k[1..] == [];
      assert Slashed(k) == "/" + k[0];
    } else {
      assert forall i :: 0 <= i < |k[1..]| ==> k[1..][i] == k[i + 1];
      var rest := Slashed(k[1..]);
      assert forall i :: 0 <= i < |rest| ==> rest[i] == Slashed(k)[1 + |k[0]| + i];
      LastChar(k[1..]);
    }
  }

  /** Reading an exported entry leads back to the object's path. */
  lemma TargetBack(k: Path, obj: Obj)
    requires Saveable(k) && k != []
    ensures Target(EntryFor(k, obj)) == Ok(k)
  {
    hide ByteText, PathOf, IsDirName, Parts, Clean, EntryFor;
    NameBack(k, obj);
    assert Render(k) == Slashed(k);
    CanonicalPlain(k);
    RenderParts(k);
    RenderCleans(k);
  }

  // ---- exported entries are accepted ----

  lemma {:induction false} NoDots(k: Path, i: nat)
    requires forall j :: 0 <= j < |k| ==> IsName(k[j])
    ensures !DotDotAt(Slashed(k), i)
    decreases |k|
  {
    if k != [] {
      var s, rest, n := Slashed(k), Slashed(k[1..]), |k[0]|;
      assert s == "/" + k[0] + rest;
      if i == 0 {
        assert s[0] == '/';
      } else if i <= n {
        FirstNotDots(k[0], rest, i);
      } else {
        assert forall j :: 0 <= j < |rest| ==> rest[j] == s[1 + n + j];
        NoDots(k[1..], i - 1 - n);
        if i - 1 - n == 0 && rest != "" {
          assert rest[0] == '/';
        }
      }
    }
  }

  lemma FirstNotDots(name: string, rest: string, i: nat)
    requires IsName(name) && (rest == "" || rest[0] == '/') && 0 < i <= |name|
    ensures !DotDotAt("/" + name + rest, i)
  {
    var s := "/" + name + rest;
    assert forall j :: 0 <= j < |name| ==> s[j + 1] == name[j];
    assert |name| == 2 ==> name == [name[0], name[1]];
    assert rest != "" ==> s[|name| + 1] == rest[0];
  }

  lemma UnderRoot(r: Path, k: Path)
    requires r <= k && r != []
    ensures Under(Slashed(k), Slashed(r))
  {
    var rest := k[|r|..];
    assert k == r + rest;
    SlashedConcat(r, rest);
  }

  lemma RootTexts()
    ensures Slashed(Home()) == "/home" && Slashed(Etc()) == "/etc/peak" && Slashed(Var()) == "/var/peak"
  {
    assert Slashed(Etc()) == "/etc" + ("/peak" + "");
    assert Slashed(Var()) == "/var" + ("/peak" + "");
    assert Slashed(Home()) == "/home" + "";
  }

  lemma SaveableAllowed(k: Path)
    requires Saveable(k) && Persist(k)
    ensures Allowed(Slashed(k), 2)
  {
    hide DotDotAt, Under, Slashed;
    forall i | 0 <= i < |Slashed(k)| ensures !DotDotAt(Slashed(k), i) {
      NoDots(k, i);
    }
    var r := RootOf(k);
    UnderRoot(r, k);
    RootTexts();
    SlashedFirst(k);
  }

  lemma SlashedFirst(k: Path)
    requires k != []
    ensures Slashed(k) != "" && Slashed(k)[0] == '/'
  {
  }

  lemma EntryAccepted(fs: Fs, k: Path)
    requires Exportable(fs) && k in fs && Persist(k)
    ensures EntryOk(EntryFor(k, fs[k]), 2)
  {
    hide Allowed, PathOf, Persist, Canonical, ByteText;
    PersistNonEmpty(k);
    NameBack(k, fs[k]);
    SaveableAllowed(k);
    SlashedFirst(k);
  }

  lemma PersistNonEmpty(k: Path)
    requires Persist(k)
    ensures k != []
  {
  }

  // ---- the round trip ----

  /** After some exported entries: those are in place, and nothing is there that was not before
      or in the exported tree. */
  ghost predicate Restoring(b: Fs, a: Fs, fs: Fs, es: seq<Entry>) {
    && (forall k :: k in fs && Persist(k) && EntryFor(k, fs[k]) in es ==> k in a && a[k] == fs[k])
    && (forall k :: k in a ==> (k in b && a[k] == b[k]) || (Persist(k) && k in fs && a[k] == fs[k]))
    && (forall k :: k in b ==> k in a)
  }

  /** The map to load into agrees with the exported one where both have something, apart from the log. */
  ghost predicate Compatible(b: Fs, fs: Fs) {
    && Closed(b) && Closed(fs) && Rooted(b) && NoLinks(fs)
    && forall k :: k in b && Persist(k) && k in fs ==>
         b[k] == fs[k] || (k == Audit() && b[k].FileObj? && fs[k].FileObj?)
  }

  lemma {:induction false} AppliedRestores(b: Fs, fs: Fs, es: seq<Entry>)
    requires Compatible(b, fs) && Exportable(fs) && (forall i :: 0 <= i < |es| ==> FromTree(fs, es[i]))
    ensures Restoring(b, Applied(b, es), fs, es)
  {
    hide Exportable, Compatible, FromTree, Restoring, EntryFor, EntryFs;
    if es == [] {
      NothingYet(b, fs);
    } else {
      var n := |es| - 1;
      assert forall i :: 0 <= i < n ==> es[..n][i] == es[i];
      AppliedRestores(b, fs, es[..n]);
      RestoreStep(b, Applied(b, es[..n]), fs, es[..n], es[n]);
      assert es[..n] + [es[n]] == es;
    }
  }

  lemma NothingYet(b: Fs, fs: Fs)
    ensures Restoring(b, b, fs, [])
  {
  }

  lemma RestoreStep(b: Fs, a: Fs, fs: Fs, done: seq<Entry>, e: Entry)
    requires Compatible(b, fs) && Exportable(fs) && Restoring(b, a, fs, done) && FromTree(fs, e)
    ensures Restoring(b, EntryFs(a, e), fs, done + [e])
  {
    hide Exportable, EntryFor, Persist, Closed, Target;
    var k :| k in fs && Persist(k) && e == EntryFor(k, fs[k]);
    PersistNonEmpty(k);
    assert Saveable(k) by { ExportableAt(fs, k); }
    TargetBack(k, fs[k]);
    NameBack(k, fs[k]);
    var c := EntryFs(a, e);
    forall m ensures RestoredAt(b, a, c, fs, k, m) {
      RestoreAt(b, a, fs, done, k, m);
    }
    forall m | m in fs && Persist(m) && EntryFor(m, fs[m]) in done + [e] ensures m in c && c[m] == fs[m] {
      assert RestoredAt(b, a, c, fs, k, m);
      if EntryFor(m, fs[m]) == e {
        SamePath(fs, k, m);
      }
    }
    forall m | m in c ensures (m in b && c[m] == b[m]) || (Persist(m) && m in fs && c[m] == fs[m]) {
      assert RestoredAt(b, a, c, fs, k, m);
    }
    forall m | m in b ensures m in c {
      assert RestoredAt(b, a, c, fs, k, m);
    }
  }

  lemma ExportableAt(fs: Fs, k: Path)
    requires Exportable(fs) && k in fs && Persist(k)
    ensures Saveable(k)
  {
  }

  /** Different paths have different entries. */
  lemma SamePath(fs: Fs, k: Path, m: Path)
    requires Exportable(fs) && k in fs && m in fs && Persist(k) && Persist(m)
    requires EntryFor(k, fs[k]) == EntryFor(m, fs[m])
    ensures k == m
  {
    hide EntryFor, Persist, Target;
    PersistNonEmpty(k);
    PersistNonEmpty(m);
    TargetBack(k, fs[k]);
    TargetBack(m, fs[m]);
  }

  /** What one exported entry does to one path. */
  ghost predicate RestoredAt(b: Fs, a: Fs, c: Fs, fs: Fs, k: Path, m: Path) {
    && (m == k && k in fs ==> m in c && c[m] == fs[m])
    && (m in a ==> m in c)
    && (m in c && m != k ==> (m in a && c[m] == a[m]) || (Persist(m) && m in fs && c[m] == fs[m]))
  }

  lemma RestoreAt(b: Fs, a: Fs, fs: Fs, done: seq<Entry>, k: Path, m: Path)
    requires Compatible(b, fs) && Restoring(b, a, fs, done) && k in fs && Persist(k) && k != [] && Saveable(k)
    requires Target(EntryFor(k, fs[k])) == Ok(k) && (IsDirName(EntryFor(k, fs[k]).name) <==> !fs[k].FileObj?)
    ensures RestoredAt(b, a, EntryFs(a, EntryFor(k, fs[k])), fs, k, m)
  {
    hide Dirs, Target, IsDirName, Saveable;
    var d := if fs[k].FileObj? then |k| - 1 else |k|;
    DirsKeys(a, k, d, m);
    if m <= k && 0 < |m| < |k| {
      AboveSaved(b, fs, k, m);
    }
    if !fs[k].FileObj? {
      KeptDir(b, a, fs, done, k);
    }
  }

  /** The directories above a saved path are saved too, or already there. */
  lemma AboveSaved(b: Fs, fs: Fs, k: Path, m: Path)
    requires Compatible(b, fs) && k in fs && Persist(k) && m <= k && 0 < |m| < |k|
    ensures m in fs && fs[m] == DirObj && (Persist(m) || m in b)
  {
    assert m == k[..|m|];
    var r := RootOf(k);
    if |m| < |r| {
      assert m == r[..|m|];
    } else {
      assert r <= m;
    }
  }

  /** A directory already there is a directory in the exported tree. */
  lemma KeptDir(b: Fs, a: Fs, fs: Fs, done: seq<Entry>, k: Path)
    requires Compatible(b, fs) && Restoring(b, a, fs, done) && k in fs && Persist(k) && !fs[k].FileObj?
    ensures k in a ==> a[k] == fs[k]
  {
  }

  lemma ClearedClosed(g: Fs, saved: bool)
    requires Good(g)
    ensures Closed(Cleared(g, saved)) && Rooted(Cleared(g, saved))
  {
    hide Cleared, Persist, Good;
    var c := Cleared(g, saved);
    assert Closed(g) && Rooted(g) by { GoodParts(g); }
    ClearedAt(g, saved, []);
    RootNotPersist();
    forall k, j | k in c && 0 <= j < |k| ensures k[..j] in c && c[k[..j]] == DirObj {
      ClearedPrefix(g, saved, k, j);
    }
  }

  lemma GoodParts(g: Fs)
    requires Good(g)
    ensures Closed(g) && Rooted(g) && NoLinks(g)
  {
  }

  lemma RootNotPersist()
    ensures !Persist([])
  {
  }

  lemma ShortNotPersist(q: Path)
    requires |q| == 1 && |q[0]| == 3
    ensures !Persist(q)
  {
    assert |Home()[0]| == 4;
  }

  lemma PersistUp(k: Path, j: nat)
    requires j <= |k| && Persist(k[..j])
    ensures Persist(k)
  {
    var r := RootOf(k[..j]);
    assert r <= k;
  }

  lemma ClearedPrefix(g: Fs, saved: bool, k: Path, j: nat)
    requires Good(g) && k in Cleared(g, saved) && j < |k|
    ensures HasDir(Cleared(g, saved), k[..j])
  {
    hide Cleared, Good, AllHandy, NoLinks;
    assert Closed(g) && Rooted(g) by { GoodParts(g); }
    ClearedAt(g, saved, k);
    ClearedAt(g, saved, k[..j]);
    if !Persist(k) {
      if Persist(k[..j]) {
        PersistUp(k, j);
      }
    } else {
      RootPrefix(g, k, j);
    }
  }

  lemma RootPrefix(g: Fs, k: Path, j: nat)
    requires Closed(g) && Rooted(g) && j < |k| && (k == Home() || k == Etc() || k == Var() || k == Audit())
    ensures k[..j] == Var() || (!Persist(k[..j]) && HasDir(g, k[..j]))
  {
    if j == 1 {
      assert |k[0]| == 3;
      ShortNotPersist(k[..1]);
    }
    if k == Audit() {
      assert j == 2 ==> k[..j] == Var();
      assert j < 2 ==> k[..j] == Var()[..j];
    }
  }

  /** The maps on which loading `fs`'s entries after clearing `g` means restoring `fs`. */
  ghost predicate Loadable(g: Fs, saved: bool, fs: Fs) {
    && Good(g) && Closed(fs) && NoLinks(fs) && Rooted(fs) && Exportable(fs)
    && (saved && HasAudit(g) && Audit() in fs ==> fs[Audit()].FileObj?)
  }

  lemma ClearedCompatible(g: Fs, saved: bool, fs: Fs)
    requires Loadable(g, saved, fs)
    ensures Compatible(Cleared(g, saved), fs)
  {
    hide Cleared, Good, Exportable, Closed, Persist;
    ClearedClosed(g, saved);
    forall k | k in Cleared(g, saved) && Persist(k) && k in fs
      ensures Cleared(g, saved)[k] == fs[k] || (k == Audit() && Cleared(g, saved)[k].FileObj? && fs[k].FileObj?)
    {
      ClearedAt(g, saved, k);
    }
  }

  /** `a` is `fs` in the persistent namespaces and `g` outside them; the audit log is the saved
      tree's, or else what clearing kept of the current one. */
  ghost predicate RestoresTo(a: Fs, g: Fs, saved: bool, fs: Fs) {
    && SameOutside(g, a)
    && (forall k :: Persist(k) && k != Audit() ==> (k in a <==> k in fs) && (k in a ==> a[k] == fs[k]))
    && (if Audit() in fs then Audit() in a && a[Audit()] == fs[Audit()]
        else if saved && HasAudit(g) then Audit() in a && a[Audit()] == FileObj(Head(g[Audit()].bytes))
        else Audit() !in a)
  }

  /** Loading the entries of a saved tree restores it exactly, whatever was there before. */
  lemma LoadRestores(g: Fs, saved: bool, fs: Fs, es: seq<Entry>)
    requires Loadable(g, saved, fs) && Lists(fs, es)
    ensures RestoresTo(Applied(Cleared(g, saved), es), g, saved, fs)
  {
    hide Cleared, Good, Exportable, Closed, Persist, Applied, NoLinks, HasAudit, LoadedAt, RestoresTo, Restoring,
         Compatible;
    var b := Cleared(g, saved);
    var a := Applied(b, es);
    ClearedCompatible(g, saved, fs);
    AppliedRestores(b, fs, es);
    forall k ensures LoadedAt(a, g, saved, fs, k) {
      LoadAt(g, saved, fs, es, k);
    }
    LoadedAll(a, g, saved, fs);
  }

  lemma LoadedAll(a: Fs, g: Fs, saved: bool, fs: Fs)
    requires forall k :: LoadedAt(a, g, saved, fs, k)
    ensures RestoresTo(a, g, saved, fs)
  {
    hide Persist, HasAudit, Head;
    assert LoadedAt(a, g, saved, fs, Audit());
    assert Persist(Audit()) by { PersistPaths(); }
    forall k | !Persist(k) ensures (k in g <==> k in a) && (k in g ==> g[k] == a[k]) {
      assert LoadedAt(a, g, saved, fs, k);
    }
    forall k | Persist(k) && k != Audit() ensures (k in a <==> k in fs) && (k in a ==> a[k] == fs[k]) {
      assert LoadedAt(a, g, saved, fs, k);
    }
  }

  ghost predicate LoadedAt(a: Fs, g: Fs, saved: bool, fs: Fs, k: Path) {
    if !Persist(k) then (k in g <==> k in a) && (k in g ==> g[k] == a[k])
    else if k in fs then k in a && a[k] == fs[k]
    else if saved && HasAudit(g) && k == Audit() then k in a && a[k] == FileObj(Head(g[Audit()].bytes))
    else k !in a
  }

  lemma LoadAt(g: Fs, saved: bool, fs: Fs, es: seq<Entry>, k: Path)
    requires Loadable(g, saved, fs) && Lists(fs, es)
    requires Restoring(Cleared(g, saved), Applied(Cleared(g, saved), es), fs, es)
    ensures LoadedAt(Applied(Cleared(g, saved), es), g, saved, fs, k)
  {
    hide Cleared, Good, Exportable, Closed, Persist, Applied, NoLinks, HasAudit;
    ClearedAt(g, saved, k);
  }
}
