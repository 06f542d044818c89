/**
 Files through the resolver, room in the node pool, and clearing the persistent namespaces
 (kernel/vfs.c, kernel/vfs_peakfs.c).
 */
module PeakFsIo {
  import opened VfsPath
  import opened VfsTree
  import opened Vfs
  import opened VfsResolve
  import opened PeakFs
  import opened Sets

  // ---- room in the pool ----

  ghost function LiveSet(t: Tree): set<nat>
    requires Shaped(t)
  {
    set c: nat | 0 <= c < NODES && Live(t, c)
  }

  ghost function PathSet(t: Tree, cs: set<nat>): set<Path>
    requires Shaped(t) && forall c :: c in cs ==> c < NODES
  {
    set c | c in cs :: t.path[c]
  }

  lemma {:induction false} PathSetSize(t: Tree, cs: set<nat>)
    requires TreeOk(t) && cs <= LiveSet(t)
    ensures |PathSet(t, cs)| == |cs|
    decreases |cs|
  {
    hide AllDirs, AllPaths, HeldBut;
    if cs != {} {
      var c :| c in cs;
      var rest := cs - {c};
      PathSetSize(t, rest);
      assert PathSet(t, cs) == PathSet(t, rest) + {t.path[c]};
      assert t.path[c] !in PathSet(t, rest) by {
        if t.path[c] in PathSet(t, rest) {
          var d :| d in rest && t.path[d] == t.path[c];
          PathsUnique(t, c, d);
        }
      }
    }
  }

  /** The slots below `n`. */
  ghost function SlotsBelow(n: nat): (s: set<nat>)
    ensures |s| == n && forall c: nat :: c in s <==> c < n
  {
    if n == 0 then {} else SlotsBelow(n - 1) + {n - 1}
  }

  /** A full pool holds as many objects as it has slots, and no tree holds more. */
  lemma PoolSize(t: Tree)
    requires TreeOk(t)
    ensures |FsOf(t)| <= NODES
    ensures AllUsed(t.nodes) ==> |FsOf(t)| == NODES
  {
    hide AllDirs, AllPaths, HeldBut, FsOf, SlotsBelow;
    var fs, live := FsOf(t), LiveSet(t);
    PathSetSize(t, live);
    assert fs.Keys == PathSet(t, live) by {
      forall q | q in fs.Keys ensures q in PathSet(t, live) {
        var c: nat :| Live(t, c) && t.path[c] == q;
        assert c in live;
      }
    }
    SubsetSize(live, SlotsBelow(NODES));
    if AllUsed(t.nodes) {
      assert live == SlotsBelow(NODES);
    }
  }

  // ---- path_for_io ----

  /** The path a read or write uses: resolved, or only normalised when nothing is there. */
  function IoPath(fs: Fs, path: string): Result<string> {
    match ResolvedText(fs, path, PATH_MAX)
    case Err(e) => if e == NotFound then Normalized(path, PATH_MAX) else Err(e)
    case Ok(s) => Ok(s)
  }

  method PathForIo(p: Pool, path: string) returns (r: Result<string>)
    requires p.Valid()
    ensures r == IoPath(p.Files(), path)
  {
    hide ResolvedText, Normalized, FsOf, TreeOk;
    r := Resolve(p, path, PATH_MAX);
    if r == Err(NotFound) {
      r := Normalize(path, PATH_MAX);
    }
  }

  /** Without links the path used is the normalised one, unless a file stands in the way. */
  lemma IoPathPlain(fs: Fs, path: string)
    requires NoLinks(fs)
    ensures IoPath(fs, path).Ok? ==> Components(path).Ok? && IoPath(fs, path) == Ok(Render(Components(path).value))
    ensures Components(path).Ok? && Components(path).value in fs && Closed(fs) ==> IoPath(fs, path).Ok?
  {
    hide Render, WalkFrom;
    NormalizedComponents(path);
    ComponentsCanonical(path);
    if Components(path).Ok? {
      var c := Components(path).value;
      assert !WalkFrom(fs, c, 0).LinkAt?;
      if c in fs && Closed(fs) {
        ExistingFree(fs, c);
      }
    }
  }

  lemma ExistingFree(fs: Fs, c: Path)
    requires NoLinks(fs) && Closed(fs) && c in fs
    ensures WalkFrom(fs, c, 0) == Through
  {
    hide WalkFrom;
    WalkThroughIff(fs, c, 0);
    forall j | 0 < j <= |c| ensures StepOk(fs, c, j) {
      assert c[..|c|] == c;
    }
  }

  /** vfs_read_file: at most `room` bytes of the file a path leads to. */
  method ReadFile(p: Pool, path: string, room: nat) returns (r: Result<seq<Byte>>)
    requires p.Valid()
    ensures NoLinks(p.Files()) && Components(path).Ok? && Components(path).value in p.Files() &&
            p.Files()[Components(path).value].FileObj? ==>
              var b := p.Files()[Components(path).value].bytes;
              r == Ok(if |b| <= room then b else b[..room])
  {
    hide AllDirs, AllPaths, HeldBut, FsOf, IoPath, Parts, Components, Closed, NoLinks;
    var io := PathForIo(p, path);
    if NoLinks(p.Files()) {
      IoPathPlain(p.Files(), path);
      TreeClosed(p.T());
      IoReads(path);
    }
    if io.Err? {
      return Err(io.error);
    }
    var n := p.Lookup(io.value);
    if n == -1 || p.nodes[n].kind != File {
      return Err(NotFound);
    }
    var b := p.nodes[n].data;
    r := Ok(if |b| <= room then b else b[..room]);
  }

  lemma IoReads(path: string)
    ensures Components(path).Ok? ==>
      var c := Components(path).value;
      Render(c) != "" && Render(c)[0] == '/' && Parts(Render(c), 1) == c
  {
    if Components(path).Ok? {
      ComponentsCanonical(path);
      CanonicalPlain(Components(path).value);
      RenderParts(Components(path).value);
      RenderSlash(Components(path).value);
    }
  }

  // ---- writing ----

  lemma {:induction false} DirsThere(fs: Fs, q: Path, k: nat)
    requires k <= |q| && forall j :: 0 <= j <= k ==> HasDir(fs, q[..j])
    ensures Dirs(fs, q, k) == fs
  {
    if k > 0 {
      DirsThere(fs, q, k - 1);
    }
  }

  /** All directories above `q` exist. */
  ghost predicate ParentsThere(fs: Fs, q: Path) {
    forall j :: 0 <= j < |q| ==> HasDir(fs, q[..j])
  }

  /** The first `k` prefixes of `q` are directories or missing. */
  ghost predicate Passable(fs: Fs, q: Path, k: nat)
    requires k <= |q|
  {
    forall j :: 0 < j <= k && q[..j] in fs ==> fs[q[..j]] == DirObj
  }

  /** No obstacle on the way, nothing but a file at the end, and room for what is missing. */
  ghost predicate CanWrite(fs: Fs, c: Path) {
    && c != [] && Passable(fs, c, |c| - 1) && (c in fs ==> fs[c].FileObj?)
    && |Dirs(fs, c, |c| - 1)[c := FileObj([])]| <= NODES
  }

  ghost predicate CanMake(fs: Fs, q: Path) {
    Passable(fs, q, |q|) && |Dirs(fs, q, |q|)| <= NODES
  }

  /** From `a` to `b` nothing changed but that directories were added. */
  ghost predicate OnlyDirsMade(a: Fs, b: Fs) {
    && (forall k :: k in a ==> k in b && b[k] == a[k])
    && (forall k :: k in b && k !in a ==> b[k] == DirObj)
  }

  lemma NothingMade(fs: Fs)
    ensures OnlyDirsMade(fs, fs)
  {
  }

  lemma DirsOnly(fs: Fs, q: Path, k: nat)
    requires k <= |q|
    ensures OnlyDirsMade(fs, Dirs(fs, q, k))
  {
    hide Dirs;
    forall m | m in fs || m in Dirs(fs, q, k)
      ensures m in Dirs(fs, q, k) && Dirs(fs, q, k)[m] == if m in fs then fs[m] else DirObj
    {
      DirsKept(fs, q, k, m);
    }
  }

  /** vfs_write_file: succeeds exactly when the file can be written. */
  method WriteAt(p: Pool, path: string, data: seq<Byte>) returns (r: Result<()>)
    requires p.Valid() && NoLinks(p.Files()) && (Components(path).Ok? ==> Components(path).value != [])
    modifies p`nodes, p`heads, p`used, p`kids, p`path
    ensures p.Valid()
    ensures r.Ok? ==> Components(path).Ok? && Written(old(p.Files()), p.Files(), Components(path).value, data)
    ensures r.Err? && p.Files() != old(p.Files()) ==>
      Components(path).Ok? && Grew(old(p.Files()), p.Files(), Components(path).value)
    ensures r.Err? ==> OnlyDirsMade(old(p.Files()), p.Files())
    ensures r.Ok? <==> !p.saving && Components(path).Ok? && CanWrite(old(p.Files()), Components(path).value)
  {
    hide AllDirs, AllPaths, HeldBut, FsOf, IoPath, Parts, Components, NoLinks, Dirs, Written, Grew, CanWrite,
         OnlyDirsMade, LeafOk, AllUsed, Blocked;
    ghost var fs := p.Files();
    var io := PathForIo(p, path);
    IoPathPlain(fs, path);
    IoReads(path);
    NothingMade(fs);
    if Components(path).Ok? {
      IoPathFits(fs, path);
    }
    if io.Err? {
      return Err(io.error);
    }
    ghost var c := Components(path).value;
    RenderLeaf(path);
    ghost var made;
    r, made := p.WriteFile(io.value, data);
    PoolSize(p.T());
    if r.Err? {
      ParentsGrew(fs, p.Files(), io.value, made, c);
      if p.Files() != fs {
        DirsOnly(fs, c, made);
      }
      if !p.saving {
        CannotWrite(fs, p.Files(), io.value, made, c);
      }
    } else {
      TreeClosed(p.T());
      WrittenCan(fs, p.Files(), c, data);
    }
  }

  lemma WrittenCan(a: Fs, b: Fs, c: Path, data: seq<Byte>)
    requires Closed(b) && Written(a, b, c, data) && c != [] && |b| <= NODES
    ensures CanWrite(a, c)
  {
    hide Dirs;
    var w := Dirs(a, c, |c| - 1)[c := FileObj([])];
    forall j | 0 < j < |c| && c[..j] in a ensures a[c[..j]] == DirObj {
      DirsKept(a, c, |c| - 1, c[..j]);
      assert b[c[..j]] == DirObj;
    }
    if c in a {
      forall j | 0 <= j <= |c| - 1 ensures HasDir(a, c[..j]) {
        assert b[c[..j]] == DirObj;
      }
      DirsThere(a, c, |c| - 1);
    }
    assert w.Keys == b.Keys;
    assert |w| == |w.Keys| && |b| == |b.Keys|;
  }

  lemma CannotWrite(a: Fs, b: Fs, name: string, made: nat, c: Path)
    requires OnlyParents(a, b, name, made) && name != "" && Parts(name, 1) == c
    requires c !in a ==> Blocked(a, c, made) || |b| == NODES
    requires c in a ==> !a[c].FileObj?
    ensures !CanWrite(a, c)
  {
    hide Parts, Dirs;
    assert c[..|c|] == c;
    if c !in a && |b| == NODES && c != [] {
      var k := if b == a then 0 else made;
      DirsNone(a, c);
      DirsGrow(a, c, k, |c| - 1);
      DirsNot(a, c, |c| - 1);
      OneMoreKey(Dirs(a, c, k), Dirs(a, c, |c| - 1), c);
    }
  }

  /** Making more directories takes no object away. */
  lemma {:induction false} DirsGrow(fs: Fs, q: Path, k: nat, m: nat)
    requires k <= m <= |q|
    ensures Dirs(fs, q, k).Keys <= Dirs(fs, q, m).Keys
  {
    if k < m {
      DirsGrow(fs, q, k, m - 1);
    }
  }

  lemma OneMoreKey(a: Fs, b: Fs, c: Path)
    requires a.Keys <= b.Keys && c !in b
    ensures |b[c := FileObj([])]| > |a|
  {
    SubsetSize(a.Keys, b.Keys);
    assert b[c := FileObj([])].Keys == b.Keys + {c};
    assert |a| == |a.Keys| && |b| == |b.Keys|;
  }

  /** vfs_mkdir with its exact condition for success. */
  method MakeDir(p: Pool, name: string) returns (ok: bool)
    requires p.Valid() && name != "" && name[0] == '/'
    modifies p`nodes, p`heads, p`used, p`kids, p`path
    ensures p.Valid() && Grew(old(p.Files()), p.Files(), Parts(name, 1))
    ensures ok ==> p.Files() == Dirs(old(p.Files()), Parts(name, 1), |Parts(name, 1)|)
    ensures ok <==> CanMake(old(p.Files()), Parts(name, 1))
    ensures OnlyDirsMade(old(p.Files()), p.Files())
  {
    hide AllDirs, AllPaths, HeldBut, FsOf, Parts, Dirs, Blocked, NoRoom, CanMake, AllUsed, Grew, OnlyDirsMade;
    ghost var fs, q := p.Files(), Parts(name, 1);
    var r;
    ghost var made;
    r, made := p.Mkdir(name);
    DirsGrew(fs, q, made);
    DirsOnly(fs, q, made);
    PoolSize(p.T());
    ok := r != -1;
    if ok {
      TreeClosed(p.T());
      DirObjAt(p.T(), r);
      MadeCan(fs, q);
    } else {
      CannotMake(fs, q, made, p.nodes);
    }
  }

  lemma MadeCan(fs: Fs, q: Path)
    requires Closed(Dirs(fs, q, |q|)) && HasDir(Dirs(fs, q, |q|), q) && |Dirs(fs, q, |q|)| <= NODES
    ensures CanMake(fs, q)
  {
    hide Dirs;
    forall j | 0 < j <= |q| && q[..j] in fs ensures fs[q[..j]] == DirObj {
      DirsKept(fs, q, |q|, q[..j]);
      assert q[..|q|] == q;
    }
  }

  lemma CannotMake(fs: Fs, q: Path, made: nat, nodes: seq<Node>)
    requires made <= |q| && (Blocked(fs, q, made) || NoRoom(nodes, Dirs(fs, q, made), q, made))
    requires AllUsed(nodes) ==> |Dirs(fs, q, made)| == NODES
    ensures !CanMake(fs, q)
  {
    hide Dirs, AllUsed;
    if !Blocked(fs, q, made) {
      var b := Dirs(fs, q, made);
      DirsStep(fs, q, made, b[q[..made + 1] := DirObj]);
      DirsGrow(fs, q, made + 1, |q|);
      SubsetSize(b.Keys + {q[..made + 1]}, Dirs(fs, q, |q|).Keys);
      assert |b| == |b.Keys|;
    }
  }

  /** vfs_symlink with its exact condition for success. */
  method MakeLink(p: Pool, target: seq<Byte>, name: string) returns (ok: bool)
    requires p.Valid() && LeafOk(name)
    modifies p`nodes, p`heads, p`used, p`kids, p`path
    ensures p.Valid()
    ensures ok <==> !p.saving && LinkFits(target, name) && CanLink(old(p.Files()), Parts(name, 1))
    ensures ok ==>
      var c := Parts(name, 1);
      c != [] && p.Files() == Dirs(old(p.Files()), c, |c| - 1)[c := LinkObj(target)]
    ensures !ok ==> OnlyDirsMade(old(p.Files()), p.Files())
  {
    hide AllDirs, AllPaths, HeldBut, FsOf, Parts, Dirs, CanWrite, OnlyDirsMade, LeafOk, AllUsed, Blocked;
    ghost var fs := p.Files();
    var r;
    ghost var made;
    r, made := p.Symlink(target, name);
    ok := r.Ok?;
    NothingMade(fs);
    PoolSize(p.T());
    if ok {
      TreeClosed(p.T());
      LinkedCan(fs, p.Files(), Parts(name, 1), target);
    } else if p.Files() != fs {
      DirsOnly(fs, Parts(name, 1), made);
    }
    if !ok && !p.saving && LinkFits(target, name) && Parts(name, 1) !in fs {
      CannotWrite(fs, p.Files(), name, made, Parts(name, 1));
    }
  }

  /** Nothing is at the path, and a file could be written there. */
  ghost predicate CanLink(fs: Fs, c: Path) {
    c !in fs && CanWrite(fs, c)
  }

  lemma LinkedCan(a: Fs, b: Fs, c: Path, target: seq<Byte>)
    requires Closed(b) && c != [] && c !in a && b == Dirs(a, c, |c| - 1)[c := LinkObj(target)] && |b| <= NODES
    ensures CanWrite(a, c)
  {
    hide Dirs, CanWrite;
    var w := b[c := FileObj([])];
    forall k, j | k in w && 0 <= j < |k| ensures k[..j] in w && w[k[..j]] == DirObj {
      assert k in b && b[k[..j]] == DirObj;
    }
    assert w == Dirs(a, c, |c| - 1)[c := FileObj([])];
    assert w.Keys == b.Keys && |w| == |w.Keys| && |b| == |b.Keys|;
    WrittenCan(a, w, c, []);
  }

  /** A new file in an existing directory, with room in the pool. */
  ghost predicate WriteFits(fs: Fs, c: Path) {
    c !in fs && c != [] && ParentsThere(fs, c) && |fs| < NODES
  }

  lemma FitsWrites(fs: Fs, c: Path)
    requires WriteFits(fs, c)
    ensures CanWrite(fs, c)
  {
    DirsThere(fs, c, |c| - 1);
  }

  lemma IoPathFits(fs: Fs, path: string)
    requires NoLinks(fs) && Components(path).Ok?
    ensures CanWrite(fs, Components(path).value) ==> IoPath(fs, path).Ok?
  {
    hide Render, NoLinks, Dirs;
    NormalizedComponents(path);
    var c := Components(path).value;
    if CanWrite(fs, c) {
      PassableWalk(fs, c, 0);
    }
  }

  lemma {:induction false} PassableWalk(fs: Fs, c: Path, k: nat)
    requires NoLinks(fs) && c != [] && Passable(fs, c, |c| - 1) && k <= |c|
    ensures WalkFrom(fs, c, k) == Through || WalkFrom(fs, c, k) == Stop(NotFound)
    decreases |c| - k
  {
    if k < |c| && c[..k + 1] in fs {
      PassableWalk(fs, c, k + 1);
    }
  }

  lemma RenderLeaf(path: string)
    requires Components(path).Ok? && Components(path).value != []
    ensures LeafOk(Render(Components(path).value))
  {
    hide Components, Clean;
    ComponentsCanonical(path);
    var c := Components(path).value;
    var s := Slashed(c);
    forall last: nat | last < |s| && s[last] == '/' && '/' !in s[last + 1..] ensures Splits(s, last) {
      LeafIs(c, last);
    }
  }

  lemma LeafIs(c: Path, last: nat)
    requires Canonical(c) && c != []
    requires last < |Slashed(c)| && Slashed(c)[last] == '/' && '/' !in Slashed(c)[last + 1..]
    ensures Splits(Slashed(c), last)
  {
    hide Slashed;
    LastOf(c, last);
    var d, part := c[..|c| - 1], c[|c| - 1];
    assert c == d + [part];
    SlashedSnoc(d, part);
    assert Slashed(c)[last + 1..] == part;
  }

  lemma ParentsGrew(a: Fs, b: Fs, name: string, made: nat, c: Path)
    requires OnlyParents(a, b, name, made) && name != "" && Parts(name, 1) == c
    ensures Grew(a, b, c)
  {
    hide Parts, Dirs;
    if b != a {
      DirsGrew(a, c, made);
    }
  }

  // ---- peakfs_clear_persist ----

  /** vfs_remove_tree on one of the namespaces, if it exists. */
  method DropRoot(p: Pool, text: string, ghost q: Path)
    requires p.Valid() && !p.saving && text != "" && text[0] == '/' && Parts(text, 1) == q && q != []
    requires HandyBelow(p.Files(), q)
    modifies p`nodes, p`heads, p`kids
    ensures p.Valid() && !p.saving && p.Files() == CutBelow(old(p.Files()), q)
  {
    hide AllDirs, AllPaths, HeldBut, FsOf, Parts, CutBelow, HandyBelow;
    var n := p.Lookup(text);
    if n == -1 {
      CutNothing(p.T(), q);
      return;
    }
    HandyWritable(p.Files(), q);
    var r := p.RemoveTree(text, DEEP);
  }

  lemma CutNothing(t: Tree, q: Path)
    requires TreeOk(t) && q !in FsOf(t)
    ensures CutBelow(FsOf(t), q) == FsOf(t)
  {
    hide FsOf;
    TreeClosed(t);
    forall k | k in FsOf(t) ensures !(q <= k) {
      assert |q| < |k| ==> k[..|q|] in FsOf(t);
      PrefixIs(q, k);
    }
  }

  lemma PrefixIs(q: Path, k: Path)
    ensures q <= k ==> if |q| == |k| then q == k else |q| < |k| && q == k[..|q|]
  {
  }

  lemma HandyWritable(fs: Fs, q: Path)
    requires HandyBelow(fs, q)
    ensures Writable(fs, q, DEEP)
  {
  }

  /** vfs_mkdir where only the last directory is missing and the pool has room. */
  method MakeRoot(p: Pool, text: string, ghost q: Path)
    requires p.Valid() && text != "" && text[0] == '/' && Parts(text, 1) == q
    requires WriteFits(p.Files(), q)
    modifies p`nodes, p`heads, p`used, p`kids, p`path
    ensures p.Valid() && p.Files() == old(p.Files())[q := DirObj]
  {
    hide AllDirs, AllPaths, HeldBut, FsOf, Parts, Dirs, WriteFits, Blocked, AllUsed;
    ghost var fs := p.Files();
    var r;
    ghost var made;
    r, made := p.Mkdir(text);
    PoolSize(p.T());
    MadeLast(fs, p.Files(), q, made);
  }

  lemma MadeLast(a: Fs, b: Fs, q: Path, made: nat)
    requires WriteFits(a, q) && made <= |q| && b == Dirs(a, q, made)
    ensures made < |q| ==> b == a && !Blocked(a, q, made) && |b| < NODES
    ensures made == |q| ==> b == a[q := DirObj] && |b| <= NODES
  {
    hide Dirs;
    assert q[..|q|] == q;
    var d := if made < |q| then made else |q| - 1;
    assert forall j :: 0 <= j <= d ==> HasDir(a, q[..j]);
    assert made + 1 < |q| ==> HasDir(a, q[..made + 1]);
    DirsThere(a, q, d);
    if made == |q| {
      DirsStep(a, q, d, a[q := DirObj]);
    }
  }

  lemma FourPaths()
    ensures Home() != Etc() && Home() != Var() && Etc() != Var()
    ensures Audit() != Home() && Audit() != Etc() && Audit() != Var()
  {
    assert Etc()[0][0] != Var()[0][0];
  }

  /** Clearing frees at least the slots it needs again. */
  lemma BareRoom(fs: Fs)
    requires Good(fs) && |fs| <= NODES
    ensures |Bare(fs)| + 3 <= NODES
    ensures HasAudit(fs) ==> |Bare(fs)| + 4 <= NODES
  {
    hide Good, Persist;
    GoodParts(fs);
    FourPaths();
    PersistPaths();
    var b, r := Bare(fs).Keys, {Home(), Etc(), Var()};
    BareKeys(fs);
    assert |r| == 3;
    assert |b + r| == |b| + 3;
    assert b + r <= fs.Keys;
    SubsetSize(b + r, fs.Keys);
    if HasAudit(fs) {
      OneMore(b + r, Audit(), fs.Keys);
    }
  }

  lemma OneMore(a: set<Path>, x: Path, b: set<Path>)
    requires a <= b && x in b && x !in a
    ensures |a| + 1 <= |b|
  {
    SubsetSize(a + {x}, b);
  }

  lemma BareKeys(fs: Fs)
    ensures forall k :: k in Bare(fs) <==> k in fs && !Persist(k)
    ensures forall k :: k in Bare(fs) ==> Bare(fs)[k] == fs[k]
  {
  }

  /** The directories above the namespaces survive clearing. */
  lemma BareParents(fs: Fs, q: Path, f: Fs)
    requires Good(fs) && (q == Home() || q == Etc() || q == Var())
    requires forall k :: k in Bare(fs) ==> k in f && f[k] == Bare(fs)[k]
    ensures ParentsThere(f, q)
  {
    hide Bare, Persist, Good;
    GoodParts(fs);
    BareKeys(fs);
    forall j | 0 <= j < |q| ensures HasDir(f, q[..j]) {
      AbovePersist(q, j);
      assert HasDir(fs, q[..j]);
    }
  }

  lemma AbovePersist(q: Path, j: nat)
    requires (q == Home() || q == Etc() || q == Var()) && j < |q|
    ensures !Persist(q[..j])
  {
    if j == 1 {
      assert |q[..1][0]| == 3;
      ShortNotPersist(q[..1]);
    }
  }

  lemma ClearStages(fs: Fs)
    requires Good(fs) && |fs| <= NODES
    ensures var f0 := Bare(fs);
            var f1 := f0[Home() := DirObj];
            var f2 := f1[Etc() := DirObj];
            var f3 := f2[Var() := DirObj];
            && WriteFits(f0, Home()) && WriteFits(f1, Etc()) && WriteFits(f2, Var())
            && (HasAudit(fs) ==> WriteFits(f3, Audit()))
  {
    hide Good, Persist, Bare, HasAudit, ParentsThere;
    BareRoom(fs);
    BareKeys(fs);
    FourPaths();
    PersistPaths();
    var f0 := Bare(fs);
    var f1 := f0[Home() := DirObj];
    var f2 := f1[Etc() := DirObj];
    var f3 := f2[Var() := DirObj];
    BareParents(fs, Home(), f0);
    BareParents(fs, Etc(), f1);
    BareParents(fs, Var(), f2);
    BareParents(fs, Var(), f3);
    assert ParentsThere(f3, Audit()) by { AuditParents(f3); }
  }

  lemma AuditParents(f: Fs)
    requires ParentsThere(f, Var()) && HasDir(f, Var())
    ensures ParentsThere(f, Audit())
  {
    assert Audit()[..2] == Var();
    assert Audit()[..1] == Var()[..1] && Audit()[..0] == Var()[..0];
  }

  /** The texts the code uses name the namespaces. */
  lemma RootParts()
    ensures Parts("/home", 1) == Home() && Parts("/etc/peak", 1) == Etc() && Parts("/var/peak", 1) == Var()
    ensures Components("/var/peak/audit.log") == Ok(Audit()) && Parts("/var/peak/audit.log", 1) == Audit()
  {
    hide Parts, Components, Slashed, Handy;
    RootTexts();
    HandyPaths();
    TextParts(Home(), "/home");
    TextParts(Etc(), "/etc/peak");
    TextParts(Var(), "/var/peak");
    AuditText();
    TextParts(Audit(), "/var/peak/audit.log");
    AuditComponents();
  }

  lemma HandyPaths()
    ensures Plain(Audit()) && Plain(Home()) && Plain(Etc()) && Plain(Var())
  {
  }

  lemma TextParts(q: Path, text: string)
    requires q != [] && Plain(q) && Slashed(q) == text
    ensures Parts(text, 1) == q
  {
    hide Parts, Slashed, Plain;
    RenderParts(q);
  }

  lemma AuditText()
    ensures Slashed(Audit()) == "/var/peak/audit.log"
  {
    assert Slashed(Audit()) == "/var" + ("/peak" + ("/audit.log" + ""));
  }

  lemma AuditComponents()
    ensures Components("/var/peak/audit.log") == Ok(Audit())
  {
    hide Slashed, Clean;
    AuditText();
    assert Canonical(Audit());
    RenderCleans(Audit());
  }

  /** The log as peakfs_clear_persist keeps it. */
  method SaveAudit(p: Pool, saveOk: bool) returns (saved: seq<Byte>)
    requires p.Valid() && NoLinks(p.Files())
    ensures saved == if saveOk && HasAudit(p.Files()) then Head(p.Files()[Audit()].bytes) else []
  {
    hide AllDirs, AllPaths, HeldBut, FsOf, Parts, Components, NoLinks;
    RootParts();
    saved := [];
    var n := p.Lookup("/var/peak/audit.log");
    if n == -1 || p.nodes[n].kind != File || p.nodes[n].data == [] || !saveOk {
      return;
    }
    var cap := if |p.nodes[n].data| > AUDIT_MAX then AUDIT_MAX else |p.nodes[n].data|;
    var r := ReadFile(p, "/var/peak/audit.log", cap);
    saved := r.value;
  }

  /** The three removals. */
  method DropAll(p: Pool)
    requires p.Valid() && !p.saving && Good(p.Files())
    modifies p`nodes, p`heads, p`kids
    ensures p.Valid() && p.Files() == Bare(old(p.Files()))
  {
    hide TreeOk, FsOf, Parts, Good, CutBelow, HandyBelow, Slashed, Within;
    ghost var fs := p.Files();
    RootParts();
    AllHandyBelow(fs, Home(), fs);
    DropRoot(p, "/home", Home());
    ghost var f1 := p.Files();
    CutSubset(fs, Home());
    AllHandyBelow(fs, Etc(), f1);
    DropRoot(p, "/etc/peak", Etc());
    CutSubset(f1, Etc());
    WithinTrans(fs, f1, p.Files());
    AllHandyBelow(fs, Var(), p.Files());
    DropRoot(p, "/var/peak", Var());
  }

  ghost predicate Within(fs: Fs, f: Fs) {
    forall k :: k in f ==> k in fs
  }

  ghost predicate HandyBelow(f: Fs, q: Path) {
    forall k :: k in f && q <= k ==> Handy(k)
  }

  lemma WithinTrans(a: Fs, b: Fs, c: Fs)
    requires Within(a, b) && Within(b, c)
    ensures Within(a, c)
  {
  }

  lemma AllHandyBelow(fs: Fs, q: Path, f: Fs)
    requires Good(fs) && (q == Home() || q == Etc() || q == Var()) && (f == fs || Within(fs, f))
    ensures HandyBelow(f, q)
  {
    hide Handy;
    forall k | k in f && q <= k ensures Handy(k) {
      assert Persist(k);
    }
  }

  lemma CutSubset(f: Fs, q: Path)
    ensures Within(f, CutBelow(f, q))
  {
  }

  lemma BareNoLinks(fs: Fs, g: Fs)
    requires NoLinks(fs) && g == Bare(fs)[Home() := DirObj][Etc() := DirObj][Var() := DirObj]
    ensures NoLinks(g)
  {
    hide Bare;
    BareKeys(fs);
  }

  lemma AuditWritten(f: Fs, b: Fs, saved: seq<Byte>)
    requires WriteFits(f, Audit()) && Written(f, b, Audit(), saved)
    ensures b == f[Audit() := FileObj(saved)]
  {
    hide Dirs;
    DirsThere(f, Audit(), 2);
  }

  /** peakfs_clear_persist; `saveOk` is whether the buffer for the log could be had. */
  method ClearPersist(p: Pool, saveOk: bool)
    requires p.Valid() && !p.saving && Good(p.Files())
    modifies p`nodes, p`heads, p`used, p`kids, p`path
    ensures p.Valid() && p.Files() == Cleared(old(p.Files()), saveOk)
  {
    hide TreeOk, FsOf, Parts, Components, Good, Bare, WriteFits, CanWrite, NoLinks, Written, Slashed;
    ghost var fs := p.Files();
    GoodParts(fs);
    RootParts();
    var saved := SaveAudit(p, saveOk);
    MakeAll(p);
    if saved != [] {
      ghost var f := p.Files();
      BareNoLinks(fs, f);
      FitsWrites(f, Audit());
      var r := WriteAt(p, "/var/peak/audit.log", saved);
      AuditWritten(f, p.Files(), saved);
    }
  }

  /** The removals and the new, empty namespaces. */
  method MakeAll(p: Pool)
    requires p.Valid() && !p.saving && Good(p.Files())
    modifies p`nodes, p`heads, p`used, p`kids, p`path
    ensures p.Valid() && p.Files() == Bare(old(p.Files()))[Home() := DirObj][Etc() := DirObj][Var() := DirObj]
    ensures HasAudit(old(p.Files())) ==> WriteFits(p.Files(), Audit())
  {
    hide TreeOk, FsOf, Parts, Components, Good, Bare, WriteFits, Slashed, HasAudit;
    PoolSize(p.T());
    ClearStages(p.Files());
    RootParts();
    DropAll(p);
    MakeRoot(p, "/home", Home());
    MakeRoot(p, "/etc/peak", Etc());
    MakeRoot(p, "/var/peak", Var());
  }
}
