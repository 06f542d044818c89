/**
 The virtual file system (kernel/vfs.c): operations on the node pool, with the tree they
 keep and the map from paths to objects they change.
 */
module Vfs {
  import opened VfsPath
  import opened VfsTree

  class Pool {
    var nodes: seq<Node>
    var heads: seq<seq<nat>>     // child_bucket
    var used: nat                // node_count
    var saving: bool             // peakdisk_busy
    ghost var kids: seq<seq<nat>>
    ghost var path: seq<Path>

    ghost function T(): Tree
      reads this
    {
      Tree(nodes, heads, kids, path)
    }

    ghost predicate Valid()
      reads this
    {
      TreeOk(T()) && TailFree()
    }

    /** Slots the pool has not reached yet are free. */
    ghost predicate TailFree()
      reads this
    {
      |nodes| == NODES && 0 < used <= NODES && forall c :: used <= c < NODES ==> nodes[c].kind == Free
    }

    ghost function Files(): Fs
      requires TreeOk(T())
      reads this
    {
      FsOf(T())
    }

    /** find_child: from the bucket head, then the part of the chain before it. */
    method FindChild(d: nat, name: string) returns (r: int)
      requires Valid() && d < NODES
      ensures r == -1 ==> forall j :: 0 <= j < |kids[d]| ==> nodes[kids[d][j]].name != name
      ensures r != -1 ==> 0 <= r < NODES && r in kids[d] && nodes[r].name == name
    {
      hide AllDirs, AllPaths, HeldBut, First;
      var b := Bucket(name);
      var start := nodes[d].child;
      ghost var from := 0;
      ghost var t := T();
      assert DirOk(t, d) by { DirAt(t, d); }
      FirstSpec(nodes, kids[d], b);
      if heads[d][b] != 0 {
        start := heads[d][b] - 1;
        from :| 0 <= from < |kids[d]| && kids[d][from] == start &&
          forall j :: 0 <= j < from ==> Bucket(nodes[kids[d][j]].name) != b;
      }
      r := ScanChain(d, start, -1, name, from);
      if r == -1 && start != nodes[d].child {
        r := ScanChain(d, nodes[d].child, start, name, 0);
      }
    }

    /** Follows the sibling links from the `from`-th child until a match, `stop` or the end. */
    method ScanChain(d: nat, start: int, stop: int, name: string, ghost from: nat) returns (r: int)
      requires Shaped(T()) && d < NODES && DirOk(T(), d) && from <= |kids[d]| && start == At(kids[d], from)
      ensures r == -1 ==> stop == -1 ==> forall j :: from <= j < |kids[d]| ==> nodes[kids[d][j]].name != name
      ensures r != -1 ==> 0 <= r < NODES && r in kids[d] && nodes[r].name == name
    {
      hide Shaped, DirOk, Bucket;
      ChainOf(T(), d);
      var c := start;
      ghost var k := from;
      while c != -1 && c != stop
        invariant from <= k <= |kids[d]| && c == At(kids[d], k)
        invariant forall j :: from <= j < k ==> nodes[kids[d][j]].name != name
        decreases |kids[d]| - k
      {
        if Bucket(nodes[c].name) == Bucket(name) && nodes[c].name == name {
          return c;
        }
        c, k := nodes[c].sibling, k + 1;
      }
      r := -1;
    }

    /** The child a component leads to. */
    method Visit(cur: nat, part: string, ghost q: Path) returns (c: int)
      requires Valid() && Live(T(), cur) && q == path[cur] + [part]
      ensures c == -1 <==> q !in Files()
      ensures c != -1 ==> 0 <= c < NODES && Live(T(), c) && path[c] == q && Files()[q] == ObjOf(nodes[c])
    {
      hide AllDirs, AllPaths, HeldBut, FsOf;
      c := FindChild(cur, part);
      if c == -1 {
        assert path[cur] < q && q[|path[cur]|] == part;
        NoSuchChild(T(), cur, q);
      } else {
        KidPath(T(), cur, c);
      }
    }

    /** vfs_lookup */
    method Lookup(name: string) returns (r: int)
      requires Valid()
      ensures name == "" || name[0] != '/' ==> r == -1
      ensures name != "" && name[0] == '/' ==>
        if r == -1 then Parts(name, 1) !in Files()
        else 0 <= r < NODES && Live(T(), r) && path[r] == Parts(name, 1)
    {
      hide AllDirs, AllPaths, HeldBut, FsOf, Parts;
      if name == "" || name[0] != '/' {
        return -1;
      }
      PartsEnd(name);
      if |name| == 1 {
        return 0;
      }
      var cur, i := 0, 1;
      assert path[0] + Parts(name, 1) == Parts(name, 1);
      while i < |name|
        invariant 1 <= i <= |name| && 0 <= cur < NODES && Live(T(), cur)
        invariant path[cur] + Parts(name, i) == Parts(name, 1)
        decreases |name| - i
      {
        var j := TakePart(name, i);
        var next := After(name, j);
        PartsStep(name, i);
        if j > i {
          var part := name[i..j];
          ghost var q := path[cur] + [part];
          assert q + Parts(name, next) == Parts(name, 1);
          var c := Visit(cur, part, q);
          if c == -1 {
            PrefixMissing(T(), q, Parts(name, 1));
            return -1;
          }
          cur := c;
        }
        i := next;
      }
      r := cur;
    }

    method TakePart(s: string, i: nat) returns (j: nat)
      requires i < |s|
      ensures j == PartStop(s, i, i)
    {
      j := i;
      while j < |s| && s[j] != '/' && j - i + 1 < NAME_MAX
        invariant i <= j <= |s| && PartStop(s, i, j) == PartStop(s, i, i)
      {
        j := j + 1;
      }
    }

    /** vfs_init */
    constructor ()
      ensures Valid() && Files() == map[[] := DirObj] && !saving
    {
      nodes := seq(NODES, i => Node("", if i == 0 then Dir else Free, -1, -1, -1, []));
      heads := seq(NODES, _ => seq(BUCKETS, _ => 0));
      used, saving := 1, false;
      kids, path := seq(NODES, _ => []), seq(NODES, _ => []);
      new;
      EmptyTree(T());
    }

    /** alloc_node: the first free slot, or a new one; `pth` is where it is going to hang. */
    method AllocNode(name: string, kind: Kind, ghost pth: Path) returns (x: int)
      requires Valid() && kind != Free && |name| < NAME_MAX
      modifies `nodes, `used, `path
      ensures TailFree()
      ensures x == -1 ==> T() == old(T()) && AllUsed(nodes)
      ensures x != -1 ==> 0 < x < NODES && old(nodes)[x].kind == Free && T() == Filled(old(T()), x, name, kind, pth)
    {
      hide AllDirs, AllPaths, HeldBut;
      x := -1;
      for i := 0 to used
        invariant x == -1 && forall c :: 0 <= c < i ==> nodes[c].kind != Free
      {
        if nodes[i].kind == Free {
          x := i;
          break;
        }
      }
      if x == -1 {
        if used >= NODES {
          return;
        }
        x := used;
        used := used + 1;
      }
      nodes := nodes[x := Node(name, kind, -1, -1, -1, [])];
      path := path[x := pth];
    }

    /** add_child */
    method AddChild(d: nat, x: nat)
      requires Shaped(T()) && TailFree() && d < NODES && x < NODES
      modifies `nodes, `heads, `kids
      ensures TailFree() && T() == Attached(old(T()), d, x)
    {
      nodes := nodes[x := nodes[x].(parent := d, sibling := nodes[d].child)];
      nodes := nodes[d := nodes[d].(child := x)];
      var b := Bucket(nodes[x].name);
      var hs: seq<nat> := heads[d][b := x + 1];
      heads := heads[d := hs];
      kids := kids[d := [x] + kids[d]];
    }

    /** A new child of directory `d`. */
    method NewChild(d: nat, name: string, kind: Kind) returns (x: int)
      requires Valid() && Live(T(), d) && nodes[d].kind == Dir && kind != Free && |name| < NAME_MAX
      requires path[d] + [name] !in Files()
      modifies `nodes, `heads, `used, `kids, `path
      ensures Valid()
      ensures x == -1 ==> T() == old(T()) && AllUsed(nodes)
      ensures x != -1 ==> 0 < x < NODES && Live(T(), x) && nodes[x].kind == kind
      ensures x != -1 ==> path[x] == old(path)[d] + [name]
      ensures x != -1 ==> Files() == old(Files())[old(path)[d] + [name] := ObjOf(Node(name, kind, -1, -1, -1, []))]
    {
      hide AllDirs, AllPaths, HeldBut, FsOf, First, Attached, Filled;
      ghost var t := T();
      x := AllocNode(name, kind, path[d] + [name]);
      if x == -1 {
        return;
      }
      FreshName(t, d, name);
      GrowOk(t, d, x, name, kind);
      GrowFields(t, d, x, name, kind);
      AddChild(d, x);
      assert T() == Grown(t, d, x, name, kind);
    }

    /** vfs_mkdir: creates the missing directories along the path; `made` counts the components done. */
    method Mkdir(name: string) returns (r: int, ghost made: nat)
      requires Valid()
      modifies `nodes, `heads, `used, `kids, `path
      ensures Valid()
      ensures name == "" || name[0] != '/' ==> r == -1 && T() == old(T())
      ensures name != "" && name[0] == '/' ==>
        && made <= |Parts(name, 1)| && Files() == Dirs(old(Files()), Parts(name, 1), made)
        && (r != -1 ==> made == |Parts(name, 1)| && IsDirAt(T(), r, Parts(name, 1)))
        && (r == -1 ==> Blocked(old(Files()), Parts(name, 1), made) || NoRoom(nodes, Files(), Parts(name, 1), made))
    {
      hide AllDirs, AllPaths, HeldBut, FsOf, Dirs;
      made := 0;
      r := Lookup(name);
      if name == "" || name[0] != '/' {
        return;
      }
      if r == -1 {
        r, made := MkdirWalk(name);
        return;
      }
      ghost var q := Parts(name, 1);
      if q == [] {
        PathsUnique(T(), r, 0);
      }
      made := if nodes[r].kind == Dir then |q| else |q| - 1;
      DirsPresent(T(), r, made);
      assert q[..|q|] == q;
      if nodes[r].kind != Dir {
        r := -1;
      }
    }

    method MkdirWalk(name: string) returns (r: int, ghost made: nat)
      requires Valid() && name != "" && name[0] == '/'
      modifies `nodes, `heads, `used, `kids, `path
      ensures Valid()
      ensures made <= |Parts(name, 1)| && Files() == Dirs(old(Files()), Parts(name, 1), made)
      ensures r != -1 ==> made == |Parts(name, 1)| && IsDirAt(T(), r, Parts(name, 1))
      ensures r == -1 ==> Blocked(old(Files()), Parts(name, 1), made) || NoRoom(nodes, Files(), Parts(name, 1), made)
    {
      hide AllDirs, AllPaths, HeldBut, FsOf, Dirs, AllUsed, Parts, InPool, PartStop, Blocked, NoRoom, NotDirAt;
      ghost var q, fs := Parts(name, 1), Files();
      DirsNone(fs, q);
      made := 0;
      var cur, i := 0, 1;
      assert path[0] + Parts(name, 1) == q;
      while i < |name|
        invariant 1 <= i <= |name| && Valid() && 0 <= cur < NODES && IsDirAt(T(), cur, path[cur])
        invariant path[cur] + Parts(name, i) == q && made == |path[cur]| && Files() == Dirs(fs, q, made)
        decreases |name| - i
      {
        var j := TakePart(name, i);
        var next := After(name, j);
        PartsStep(name, i);
        if j > i {
          var part := name[i..j];
          assert path[cur] + [part] + Parts(name, next) == q;
          PrefixStep(path[cur], part, Parts(name, next), q);
          var n := Enter(cur, part);
          if n == -1 {
            EnterFailed(fs, q, made, nodes);
            return -1, made;
          }
          DirsStep(fs, q, made, Files());
          cur, made := n, made + 1;
        }
        i := next;
      }
      PartsEnd(name);
      assert path[cur] == q;
      r := cur;
    }

    /** One component of vfs_mkdir: the child directory, made when there is none. */
    method Enter(cur: nat, part: string) returns (n: int)
      requires Valid() && Live(T(), cur) && nodes[cur].kind == Dir && |part| < NAME_MAX
      modifies `nodes, `heads, `used, `kids, `path
      ensures Valid()
      ensures n == -1 ==> T() == old(T())
      ensures n == -1 ==>
        var q := old(path)[cur] + [part];
        NotDirAt(old(Files()), q) || (AllUsed(nodes) && q !in Files())
      ensures n != -1 ==> 0 <= n && IsDirAt(T(), n, old(path)[cur] + [part])
      ensures n != -1 ==>
        Files() == if path[n] in old(Files()) then old(Files()) else old(Files())[path[n] := DirObj]
    {
      hide AllDirs, AllPaths, HeldBut, FsOf;
      n := FindChild(cur, part);
      if n != -1 {
        KidPath(T(), cur, n);
        if nodes[n].kind != Dir {
          return -1;
        }
        return;
      }
      ghost var q := path[cur] + [part];
      assert path[cur] < q && q[|path[cur]|] == part;
      NoSuchChild(T(), cur, q);
      n := NewChild(cur, part, Dir);
    }

    method LastSlash(name: string) returns (last: int)
      ensures last == -1 ==> '/' !in name
      ensures last != -1 ==> 0 <= last < |name| && name[last] == '/' && '/' !in name[last + 1..]
    {
      last := -1;
      for i := 0 to |name|
        invariant last == -1 ==> '/' !in name[..i]
        invariant last != -1 ==> 0 <= last < i && name[last] == '/' && '/' !in name[last + 1..i]
      {
        if name[i] == '/' {
          last := i;
        }
      }
      assert name[..|name|] == name;
      assert last != -1 ==> name[last + 1..|name|] == name[last + 1..];
    }

    /** The part vfs_create_file and vfs_symlink share: a new node at a path where there is none,
        after making its parent directories. */
    method CreateNode(name: string, kind: Kind) returns (r: int, ghost made: nat)
      requires Valid() && kind != Free && kind != Dir && LeafOk(name) && name != "" && name[0] == '/'
      requires Parts(name, 1) !in Files()
      modifies `nodes, `heads, `used, `kids, `path
      ensures Valid() && Parts(name, 1) != [] && made < |Parts(name, 1)|
      ensures r == -1 ==> Files() == Dirs(old(Files()), Parts(name, 1), made)
      ensures r == -1 ==> Blocked(old(Files()), Parts(name, 1), made) || AllUsed(nodes)
      ensures r != -1 ==>
        && made == |Parts(name, 1)| - 1 && 0 <= r < NODES && Live(T(), r) && nodes[r].kind == kind &&
            path[r] == Parts(name, 1)
        && Files() == Dirs(old(Files()), Parts(name, 1), made)[Parts(name, 1) := ObjOf(Node("", kind, -1, -1, -1, []))]
    {
      hide TreeOk, FsOf, Dirs, Parts, AllUsed, TailFree;
      var last := LastSlash(name);
      LeafSplits(name, last);
      ghost var q, fs := Parts(name, 1), Files();
      var dir;
      dir, made := ParentDir(name, last);
      if dir == -1 {
        return -1, made;
      }
      DirsNot(fs, q, made);
      assert q == q[..|q| - 1] + [name[last + 1..]];
      DirLive(T(), dir);
      r := NewChild(dir, name[last + 1..], kind);
    }

    /** The directory a new path goes into, with its missing ancestors made. */
    method ParentDir(name: string, last: nat) returns (dir: int, ghost made: nat)
      requires Valid() && name != "" && name[0] == '/' && Splits(name, last) && LeafOk(name)
      modifies `nodes, `heads, `used, `kids, `path
      ensures Valid() && made < |Parts(name, 1)| && Files() == Dirs(old(Files()), Parts(name, 1), made)
      ensures dir != -1 ==> made == |Parts(name, 1)| - 1 && IsDirAt(T(), dir, Parts(name, 1)[..made])
      ensures dir == -1 ==> Blocked(old(Files()), Parts(name, 1), made) || AllUsed(nodes)
    {
      hide AllDirs, AllPaths, HeldBut, FsOf, Dirs, Parts, AllUsed;
      LeafSplits(name, last);
      ghost var q, fs := Parts(name, 1), Files();
      if last == 0 {
        DirsNone(fs, q);
        return 0, 0;
      }
      dir, made := Mkdir(name[..last]);
      DirsPrefix(fs, q, made);
      if dir == -1 {
        assert made < |q| - 1 ==> q[..|q| - 1][..made + 1] == q[..made + 1];
        return;
      }
      ghost var there := dir;
      dir := Lookup(name[..last]);
      FoundAgain(T(), there, dir);
    }

    /** vfs_create_file */
    method CreateFile(name: string) returns (r: int, ghost made: nat)
      requires Valid() && LeafOk(name)
      modifies `nodes, `heads, `used, `kids, `path
      ensures Valid()
      ensures name == "" || name[0] != '/' ==> r == -1 && Files() == old(Files())
      ensures name != "" && name[0] == '/' ==> Created(old(Files()), Files(), Parts(name, 1), r != -1, made)
      ensures r != -1 ==> 0 <= r < NODES && Live(T(), r) && nodes[r].kind == File && path[r] == Parts(name, 1)
      ensures r == -1 && name != "" && name[0] == '/' && Parts(name, 1) !in old(Files()) ==>
              Blocked(old(Files()), Parts(name, 1), made) || AllUsed(nodes)
    {
      hide AllDirs, AllPaths, HeldBut, FsOf, Dirs, Parts, AllUsed;
      made := 0;
      r := Lookup(name);
      if name == "" || name[0] != '/' {
        return;
      }
      if r != -1 {
        if nodes[r].kind != File {
          r := -1;
        }
        return;
      }
      r, made := CreateNode(name, File);
    }

    /** unlink_from_parent; `j` is the place the node had among its parent's children. */
    method UnlinkFromParent(x: nat) returns (ghost j: nat)
      requires Valid() && Live(T(), x) && x != 0
      modifies `nodes, `heads, `kids
      ensures TailFree()
      ensures var p := old(nodes)[x].parent;
              0 <= p < NODES && j < |old(kids)[p]| && old(kids)[p][j] == x && T() == Detached(old(T()), p, j)
    {
      hide AllDirs, AllPaths, HeldBut, First;
      var prev;
      prev, j := FindPrev(x);
      var p := nodes[x].parent;
      DirAt(T(), p);
      hide DirOk, Bucket;
      var b := Bucket(nodes[x].name);
      var hs := heads[p];
      if hs[b] == x + 1 {
        var h := NextInBucket(p, x, b, j);
        hs := hs[b := h];
      }
      heads := heads[p := hs];
      if prev == -1 {
        nodes := nodes[p := nodes[p].(child := nodes[x].sibling)];
      } else {
        nodes := nodes[prev := nodes[prev].(sibling := nodes[x].sibling)];
      }
      kids := kids[p := Without(kids[p], j)];
    }

    /** The sibling whose link leads to `x`, or the null link when the parent's does. */
    method FindPrev(x: nat) returns (prev: int, ghost j: nat)
      requires Valid() && Live(T(), x) && x != 0
      ensures var p := nodes[x].parent;
              && 0 <= p < NODES && j < |kids[p]| && kids[p][j] == x
              && prev == if j == 0 then -1 else kids[p][j - 1]
    {
      hide AllDirs, AllPaths, HeldBut, Live;
      ghost var gp, at := KidOf(T(), x);
      var p := nodes[x].parent;
      FirstChild(T(), p);
      prev, j := -1, 0;
      var cur := nodes[p].child;
      while cur != x
        invariant 0 <= j <= at && cur == At(kids[p], j) && prev == if j == 0 then -1 else kids[p][j - 1]
        decreases at - j
      {
        NextSibling(T(), p, j);
        prev, cur, j := cur, nodes[cur].sibling, j + 1;
      }
    }

    /** The next sibling in the same bucket, as a head. */
    method NextInBucket(p: nat, x: nat, b: nat, ghost j: nat) returns (h: nat)
      requires Shaped(T()) && p < NODES && DirOk(T(), p) && j < |kids[p]| && kids[p][j] == x
      ensures h == First(nodes, kids[p][j + 1..], b)
    {
      var s := nodes[x].sibling;
      ghost var k := j + 1;
      while s != -1
        invariant j < k <= |kids[p]| && s == At(kids[p], k)
        invariant First(nodes, kids[p][j + 1..], b) == First(nodes, kids[p][k..], b)
        decreases |kids[p]| - k
      {
        assert kids[p][k..][0] == s && kids[p][k..][1..] == kids[p][k + 1..];
        if Bucket(nodes[s].name) == b {
          return s + 1;
        }
        s, k := nodes[s].sibling, k + 1;
      }
      h := 0;
    }

    /** Takes a childless node out of the tree and frees its slot. */
    method Remove(x: nat) returns (ghost j: nat)
      requires Valid() && Live(T(), x) && x != 0 && kids[x] == []
      modifies `nodes, `heads, `kids
      ensures Valid() && Files() == old(Files()) - {old(path)[x]} && NoneNew(old(nodes), nodes)
      ensures var p := old(nodes)[x].parent;
              && 0 <= p < NODES && j < |old(kids)[p]| && old(kids)[p][j] == x
              && Shaped(Detached(old(T()), p, j)) && T() == Pruned(old(T()), p, j)
    {
      hide AllDirs, AllPaths, HeldBut, FsOf, Detached, First, Bucket;
      ghost var t, p := T(), nodes[x].parent;
      j := UnlinkFromParent(x);
      PruneOk(t, p, j);
      PrunedKinds(t, p, j);
      nodes := nodes[x := Node("", Free, -1, -1, -1, [])];
      assert T() == Pruned(t, p, j);
    }

    /** vfs_unlink */
    method Unlink(name: string) returns (r: Result<()>)
      requires Valid()
      modifies `nodes, `heads, `kids
      ensures Valid()
      ensures NoneNew(old(nodes), nodes)
      ensures r.Ok? <==>
        !saving && name != "" && name[0] == '/' && Parts(name, 1) in old(Files()) &&
            old(Files())[Parts(name, 1)] != DirObj
      ensures r.Ok? ==> Files() == old(Files()) - {Parts(name, 1)}
      ensures r.Err? ==> Files() == old(Files())
      ensures r == Err(Busy) <==> saving
      ensures r == Err(NotFound) <==> !saving && (name == "" || name[0] != '/' || Parts(name, 1) !in old(Files()))
    {
      hide AllDirs, AllPaths, HeldBut, FsOf, Parts;
      if saving {
        return Err(Busy);
      }
      var n := Lookup(name);
      if n == -1 {
        return Err(NotFound);
      }
      if n == 0 {
        return Err(Invalid);
      }
      if nodes[n].kind != File && nodes[n].kind != Link {
        return Err(IsDir);
      }
      NoKids(T(), n);
      ghost var j := Remove(n);
      r := Ok(());
    }

    /** vfs_rmdir */
    method Rmdir(name: string) returns (r: Result<()>)
      requires Valid()
      modifies `nodes, `heads, `kids
      ensures Valid()
      ensures NoneNew(old(nodes), nodes)
      ensures r.Ok? <==> !saving && name != "" && name[0] == '/' && EmptyDirAt(old(Files()), Parts(name, 1))
      ensures r.Ok? ==> Files() == old(Files()) - {Parts(name, 1)}
      ensures r.Err? ==> Files() == old(Files())
    {
      hide AllDirs, AllPaths, HeldBut, FsOf, Parts;
      if saving {
        return Err(Busy);
      }
      var n := Lookup(name);
      if n == -1 {
        return Err(NotFound);
      }
      if n == 0 {
        return Err(Invalid);
      }
      if nodes[n].kind != Dir {
        return Err(NotDir);
      }
      NoChildIff(T(), n);
      if nodes[n].child != -1 {
        return Err(Busy);
      }
      ghost var j := Remove(n);
      r := Ok(());
    }

    method SetData(f: nat, data: seq<Byte>)
      requires Valid() && Live(T(), f)
      modifies `nodes
      ensures Valid() && Files() == old(Files())[path[f] := ObjOf(old(nodes)[f].(data := data))]
    {
      hide AllDirs, AllPaths, HeldBut, FsOf;
      FileOk(T(), f, data);
      nodes := nodes[f := nodes[f].(data := data)];
      assert T() == Filed(old(T()), f, data);
    }

    /** vfs_write_file once the path is resolved: creates the file when missing and sets its bytes. */
    method WriteFile(name: string, data: seq<Byte>) returns (r: Result<()>, ghost made: nat)
      requires Valid() && LeafOk(name)
      modifies `nodes, `heads, `used, `kids, `path
      ensures Valid()
      ensures r.Ok? ==> name != "" && name[0] == '/' && !saving && Written(old(Files()), Files(), Parts(name, 1), data)
      ensures r.Err? ==> OnlyParents(old(Files()), Files(), name, made)
      ensures r.Err? && !saving && name != "" && name[0] == '/' && Parts(name, 1) !in old(Files()) ==>
              Blocked(old(Files()), Parts(name, 1), made) || AllUsed(nodes)
      ensures r.Err? && !saving && name != "" && name[0] == '/' && Parts(name, 1) in old(Files()) ==>
              !old(Files())[Parts(name, 1)].FileObj?
    {
      hide AllDirs, AllPaths, HeldBut, FsOf, Dirs, Parts, AllUsed;
      made := 0;
      if saving {
        return Err(Busy), 0;
      }
      var n := Lookup(name);
      if n != -1 && nodes[n].kind == Dir {
        return Err(IsDir), 0;
      }
      var ok;
      ok, made := PutFile(name, data);
      r := if ok then Ok(()) else Err(Invalid);
    }

    method PutFile(name: string, data: seq<Byte>) returns (ok: bool, ghost made: nat)
      requires Valid() && LeafOk(name)
      modifies `nodes, `heads, `used, `kids, `path
      ensures Valid()
      ensures ok ==> name != "" && name[0] == '/' && Written(old(Files()), Files(), Parts(name, 1), data)
      ensures !ok ==> OnlyParents(old(Files()), Files(), name, made)
      ensures !ok && name != "" && name[0] == '/' && Parts(name, 1) !in old(Files()) ==>
              Blocked(old(Files()), Parts(name, 1), made) || AllUsed(nodes)
      ensures !ok && name != "" && name[0] == '/' && Parts(name, 1) in old(Files()) ==>
              !old(Files())[Parts(name, 1)].FileObj?
    {
      hide TreeOk, FsOf, Dirs, Parts, TailFree, AllUsed, Blocked;
      var f;
      f, made := CreateFile(name);
      if f == -1 {
        return false, made;
      }
      SetData(f, data);
      ok := true;
    }

    /** vfs_symlink for a target of fitting length */
    method Symlink(target: seq<Byte>, name: string) returns (r: Result<()>, ghost made: nat)
      requires Valid() && LeafOk(name)
      modifies `nodes, `heads, `used, `kids, `path
      ensures Valid()
      ensures r.Ok? ==>
        && !saving && name != "" && name[0] == '/' && target != [] && |target| < PATH_MAX
        && Parts(name, 1) !in old(Files()) && Parts(name, 1) != []
        && Files() == Dirs(old(Files()), Parts(name, 1), |Parts(name, 1)| - 1)[Parts(name, 1) := LinkObj(target)]
      ensures r.Err? ==> OnlyParents(old(Files()), Files(), name, made)
      ensures r.Err? && !saving && LinkFits(target, name) && Parts(name, 1) !in old(Files()) ==>
        Blocked(old(Files()), Parts(name, 1), made) || AllUsed(nodes)
    {
      hide TreeOk, FsOf, Dirs, Parts, TailFree, AllUsed, Blocked;
      made := 0;
      if saving {
        return Err(Busy), 0;
      }
      if target == [] {
        return Err(Invalid), 0;
      }
      var n := Lookup(name);
      if n != -1 {
        return Err(Exists), 0;
      }
      if |target| >= PATH_MAX || name == "" || name[0] != '/' {
        return Err(Invalid), 0;
      }
      var f;
      f, made := CreateNode(name, Link);
      if f == -1 {
        return Err(NotDir), made;
      }
      SetData(f, target);
      r := Ok(());
    }

    /** vfs_rename.  A target below the source is not refused; the nodes are then no tree any more. */
    method Rename(from: string, to: string) returns (r: Result<()>)
      requires Valid() && LeafOk(to)
      modifies `nodes, `heads, `kids, `path
      ensures r.Ok? <==> !saving && CanRename(old(Files()), from, to)
      ensures r.Err? ==> T() == old(T()) && Valid()
      ensures r.Ok? ==> ((exists paths :: TreeOk(T().(path := paths))) <==> !(Parts(from, 1) < Parts(to, 1)))
      ensures r.Ok? && !(Parts(from, 1) < Parts(to, 1)) ==>
        Valid() && Moves(old(Files()), Files(), Parts(from, 1), Parts(to, 1))
      ensures r == Err(Busy) <==> saving
      ensures r == Err(Exists) ==> to != "" && to[0] == '/' && Parts(to, 1) in old(Files())
    {
      hide AllDirs, AllPaths, HeldBut, FsOf, Parts, Moves;
      if saving {
        return Err(Busy);
      }
      var n := Lookup(from);
      RootPath(T(), n);
      if n == -1 || n == 0 {
        return Err(NotFound);
      }
      var e := Lookup(to);
      if e != -1 {
        return Err(Exists);
      }
      if |to| >= PATH_MAX {
        return Err(Invalid);
      }
      var last := LastSlash(to);
      if last < 0 {
        return Err(Invalid);
      }
      var d := 0;
      if last != 0 {
        d := Lookup(to[..last]);
      }
      TargetDir(T(), to, last, d);
      if d == -1 || nodes[d].kind != Dir {
        return Err(NotDir);
      }
      MoveNode(n, d, to[last + 1..]);
      r := Ok(());
    }

    method MoveNode(n: nat, d: nat, name: string)
      requires Valid() && Live(T(), n) && n != 0 && Live(T(), d) && nodes[d].kind == Dir
      requires path[d] + [name] !in Files()
      modifies `nodes, `heads, `kids, `path
      ensures (exists paths :: TreeOk(T().(path := paths))) <==> !(old(path)[n] < old(path)[d] + [name])
      ensures !(old(path)[n] < old(path)[d] + [name]) ==>
        Valid() && Moves(old(Files()), Files(), old(path)[n], old(path)[d] + [name])
    {
      hide AllDirs, AllPaths, HeldBut, FsOf, Moves, Detached, Retitled, Attached;
      ghost var t, p := T(), nodes[n].parent;
      ghost var j := UnlinkFromParent(n);
      RenameMeans(t, p, j, d, name);
      ghost var u := T();
      RetitleIs(u, n, name, path[d] + [name]);
      nodes := nodes[n := nodes[n].(name := name)];
      path := Retitled(u, n, name, path[d] + [name]).path;
      assert T() == Retitled(u, n, name, t.path[d] + [name]);
      AddChild(d, n);
      assert T() == Renamed(t, p, j, d, name);
    }

    /** node_path, for a node at most 16 levels deep whose path fits the buffer. */
    method NodePath(x: nat) returns (s: string)
      requires Valid() && Live(T(), x) && x != 0 && |path[x]| <= 16 && |Slashed(path[x])| < PATH_MAX
      ensures s == Render(path[x])
    {
      hide AllDirs, AllPaths, HeldBut, Slashed;
      var n, names: seq<string> := x, [];
      assert path[x] + [] == path[x];
      while n != 0 && |names| < 16
        invariant 0 <= n < NODES && Live(T(), n) && path[n] + names == path[x]
        decreases |path[n]|
      {
        ghost var p, j := KidOf(T(), n);
        assert path[p] + ([nodes[n].name] + names) == path[x];
        names := [nodes[n].name] + names;
        n := nodes[n].parent;
      }
      if n != 0 {
        ghost var p, j := KidOf(T(), n);
      }
      assert names == path[x];
      var w := Write(names, PATH_MAX);
      s := w.value;
    }

    /** vfs_remove_tree, for a subtree whose paths node_path can write. */
    method RemoveTree(name: string, ghost depth: nat) returns (r: Result<()>)
      requires Valid() && !saving
      requires name != "" && name[0] == '/' ==> Writable(Files(), Parts(name, 1), depth)
      modifies `nodes, `heads, `kids
      ensures Valid() && NoneNew(old(nodes), nodes)
      ensures r.Ok? <==> name != "" && name[0] == '/' && Parts(name, 1) != [] && Parts(name, 1) in old(Files())
      ensures r.Ok? ==> Files() == CutBelow(old(Files()), Parts(name, 1))
      ensures r.Err? ==> Files() == old(Files())
      decreases depth, 3
    {
      hide AllDirs, AllPaths, HeldBut, FsOf, Parts, Writable, CutBelow, NoneNew;
      var n := Lookup(name);
      if n == -1 || n == 0 {
        RootOnly(T());
        NoneNewSelf(nodes);
        return Err(Invalid);
      }
      NotRoot(T(), n);
      if nodes[n].kind == File || nodes[n].kind == Link {
        r := RemoveFile(name, n);
        return;
      }
      r := RemoveDir(name, n, depth);
    }

    method RemoveDir(name: string, n: nat, ghost depth: nat) returns (r: Result<()>)
      requires Valid() && !saving && name != "" && name[0] == '/' && Live(T(), n) && path[n] == Parts(name, 1) &&
          path[n] != []
      requires nodes[n].kind == Dir && Writable(Files(), path[n], depth)
      modifies `nodes, `heads, `kids
      ensures Valid() && NoneNew(old(nodes), nodes) && r.Ok?
      ensures Files() == CutBelow(old(Files()), Parts(name, 1))
      decreases depth, 2
    {
      hide TreeOk, TailFree, Live, FsOf, Parts, Writable, CutBelow, NothingBelow, Trimmed, NoneNew;
      ghost var q, fs, was := Parts(name, 1), Files(), nodes;
      DirObjAt(T(), n);
      RemoveChildren(n, depth);
      TrimmedCut(fs, Files(), q);
      assert EmptyDirAt(Files(), Parts(name, 1));
      ghost var mid := nodes;
      r := Rmdir(name);
      NoneNewTrans(was, mid, nodes);
    }

    method RemoveFile(name: string, ghost n: nat) returns (r: Result<()>)
      requires Valid() && !saving && name != "" && name[0] == '/' && Live(T(), n) && path[n] == Parts(name, 1)
      requires nodes[n].kind != Dir
      modifies `nodes, `heads, `kids
      ensures Valid() && NoneNew(old(nodes), nodes) && r.Ok?
      ensures Files() == CutBelow(old(Files()), Parts(name, 1))
    {
      hide AllDirs, AllPaths, HeldBut, FsOf, Parts, CutBelow, NothingBelow, Trimmed, NoneNew;
      ghost var fs := Files();
      NoKids(T(), n);
      NoChildIff(T(), n);
      FirstChild(T(), n);
      TrimmedSelf(fs, path[n]);
      TrimmedCut(fs, fs, path[n]);
      r := Unlink(name);
    }

    /** The loop of vfs_remove_tree: always the first child that is left. */
    method RemoveChildren(n: nat, ghost depth: nat)
      requires Valid() && !saving && Live(T(), n) && nodes[n].kind == Dir && Writable(Files(), path[n], depth)
      modifies `nodes, `heads, `kids
      ensures Valid() && NoneNew(old(nodes), nodes)
      ensures Trimmed(old(Files()), Files(), path[n]) && NothingBelow(Files(), path[n])
      decreases depth, 1
    {
      hide AllDirs, AllPaths, HeldBut, FsOf, Parts, Writable, CutBelow, NothingBelow, Trimmed;
      ghost var q, fs, was := path[n], Files(), nodes;
      TrimmedSelf(fs, q);
      while nodes[n].child != -1
        invariant Valid() && NoneNew(was, nodes) && Live(T(), n) && nodes[n].kind == Dir && Trimmed(fs, Files(), q)
        decreases Files().Keys
      {
        RemoveFirst(n, depth, fs);
      }
      NoChildIff(T(), n);
    }

    method RemoveFirst(n: nat, ghost depth: nat, ghost fs: Fs)
      requires Valid() && !saving && Live(T(), n) && nodes[n].kind == Dir && nodes[n].child != -1
      requires Writable(fs, path[n], depth) && Trimmed(fs, Files(), path[n])
      modifies `nodes, `heads, `kids
      ensures Valid() && NoneNew(old(nodes), nodes) && Live(T(), n) && nodes[n].kind == Dir
      ensures Trimmed(fs, Files(), path[n]) && Files().Keys < old(Files().Keys)
      decreases depth, 0
    {
      hide AllDirs, AllPaths, HeldBut, FsOf, Parts, Writable, CutBelow, NothingBelow, Trimmed, Plain, Slashed, Render;
      var c := nodes[n].child;
      FirstKid(T(), n);
      ghost var t, fs1, k := T(), Files(), path[c];
      WritableChild(fs, fs1, path[n], depth, k);
      var cp := NodePath(c);
      RenderParts(k);
      RenderSlash(k);
      var e := RemoveTree(cp, depth - 1);
      TrimmedMore(fs, fs1, Files(), path[n], k);
      StillDir(t, T(), n);
    }
  }

  /** Nothing lies below a path that is not there. */
  lemma PrefixMissing(t: Tree, a: Path, q: Path)
    requires TreeOk(t) && a <= q && a !in FsOf(t)
    ensures q !in FsOf(t)
  {
    hide AllDirs, AllPaths, HeldBut, FsOf;
    assert q[..|a|] == a;
    if q in FsOf(t) {
      var c: nat :| Live(t, c) && t.path[c] == q;
      var b := Ancestor(t, c, |a|);
    }
  }

  lemma DirAt(t: Tree, d: nat)
    requires Shaped(t) && AllDirs(t) && d < NODES
    ensures DirOk(t, d)
  {
  }

  lemma FirstChild(t: Tree, p: nat)
    requires Shaped(t) && AllDirs(t) && p < NODES
    ensures t.nodes[p].child == At(t.kids[p], 0)
  {
    assert DirOk(t, p);
  }

  /** The sibling links run through the children in order. */
  lemma ChainOf(t: Tree, d: nat)
    requires Shaped(t) && d < NODES && DirOk(t, d)
    ensures |t.nodes| == |t.kids| == NODES
    ensures forall j :: 0 <= j < |t.kids[d]| ==>
      t.kids[d][j] < NODES && t.nodes[t.kids[d][j]].sibling == At(t.kids[d], j + 1)
  {
    hide First;
  }

  lemma NextSibling(t: Tree, p: nat, j: nat)
    requires Shaped(t) && AllDirs(t) && p < NODES && j < |t.kids[p]|
    ensures t.nodes[t.kids[p][j]].sibling == At(t.kids[p], j + 1)
  {
    assert DirOk(t, p);
  }

  lemma KidPath(t: Tree, d: nat, c: nat)
    requires TreeOk(t) && d < NODES && c in t.kids[d]
    ensures c < NODES && Live(t, c) && c != 0 && t.path[c] == t.path[d] + [t.nodes[c].name]
    ensures t.nodes[d].kind == Dir && t.nodes[c].parent == d
  {
    var j :| 0 <= j < |t.kids[d]| && t.kids[d][j] == c;
    assert DirOk(t, d) && Pathed(t, d);
  }

  lemma EmptyTree(t: Tree)
    requires |t.nodes| == |t.heads| == |t.kids| == |t.path| == NODES && t.path[0] == []
    requires forall p :: 0 <= p < NODES ==>
      && t.nodes[p] == Node("", if p == 0 then Dir else Free, -1, -1, -1, [])
      && t.heads[p] == seq(BUCKETS, _ => 0) && t.kids[p] == []
    ensures TreeOk(t) && FsOf(t) == map[[] := DirObj]
  {
    hide FsOf;
    assert Live(t, 0);
    FsIs(t, map[[] := DirObj]);
  }

  lemma DirLive(t: Tree, d: nat)
    requires TreeOk(t) && d < NODES && t.nodes[d].kind == Dir
    ensures Shaped(t) && Live(t, d)
  {
  }

  /** Looking a directory up right after it was made finds it. */
  lemma FoundAgain(t: Tree, a: nat, b: int)
    requires TreeOk(t) && a < NODES && t.nodes[a].kind == Dir
    requires if b == -1 then t.path[a] !in FsOf(t) else 0 <= b < NODES && Live(t, b) && t.path[b] == t.path[a]
    ensures a == b
  {
    hide FsOf;
    assert Live(t, a);
    if b != -1 {
      PathsUnique(t, a, b);
    }
  }

  lemma GrowFields(t: Tree, d: nat, x: nat, name: string, kind: Kind)
    requires Shaped(t) && d < NODES && x < NODES && d != x && Shaped(Filled(t, x, name, kind, t.path[d] + [name]))
    ensures var g := Grown(t, d, x, name, kind);
            && |g.nodes| == NODES && g.path == t.path[x := t.path[d] + [name]] && g.nodes[x].kind == kind
            && forall c: nat :: c < NODES && c != x ==> g.nodes[c].kind == t.nodes[c].kind
  {
  }

  lemma FreshName(t: Tree, d: nat, name: string)
    requires TreeOk(t) && Live(t, d) && t.path[d] + [name] !in FsOf(t)
    ensures forall j :: 0 <= j < |t.kids[d]| ==> t.nodes[t.kids[d][j]].name != name
  {
    hide AllDirs, AllPaths, HeldBut, FsOf;
    forall j | 0 <= j < |t.kids[d]| ensures t.nodes[t.kids[d][j]].name != name {
      NotOwnKid(t, d, j);
    }
  }

  /** The map with a directory at each of the first `k` prefixes of `q` where there was nothing. */
  ghost function Dirs(fs: Fs, q: Path, k: nat): (r: Fs)
    requires k <= |q|
  {
    if k == 0 then fs
    else
      var f := Dirs(fs, q, k - 1);
      if q[..k] in f then f else f[q[..k] := DirObj]
  }

  ghost predicate AllUsed(nodes: seq<Node>) {
    forall c :: 0 <= c < |nodes| ==> nodes[c].kind != Free
  }

  ghost predicate IsDirAt(t: Tree, r: int, q: Path)
    requires Shaped(t)
  {
    0 <= r < NODES && t.nodes[r].kind == Dir && t.path[r] == q
  }

  /** Something that is not a directory stands where the next one is needed. */
  ghost predicate Blocked(fs: Fs, q: Path, made: nat) {
    made < |q| && NotDirAt(fs, q[..made + 1])
  }

  /** The pool is full and the next directory is missing. */
  ghost predicate NoRoom(nodes: seq<Node>, fs: Fs, q: Path, made: nat) {
    made < |q| && AllUsed(nodes) && q[..made + 1] !in fs
  }

  lemma PartsStep(s: string, i: nat)
    requires i < |s|
    ensures var j := PartStop(s, i, i);
            Parts(s, i) == if j == i then Parts(s, After(s, j)) else [s[i..j]] + Parts(s, After(s, j))
  {
  }

  lemma PartsEnd(s: string)
    ensures Parts(s, |s|) == []
  {
  }

  ghost predicate NotDirAt(fs: Fs, q: Path) {
    q in fs && fs[q] != DirObj
  }

  lemma PrefixStep(a: Path, part: string, rest: Path, q: Path)
    requires q == a + [part] + rest
    ensures |a| < |q| && q[..|a|] == a && q[..|a| + 1] == a + [part]
  {
  }

  lemma DirsNone(fs: Fs, q: Path)
    ensures Dirs(fs, q, 0) == fs
  {
  }

  lemma DirsStep(fs: Fs, q: Path, k: nat, after: Fs)
    requires k < |q|
    requires after == var f := Dirs(fs, q, k); if q[..k + 1] in f then f else f[q[..k + 1] := DirObj]
    ensures after == Dirs(fs, q, k + 1)
  {
  }

  /** Only directories are added. */
  lemma {:induction false} DirsKept(fs: Fs, q: Path, k: nat, r: Path)
    requires k <= |q|
    ensures r in fs ==> r in Dirs(fs, q, k) && Dirs(fs, q, k)[r] == fs[r]
    ensures r in Dirs(fs, q, k) && r !in fs ==> Dirs(fs, q, k)[r] == DirObj
  {
    if k > 0 {
      DirsKept(fs, q, k - 1, r);
    }
  }

  lemma EnterFailed(fs: Fs, q: Path, made: nat, nodes: seq<Node>)
    requires made < |q|
    requires var f := Dirs(fs, q, made); NotDirAt(f, q[..made + 1]) || (AllUsed(nodes) && q[..made + 1] !in f)
    ensures Blocked(fs, q, made) || NoRoom(nodes, Dirs(fs, q, made), q, made)
  {
    hide Dirs, AllUsed;
    DirsKept(fs, q, made, q[..made + 1]);
  }

  /** A path that exists needs no directories made. */
  lemma {:induction false} DirsPresent(t: Tree, c: nat, k: nat)
    requires TreeOk(t) && Live(t, c) && k <= |t.path[c]|
    ensures Dirs(FsOf(t), t.path[c], k) == FsOf(t)
  {
    hide AllDirs, AllPaths, HeldBut, FsOf;
    if k > 0 {
      DirsPresent(t, c, k - 1);
      var a := Ancestor(t, c, k);
    }
  }

  /** The name after the last slash is one a node can carry. */
  ghost predicate LeafOk(name: string) {
    forall last: nat :: last < |name| && name[last] == '/' && '/' !in name[last + 1..] ==> Splits(name, last)
  }

  lemma LeafSplits(name: string, last: nat)
    requires LeafOk(name) && last < |name| && name[last] == '/' && '/' !in name[last + 1..] && name[0] == '/'
    ensures Splits(name, last) && Parts(name, 1) != []
    ensures var q := Parts(name, 1);
            && q[|q| - 1] == name[last + 1..]
            && (if last == 0 then |q| == 1 else name[..last][0] == '/' && q[..|q| - 1] == Parts(name[..last], 1))
  {
    PartsSplit(name, last, 1);
  }

  lemma {:induction false} DirsPrefixAt(fs: Fs, q: Path, k: nat)
    requires q != [] && k < |q|
    ensures Dirs(fs, q[..|q| - 1], k) == Dirs(fs, q, k)
  {
    if k > 0 {
      DirsPrefixAt(fs, q, k - 1);
      assert q[..|q| - 1][..k] == q[..k];
    }
  }

  lemma DirsPrefix(fs: Fs, q: Path, k: nat)
    requires q != []
    ensures k < |q| ==> Dirs(fs, q[..|q| - 1], k) == Dirs(fs, q, k)
  {
    if k < |q| {
      DirsPrefixAt(fs, q, k);
    }
  }

  /** Making parent directories does not make the path itself. */
  lemma {:induction false} DirsNot(fs: Fs, q: Path, k: nat)
    requires k < |q| && q !in fs
    ensures q !in Dirs(fs, q, k)
  {
    if k > 0 {
      DirsNot(fs, q, k - 1);
    }
  }

  /** vfs_create_file on the map: an existing file stays, a missing one appears empty with its
      parents, and on failure at most parents were made. */
  ghost predicate Created(a: Fs, b: Fs, q: Path, ok: bool, made: nat) {
    if q in a then b == a && (ok <==> a[q].FileObj?)
    else if ok then q != [] && b == Dirs(a, q, |q| - 1)[q := FileObj([])]
    else made < |q| && b == Dirs(a, q, made)
  }

  lemma NoKids(t: Tree, n: nat)
    requires TreeOk(t) && n < NODES && t.nodes[n].kind != Dir
    ensures t.kids[n] == []
  {
    assert DirOk(t, n);
  }

  ghost predicate NothingBelow(fs: Fs, q: Path) {
    forall k :: k in fs ==> !(q < k)
  }

  ghost predicate EmptyDirAt(fs: Fs, q: Path) {
    q != [] && q in fs && fs[q] == DirObj && NothingBelow(fs, q)
  }

  /** A node has a first child exactly when something lies below it. */
  lemma NoChildIff(t: Tree, n: nat)
    requires TreeOk(t) && Live(t, n)
    ensures t.nodes[n].child == -1 <==> NothingBelow(FsOf(t), t.path[n])
    ensures t.nodes[n].child == -1 ==> t.kids[n] == []
  {
    hide AllPaths, HeldBut, FsOf;
    assert DirOk(t, n);
    hide AllDirs;
    if t.kids[n] == [] {
      forall q | q in FsOf(t) ensures !(t.path[n] < q) {
        if t.path[n] < q {
          NoSuchChild(t, n, q);
          assert false;
        }
      }
    } else {
      NotOwnKid(t, n, 0);
      assert t.path[n] < t.path[t.kids[n][0]];
    }
  }

  /** vfs_write_file on the map. */
  ghost predicate Written(a: Fs, b: Fs, q: Path, data: seq<Byte>) {
    if q in a then a[q].FileObj? && b == a[q := FileObj(data)]
    else q != [] && b == Dirs(a, q, |q| - 1)[q := FileObj(data)]
  }

  /** A failed creation has at most made directories on the way. */
  ghost predicate OnlyParents(a: Fs, b: Fs, name: string, made: nat) {
    b == a || (name != "" && name[0] == '/' && made < |Parts(name, 1)| && b == Dirs(a, Parts(name, 1), made))
  }

  lemma RetitleIs(u: Tree, n: nat, name: string, to: Path)
    requires Shaped(u) && n < NODES
    ensures var r := Retitled(u, n, name, to);
            r.nodes == u.nodes[n := u.nodes[n].(name := name)] && r.heads == u.heads && r.kids == u.kids
  {
  }

  lemma LeafTarget(to: string, last: nat)
    requires LeafOk(to) && last < |to| && to[last] == '/' && '/' !in to[last + 1..] && to[0] == '/'
    ensures Splits(to, last) && Parts(to, 1) != []
    ensures var q := Parts(to, 1);
            q == (if last == 0 then [] else Parts(to[..last], 1)) + [to[last + 1..]]
  {
    hide Parts;
    assert Splits(to, last);
    PartsSplit(to, last, 1);
  }

  /** A link's target and place that vfs_symlink does not refuse at once. */
  predicate LinkFits(target: seq<Byte>, name: string) {
    target != [] && |target| < PATH_MAX && name != "" && name[0] == '/'
  }

  /** What vfs_rename makes of the nodes, whatever the target. */
  lemma RenameMeans(t: Tree, p: nat, j: nat, d: nat, name: string)
    requires TreeOk(t) && p < NODES && j < |t.kids[p]| && Live(t, d) && t.nodes[d].kind == Dir
    requires t.path[d] + [name] !in FsOf(t)
    ensures Shaped(Detached(t, p, j)) && Shaped(Retitled(Detached(t, p, j), t.kids[p][j], name, t.path[d] + [name]))
    ensures var g, below := Renamed(t, p, j, d, name), t.path[t.kids[p][j]] < t.path[d] + [name];
            && ((exists paths :: TreeOk(g.(path := paths))) <==> !below)
            && (!below ==> TreeOk(g) && Moves(FsOf(t), FsOf(g), t.path[t.kids[p][j]], t.path[d] + [name]))
  {
    hide AllDirs, AllPaths, HeldBut, FsOf, Moves, Detached, Retitled, Attached, Renamed;
    RenameTreeIff(t, p, j, d, name);
    var x := t.path[t.kids[p][j]];
    BelowOrAt(x, t.path[d], name);
    if !(x <= t.path[d]) {
      RenameOk(t, p, j, d, name);
    }
  }

  lemma BelowOrAt(x: Path, d: Path, name: string)
    ensures x < d + [name] <==> x <= d
  {
    if x < d + [name] {
      assert (d + [name])[..|x|] == d[..|x|];
    }
  }

  /** The source is there and not the root; the target is not there but its directory is. */
  ghost predicate CanRename(fs: Fs, from: string, to: string) {
    && from != "" && from[0] == '/' && Parts(from, 1) in fs && Parts(from, 1) != []
    && to != "" && to[0] == '/' && |to| < PATH_MAX && Parts(to, 1) !in fs
    && Parts(to, 1) != [] && DirThere(fs, Parts(to, 1)[..|Parts(to, 1)| - 1])
  }

  ghost predicate DirThere(fs: Fs, q: Path) {
    q in fs && fs[q] == DirObj
  }

  lemma RootPath(t: Tree, n: int)
    requires TreeOk(t) && (n != -1 ==> 0 <= n < NODES && Live(t, n))
    ensures n != -1 ==> (n == 0 <==> t.path[n] == [])
  {
    hide AllDirs, AllPaths, HeldBut;
    if n != -1 && t.path[n] == [] {
      PathsUnique(t, n, 0);
    }
  }

  /** The directory a rename looks up is that of the target. */
  lemma TargetDir(t: Tree, to: string, last: nat, d: int)
    requires TreeOk(t) && LeafOk(to) && last < |to| && to[last] == '/' && '/' !in to[last + 1..]
    requires if last == 0 then d == 0
             else if to[0] != '/' then d == -1
             else if d == -1 then Parts(to[..last], 1) !in FsOf(t)
             else 0 <= d < NODES && Live(t, d) && t.path[d] == Parts(to[..last], 1)
    ensures d != -1 ==> 0 <= d < NODES && Live(t, d)
    ensures to[0] == '/' ==>
      var q := Parts(to, 1);
      && q != [] && (d != -1 && t.nodes[d].kind == Dir <==> DirThere(FsOf(t), q[..|q| - 1]))
      && (d != -1 ==> q == t.path[d] + [to[last + 1..]])
    ensures to[0] != '/' ==> d == -1
  {
    hide AllDirs, AllPaths, HeldBut, FsOf, Parts;
    if to[0] == '/' {
      LeafTarget(to, last);
      assert Live(t, 0);
    }
  }

  ghost predicate NoneNew(a: seq<Node>, b: seq<Node>) {
    |a| == |b| && forall c :: 0 <= c < |a| && a[c].kind == Free ==> b[c].kind == Free
  }

  lemma DirObjAt(t: Tree, n: nat)
    requires TreeOk(t) && Live(t, n) && t.nodes[n].kind == Dir
    ensures t.path[n] in FsOf(t) && FsOf(t)[t.path[n]] == DirObj
  {
    hide FsOf;
  }

  lemma PrunedKinds(t: Tree, p: nat, j: nat)
    requires Shaped(t) && p < NODES && j < |t.kids[p]| && Shaped(Detached(t, p, j))
    ensures NoneNew(t.nodes, Pruned(t, p, j).nodes)
  {
    hide Detached;
    DetachShaped(t, p, j);
  }

  lemma NoneNewSelf(a: seq<Node>)
    ensures NoneNew(a, a)
  {
  }

  lemma NoneNewTrans(a: seq<Node>, b: seq<Node>, c: seq<Node>)
    requires NoneNew(a, b) && NoneNew(b, c)
    ensures NoneNew(a, c)
  {
  }

  /** The map without everything at or below `q`. */
  ghost function CutBelow(fs: Fs, q: Path): Fs {
    map k | k in fs && !(q <= k) :: fs[k]
  }

  /** Everything below `q` is at most `depth` levels further down and has a path that can be written. */
  ghost predicate Writable(fs: Fs, q: Path, depth: nat) {
    forall k :: k in fs && q <= k ==> Plain(k) && |k| <= |q| + depth && |k| <= 16 && |Slashed(k)| < PATH_MAX
  }

  /** `b` is `a` without some of what lies strictly below `q`. */
  ghost predicate Trimmed(a: Fs, b: Fs, q: Path) {
    && (forall k :: k in b ==> k in a && b[k] == a[k])
    && (forall k :: k in a && !(q < k) ==> k in b)
  }

  lemma TrimmedSelf(a: Fs, q: Path)
    ensures Trimmed(a, a, q)
  {
  }

  lemma TrimmedMore(a: Fs, b: Fs, c: Fs, q: Path, k: Path)
    requires Trimmed(a, b, q) && q < k && k in b && c == CutBelow(b, k)
    ensures Trimmed(a, c, q) && c.Keys < b.Keys && (q in b ==> q in c && c[q] == b[q])
  {
    assert k in b.Keys && k !in c.Keys;
  }

  lemma TrimmedCut(a: Fs, b: Fs, q: Path)
    requires Trimmed(a, b, q) && NothingBelow(b, q)
    ensures b - {q} == CutBelow(a, q)
    ensures q in a ==> q in b && b[q] == a[q]
  {
    assert forall k :: k in a && q <= k && k != q ==> q < k;
  }

  lemma WritableChild(a: Fs, b: Fs, q: Path, depth: nat, k: Path)
    requires Writable(a, q, depth) && Trimmed(a, b, q) && k in b && q < k && |k| == |q| + 1
    ensures depth > 0 && Plain(k) && |k| <= 16 && |Slashed(k)| < PATH_MAX && Writable(b, k, depth - 1)
  {
    assert q <= k;
    forall m | m in b && k <= m ensures q <= m {
    }
  }

  lemma RenderSlash(c: Path)
    ensures Render(c) != "" && Render(c)[0] == '/'
  {
  }

  lemma RootOnly(t: Tree)
    requires TreeOk(t)
    ensures t.path[0] == []
  {
  }

  lemma NotRoot(t: Tree, n: nat)
    requires TreeOk(t) && Live(t, n) && n != 0
    ensures t.path[n] != []
  {
    var p, j := KidOf(t, n);
  }

  lemma FirstKid(t: Tree, n: nat)
    requires TreeOk(t) && Live(t, n) && t.nodes[n].child != -1
    ensures var c := t.nodes[n].child;
            && 0 <= c < NODES && Live(t, c) && c != 0 && |t.path[c]| == |t.path[n]| + 1 && t.path[n] < t.path[c]
  {
    assert DirOk(t, n) && Pathed(t, n);
  }

  /** A directory that is still in the map is still the same node. */
  lemma StillDir(t: Tree, u: Tree, n: nat)
    requires TreeOk(t) && TreeOk(u) && Live(t, n) && t.path == u.path && NoneNew(t.nodes, u.nodes)
    requires t.path[n] in FsOf(u) && FsOf(u)[t.path[n]] == DirObj
    ensures Live(u, n) && u.nodes[n].kind == Dir
  {
    hide AllDirs, AllPaths, HeldBut, FsOf;
    var c: nat :| Live(u, c) && u.path[c] == t.path[n];
    PathsUnique(t, c, n);
  }
}
