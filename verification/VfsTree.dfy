/**
 The node pool of the virtual file system (kernel/vfs.c) as a value: nodes linked by child
 and sibling, and for every node the heads of its children by first character.  `kids` and
 `path` say what the links mean: the children of each node in order, and its place in the tree.
 */
module VfsTree {
  import opened VfsPath

  const NODES: nat := 4096      // VFS_MAX_NODES
  const BUCKETS: nat := 8       // VFS_CHILD_BUCKETS

  newtype Byte = x: int | 0 <= x < 256

  datatype Kind = Free | Dir | File | Link
  datatype Node = Node(name: string, kind: Kind, child: int, sibling: int, parent: int, data: seq<Byte>)

  type Path = seq<string>

  /** Bytes as the characters they are. */
  function Text(b: seq<Byte>): (s: string)
    ensures |s| == |b| && forall i :: 0 <= i < |b| ==> s[i] == b[i] as char
  {
    seq(|b|, i requires 0 <= i < |b| => b[i] as char)
  }

  datatype Tree = Tree(nodes: seq<Node>, heads: seq<seq<nat>>, kids: seq<seq<nat>>, path: seq<Path>)

  /** name_bucket */
  function Bucket(name: string): (b: nat)
    ensures b < BUCKETS
  {
    if name == "" then 0 else name[0] as int % BUCKETS
  }

  /** The j-th of a list of slots, or the null link after its end. */
  function At(s: seq<nat>, j: nat): int {
    if j < |s| then s[j] else -1
  }

  ghost predicate InPool(s: seq<nat>) {
    forall j :: 0 <= j < |s| ==> s[j] < NODES
  }

  /** One more than the first slot of `s` whose name is in bucket `b`; 0 when there is none. */
  function First(nodes: seq<Node>, s: seq<nat>, b: nat): (h: nat)
    requires |nodes| == NODES && forall j :: 0 <= j < |s| ==> s[j] < NODES
  {
    if s == [] then 0
    else if Bucket(nodes[s[0]].name) == b then s[0] + 1
    else First(nodes, s[1..], b)
  }

  // ---- the invariant ----

  ghost predicate Shaped(t: Tree) {
    && |t.nodes| == |t.heads| == |t.kids| == |t.path| == NODES
    && t.nodes[0].kind == Dir && t.path[0] == []
    && (forall p :: 0 <= p < NODES ==> |t.heads[p]| == BUCKETS)
    && (forall p :: 0 <= p < NODES ==> InPool(t.kids[p]))
  }

  /** The child and sibling links of `p` spell its list of children. */
  ghost predicate Linked(t: Tree, p: nat)
    requires Shaped(t) && p < NODES
  {
    && t.nodes[p].child == At(t.kids[p], 0)
    && forall j :: 0 <= j < |t.kids[p]| ==> t.nodes[t.kids[p][j]].sibling == At(t.kids[p], j + 1)
  }

  /** Children are live, know their parent, and only a directory has any. */
  ghost predicate Parented(t: Tree, p: nat)
    requires Shaped(t) && p < NODES
  {
    && (t.nodes[p].kind != Dir ==> t.kids[p] == [])
    && forall j :: 0 <= j < |t.kids[p]| ==>
         t.kids[p][j] != 0 && t.nodes[t.kids[p][j]].kind != Free && t.nodes[t.kids[p][j]].parent == p
  }

  /** No two children have the same name. */
  ghost predicate Named(t: Tree, p: nat)
    requires Shaped(t) && p < NODES
  {
    forall i, j :: 0 <= i < j < |t.kids[p]| ==> t.nodes[t.kids[p][i]].name != t.nodes[t.kids[p][j]].name
  }

  /** Every bucket head is the first child in that bucket. */
  ghost predicate Headed(t: Tree, p: nat)
    requires Shaped(t) && p < NODES
  {
    forall b: nat :: b < BUCKETS ==> t.heads[p][b] == First(t.nodes, t.kids[p], b)
  }

  ghost predicate DirOk(t: Tree, p: nat)
    requires Shaped(t) && p < NODES
  {
    Linked(t, p) && Parented(t, p) && Named(t, p) && Headed(t, p)
  }

  /** A live node other than the root is among the children of its parent. */
  ghost predicate Held(t: Tree, c: nat)
    requires Shaped(t) && c < NODES
  {
    t.nodes[c].kind != Free && c != 0 ==> 0 <= t.nodes[c].parent < NODES && c in t.kids[t.nodes[c].parent]
  }

  /** Paths follow the links. */
  ghost predicate Pathed(t: Tree, p: nat)
    requires Shaped(t) && p < NODES
  {
    forall j :: 0 <= j < |t.kids[p]| ==> t.path[t.kids[p][j]] == t.path[p] + [t.nodes[t.kids[p][j]].name]
  }

  ghost predicate AllDirs(t: Tree)
    requires Shaped(t)
  {
    forall p: nat :: p < NODES ==> DirOk(t, p)
  }

  ghost predicate AllPaths(t: Tree)
    requires Shaped(t)
  {
    forall p: nat :: p < NODES ==> Pathed(t, p)
  }

  /** All live nodes but `x` hang in the tree. */
  ghost predicate HeldBut(t: Tree, x: int)
    requires Shaped(t)
  {
    forall c: nat :: c < NODES && c != x ==> Held(t, c)
  }

  ghost predicate Loose(t: Tree, x: nat)
    requires Shaped(t)
  {
    forall p: nat :: p < NODES ==> x !in t.kids[p]
  }

  /** A tree with unique names per directory and truthful bucket heads. */
  ghost predicate TreeOk(t: Tree) {
    Shaped(t) && AllDirs(t) && AllPaths(t) && HeldBut(t, -1)
  }

  /** A tree beside which node `x` is live but not (or no longer) attached. */
  ghost predicate TreeBut(t: Tree, x: nat) {
    && Shaped(t) && AllDirs(t) && AllPaths(t) && HeldBut(t, x)
    && 0 < x < NODES && t.nodes[x].kind != Free && Loose(t, x)
  }

  // ---- what the invariant implies ----

  lemma {:induction false} FirstSpec(nodes: seq<Node>, s: seq<nat>, b: nat)
    requires |nodes| == NODES && InPool(s)
    ensures var h := First(nodes, s, b);
            if h == 0 then forall j :: 0 <= j < |s| ==> Bucket(nodes[s[j]].name) != b
            else exists k :: 0 <= k < |s| && s[k] == h - 1 && forall j :: 0 <= j < k ==> Bucket(nodes[s[j]].name) != b
  {
    if s != [] && Bucket(nodes[s[0]].name) != b {
      FirstSpec(nodes, s[1..], b);
      var h := First(nodes, s[1..], b);
      if h == 0 {
        forall j | 0 <= j < |s| ensures Bucket(nodes[s[j]].name) != b {
          assert j > 0 ==> s[j] == s[1..][j - 1];
        }
      } else {
        var k :| 0 <= k < |s[1..]| && s[1..][k] == h - 1 && forall j :: 0 <= j < k ==>
            Bucket(nodes[s[1..][j]].name) != b;
        assert s[k + 1] == h - 1;
        forall j | 0 <= j < k + 1 ensures Bucket(nodes[s[j]].name) != b {
          assert j > 0 ==> s[j] == s[1..][j - 1];
        }
      }
    }
  }

  /** Only the names of the listed nodes matter. */
  lemma {:induction false} FirstSame(a: seq<Node>, b: seq<Node>, s: seq<nat>, k: nat)
    requires |a| == |b| == NODES && InPool(s)
    requires forall j :: 0 <= j < |s| ==> a[s[j]].name == b[s[j]].name
    ensures First(a, s, k) == First(b, s, k)
  {
    if s != [] {
      FirstSame(a, b, s[1..], k);
    }
  }

  lemma {:induction false} FirstAppend(nodes: seq<Node>, s: seq<nat>, r: seq<nat>, b: nat)
    requires |nodes| == NODES && InPool(s) && InPool(r)
    ensures InPool(s + r)
    ensures First(nodes, s + r, b) == if First(nodes, s, b) != 0 then First(nodes, s, b) else First(nodes, r, b)
  {
    if s == [] {
      assert s + r == r;
    } else {
      FirstAppend(nodes, s[1..], r, b);
      assert (s + r)[1..] == s[1..] + r;
    }
  }

  ghost predicate Live(t: Tree, c: nat)
    requires Shaped(t)
  {
    c < NODES && t.nodes[c].kind != Free
  }

  /** A node's place below its parent. */
  lemma KidOf(t: Tree, c: nat) returns (p: nat, j: nat)
    requires TreeOk(t) && Live(t, c) && c != 0
    ensures p < NODES && p == t.nodes[c].parent && j < |t.kids[p]| && t.kids[p][j] == c && t.nodes[p].kind == Dir
    ensures t.path[c] == t.path[p] + [t.nodes[c].name]
  {
    assert Held(t, c);
    p := t.nodes[c].parent;
    j :| 0 <= j < |t.kids[p]| && t.kids[p][j] == c;
    assert DirOk(t, p) && Pathed(t, p);
  }

  /** No two nodes have the same path: the links form a tree. */
  lemma {:induction false} PathsUnique(t: Tree, a: nat, b: nat)
    requires TreeOk(t) && Live(t, a) && Live(t, b) && t.path[a] == t.path[b]
    ensures a == b
    decreases |t.path[a]|
  {
    hide AllDirs, AllPaths, HeldBut;
    if a == 0 && b != 0 {
      var p, j := KidOf(t, b);
    } else if a != 0 && b == 0 {
      var p, j := KidOf(t, a);
    } else if a != 0 && b != 0 {
      var p, i := KidOf(t, a);
      var q, j := KidOf(t, b);
      var u, v := t.path[p], t.path[q];
      assert u == (u + [t.nodes[a].name])[..|u|] && v == (v + [t.nodes[b].name])[..|v|];
      PathsUnique(t, p, q);
      assert t.path[a][|u|] == t.nodes[a].name && t.path[b][|u|] == t.nodes[b].name;
      SameKid(t, p, i, j);
    }
  }

  lemma SameKid(t: Tree, p: nat, i: nat, j: nat)
    requires Shaped(t) && AllDirs(t) && p < NODES && i < |t.kids[p]| && j < |t.kids[p]|
    requires t.nodes[t.kids[p][i]].name == t.nodes[t.kids[p][j]].name
    ensures i == j
  {
    assert DirOk(t, p);
  }

  // ---- taking a slot, giving it back ----

  /** alloc_node: a live node with no links in slot `x`, to be attached at `pth`. */
  ghost function Filled(t: Tree, x: nat, name: string, kind: Kind, pth: Path): Tree
    requires Shaped(t) && x < NODES
  {
    t.(nodes := t.nodes[x := Node(name, kind, -1, -1, -1, [])], path := t.path[x := pth])
  }

  lemma FreeIsLoose(t: Tree, x: nat)
    requires Shaped(t) && AllDirs(t) && x < NODES && t.nodes[x].kind == Free
    ensures Loose(t, x) && t.kids[x] == []
  {
    assert DirOk(t, x);
    forall p: nat | p < NODES ensures x !in t.kids[p] {
      assert DirOk(t, p);
    }
  }

  lemma FillKeeps(t: Tree, x: nat, name: string, kind: Kind, pth: Path)
    requires TreeOk(t) && 0 < x < NODES && t.nodes[x].kind == Free && kind != Free
    ensures TreeBut(Filled(t, x, name, kind, pth), x)
  {
    var f := Filled(t, x, name, kind, pth);
    FreeIsLoose(t, x);
    forall p: nat | p < NODES ensures DirOk(f, p) {
      assert DirOk(t, p);
      SwapOne(t, f, x, p);
    }
    forall p: nat | p < NODES ensures Pathed(f, p) {
      assert Pathed(t, p);
    }
    forall c: nat | c < NODES && c != x ensures Held(f, c) {
      assert Held(t, c);
    }
  }

  /** Replacing a loose, childless node leaves every list of children as it was. */
  lemma SwapOne(t: Tree, f: Tree, x: nat, p: nat)
    requires Shaped(t) && Shaped(f) && x < NODES && p < NODES && DirOk(t, p)
    requires Loose(t, x) && t.kids[x] == []
    requires f.nodes == t.nodes[x := f.nodes[x]] && f.nodes[x].child == -1 && f.kids == t.kids && f.heads == t.heads
    ensures DirOk(f, p)
  {
    hide First;
    assert x !in t.kids[p];
    forall j | 0 <= j < |t.kids[p]| ensures f.nodes[t.kids[p][j]] == t.nodes[t.kids[p][j]] {
      assert t.kids[p][j] in t.kids[p];
    }
    forall b: nat | b < BUCKETS ensures f.heads[p][b] == First(f.nodes, f.kids[p], b) {
      FirstSame(t.nodes, f.nodes, t.kids[p], b);
    }
  }

  /** The end of vfs_unlink and vfs_rmdir: the slot is free again. */
  ghost function Dropped(t: Tree, x: nat): Tree
    requires Shaped(t) && x < NODES
  {
    t.(nodes := t.nodes[x := Node("", Free, -1, -1, -1, [])])
  }

  lemma DropKeeps(t: Tree, x: nat)
    requires TreeBut(t, x) && t.kids[x] == []
    ensures TreeOk(Dropped(t, x))
  {
    var f := Dropped(t, x);
    forall p: nat | p < NODES ensures DirOk(f, p) {
      assert DirOk(t, p);
      SwapOne(t, f, x, p);
    }
    forall p: nat | p < NODES ensures Pathed(f, p) {
      assert Pathed(t, p);
      assert x !in t.kids[p];
    }
    forall c: nat | c < NODES ensures Held(f, c) {
      assert c != x ==> Held(t, c);
    }
  }

  // ---- add_child ----

  ghost function Attached(t: Tree, p: nat, x: nat): Tree
    requires Shaped(t) && p < NODES && x < NODES
  {
    var n := t.nodes[x := t.nodes[x].(parent := p, sibling := t.nodes[p].child)];
    Tree(n[p := n[p].(child := x)],
         t.heads[p := t.heads[p][Bucket(t.nodes[x].name) := x + 1]],
         t.kids[p := [x] + t.kids[p]],
         t.path)
  }

  lemma AttachShaped(t: Tree, p: nat, x: nat)
    requires Shaped(t) && p < NODES && x < NODES && p != x
    ensures Shaped(Attached(t, p, x))
    ensures var a := Attached(t, p, x);
            forall c: nat :: c < NODES ==> a.nodes[c].name == t.nodes[c].name && a.nodes[c].kind == t.nodes[c].kind
  {
  }

  lemma AttachElsewhere(t: Tree, p: nat, x: nat, q: nat)
    requires TreeBut(t, x) && p < NODES && p != x && q < NODES && q != p
    ensures Shaped(Attached(t, p, x)) && DirOk(Attached(t, p, x), q)
  {
    hide First, Bucket;
    AttachShaped(t, p, x);
    var a := Attached(t, p, x);
    assert DirOk(t, q) && x !in t.kids[q];
    forall j | 0 <= j < |t.kids[q]| ensures t.kids[q][j] != x {
      assert t.kids[q][j] in t.kids[q];
    }
    forall b: nat | b < BUCKETS ensures a.heads[q][b] == First(a.nodes, a.kids[q], b) {
      FirstSame(t.nodes, a.nodes, t.kids[q], b);
    }
  }

  lemma AttachHere(t: Tree, p: nat, x: nat)
    requires TreeBut(t, x) && p < NODES && p != x && t.nodes[p].kind == Dir
    requires forall j :: 0 <= j < |t.kids[p]| ==> t.nodes[t.kids[p][j]].name != t.nodes[x].name
    ensures Shaped(Attached(t, p, x)) && DirOk(Attached(t, p, x), p)
  {
    hide Headed, Linked;
    AttachHeads(t, p, x);
    AttachLinks(t, p, x);
    var a := Attached(t, p, x);
    assert DirOk(t, p);
    assert forall j :: 0 < j < |a.kids[p]| ==> a.kids[p][j] == t.kids[p][j - 1];
    assert forall j :: 0 <= j < |t.kids[p]| ==> t.kids[p][j] in t.kids[p];
  }

  lemma AttachLinks(t: Tree, p: nat, x: nat)
    requires TreeBut(t, x) && p < NODES && p != x
    ensures Shaped(Attached(t, p, x)) && Linked(Attached(t, p, x), p)
  {
    AttachShaped(t, p, x);
    var a := Attached(t, p, x);
    assert DirOk(t, p);
    hide First, Bucket;
    var ks := t.kids[p];
    forall j | 0 <= j < |ks| ensures ks[j] != x && a.kids[p][j + 1] == ks[j] {
      assert ks[j] in ks;
    }
    forall j | 0 <= j < |a.kids[p]| ensures a.nodes[a.kids[p][j]].sibling == At(a.kids[p], j + 1) {
      if j > 0 {
        assert t.nodes[ks[j - 1]].sibling == At(ks, j);
      }
    }
  }

  lemma AttachHeads(t: Tree, p: nat, x: nat)
    requires TreeBut(t, x) && p < NODES && p != x
    ensures Shaped(Attached(t, p, x)) && Headed(Attached(t, p, x), p)
  {
    AttachShaped(t, p, x);
    var a := Attached(t, p, x);
    assert DirOk(t, p);
    forall b: nat | b < BUCKETS ensures a.heads[p][b] == First(a.nodes, a.kids[p], b) {
      FirstSame(t.nodes, a.nodes, t.kids[p], b);
      assert a.kids[p][1..] == t.kids[p];
    }
  }

  lemma AttachKeeps(t: Tree, p: nat, x: nat)
    requires TreeBut(t, x) && p < NODES && p != x && t.nodes[p].kind == Dir
    requires forall j :: 0 <= j < |t.kids[p]| ==> t.nodes[t.kids[p][j]].name != t.nodes[x].name
    requires t.path[x] == t.path[p] + [t.nodes[x].name]
    ensures TreeOk(Attached(t, p, x))
  {
    hide DirOk;
    AttachShaped(t, p, x);
    AttachHere(t, p, x);
    var a := Attached(t, p, x);
    forall q: nat | q < NODES ensures DirOk(a, q) {
      if q != p {
        AttachElsewhere(t, p, x, q);
      }
    }
    AttachRest(t, p, x);
  }

  lemma AttachRest(t: Tree, p: nat, x: nat)
    requires TreeBut(t, x) && p < NODES && p != x
    requires t.path[x] == t.path[p] + [t.nodes[x].name]
    ensures var a := Attached(t, p, x);
            Shaped(a) && AllPaths(a) && HeldBut(a, -1)
  {
    hide DirOk;
    AttachShaped(t, p, x);
    var a := Attached(t, p, x);
    forall q: nat | q < NODES ensures Pathed(a, q) {
      assert Pathed(t, q);
    }
    forall c: nat | c < NODES ensures Held(a, c) {
      assert c != x ==> Held(t, c);
      assert x == a.kids[p][0];
      assert forall k :: k in t.kids[p] ==> k in a.kids[p];
    }
  }

  // ---- unlink_from_parent ----

  /** The list of children without its j-th. */
  function Without(s: seq<nat>, j: nat): (r: seq<nat>)
    requires j < |s|
    ensures |r| == |s| - 1
    ensures forall i :: 0 <= i < j ==> r[i] == s[i]
    ensures forall i :: j <= i < |r| ==> r[i] == s[i + 1]
  {
    s[..j] + s[j + 1..]
  }

  /** Child `x`, the j-th of `p`, is taken out of the chain; a head that was `x` moves on to the
      next child of its bucket. */
  ghost function Detached(t: Tree, p: nat, j: nat): Tree
    requires Shaped(t) && p < NODES && j < |t.kids[p]|
  {
    var x := t.kids[p][j];
    var b := Bucket(t.nodes[x].name);
    var hs: seq<nat> :=
      if t.heads[p][b] == x + 1 then t.heads[p][b := First(t.nodes, t.kids[p][j + 1..], b)] else t.heads[p];
    Tree(if j == 0 then t.nodes[p := t.nodes[p].(child := t.nodes[x].sibling)]
         else t.nodes[t.kids[p][j - 1] := t.nodes[t.kids[p][j - 1]].(sibling := t.nodes[x].sibling)],
         t.heads[p := hs],
         t.kids[p := Without(t.kids[p], j)],
         t.path)
  }

  lemma DetachShaped(t: Tree, p: nat, j: nat)
    requires Shaped(t) && p < NODES && j < |t.kids[p]|
    ensures Shaped(Detached(t, p, j))
    ensures var d := Detached(t, p, j);
            forall c: nat :: c < NODES ==>
              && d.nodes[c].name == t.nodes[c].name && d.nodes[c].kind == t.nodes[c].kind
              && d.nodes[c].parent == t.nodes[c].parent && d.nodes[c].data == t.nodes[c].data
  {
  }

  /** The list of one parent holds no child of another. */
  lemma OtherKids(t: Tree, p: nat, i: nat, q: nat)
    requires Shaped(t) && AllDirs(t) && p < NODES && q < NODES && p != q && i < |t.kids[p]|
    ensures t.kids[p][i] !in t.kids[q]
  {
    assert DirOk(t, p) && DirOk(t, q);
  }

  lemma DetachElsewhere(t: Tree, p: nat, j: nat, q: nat)
    requires TreeOk(t) && p < NODES && j < |t.kids[p]| && q < NODES && q != p
    ensures Shaped(Detached(t, p, j)) && DirOk(Detached(t, p, j), q)
  {
    hide First, Bucket;
    DetachShaped(t, p, j);
    var d := Detached(t, p, j);
    assert DirOk(t, q);
    if j > 0 {
      OtherKids(t, p, j - 1, q);
    }
    forall i | 0 <= i < |t.kids[q]| ensures d.nodes[t.kids[q][i]].sibling == t.nodes[t.kids[q][i]].sibling {
      assert t.kids[q][i] in t.kids[q];
    }
    forall b: nat | b < BUCKETS ensures d.heads[q][b] == First(d.nodes, d.kids[q], b) {
      FirstSame(t.nodes, d.nodes, t.kids[q], b);
    }
  }

  lemma DetachLinks(t: Tree, p: nat, j: nat)
    requires TreeOk(t) && p < NODES && j < |t.kids[p]|
    ensures Shaped(Detached(t, p, j)) && Linked(Detached(t, p, j), p)
  {
    hide First, Bucket, Without;
    DetachShaped(t, p, j);
    var d, ks := Detached(t, p, j), t.kids[p];
    assert DirOk(t, p);
    forall i | 0 <= i < |ks| && i != j - 1 ensures j > 0 ==> ks[i] != ks[j - 1] {
      if j > 0 && ks[i] == ks[j - 1] {
        SameKid(t, p, i, j - 1);
      }
    }
    forall i | 0 <= i < |d.kids[p]| ensures d.nodes[d.kids[p][i]].sibling == At(d.kids[p], i + 1) {
      var k := if i < j then i else i + 1;
      assert t.nodes[ks[k]].sibling == At(ks, k + 1);
    }
  }

  lemma DetachNames(t: Tree, p: nat, j: nat)
    requires TreeOk(t) && p < NODES && j < |t.kids[p]|
    ensures Shaped(Detached(t, p, j)) && Parented(Detached(t, p, j), p) && Named(Detached(t, p, j), p)
  {
    hide First, Bucket, Without;
    DetachShaped(t, p, j);
    var d, ks := Detached(t, p, j), t.kids[p];
    assert DirOk(t, p);
    assert forall i :: 0 <= i < |d.kids[p]| ==> d.kids[p][i] == ks[if i < j then i else i + 1];
  }

  lemma DetachHeads(t: Tree, p: nat, j: nat)
    requires TreeOk(t) && p < NODES && j < |t.kids[p]|
    ensures Shaped(Detached(t, p, j)) && Headed(Detached(t, p, j), p)
  {
    DetachShaped(t, p, j);
    var d, ks := Detached(t, p, j), t.kids[p];
    assert DirOk(t, p);
    forall b: nat | b < BUCKETS ensures d.heads[p][b] == First(d.nodes, d.kids[p], b) {
      FirstSame(t.nodes, d.nodes, d.kids[p], b);
      FirstWithout(t, p, j, b);
    }
  }

  lemma FirstWithout(t: Tree, p: nat, j: nat, b: nat)
    requires TreeOk(t) && p < NODES && j < |t.kids[p]| && b < BUCKETS
    ensures InPool(Without(t.kids[p], j))
    ensures var ks, x := t.kids[p], t.kids[p][j];
            First(t.nodes, Without(ks, j), b) ==
            if b == Bucket(t.nodes[x].name) && First(t.nodes, ks, b) == x + 1 then First(t.nodes, ks[j + 1..], b)
            else First(t.nodes, ks, b)
  {
    hide Bucket;
    var ks := t.kids[p];
    var x, before, after := ks[j], ks[..j], ks[j + 1..];
    assert ks == before + ([x] + after) && ([x] + after)[1..] == after;
    FirstAppend(t.nodes, before, [x] + after, b);
    FirstAppend(t.nodes, before, after, b);
    FirstSpec(t.nodes, before, b);
    if First(t.nodes, before, b) == x + 1 {
      var k :| 0 <= k < |before| && before[k] == x;
      SameKid(t, p, k, j);
    }
  }

  lemma DetachKeeps(t: Tree, p: nat, j: nat)
    requires TreeOk(t) && p < NODES && j < |t.kids[p]|
    ensures TreeBut(Detached(t, p, j), t.kids[p][j])
  {
    hide Linked, Parented, Named, Headed;
    DetachShaped(t, p, j);
    DetachLinks(t, p, j);
    DetachNames(t, p, j);
    DetachHeads(t, p, j);
    var d := Detached(t, p, j);
    forall q: nat | q < NODES ensures DirOk(d, q) {
      if q != p {
        DetachElsewhere(t, p, j, q);
      }
    }
    DetachRest(t, p, j);
  }

  lemma DetachRest(t: Tree, p: nat, j: nat)
    requires TreeOk(t) && p < NODES && j < |t.kids[p]|
    ensures var d, x := Detached(t, p, j), t.kids[p][j];
            Shaped(d) && AllPaths(d) && HeldBut(d, x) && Loose(d, x) && 0 < x < NODES && d.nodes[x].kind != Free
  {
    hide First, Bucket, Without, Linked, Named, Headed;
    DetachShaped(t, p, j);
    var d, ks, x := Detached(t, p, j), t.kids[p], t.kids[p][j];
    assert DirOk(t, p);
    assert forall i :: 0 <= i < |d.kids[p]| ==> d.kids[p][i] == ks[if i < j then i else i + 1];
    forall q: nat | q < NODES ensures Pathed(d, q) {
      assert Pathed(t, q);
    }
    forall c: nat | c < NODES && c != x ensures Held(d, c) {
      assert Held(t, c);
      StillThere(ks, j, c);
    }
    forall q: nat | q < NODES ensures x !in d.kids[q] {
      if q == p {
        GoneFrom(t, p, j);
      } else {
        OtherKids(t, p, j, q);
      }
    }
  }

  lemma StillThere(s: seq<nat>, j: nat, c: nat)
    requires j < |s| && c != s[j]
    ensures c in s ==> c in Without(s, j)
  {
    if c in s {
      var i :| 0 <= i < |s| && s[i] == c;
      assert Without(s, j)[if i < j then i else i - 1] == c;
    }
  }

  lemma GoneFrom(t: Tree, p: nat, j: nat)
    requires Shaped(t) && AllDirs(t) && p < NODES && j < |t.kids[p]|
    ensures t.kids[p][j] !in Without(t.kids[p], j)
  {
    var ks := t.kids[p];
    forall i | 0 <= i < |Without(ks, j)| ensures Without(ks, j)[i] != ks[j] {
      var k := if i < j then i else i + 1;
      assert Without(ks, j)[i] == ks[k];
      if ks[k] == ks[j] {
        SameKid(t, p, k, j);
      }
    }
  }

  // ---- renaming ----

  /** A path after everything at or below `from` has moved to `to`. */
  function Move(q: Path, from: Path, to: Path): Path {
    if from <= q then to + q[|from|..] else q
  }

  /** The detached node gets its new name, and its subtree the paths that go with the new place. */
  ghost function Retitled(t: Tree, x: nat, name: string, to: Path): Tree
    requires Shaped(t) && x < NODES
  {
    var n := |t.path|;
    t.(nodes := t.nodes[x := t.nodes[x].(name := name)],
       path := seq(n, y requires 0 <= y < n => Move(t.path[y], t.path[x], to)))
  }

  lemma RetitleKeeps(t: Tree, x: nat, name: string, to: Path)
    requires TreeBut(t, x) && t.path[x] != []
    requires forall y: nat :: Live(t, y) && t.path[y] == t.path[x] ==> y == x
    ensures TreeBut(Retitled(t, x, name, to), x) && Retitled(t, x, name, to).path[x] == to
  {
    hide DirOk, Pathed;
    var r := Retitled(t, x, name, to);
    assert t.path[x][|t.path[x]|..] == [];
    forall p: nat | p < NODES ensures DirOk(r, p) {
      RetitleDir(t, x, name, to, p);
    }
    forall p: nat | p < NODES ensures Pathed(r, p) {
      RetitlePath(t, x, name, to, p);
    }
    forall c: nat | c < NODES && c != x ensures Held(r, c) {
      assert Held(t, c);
    }
  }

  lemma RetitleDir(t: Tree, x: nat, name: string, to: Path, p: nat)
    requires TreeBut(t, x) && t.path[x] != [] && p < NODES
    ensures Shaped(Retitled(t, x, name, to)) && DirOk(Retitled(t, x, name, to), p)
  {
    hide First, Retitled, Bucket;
    RetitleShape(t, x, name, to);
    var r := Retitled(t, x, name, to);
    assert DirOk(t, p) && x !in t.kids[p];
    forall j | 0 <= j < |t.kids[p]| ensures r.nodes[t.kids[p][j]] == t.nodes[t.kids[p][j]] {
      assert t.kids[p][j] in t.kids[p];
    }
    forall b: nat | b < BUCKETS ensures r.heads[p][b] == First(r.nodes, r.kids[p], b) {
      FirstSame(t.nodes, r.nodes, t.kids[p], b);
    }
  }

  lemma RetitleShape(t: Tree, x: nat, name: string, to: Path)
    requires Shaped(t) && x < NODES && t.path[x] != []
    ensures var r := Retitled(t, x, name, to);
            Shaped(r) && r.nodes == t.nodes[x := t.nodes[x].(name := name)] && r.kids == t.kids && r.heads == t.heads
  {
    hide Move;
    MoveRoot(t.path[x], to);
  }

  lemma MoveRoot(from: Path, to: Path)
    requires from != []
    ensures Move([], from, to) == []
  {
  }

  lemma RetitlePath(t: Tree, x: nat, name: string, to: Path, p: nat)
    requires TreeBut(t, x) && t.path[x] != [] && p < NODES && Shaped(Retitled(t, x, name, to))
    requires forall y: nat :: Live(t, y) && t.path[y] == t.path[x] ==> y == x
    ensures Pathed(Retitled(t, x, name, to), p)
  {
    hide Linked, Named, Headed, Move;
    var r := Retitled(t, x, name, to);
    assert Pathed(t, p) && DirOk(t, p) && x !in t.kids[p];
    forall j | 0 <= j < |t.kids[p]| ensures r.path[t.kids[p][j]] == r.path[p] + [r.nodes[t.kids[p][j]].name] {
      var c := t.kids[p][j];
      assert c in t.kids[p];
      assert Live(t, c) && t.path[c] != t.path[x];
      MoveStep(t.path[p], t.nodes[c].name, t.path[x], to);
    }
  }

  lemma MoveStep(q: Path, name: string, from: Path, to: Path)
    requires q + [name] != from
    ensures Move(q + [name], from, to) == Move(q, from, to) + [name]
  {
    if |from| <= |q| {
      assert (q + [name])[..|from|] == q[..|from|];
      assert (q + [name])[|from|..] == q[|from|..] + [name];
    }
  }

  // ---- a directory moved below itself ----

  /** If the new parent is the moved directory or lies below it, no paths fit the links any more. */
  lemma CycleHasNoPaths(t: Tree, c: Tree, x: nat, p: nat)
    requires TreeOk(t) && Live(t, x) && Live(t, p) && t.path[x] <= t.path[p]
    requires Shaped(c) && x in c.kids[p]
    requires forall q: nat, k :: q < NODES && k in t.kids[q] && k != x ==> k in c.kids[q]
    ensures !AllPaths(c)
  {
    var j :| 0 <= j < |c.kids[p]| && c.kids[p][j] == x;
    if AllPaths(c) {
      assert Pathed(c, p);
      assert |c.path[x]| == |c.path[p]| + 1;
      DepthKept(t, c, x, p);
      assert false;
    }
  }

  lemma {:induction false} DepthKept(t: Tree, c: Tree, x: nat, y: nat)
    requires TreeOk(t) && Live(t, x) && Live(t, y) && t.path[x] <= t.path[y] && Shaped(c) && AllPaths(c)
    requires forall q: nat, k :: q < NODES && k in t.kids[q] && k != x ==> k in c.kids[q]
    ensures |c.path[y]| - |c.path[x]| == |t.path[y]| - |t.path[x]|
    decreases |t.path[y]|
  {
    hide AllDirs, HeldBut;
    if y != x && y != 0 {
      var p, j := KidOf(t, y);
      if t.path[x] == t.path[y] {
        PathsUnique(t, x, y);
      }
      assert t.path[x] <= t.path[p];
      DepthKept(t, c, x, p);
      assert y in t.kids[p];
      var i :| 0 <= i < |c.kids[p]| && c.kids[p][i] == y;
      assert Pathed(c, p);
    } else if y == 0 {
      PathsUnique(t, x, y);
    }
  }

  // ---- the tree as a map from paths ----

  datatype Obj = DirObj | FileObj(bytes: seq<Byte>) | LinkObj(target: seq<Byte>)
  type Fs = map<Path, Obj>

  function ObjOf(n: Node): Obj {
    match n.kind
    case File => FileObj(n.data)
    case Link => LinkObj(n.data)
    case _ => DirObj
  }

  ghost predicate HasNode(t: Tree, q: Path)
    requires Shaped(t)
  {
    exists c: nat :: Live(t, c) && t.path[c] == q
  }

  /** What the tree holds at each path. */
  ghost function FsOf(t: Tree): (fs: Fs)
    requires TreeOk(t)
    ensures forall c: nat :: Live(t, c) ==> t.path[c] in fs && fs[t.path[c]] == ObjOf(t.nodes[c])
    ensures forall q :: q in fs ==> HasNode(t, q)
  {
    hide AllDirs, AllPaths, HeldBut;
    assert forall a: nat, b: nat :: Live(t, a) && Live(t, b) && t.path[a] == t.path[b] ==> a == b by {
      forall a: nat, b: nat | Live(t, a) && Live(t, b) && t.path[a] == t.path[b] ensures a == b {
        PathsUnique(t, a, b);
      }
    }
    map c: nat | 0 <= c < NODES && Live(t, c) :: t.path[c] := ObjOf(t.nodes[c])
  }

  lemma FsIs(t: Tree, m: Fs)
    requires TreeOk(t)
    requires forall c: nat :: Live(t, c) ==> t.path[c] in m && m[t.path[c]] == ObjOf(t.nodes[c])
    requires forall q :: q in m ==> HasNode(t, q)
    ensures FsOf(t) == m
  {
    hide AllDirs, AllPaths, HeldBut, FsOf;
    var fs := FsOf(t);
    forall q | q in fs ensures q in m && m[q] == fs[q] {
      var c: nat :| Live(t, c) && t.path[c] == q;
    }
    forall q | q in m ensures q in fs {
      var c: nat :| Live(t, c) && t.path[c] == q;
    }
  }

  /** Every prefix of a node's path is a node's path: directories reach down from the root. */
  lemma {:induction false} Ancestor(t: Tree, c: nat, k: nat) returns (a: nat)
    requires TreeOk(t) && Live(t, c) && k <= |t.path[c]|
    ensures Live(t, a) && t.path[a] == t.path[c][..k]
    ensures k < |t.path[c]| ==> t.nodes[a].kind == Dir
    decreases |t.path[c]|
  {
    hide AllDirs, AllPaths, HeldBut;
    if k == |t.path[c]| {
      a := c;
      assert t.path[c][..k] == t.path[c];
    } else {
      var p, j := KidOf(t, c);
      assert t.path[c][..k] == t.path[p][..k];
      if k == |t.path[p]| {
        a := p;
        assert t.path[p][..k] == t.path[p];
      } else {
        a := Ancestor(t, p, k);
      }
    }
  }

  /** A name that no child of `d` has leads nowhere. */
  lemma NoSuchChild(t: Tree, d: nat, q: Path)
    requires TreeOk(t) && Live(t, d) && t.path[d] < q
    requires forall j :: 0 <= j < |t.kids[d]| ==> t.nodes[t.kids[d][j]].name != q[|t.path[d]|]
    ensures q !in FsOf(t)
  {
    hide AllDirs, AllPaths, HeldBut, FsOf;
    if q in FsOf(t) {
      var c: nat :| Live(t, c) && t.path[c] == q;
      var n := |t.path[d]|;
      var a := Ancestor(t, c, n + 1);
      ChildThere(t, d, a);
      assert false;
    }
  }

  lemma ChildThere(t: Tree, d: nat, a: nat)
    requires TreeOk(t) && Live(t, d) && Live(t, a) && |t.path[a]| == |t.path[d]| + 1 && t.path[d] <= t.path[a]
    ensures exists j :: 0 <= j < |t.kids[d]| && t.nodes[t.kids[d][j]].name == t.path[a][|t.path[d]|]
    ensures a in t.kids[d]
  {
    hide AllDirs, AllPaths, HeldBut;
    var p, j := KidOf(t, a);
    assert t.path[p] == t.path[a][..|t.path[d]|] == t.path[d];
    PathsUnique(t, p, d);
  }

  // ---- whole operations on the tree ----

  /** alloc_node followed by add_child. */
  ghost function Grown(t: Tree, d: nat, x: nat, name: string, kind: Kind): Tree
    requires Shaped(t) && d < NODES && x < NODES && d != x
    requires Shaped(Filled(t, x, name, kind, t.path[d] + [name]))
  {
    Attached(Filled(t, x, name, kind, t.path[d] + [name]), d, x)
  }

  lemma GrowOk(t: Tree, d: nat, x: nat, name: string, kind: Kind)
    requires TreeOk(t) && Live(t, d) && t.nodes[d].kind == Dir && 0 < x < NODES && t.nodes[x].kind == Free &&
        kind != Free
    requires forall j :: 0 <= j < |t.kids[d]| ==> t.nodes[t.kids[d][j]].name != name
    ensures Shaped(Filled(t, x, name, kind, t.path[d] + [name])) && TreeOk(Grown(t, d, x, name, kind))
    ensures FsOf(Grown(t, d, x, name, kind)) == FsOf(t)[t.path[d] + [name] := ObjOf(Node(name, kind, -1, -1, -1, []))]
  {
    hide AllDirs, AllPaths, HeldBut, FsOf;
    var q := t.path[d] + [name];
    FillKeeps(t, x, name, kind, q);
    var f := Filled(t, x, name, kind, q);
    FreeKids(t, x, d);
    forall j | 0 <= j < |f.kids[d]| ensures f.nodes[f.kids[d][j]].name != name {
      assert f.kids[d][j] in t.kids[d];
    }
    AttachKeeps(f, d, x);
    GrowFs(t, d, x, name, kind);
  }

  lemma FreeKids(t: Tree, x: nat, d: nat)
    requires TreeOk(t) && x < NODES && t.nodes[x].kind == Free && d < NODES
    ensures x !in t.kids[d]
  {
    FreeIsLoose(t, x);
  }

  lemma GrowFs(t: Tree, d: nat, x: nat, name: string, kind: Kind)
    requires TreeOk(t) && Live(t, d) && 0 < x < NODES && t.nodes[x].kind == Free && kind != Free
    requires Shaped(Filled(t, x, name, kind, t.path[d] + [name])) && TreeOk(Grown(t, d, x, name, kind))
    ensures FsOf(Grown(t, d, x, name, kind)) == FsOf(t)[t.path[d] + [name] := ObjOf(Node(name, kind, -1, -1, -1, []))]
  {
    hide AllDirs, AllPaths, HeldBut, FsOf;
    var g, q := Grown(t, d, x, name, kind), t.path[d] + [name];
    var m := FsOf(t)[q := ObjOf(Node(name, kind, -1, -1, -1, []))];
    assert g.path[x] == q && Live(g, x);
    forall c: nat | Live(g, c) ensures g.path[c] in m && m[g.path[c]] == ObjOf(g.nodes[c]) {
      if c != x {
        assert Live(t, c) && g.path[c] == t.path[c] && ObjOf(g.nodes[c]) == ObjOf(t.nodes[c]);
        if g.path[c] == q {
          PathsUnique(g, c, x);
        }
      }
    }
    forall r | r in m ensures HasNode(g, r) {
      if r != q {
        var c: nat :| Live(t, c) && t.path[c] == r;
        assert Live(g, c) && g.path[c] == r;
      }
    }
    FsIs(g, m);
  }

  /** unlink_from_parent followed by freeing the slot. */
  ghost function Pruned(t: Tree, p: nat, j: nat): Tree
    requires Shaped(t) && p < NODES && j < |t.kids[p]| && Shaped(Detached(t, p, j))
  {
    Dropped(Detached(t, p, j), t.kids[p][j])
  }

  lemma PruneOk(t: Tree, p: nat, j: nat)
    requires TreeOk(t) && p < NODES && j < |t.kids[p]| && t.kids[t.kids[p][j]] == []
    ensures Shaped(Detached(t, p, j)) && TreeOk(Pruned(t, p, j))
    ensures FsOf(Pruned(t, p, j)) == FsOf(t) - {t.path[t.kids[p][j]]}
  {
    hide AllDirs, AllPaths, HeldBut, FsOf, Detached;
    var x := t.kids[p][j];
    NotOwnKid(t, p, j);
    DetachShaped(t, p, j);
    DetachKeeps(t, p, j);
    DetachOther(t, p, j, x);
    DropKeeps(Detached(t, p, j), x);
    PruneFs(t, p, j);
  }

  lemma NotOwnKid(t: Tree, p: nat, j: nat)
    requires TreeOk(t) && p < NODES && j < |t.kids[p]|
    ensures t.kids[p][j] != p && Live(t, t.kids[p][j]) && t.kids[p][j] != 0
    ensures t.path[t.kids[p][j]] == t.path[p] + [t.nodes[t.kids[p][j]].name]
  {
    assert Pathed(t, p) && DirOk(t, p);
  }

  lemma DetachOther(t: Tree, p: nat, j: nat, q: nat)
    requires Shaped(t) && p < NODES && j < |t.kids[p]| && q < NODES && q != p
    ensures Detached(t, p, j).kids[q] == t.kids[q] && Detached(t, p, j).path == t.path
  {
  }

  lemma PruneFs(t: Tree, p: nat, j: nat)
    requires TreeOk(t) && p < NODES && j < |t.kids[p]| && Shaped(Detached(t, p, j)) && TreeOk(Pruned(t, p, j))
    ensures FsOf(Pruned(t, p, j)) == FsOf(t) - {t.path[t.kids[p][j]]}
  {
    hide AllDirs, AllPaths, HeldBut, FsOf, Detached;
    var x, g := t.kids[p][j], Pruned(t, p, j);
    var m := FsOf(t) - {t.path[x]};
    NotOwnKid(t, p, j);
    DetachShaped(t, p, j);
    DetachPath(t, p, j);
    forall c: nat | Live(g, c) ensures g.path[c] in m && m[g.path[c]] == ObjOf(g.nodes[c]) {
      assert c != x && Live(t, c) && ObjOf(g.nodes[c]) == ObjOf(t.nodes[c]);
      if t.path[c] == t.path[x] {
        PathsUnique(t, c, x);
      }
    }
    forall r | r in m ensures HasNode(g, r) {
      var c: nat :| Live(t, c) && t.path[c] == r;
      assert Live(g, c) && g.path[c] == r;
    }
    FsIs(g, m);
  }

  lemma DetachPath(t: Tree, p: nat, j: nat)
    requires Shaped(t) && p < NODES && j < |t.kids[p]|
    ensures Detached(t, p, j).path == t.path
  {
  }

  /** vfs_rename on the nodes: out of the old parent, a new name, into the new one. */
  ghost function Renamed(t: Tree, p: nat, j: nat, d: nat, name: string): Tree
    requires Shaped(t) && p < NODES && j < |t.kids[p]| && d < NODES
    requires Shaped(Detached(t, p, j)) && Shaped(Retitled(Detached(t, p, j), t.kids[p][j], name, t.path[d] + [name]))
  {
    Attached(Retitled(Detached(t, p, j), t.kids[p][j], name, t.path[d] + [name]), d, t.kids[p][j])
  }

  /** Two maps that differ by moving everything at or below `from` to `to`. */
  ghost predicate Moves(a: Fs, b: Fs, from: Path, to: Path) {
    && (forall q :: q in a ==> Move(q, from, to) in b && b[Move(q, from, to)] == a[q])
    && (forall r :: r in b ==> exists q :: q in a && Move(q, from, to) == r)
  }

  /** A rename whose target directory is not inside the source keeps the tree and moves the subtree. */
  lemma RenameOk(t: Tree, p: nat, j: nat, d: nat, name: string)
    requires TreeOk(t) && p < NODES && j < |t.kids[p]| && Live(t, d) && t.nodes[d].kind == Dir
    requires !(t.path[t.kids[p][j]] <= t.path[d])
    requires t.path[d] + [name] !in FsOf(t)
    ensures d != t.kids[p][j] && Shaped(Detached(t, p, j))
    ensures Shaped(Retitled(Detached(t, p, j), t.kids[p][j], name, t.path[d] + [name]))
    ensures TreeOk(Renamed(t, p, j, d, name))
    ensures Moves(FsOf(t), FsOf(Renamed(t, p, j, d, name)), t.path[t.kids[p][j]], t.path[d] + [name])
  {
    hide AllDirs, AllPaths, HeldBut, FsOf, Detached, Retitled, Attached, Moves;
    var x, to := t.kids[p][j], t.path[d] + [name];
    NotOwnKid(t, p, j);
    DetachShaped(t, p, j);
    DetachKeeps(t, p, j);
    DetachPath(t, p, j);
    var u := Detached(t, p, j);
    forall y: nat | Live(u, y) && u.path[y] == u.path[x] ensures y == x {
      PathsUnique(t, y, x);
    }
    RetitleKeeps(u, x, name, to);
    var r := Retitled(u, x, name, to);
    RetitleFields(u, x, name, to, d);
    RenameFresh(t, p, j, d, name);
    AttachKeeps(r, d, x);
    RenameMoves(t, p, j, d, name);
  }

  lemma RetitleFields(t: Tree, x: nat, name: string, to: Path, d: nat)
    requires Shaped(t) && x < NODES && d < NODES && d != x
    ensures var r := Retitled(t, x, name, to);
            && r.kids == t.kids && r.nodes[d] == t.nodes[d] && r.nodes[x].name == name && |r.path| == |t.path|
            && (!(t.path[x] <= t.path[d]) ==> r.path[d] == t.path[d])
            && forall c: nat :: c < NODES ==>
                 && r.path[c] == Move(t.path[c], t.path[x], to)
                 && r.nodes[c].kind == t.nodes[c].kind && r.nodes[c].data == t.nodes[c].data
  {
  }

  /** No child of the new parent has the new name. */
  lemma RenameFresh(t: Tree, p: nat, j: nat, d: nat, name: string)
    requires TreeOk(t) && p < NODES && j < |t.kids[p]| && Live(t, d) && d != t.kids[p][j]
    requires t.path[d] + [name] !in FsOf(t)
    ensures var x, to := t.kids[p][j], t.path[d] + [name];
            Shaped(Detached(t, p, j)) &&
            var r := Retitled(Detached(t, p, j), x, name, to);
            InPool(r.kids[d]) && forall i :: 0 <= i < |r.kids[d]| ==> r.nodes[r.kids[d][i]].name != name
  {
    hide AllDirs, HeldBut, FsOf, Detached, First;
    DetachShaped(t, p, j);
    DetachKeeps(t, p, j);
    var x, u := t.kids[p][j], Detached(t, p, j);
    DetachSub(t, p, j, d);
    forall i | 0 <= i < |u.kids[d]| ensures u.kids[d][i] != x && t.nodes[u.kids[d][i]].name != name {
      assert u.kids[d][i] in t.kids[d];
      var k :| 0 <= k < |t.kids[d]| && t.kids[d][k] == u.kids[d][i];
      NotOwnKid(t, d, k);
      assert x !in u.kids[d];
    }
  }

  lemma DetachSub(t: Tree, p: nat, j: nat, d: nat)
    requires Shaped(t) && p < NODES && j < |t.kids[p]| && d < NODES
    ensures forall i :: 0 <= i < |Detached(t, p, j).kids[d]| ==> Detached(t, p, j).kids[d][i] in t.kids[d]
  {
  }

  lemma RenameMoves(t: Tree, p: nat, j: nat, d: nat, name: string)
    requires TreeOk(t) && p < NODES && j < |t.kids[p]| && Live(t, d) && d != t.kids[p][j]
    requires Shaped(Detached(t, p, j)) && Shaped(Retitled(Detached(t, p, j), t.kids[p][j], name, t.path[d] + [name]))
    requires TreeOk(Renamed(t, p, j, d, name))
    ensures Moves(FsOf(t), FsOf(Renamed(t, p, j, d, name)), t.path[t.kids[p][j]], t.path[d] + [name])
  {
    hide AllDirs, AllPaths, HeldBut, Move, Moves, Renamed, FsOf, Carried;
    var x, to, g := t.kids[p][j], t.path[d] + [name], Renamed(t, p, j, d, name);
    assert Shaped(g);
    forall c: nat | c < NODES ensures Carried(t, g, t.path[x], to, c) {
      RenameCarries(t, p, j, d, name, c);
    }
    CarriedMoves(t, g, t.path[x], to);
  }

  /** Node `c` is the same object at the moved path. */
  ghost predicate Carried(t: Tree, g: Tree, from: Path, to: Path, c: nat)
    requires Shaped(t) && Shaped(g) && c < NODES
  {
    && g.path[c] == Move(t.path[c], from, to)
    && g.nodes[c].kind == t.nodes[c].kind && g.nodes[c].data == t.nodes[c].data
  }

  lemma RenameCarries(t: Tree, p: nat, j: nat, d: nat, name: string, c: nat)
    requires Shaped(t) && p < NODES && j < |t.kids[p]| && d < NODES && d != t.kids[p][j] && c < NODES
    requires Shaped(Detached(t, p, j)) && Shaped(Retitled(Detached(t, p, j), t.kids[p][j], name, t.path[d] + [name]))
    requires Shaped(Renamed(t, p, j, d, name))
    ensures Carried(t, Renamed(t, p, j, d, name), t.path[t.kids[p][j]], t.path[d] + [name], c)
  {
    hide Detached, Retitled, Move;
    DetachShaped(t, p, j);
    DetachPath(t, p, j);
    RetitleFields(Detached(t, p, j), t.kids[p][j], name, t.path[d] + [name], d);
  }

  lemma CarriedMoves(t: Tree, g: Tree, from: Path, to: Path)
    requires TreeOk(t) && TreeOk(g) && forall c: nat :: c < NODES ==> Carried(t, g, from, to, c)
    ensures Moves(FsOf(t), FsOf(g), from, to)
  {
    hide AllDirs, AllPaths, HeldBut, FsOf, Move;
    var a, b := FsOf(t), FsOf(g);
    forall q | q in a ensures Move(q, from, to) in b && b[Move(q, from, to)] == a[q] {
      var c: nat :| Live(t, c) && t.path[c] == q;
      assert Carried(t, g, from, to, c) && Live(g, c);
    }
    forall r | r in b ensures exists q :: q in a && Move(q, from, to) == r {
      var c: nat :| Live(g, c) && g.path[c] == r;
      assert Carried(t, g, from, to, c) && Live(t, c);
    }
  }

  /** New contents for a file. */
  ghost function Filed(t: Tree, x: nat, data: seq<Byte>): Tree
    requires Shaped(t) && x < NODES
  {
    t.(nodes := t.nodes[x := t.nodes[x].(data := data)])
  }

  lemma FileOk(t: Tree, x: nat, data: seq<Byte>)
    requires TreeOk(t) && Live(t, x)
    ensures TreeOk(Filed(t, x, data))
    ensures FsOf(Filed(t, x, data)) == FsOf(t)[t.path[x] := ObjOf(t.nodes[x].(data := data))]
  {
    var f := Filed(t, x, data);
    forall p: nat | p < NODES ensures DirOk(f, p) && Pathed(f, p) {
      assert DirOk(t, p) && Pathed(t, p);
      hide First;
      forall b: nat | b < BUCKETS ensures f.heads[p][b] == First(f.nodes, f.kids[p], b) {
        FirstSame(t.nodes, f.nodes, t.kids[p], b);
      }
    }
    forall c: nat | c < NODES ensures Held(f, c) {
      assert Held(t, c);
    }
    FileFs(t, x, data);
  }

  lemma FileFs(t: Tree, x: nat, data: seq<Byte>)
    requires TreeOk(t) && Live(t, x) && TreeOk(Filed(t, x, data))
    ensures FsOf(Filed(t, x, data)) == FsOf(t)[t.path[x] := ObjOf(t.nodes[x].(data := data))]
  {
    hide AllDirs, AllPaths, HeldBut, FsOf;
    var f := Filed(t, x, data);
    var m := FsOf(t)[t.path[x] := ObjOf(t.nodes[x].(data := data))];
    forall c: nat | Live(f, c) ensures f.path[c] in m && m[f.path[c]] == ObjOf(f.nodes[c]) {
      assert Live(t, c);
      if t.path[c] == t.path[x] {
        PathsUnique(t, c, x);
      }
    }
    forall r | r in m ensures HasNode(f, r) {
      assert r in FsOf(t);
      var c: nat :| Live(t, c) && t.path[c] == r;
      assert Live(f, c) && f.path[c] == r;
    }
    FsIs(f, m);
  }

  /** A rename leaves links that some paths fit, so that the nodes are still a tree, if and only if
      the target directory is neither the moved node nor below it. */
  lemma RenameTreeIff(t: Tree, p: nat, j: nat, d: nat, name: string)
    requires TreeOk(t) && p < NODES && j < |t.kids[p]| && Live(t, d) && t.nodes[d].kind == Dir
    requires t.path[d] + [name] !in FsOf(t)
    ensures Shaped(Detached(t, p, j))
    ensures Shaped(Retitled(Detached(t, p, j), t.kids[p][j], name, t.path[d] + [name]))
    ensures (exists paths :: TreeOk(Renamed(t, p, j, d, name).(path := paths))) <==>
        !(t.path[t.kids[p][j]] <= t.path[d])
  {
    hide AllDirs, AllPaths, HeldBut, FsOf, Renamed;
    var x, to := t.kids[p][j], t.path[d] + [name];
    DetachShaped(t, p, j);
    DetachPath(t, p, j);
    NotOwnKid(t, p, j);
    MoveRoot(t.path[x], to);
    if t.path[x] <= t.path[d] {
      forall paths ensures !TreeOk(Renamed(t, p, j, d, name).(path := paths)) {
        var c := Renamed(t, p, j, d, name).(path := paths);
        if Shaped(c) {
          RenameKids(t, p, j, d, name);
          CycleHasNoPaths(t, c, x, d);
        }
      }
    } else {
      RenameOk(t, p, j, d, name);
      var g := Renamed(t, p, j, d, name);
      assert g.(path := g.path) == g;
    }
  }

  lemma RenameKids(t: Tree, p: nat, j: nat, d: nat, name: string)
    requires Shaped(t) && p < NODES && j < |t.kids[p]| && d < NODES && Shaped(Detached(t, p, j))
    requires Shaped(Retitled(Detached(t, p, j), t.kids[p][j], name, t.path[d] + [name]))
    ensures var g, x := Renamed(t, p, j, d, name), t.kids[p][j];
            && |g.kids| == NODES && x in g.kids[d]
            && forall q: nat, k :: q < NODES && k in t.kids[q] && k != x ==> k in g.kids[q]
  {
    hide Without, Retitled;
    var u, g, x := Detached(t, p, j), Renamed(t, p, j, d, name), t.kids[p][j];
    RetitledKids(u, x, name, t.path[d] + [name]);
    assert g.kids[d] == [x] + u.kids[d];
    assert g.kids[d][0] == x;
    forall q: nat, k | q < NODES && k in t.kids[q] && k != x ensures k in g.kids[q] {
      if q == p {
        StillThere(t.kids[p], j, k);
      }
      assert k in u.kids[q];
    }
  }

  lemma RetitledKids(u: Tree, x: nat, name: string, to: Path)
    requires Shaped(u) && x < NODES
    ensures Retitled(u, x, name, to).kids == u.kids
  {
  }
}
