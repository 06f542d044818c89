/**
 Symbolic links (kernel/vfs.c, vfs_resolve): the expansion of links as a function of what the
 tree holds, what its results are like, and the loops that compute it.
 */
module VfsResolve {
  import opened VfsPath
  import opened VfsTree
  import opened Vfs

  const LOOPS: nat := 8     // VFS_SYMLINK_LOOP_MAX

  // ---- what a link stands for ----

  /** Appending to a path buffer, silently cut where the buffer ends. */
  function Fill(s: string, t: string): (r: string)
    ensures |s| < PATH_MAX ==> |r| < PATH_MAX
  {
    if |s| >= PATH_MAX then s
    else if |s| + |t| < PATH_MAX then s + t
    else s + t[..PATH_MAX - 1 - |s|]
  }

  /** The text expand_symlink_at puts together before normalising it. */
  function Joined(link: Path, target: string, rest: string): Result<string>
    requires link != []
  {
    var dir := Fill("", Render(link[..|link| - 1]));
    if !(target != "" && target[0] == '/') && |dir| + 1 >= PATH_MAX then Err(NoSpace)
    else
      var head := if target != "" && target[0] == '/' then Fill("", target) else Fill(dir + "/", target);
      if rest == "" then Ok(head)
      else if rest[0] == '/' then Ok(Fill(head, rest))
      else if |head| + 1 >= PATH_MAX then Err(NoSpace)
      else Ok(Fill(head + "/", rest))
  }

  /** The components after replacing the link at `link` by its target. */
  function Expanded(link: Path, target: string, rest: string): Result<Path>
    requires link != []
  {
    match Joined(link, target, rest)
    case Err(e) => Err(e)
    case Ok(s) => Components(s)
  }

  /** vfs_normalize into a path buffer, as components. */
  function Components(s: string): Result<Path> {
    if s == "" || s[0] != '/' then Err(Invalid)
    else
      match Clean(s[1..], [])
      case Err(e) => Err(e)
      case Ok(c) => if |Render(c)| >= PATH_MAX then Err(NoSpace) else Ok(c)
  }

  // ---- resolution ----

  datatype Walk = Through | LinkAt(k: nat) | Stop(error: Error)

  /** How far the path leads, from its k-th component on, before a link or an obstacle. */
  function WalkFrom(fs: Fs, w: Path, k: nat): (r: Walk)
    requires k <= |w|
    ensures r.LinkAt? ==> k <= r.k < |w| && w[..r.k + 1] in fs && fs[w[..r.k + 1]].LinkObj?
    decreases |w| - k
  {
    if k == |w| then Through
    else if w[..k + 1] !in fs then Stop(NotFound)
    else if fs[w[..k + 1]].LinkObj? then LinkAt(k)
    else if fs[w[..k + 1]] != DirObj && k + 1 < |w| then Stop(NotDir)
    else WalkFrom(fs, w, k + 1)
  }

  function Rest(w: Path, k: nat): string
    requires k < |w|
  {
    if k + 1 == |w| then "" else Slashed(w[k + 1..])[1..]
  }

  /** vfs_resolve on components, with `left` expansions still allowed. */
  function Resolved(fs: Fs, w: Path, left: nat): Result<Path>
    decreases left
  {
    match WalkFrom(fs, w, 0)
    case Through => Ok(w)
    case Stop(e) => Err(e)
    case LinkAt(k) =>
      if left == 0 then Err(Loop)
      else
        match Expanded(w[..k + 1], Text(fs[w[..k + 1]].target), Rest(w, k))
        case Err(e) => Err(e)
        case Ok(c) => Resolved(fs, c, left - 1)
  }

  /** Every component exists, none is a link, and all but the last are directories. */
  ghost predicate LinkFree(fs: Fs, w: Path) {
    forall k :: 0 < k <= |w| ==> StepOk(fs, w, k)
  }

  ghost predicate StepOk(fs: Fs, w: Path, k: nat)
    requires k <= |w|
  {
    w[..k] in fs && !fs[w[..k]].LinkObj? && (k < |w| ==> fs[w[..k]] == DirObj)
  }

  lemma {:induction false} WalkThroughIff(fs: Fs, w: Path, k: nat)
    requires k <= |w|
    ensures WalkFrom(fs, w, k) == Through <==> forall j :: k < j <= |w| ==> StepOk(fs, w, j)
    decreases |w| - k
  {
    if k < |w| {
      WalkThroughIff(fs, w, k + 1);
      var first := StepOk(fs, w, k + 1);
    }
  }

  lemma ComponentsCanonical(s: string)
    ensures Components(s).Ok? ==> Canonical(Components(s).value) && |Render(Components(s).value)| < PATH_MAX
  {
    if s != "" {
      CleanCanonical(s[1..], []);
    }
  }

  lemma ThroughIsFree(fs: Fs, w: Path)
    requires WalkFrom(fs, w, 0) == Through
    ensures LinkFree(fs, w)
  {
    WalkThroughIff(fs, w, 0);
  }

  lemma ExpandedCanonical(link: Path, target: string, rest: string)
    requires link != []
    ensures var e := Expanded(link, target, rest);
            e.Ok? ==> Canonical(e.value) && |Render(e.value)| < PATH_MAX
  {
    hide Joined, Components;
    var j := Joined(link, target, rest);
    if j.Ok? {
      ComponentsCanonical(j.value);
    }
  }

  /** A resolved path is canonical, fits, and leads through directories, past no link, to something. */
  lemma {:induction false} ResolvedSound(fs: Fs, w: Path, left: nat)
    requires Canonical(w) && |Render(w)| < PATH_MAX && Resolved(fs, w, left).Ok?
    ensures var r := Resolved(fs, w, left).value;
            Canonical(r) && |Render(r)| < PATH_MAX && LinkFree(fs, r)
    decreases left
  {
    hide WalkFrom, Expanded, Canonical, Render, Rest, Text, LinkFree;
    match WalkFrom(fs, w, 0)
    case LinkAt(k) =>
      var link, target := w[..k + 1], Text(fs[w[..k + 1]].target);
      ExpandedCanonical(link, target, Rest(w, k));
      ResolvedSound(fs, Expanded(link, target, Rest(w, k)).value, left - 1);
    case Through =>
      ThroughIsFree(fs, w);
    case Stop(_) =>
  }

  /** A path without links resolves to itself, whatever the expansions left. */
  lemma ResolvedSelf(fs: Fs, w: Path, left: nat)
    requires LinkFree(fs, w)
    ensures Resolved(fs, w, left) == Ok(w)
  {
    WalkThroughIff(fs, w, 0);
  }

  /** vfs_resolve from text to text. */
  function ResolvedText(fs: Fs, path: string, room: nat): Result<string> {
    if room < 2 then Err(Invalid)
    else
      match Components(path)
      case Err(e) => Err(e)
      case Ok(c) =>
        match Resolved(fs, c, LOOPS)
        case Err(e) => Err(e)
        case Ok(r) => if |Render(r)| + 1 > room then Err(NoSpace) else Ok(Render(r))
  }

  /** On success the result names something, has no link on any prefix, and resolves to itself. */
  lemma ResolveMeaning(fs: Fs, path: string, room: nat)
    requires ResolvedText(fs, path, room).Ok? && [] in fs
    ensures var out := ResolvedText(fs, path, room).value;
            && Components(out).Ok? && out == Render(Components(out).value)
            && Components(out).value in fs && LinkFree(fs, Components(out).value)
            && ResolvedText(fs, out, room) == Ok(out)
  {
    ComponentsCanonical(path);
    var c := Components(path).value;
    ResolvedSound(fs, c, LOOPS);
    var r := Resolved(fs, c, LOOPS).value;
    RenderCleans(r);
    assert Components(Render(r)) == Ok(r);
    ResolvedSelf(fs, r, LOOPS);
    if r != [] {
      assert StepOk(fs, r, |r|);
      assert r[..|r|] == r;
    }
  }

  // ---- the loops of vfs_resolve ----

  lemma NormalizedComponents(s: string)
    ensures Normalized(s, PATH_MAX) == match Components(s) case Err(e) => Err(e) case Ok(c) => Ok(Render(c))
  {
  }

  lemma {:induction false} SlashedPrefix(w: Path, k: nat)
    requires k <= |w|
    ensures |Slashed(w[..k])| <= |Slashed(w)|
  {
    if k > 0 {
      SlashedPrefix(w[1..], k - 1);
      assert w[..k][1..] == w[1..][..k - 1];
    }
  }

  /** path_join1 */
  method Join(base: string, part: string) returns (r: Result<string>)
    ensures r == JoinedAt(base, part)
  {
    var tmp := if |base| < PATH_MAX then base else base[..PATH_MAX - 1];
    if |tmp| + 1 + |part| >= PATH_MAX {
      return Err(NoSpace);
    }
    if tmp != "/" {
      tmp := tmp + "/";
    }
    tmp := tmp + part;
    r := Normalize(tmp, PATH_MAX);
  }

  function JoinedAt(base: string, part: string): Result<string> {
    if |base| + 1 + |part| >= PATH_MAX then Err(NoSpace)
    else Normalized(if base == "/" then "/" + part else base + "/" + part, PATH_MAX)
  }

  /** Joining the next component of a canonical path that fits always succeeds. */
  lemma JoinNext(w: Path, k: nat)
    requires k < |w| && Canonical(w) && |Render(w)| < PATH_MAX
    ensures JoinedAt(Render(w[..k]), w[k]) == Ok(Render(w[..k + 1]))
  {
    hide Clean, Slashed;
    var c, part := w[..k], w[k];
    assert w[..k + 1] == c + [part];
    SlashedSnoc(c, part);
    SlashedPrefix(w, k + 1);
    RenderStable(c + [part]);
    if c != [] {
      SlashedLong(c);
    } else {
      SlashedNone(c);
    }
  }

  lemma SlashedLong(c: Path)
    requires c != [] && c[0] != ""
    ensures |Slashed(c)| > 1
  {
  }

  lemma SlashedNone(c: Path)
    requires c == []
    ensures Slashed(c) == ""
  {
  }

  /** Where the scan of the text stands after `k` components. */
  ghost predicate Position(work: string, i: nat, w: Path, k: nat) {
    && k <= |w| && 1 <= i <= |work|
    && (if k < |w| then i < |work| && work[i - 1..] == Slashed(w[k..]) else i == |work|)
  }

  lemma PositionStart(w: Path)
    requires Plain(w)
    ensures Position(Render(w), 1, w, 0)
  {
    assert w[0..] == w;
    if w != [] {
      assert Render(w)[0..] == Slashed(w);
      assert |w[0]| > 0;
    }
  }

  lemma PositionStep(work: string, i: nat, w: Path, k: nat)
    requires Position(work, i, w, k) && k < |w| && Plain(w)
    ensures var j := PartStop(work, i, i);
            && j > i && work[i..j] == w[k] && Position(work, After(work, j), w, k + 1)
            && Rest(w, k) == work[After(work, j)..]
  {
    var s, rest := work[i - 1..], Slashed(w[k + 1..]);
    SlashedAt(w, k);
    var j := i + |w[k]|;
    assert s == "/" + w[k] + rest;
    assert work[i..] == s[1..] == w[k] + rest;
    assert work[i..j] == work[i..][..|w[k]|] == w[k];
    assert work[j..] == work[i..][|w[k]|..] == rest;
    if k + 1 < |w| {
      SlashedAt(w, k + 1);
      assert work[j] == work[j..][0] == '/';
      assert |w[k + 1]| > 0;
    } else {
      assert w[k + 1..] == [];
    }
    PartStopsAt(work, i, i, j);
  }

  datatype Found = Clear | AtLink(node: nat, linkPath: string, rest: string) | Fail(error: Error)

  ghost predicate Reports(r: Found, t: Tree, fs: Fs, w: Path) {
    match WalkFrom(fs, w, 0)
    case Through => r == Clear
    case Stop(e) => r == Fail(e)
    case LinkAt(k) =>
      && r.AtLink? && r.linkPath == Render(w[..k + 1]) && r.rest == Rest(w, k)
      && Shaped(t) && Live(t, r.node) && t.path[r.node] == w[..k + 1]
  }

  /** One walk over the working path. */
  method WalkWork(p: Pool, work: string, ghost w: Path) returns (r: Found)
    requires p.Valid() && Canonical(w) && work == Render(w) && |work| < PATH_MAX
    ensures Reports(r, p.T(), p.Files(), w)
  {
    hide AllDirs, AllPaths, HeldBut, FsOf, Parts, Position, WalkFrom, Canonical, Render, Rest, Plain, JoinedAt,
         PartStop;
    ghost var fs := p.Files();
    var cur: nat, i: nat, linkPath := 0, 1, "/";
    ghost var k: nat := 0;
    CanonicalPlain(w);
    PositionStart(w);
    RenderRoot(w);
    while i < |work|
      invariant Position(work, i, w, k) && k <= |w| && 1 <= i <= |work| && linkPath == Render(w[..k])
      invariant 0 <= cur < NODES && Live(p.T(), cur) && p.path[cur] == w[..k]
      invariant WalkFrom(fs, w, k) == WalkFrom(fs, w, 0)
      decreases |w| - k
    {
      PositionInside(work, i, w, k);
      PositionStep(work, i, w, k);
      var j := p.TakePart(work, i);
      var part := work[i..j];
      i := After(work, j);
      JoinNext(w, k);
      RenderShort(w, k);
      var joined := Join(linkPath, part);
      linkPath := joined.value;   // the next component of a path that fits always joins
      WalkStep(fs, w, k);
      var c := p.Visit(cur, part, w[..k + 1]);
      if c == -1 {
        return Fail(NotFound);
      }
      if p.nodes[c].kind == Link {
        return AtLink(c, linkPath, work[i..]);
      }
      PositionDone(work, i, w, k + 1);
      if p.nodes[c].kind != Dir && i < |work| {
        return Fail(NotDir);
      }
      cur, k := c, k + 1;
    }
    PositionDone(work, i, w, k);
    WalkEnd(fs, w);
    r := Clear;
  }

  lemma CanonicalPlain(w: Path)
    requires Canonical(w)
    ensures Plain(w)
  {
  }

  lemma RenderRoot(w: Path)
    ensures Render(w[..0]) == "/"
  {
  }

  lemma RenderShort(w: Path, k: nat)
    requires k <= |w| && |Render(w)| < PATH_MAX
    ensures |Render(w[..k])| < PATH_MAX
  {
    SlashedPrefix(w, k);
  }

  lemma PositionInside(work: string, i: nat, w: Path, k: nat)
    requires Position(work, i, w, k) && i < |work|
    ensures k < |w|
  {
  }

  lemma PositionDone(work: string, i: nat, w: Path, k: nat)
    requires Position(work, i, w, k)
    ensures i == |work| <==> k == |w|
  {
  }

  lemma WalkStep(fs: Fs, w: Path, k: nat)
    requires k < |w|
    ensures WalkFrom(fs, w, k) ==
            if w[..k + 1] !in fs then Stop(NotFound)
            else if fs[w[..k + 1]].LinkObj? then LinkAt(k)
            else if fs[w[..k + 1]] != DirObj && k + 1 < |w| then Stop(NotDir)
            else WalkFrom(fs, w, k + 1)
  {
  }

  lemma WalkEnd(fs: Fs, w: Path)
    ensures WalkFrom(fs, w, |w|) == Through
  {
  }

  /** path_dirname of a canonical path. */
  method Dirname(p: Pool, path: string, ghost c: Path) returns (dir: string)
    requires Canonical(c) && c != [] && path == Render(c) && |path| < PATH_MAX
    ensures dir == Render(c[..|c| - 1])
  {
    hide Clean, Canonical, Slashed;
    RenderStable(c);
    var norm := Normalize(path, PATH_MAX);
    var last := p.LastSlash(norm.value);
    LastOf(c, last);
    if last <= 0 {
      return "/";
    }
    dir := norm.value[..last];
  }

  lemma RenderStable(c: Path)
    requires Canonical(c) && |Render(c)| < PATH_MAX
    ensures Normalized(Render(c), PATH_MAX) == Ok(Render(c))
  {
    RenderCleans(c);
  }

  /** The last slash of a written path is before its last component. */
  lemma LastOf(c: Path, last: int)
    requires Canonical(c) && c != []
    requires last == -1 ==> '/' !in Slashed(c)
    requires last != -1 ==> 0 <= last < |Slashed(c)| && Slashed(c)[last] == '/' && '/' !in Slashed(c)[last + 1..]
    ensures last >= 0 && Slashed(c)[..last] == Slashed(c[..|c| - 1])
    ensures last == 0 <==> |c| == 1
  {
    var d, part, s := c[..|c| - 1], c[|c| - 1], Slashed(c);
    assert c == d + [part];
    SlashedSnoc(d, part);
    var at := |Slashed(d)|;
    assert s[at] == '/';
    assert s[at + 1..] == part;
    assert last != -1 by {
      assert '/' in s;
    }
    assert d != [] ==> |Slashed(d)| >= 1;
  }

  /** expand_symlink_at */
  method Expand(p: Pool, linkPath: string, target: string, rest: string, ghost link: Path) returns (r: Result<string>)
    requires Canonical(link) && link != [] && linkPath == Render(link) && |linkPath| < PATH_MAX
    ensures r == match Expanded(link, target, rest) case Err(e) => Err(e) case Ok(c) => Ok(Render(c))
  {
    hide Components, Canonical, Render;
    var combined;
    if target != "" && target[0] == '/' {
      combined := Fill("", target);
    } else {
      var dir := Dirname(p, linkPath, link);
      combined := Fill("", dir);
      if |combined| + 1 >= PATH_MAX {
        return Err(NoSpace);
      }
      combined := Fill(combined + "/", target);
    }
    if rest != "" {
      if rest[0] != '/' {
        if |combined| + 1 >= PATH_MAX {
          return Err(NoSpace);
        }
        combined := combined + "/";
      }
      combined := Fill(combined, rest);
    }
    NormalizedComponents(combined);
    r := Normalize(combined, PATH_MAX);
  }

  /** vfs_resolve */
  method Resolve(p: Pool, path: string, room: nat) returns (r: Result<string>)
    requires p.Valid()
    ensures r == ResolvedText(p.Files(), path, room)
  {
    hide AllDirs, AllPaths, HeldBut, FsOf, Resolved, Components, Canonical, Render, Expanded, Rest;
    if room < 2 {
      return Err(Invalid);
    }
    NormalizedComponents(path);
    ComponentsCanonical(path);
    var n := Normalize(path, PATH_MAX);
    if n.Err? {
      return n;
    }
    var work, depth := n.value, 0;
    ghost var fs, w := p.Files(), Components(path).value;
    while true
      invariant Canonical(w) && work == Render(w) && |work| < PATH_MAX && 0 <= depth <= LOOPS
      invariant Resolved(fs, w, LOOPS - depth) == Resolved(fs, Components(path).value, LOOPS)
      decreases LOOPS - depth
    {
      var f := WalkWork(p, work, w);
      ResolvedStep(fs, w, LOOPS - depth);
      match f
      case Clear =>
        if |work| + 1 > room {
          return Err(NoSpace);
        }
        return Ok(work);
      case Fail(e) =>
        return Err(e);
      case AtLink(node, linkPath, rest) =>
        depth := depth + 1;
        if depth > LOOPS {
          return Err(Loop);
        }
        ghost var link := w[..WalkFrom(fs, w, 0).k + 1];
        LinkText(p.T(), node, link);
        CanonicalPrefix(w, |link|);
        var e := Expand(p, linkPath, Text(p.nodes[node].data), rest, link);
        if e.Err? {
          return e;
        }
        ExpandedCanonical(link, Text(p.nodes[node].data), rest);
        w := Expanded(link, Text(p.nodes[node].data), rest).value;
        work := e.value;
    }
  }

  lemma ResolvedStep(fs: Fs, w: Path, left: nat)
    ensures Resolved(fs, w, left) ==
            match WalkFrom(fs, w, 0)
            case Through => Ok(w)
            case Stop(e) => Err(e)
            case LinkAt(k) =>
              if left == 0 then Err(Loop)
              else
                match Expanded(w[..k + 1], Text(fs[w[..k + 1]].target), Rest(w, k))
                case Err(e) => Err(e)
                case Ok(c) => Resolved(fs, c, left - 1)
  {
    hide WalkFrom, Expanded, Rest, Text;
  }

  lemma CanonicalPrefix(w: Path, k: nat)
    requires Canonical(w) && k <= |w| && |Render(w)| < PATH_MAX
    ensures Canonical(w[..k]) && |Render(w[..k])| < PATH_MAX
  {
    RenderShort(w, k);
  }

  lemma LinkText(t: Tree, n: nat, q: Path)
    requires TreeOk(t) && Live(t, n) && t.path[n] == q && q in FsOf(t) && FsOf(t)[q].LinkObj?
    ensures FsOf(t)[q].target == t.nodes[n].data
  {
    hide FsOf;
  }
}
