/**
 What a symbolic link means (kernel/vfs.c, vfs_resolve), on components: a path through a link resolves as the path
 with the link replaced by its target, where the texts fit the path buffer.
 */
module VfsLinks {
  import opened VfsPath
  import opened VfsLaws
  import opened VfsTree
  import opened VfsResolve

  // ---- which link is replaced ----

  /** Every component of `d` leads into a directory. */
  ghost predicate Directories(fs: Fs, d: Path) {
    forall k :: 0 < k <= |d| ==> IsDirectory(fs, d[..k])
  }

  predicate IsDirectory(fs: Fs, q: Path) {
    q in fs && fs[q] == DirObj
  }

  lemma {:induction false} WalkReaches(fs: Fs, w: Path, d: Path, k: nat)
    requires k <= |d| <= |w| && d == w[..|d|] && Directories(fs, d)
    ensures WalkFrom(fs, w, k) == WalkFrom(fs, w, |d|)
    decreases |d| - k
  {
    if k < |d| {
      assert w[..k + 1] == d[..k + 1];
      assert IsDirectory(fs, d[..k + 1]);
      WalkReaches(fs, w, d, k + 1);
    }
  }

  /** Past the directories `d` it is the next name that decides. */
  lemma WalkAt(fs: Fs, d: Path, n: string, r: Path)
    requires Directories(fs, d)
    ensures var w := d + [n] + r;
            && (d + [n] !in fs ==> WalkFrom(fs, w, 0) == Stop(NotFound))
            && (d + [n] in fs && fs[d + [n]].FileObj? && r != [] ==> WalkFrom(fs, w, 0) == Stop(NotDir))
            && (d + [n] in fs && fs[d + [n]].LinkObj? ==> WalkFrom(fs, w, 0) == LinkAt(|d|))
  {
    var w := d + [n] + r;
    assert w[..|d|] == d && w[..|d| + 1] == d + [n];
    WalkReaches(fs, w, d, 0);
  }

  /** Obstacles: a missing component, a file on the way, one link too many. */
  lemma ResolvedStops(fs: Fs, d: Path, n: string, r: Path, left: nat)
    requires Directories(fs, d)
    ensures d + [n] !in fs ==> Resolved(fs, d + [n] + r, left) == Err(NotFound)
    ensures d + [n] in fs && fs[d + [n]].FileObj? && r != [] ==> Resolved(fs, d + [n] + r, left) == Err(NotDir)
    ensures d + [n] in fs && fs[d + [n]].LinkObj? ==> Resolved(fs, d + [n] + r, 0) == Err(Loop)
  {
    hide WalkFrom, Expanded;
    WalkAt(fs, d, n, r);
  }

  // ---- the text put together ----

  predicate Absolute(target: string) {
    target != "" && target[0] == '/'
  }

  /** A target as a text from the root: a relative one starts from the link's directory. */
  function Head(d: Path, target: string): string {
    if Absolute(target) then target else Render(d) + "/" + target
  }

  /** The path with the link replaced, as text. */
  function Replacing(d: Path, target: string, r: Path): string {
    Head(d, target) + Slashed(r)
  }

  /** What the buffer holds of a text. */
  function Cut(s: string): string {
    if |s| < PATH_MAX then s else s[..PATH_MAX - 1]
  }

  lemma FillCuts(s: string, t: string)
    requires |s| < PATH_MAX
    ensures Fill(s, t) == Cut(s + t)
  {
    if |s| + |t| >= PATH_MAX {
      assert s + t[..PATH_MAX - 1 - |s|] == (s + t)[..PATH_MAX - 1];
    }
  }

  /** Putting the text together: all of it when it fits, and otherwise its first 255 characters or an error. */
  lemma JoinedIs(d: Path, n: string, target: string, r: Path)
    requires Plain(r)
    ensures var j, all := Joined(d + [n], target, RestOf(r)), Replacing(d, target, r);
            j == Ok(Cut(all)) || (|all| >= PATH_MAX && |Head(d, target)| + 1 >= PATH_MAX && j == Err(NoSpace))
  {
    hide Render, Slashed, Fill, Cut;
    assert (d + [n])[..|d|] == d;
    var head, rest := Head(d, target), RestOf(r);
    assert "" + target == target && "" + Render(d) == Render(d);
    FillCuts("", target);
    FillCuts("", Render(d));
    RestStarts(r);
    CutLengths(Render(d));
    CutLengths(head);
    if !Absolute(target) && |Render(d)| + 1 < PATH_MAX {
      FillCuts(Render(d) + "/", target);
    }
    if r == [] {
      assert head + Slashed(r) == head;
    } else if |head| + 1 < PATH_MAX {
      FillCuts(head + "/", rest);
      assert head + "/" + rest == head + Slashed(r);
    }
  }

  lemma CutLengths(s: string)
    ensures |s| < PATH_MAX ==> Cut(s) == s
    ensures |s| >= PATH_MAX ==> |Cut(s)| == PATH_MAX - 1
  {
  }

  function RestOf(r: Path): string {
    if r == [] then "" else Slashed(r)[1..]
  }

  lemma RestStarts(r: Path)
    requires Plain(r)
    ensures r == [] ==> Slashed(r) == ""
    ensures r != [] ==> RestOf(r) != "" && RestOf(r)[0] != '/' && "/" + RestOf(r) == Slashed(r)
  {
    if r != [] {
      SlashedAt(r, 0);
      assert r[0..] == r;
      assert RestOf(r)[0] == r[0][0] && r[0][0] != '/';
    }
  }

  lemma LinkParts(d: Path, n: string, r: Path)
    ensures var w := d + [n] + r;
            |d| < |w| && w[..|d| + 1] == d + [n] && Rest(w, |d|) == RestOf(r)
  {
    var w := d + [n] + r;
    assert w[..|d| + 1] == d + [n] && w[|d| + 1..] == r;
  }

  // ---- the meaning of a link ----

  ghost predicate LinksTo(fs: Fs, q: Path, target: string) {
    q in fs && fs[q].LinkObj? && Text(fs[q].target) == target
  }

  /** A path through a link, the first on the way, resolves as the text with the link replaced, one expansion less. */
  lemma LinkMeans(fs: Fs, d: Path, n: string, target: string, r: Path, left: nat, w: Path)
    requires Directories(fs, d) && LinksTo(fs, d + [n], target) && Plain(r)
    requires |Replacing(d, target, r)| < PATH_MAX && Means(Replacing(d, target, r), w)
    ensures Resolved(fs, d + [n] + r, left + 1) == Resolved(fs, w, left)
  {
    hide WalkFrom, Resolved, Rest, Joined, Means, Render, Slashed, Directories, Text;
    WalkAt(fs, d, n, r);
    JoinedIs(d, n, target, r);
    LinkParts(d, n, r);
    var all := Replacing(d, target, r);
    ReplacingRooted(d, target, r);
    MeansComponents(all, w);
    ResolvedStep(fs, d + [n] + r, left + 1);
  }

  /** If that text is refused, so is the path. */
  lemma LinkRefused(fs: Fs, d: Path, n: string, target: string, r: Path, left: nat)
    requires Directories(fs, d) && LinksTo(fs, d + [n], target) && Plain(r)
    requires |Replacing(d, target, r)| < PATH_MAX && Refused(Replacing(d, target, r))
    ensures Resolved(fs, d + [n] + r, left + 1) == Err(Invalid)
  {
    hide WalkFrom, Resolved, Rest, Joined, Render, Slashed, Directories, Text, Clean;
    WalkAt(fs, d, n, r);
    JoinedIs(d, n, target, r);
    LinkParts(d, n, r);
    var all := Replacing(d, target, r);
    ReplacingRooted(d, target, r);
    NormalizedComponents(all);
    assert Normalized(all, PATH_MAX) == Err(Invalid);
    ResolvedStep(fs, d + [n] + r, left + 1);
  }

  /** If it does not fit, but the target leaves room for a slash, its first 255 characters are what is resolved. */
  lemma LinkCut(fs: Fs, d: Path, n: string, target: string, r: Path, left: nat, w: Path)
    requires Directories(fs, d) && LinksTo(fs, d + [n], target) && Plain(r)
    requires |Head(d, target)| + 1 < PATH_MAX <= |Replacing(d, target, r)|
    requires Means(Replacing(d, target, r)[..PATH_MAX - 1], w)
    ensures Resolved(fs, d + [n] + r, left + 1) == Resolved(fs, w, left)
  {
    hide WalkFrom, Resolved, Rest, Joined, Means, Render, Slashed, Directories, Text;
    WalkAt(fs, d, n, r);
    JoinedIs(d, n, target, r);
    LinkParts(d, n, r);
    var all := Replacing(d, target, r);
    ReplacingRooted(d, target, r);
    MeansComponents(all[..PATH_MAX - 1], w);
    ResolvedStep(fs, d + [n] + r, left + 1);
  }

  lemma ReplacingRooted(d: Path, target: string, r: Path)
    ensures Replacing(d, target, r) != "" && Replacing(d, target, r)[0] == '/'
  {
    assert Render(d)[0] == '/';
  }

  lemma MeansComponents(p: string, w: Path)
    requires p != "" && p[0] == '/' && Means(p, w) && |p| < PATH_MAX
    ensures Components(p) == Ok(w)
  {
    MeansIff(p, w);
    NeverLonger(p, w);
    assert Clean(p, []) == Clean(p[1..], []);
  }

  // ---- names ----

  /** Names separated by slashes. */
  function Names(t: Path): string
    requires t != []
  {
    Slashed(t)[1..]
  }

  /** A relative link: what follows is looked up in the link's directory, by the names of the target. */
  lemma RelativeLink(fs: Fs, d: Path, n: string, t: Path, r: Path, left: nat)
    requires Directories(fs, d) && t != [] && LinksTo(fs, d + [n], Names(t)) && Canonical(d + t + r)
    requires |Render(d)| + |Slashed(t + r)| < PATH_MAX
    ensures Resolved(fs, d + [n] + r, left + 1) == Resolved(fs, d + t + r, left)
  {
    hide WalkFrom, Resolved, Means, Directories, Text, Canonical, LinksTo, Names, Replacing, Slashed, Render;
    CanonicalParts(d, t, r);
    RelativeText(d, t, r);
    assert d + (t + r) == d + t + r;
    RenderThen(d, t + r);
    LinkMeans(fs, d, n, Names(t), r, left, d + t + r);
  }

  lemma RelativeText(d: Path, t: Path, r: Path)
    requires t != [] && Canonical(t)
    ensures Replacing(d, Names(t), r) == Render(d) + Slashed(t + r)
  {
    hide Slashed, Render, Canonical, Absolute;
    NamesRelative(t);
    SlashedConcat(t, r);
    SlashedStarts(t);
    Regroup(Render(d), Slashed(t), Slashed(r));
  }

  lemma Regroup(a: string, b: string, c: string)
    requires b != "" && b[0] == '/'
    ensures a + "/" + b[1..] + c == a + (b + c)
  {
    assert "/" + b[1..] == b;
    assert a + "/" + b[1..] == a + b;
  }

  lemma SlashedStarts(t: Path)
    requires t != []
    ensures Slashed(t) != "" && Slashed(t)[0] == '/'
  {
  }

  /** An absolute link: the names of the target from the root. */
  lemma AbsoluteLink(fs: Fs, d: Path, n: string, t: Path, r: Path, left: nat)
    requires Directories(fs, d) && LinksTo(fs, d + [n], Render(t)) && Canonical(t + r)
    requires |Render(t)| + |Slashed(r)| < PATH_MAX
    ensures Resolved(fs, d + [n] + r, left + 1) == Resolved(fs, t + r, left)
  {
    hide WalkFrom, Resolved, Means, Directories, Text, IsName;
    assert [] + t + r == t + r;
    CanonicalParts([], t, r);
    RenderThen(t, r);
    RenderStarts(t);
    LinkMeans(fs, d, n, Render(t), r, left, t + r);
  }

  /** So a path one character too long for the buffer, behind a link, resolves to a name one character shorter. */
  lemma CutName(fs: Fs, n: string, t: Path, b: string, left: nat)
    requires LinksTo(fs, [n], Render(t)) && t != [] && b != "" && Canonical(t + [b]) && Canonical(t + [b[..|b| - 1]])
    requires |Slashed(t)| + 1 + |b| == PATH_MAX
    ensures Resolved(fs, [n] + [b], left + 1) == Resolved(fs, t + [b[..|b| - 1]], left)
  {
    hide WalkFrom, Resolved, Means, Text, IsName, Slashed, Canonical;
    var short := b[..|b| - 1];
    assert [] + t + [b] == t + [b] && [] + [n] == [n];
    CanonicalParts([], t, [b]);
    SlashedSnoc(t, short);
    SlashedSnoc([], b);
    RenderStarts(t);
    SlashedNone([]);
    assert [] + [b] == [b];
    assert Slashed([b]) == "/" + b;
    assert Replacing([], Render(t), [b])[..PATH_MAX - 1] == Slashed(t) + "/" + short;
    RenderMeans(t + [short]);
    LinkCut(fs, [], n, Render(t), [b], left, t + [short]);
  }

  /** Names of 63 letters: a link to three of them, followed by a fourth, leads to one of 62. */
  lemma CutNameAtWork(fs: Fs, left: nat)
    requires var t := [Letters('a', 63), Letters('a', 63), Letters('a', 63)];
             && LinksTo(fs, ["l"], Render(t)) && Directories(fs, t)
             && t + [Letters('b', 62)] in fs && fs[t + [Letters('b', 62)]].FileObj?
    ensures Resolved(fs, ["l"] + [Letters('b', 63)], left + 1) ==
            Ok([Letters('a', 63), Letters('a', 63), Letters('a', 63)] + [Letters('b', 62)])
  {
    var a, b := Letters('a', 63), Letters('b', 63);
    var t, short := [a, a, a], b[..|b| - 1];
    assert short == Letters('b', 62);
    assert IsName(a) && IsName(b) && IsName(short);
    hide IsName, Directories, LinksTo, Resolved;
    assert |Slashed(t)| == 192 by {
      assert [] + [a] + [a] + [a] == t;
      SlashedSnoc([], a);
      SlashedSnoc([] + [a], a);
      SlashedSnoc([] + [a] + [a], a);
    }
    CutName(fs, "l", t, b, left);
    FileBelow(fs, t, short);
    ResolvedSelf(fs, t + [short], left);
  }

  function Letters(c: char, n: nat): string {
    seq(n, _ => c)
  }

  lemma FileBelow(fs: Fs, t: Path, n: string)
    requires Directories(fs, t) && t + [n] in fs && fs[t + [n]].FileObj?
    ensures LinkFree(fs, t + [n])
  {
    var w := t + [n];
    forall k | 0 < k <= |w| ensures StepOk(fs, w, k) {
      if k <= |t| {
        assert w[..k] == t[..k];
        assert IsDirectory(fs, t[..k]);
      } else {
        assert w[..k] == w;
      }
    }
  }

  /** A link to the directory above: the link's directory without its last name. */
  lemma ParentLink(fs: Fs, d: Path, n: string, r: Path, left: nat)
    requires Directories(fs, d) && LinksTo(fs, d + [n], "..") && Canonical(d + r) && |d| < DEPTH_MAX
    requires |Render(d)| + 3 + |Slashed(r)| < PATH_MAX
    ensures Resolved(fs, d + [n] + r, left + 1) == Resolved(fs, (if d == [] then [] else d[..|d| - 1]) + r, left)
  {
    hide WalkFrom, Resolved, Means, Directories, Text, IsName, Clean, Slashed;
    var up := if d == [] then [] else d[..|d| - 1];
    assert forall i :: 0 <= i < |up + r| ==> IsName((up + r)[i]) by {
      forall i | 0 <= i < |up + r| ensures IsName((up + r)[i]) {
        assert (up + r)[i] == if i < |up| then (d + r)[i] else (d + r)[i + |d| - |up|];
      }
    }
    assert [] + d + r == d + r;
    CanonicalParts([], d, r);
    RenderMeans(d);
    RenderStarts(d);
    ComponentLaw(Render(d), d, "..");
    var p := Render(d) + "/" + "..";
    assert p == Render(d) + "/" + ".." && p[0] == '/';
    MeansThen(p, up, r);
    LinkMeans(fs, d, n, "..", r, left, up + r);
  }

  lemma RenderStarts(t: Path)
    ensures Render(t) != "" && Render(t)[0] == '/'
  {
  }

  lemma CanonicalParts(d: Path, t: Path, r: Path)
    requires Canonical(d + t + r)
    ensures Canonical(d) && Canonical(t) && Plain(r)
  {
    var w := d + t + r;
    assert d == w[..|d|] && t == w[|d|..|d + t|] && r == w[|d + t|..];
    assert forall i :: 0 <= i < |w| ==> 0 < |w[i]| < NAME_MAX && '/' !in w[i];
  }

  lemma NamesRelative(t: Path)
    requires t != [] && Canonical(t)
    ensures !Absolute(Names(t))
  {
    SlashedAt(t, 0);
    assert t[0..] == t;
    assert IsName(t[0]);
    assert Names(t)[0] == t[0][0];
  }

  lemma RenderMeans(d: Path)
    requires Canonical(d)
    ensures Means(Render(d), d)
  {
    RenderCleans(d);
    assert Clean(Render(d), []) == Clean(Render(d)[1..], []);
    MeansIff(Render(d), d);
  }

  /** Further names after a path are further components. */
  lemma MeansThen(p: string, c: Path, r: Path)
    requires p != "" && p[0] == '/' && Means(p, c) && Canonical(c + r)
    ensures Means(p + Slashed(r), c + r)
  {
    hide Clean, Means, Slashed;
    MeansIff(p, c);
    SlashedStretch(r);
    CleanAppend(p, Slashed(r), []);
    CleanSlashed(c, r);
    MeansIff(p + Slashed(r), c + r);
  }

  lemma SlashedStretch(r: Path)
    ensures Stretch(Slashed(r))
  {
  }

  lemma RenderThen(d: Path, r: Path)
    requires Canonical(d + r) && Canonical(d)
    ensures Means(Render(d) + Slashed(r), d + r)
  {
    hide Means, Slashed, Canonical;
    RenderMeans(d);
    RenderStarts(d);
    MeansThen(Render(d), d, r);
  }
}
