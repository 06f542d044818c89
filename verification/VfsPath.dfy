/**
 Paths of the virtual file system (kernel/vfs.c): lexical normalisation, joining and
 the parent directory.
 */
module VfsPath {

  const NAME_MAX: nat := 64
  const PATH_MAX: nat := 256
  const DEPTH_MAX: nat := 32

  datatype Error = Invalid | NoSpace | NotFound | Loop | NotDir | Exists | IsDir | Busy | NoMemory | Io | Denied
  datatype Result<T> = Ok(value: T) | Err(error: Error)

  /** A name as one component of a canonical path. */
  predicate IsName(p: string) {
    0 < |p| < NAME_MAX && '/' !in p && p != "." && p != ".."
  }

  /** A list of components normalisation can produce. */
  predicate Canonical(c: seq<string>) {
    |c| <= DEPTH_MAX && forall i :: 0 <= i < |c| ==> IsName(c[i])
  }

  /** Components written as a path, each after a slash. */
  function Slashed(c: seq<string>): string {
    if c == [] then "" else "/" + c[0] + Slashed(c[1..])
  }

  function Render(c: seq<string>): string {
    if c == [] then "/" else Slashed(c)
  }

  /** The length of the component a text starts with. */
  function PartLen(s: string): (k: nat)
    ensures k <= |s| && '/' !in s[..k] && (k < |s| ==> s[k] == '/')
  {
    if s == "" || s[0] == '/' then 0
    else
      assert s[..1 + PartLen(s[1..])] == [s[0]] + s[1..][..PartLen(s[1..])];
      1 + PartLen(s[1..])
  }

  /** What one component does to those collected. */
  function Pushed(stack: seq<string>, part: string): seq<string> {
    if part == "." then stack
    else if part == ".." then (if stack == [] then [] else stack[..|stack| - 1])
    else stack + [part]
  }

  /** The components of a text, starting from `stack`; scanning stops once there are 32. */
  function Clean(s: string, stack: seq<string>): Result<seq<string>>
    decreases |s|
  {
    if s == "" || |stack| >= DEPTH_MAX then Ok(stack)
    else if s[0] == '/' then Clean(s[1..], stack)
    else
      var k := PartLen(s);
      if k >= NAME_MAX then Err(Invalid) else Clean(s[k..], Pushed(stack, s[..k]))
  }

  /** vfs_normalize as a function of the text and the size of the output buffer. */
  function Normalized(path: string, room: nat): Result<string> {
    if room < 2 || path == "" || path[0] != '/' then Err(Invalid)
    else
      match Clean(path[1..], [])
      case Err(e) => Err(e)
      case Ok(c) => if |Render(c)| + 1 > room then Err(NoSpace) else Ok(Render(c))
  }

  lemma {:induction false} CleanCanonical(s: string, stack: seq<string>)
    requires Canonical(stack)
    ensures Clean(s, stack).Ok? ==> Canonical(Clean(s, stack).value)
    decreases |s|
  {
    if s != "" && |stack| < DEPTH_MAX {
      if s[0] == '/' {
        CleanCanonical(s[1..], stack);
      } else if PartLen(s) < NAME_MAX {
        CleanCanonical(s[PartLen(s)..], Pushed(stack, s[..PartLen(s)]));
      }
    }
  }

  /** Scanning a written canonical path gives its components back. */
  lemma {:induction false} CleanSlashed(stack: seq<string>, c: seq<string>)
    requires Canonical(stack + c)
    ensures Clean(Slashed(c), stack) == Ok(stack + c)
    decreases |c|
  {
    hide Clean, IsName;
    if c == [] {
      CleanEnd(stack);
      assert stack + c == stack;
    } else {
      assert (stack + c)[|stack|] == c[0];
      CleanPart(stack, c[0], Slashed(c[1..]));
      assert stack + [c[0]] + c[1..] == stack + c;
      CleanSlashed(stack + [c[0]], c[1..]);
    }
  }

  lemma CleanEnd(stack: seq<string>)
    ensures Clean("", stack) == Ok(stack)
  {
  }

  lemma CleanPart(stack: seq<string>, name: string, rest: string)
    requires IsName(name) && |stack| < DEPTH_MAX && (rest == "" || rest[0] == '/')
    ensures Clean("/" + name + rest, stack) == Clean(rest, stack + [name])
  {
    hide Clean;
    var path, j := "/" + name + rest, 1 + |name|;
    assert path[1..j] == name && path[j..] == rest && path[0..] == path;
    assert rest != "" ==> path[j] == rest[0];
    CleanSlash(path, 0, stack);
    CleanStep(path, 1, j, stack);
  }

  lemma {:induction false} PartIs(name: string, rest: string)
    requires '/' !in name && (rest == "" || rest[0] == '/')
    ensures PartLen(name + rest) == |name|
  {
    if name == "" {
      assert name + rest == rest;
    } else {
      PartIs(name[1..], rest);
      assert (name + rest)[1..] == name[1..] + rest;
    }
  }

  /** Different components are written differently. */
  lemma RenderInjective(a: seq<string>, b: seq<string>)
    requires Canonical(a) && Canonical(b) && Render(a) == Render(b)
    ensures a == b
  {
    RenderCleans(a);
    RenderCleans(b);
  }

  lemma RenderCleans(c: seq<string>)
    requires Canonical(c)
    ensures Render(c)[0] == '/' && Clean(Render(c)[1..], []) == Ok(c)
  {
    assert [] + c == c;
    CleanSlashed([], c);
    if c != [] {
      assert Clean(Slashed(c), []) == Clean(Slashed(c)[1..], []);
    }
  }

  /** A normalised path is canonical, fits its buffer and normalises to itself. */
  lemma NormalizeIdempotent(path: string, room: nat)
    requires Normalized(path, room).Ok?
    ensures var out := Normalized(path, room).value;
            && (exists c :: Canonical(c) && out == Render(c))
            && |out| + 1 <= room && Normalized(out, room) == Ok(out)
  {
    CleanCanonical(path[1..], []);
    var c := Clean(path[1..], []).value;
    RenderCleans(c);
  }

  // ---- vfs_normalize ----

  lemma CleanSlash(path: string, i: nat, stack: seq<string>)
    requires i < |path| && path[i] == '/' && |stack| < DEPTH_MAX
    ensures Clean(path[i..], stack) == Clean(path[i + 1..], stack)
  {
    assert path[i..][1..] == path[i + 1..];
  }

  lemma CleanStep(path: string, i: nat, j: nat, stack: seq<string>)
    requires i < j <= |path| && '/' !in path[i..j] && (j == |path| || path[j] == '/') && |stack| < DEPTH_MAX
    ensures Clean(path[i..], stack) ==
            if j - i >= NAME_MAX then Err(Invalid) else Clean(path[j..], Pushed(stack, path[i..j]))
  {
    var s := path[i..];
    PartIs(path[i..j], path[j..]);
    assert path[i..j] + path[j..] == s;
    assert path[i..j][0] == s[0];
    assert s[..j - i] == path[i..j] && s[j - i..] == path[j..];
  }

  lemma CleanLong(path: string, i: nat, j: nat, stack: seq<string>)
    requires i < j <= |path| && '/' !in path[i..j] && j - i >= NAME_MAX && |stack| < DEPTH_MAX
    ensures Clean(path[i..], stack) == Err(Invalid)
  {
    var s := path[i..];
    assert s[..j - i] == path[i..j];
    assert path[i..j][0] == s[0];
    TooLong(s, j - i);
  }

  lemma {:induction false} TooLong(s: string, k: nat)
    requires k <= |s| && '/' !in s[..k]
    ensures PartLen(s) >= k
  {
    if k > 0 {
      assert s[..k][0] == s[0];
      assert s[..k][1..] == s[1..][..k - 1];
      TooLong(s[1..], k - 1);
    }
  }

  /** The component scan of vfs_normalize. */
  method Collect(path: string) returns (r: Result<seq<string>>)
    requires path != "" && path[0] == '/'
    ensures r == Clean(path[1..], [])
  {
    hide Clean, Pushed;
    var parts: seq<string> := [];
    var i := 1;
    while i < |path| && |parts| < DEPTH_MAX
      invariant 1 <= i <= |path| && Clean(path[i..], parts) == Clean(path[1..], [])
      decreases |path| - i
    {
      i := SkipSlashes(path, i, parts);
      if i == |path| {
        break;
      }
      var j, ok := PartEnd(path, i);
      if !ok {
        CleanLong(path, i, j, parts);
        return Err(Invalid);
      }
      CleanStep(path, i, j, parts);
      parts := Pushed(parts, path[i..j]);
      i := j;
    }
    Finished(path[i..], parts);
    r := Ok(parts);
  }

  lemma Finished(s: string, stack: seq<string>)
    requires s == "" || |stack| >= DEPTH_MAX
    ensures Clean(s, stack) == Ok(stack)
  {
  }

  method PartEnd(path: string, i: nat) returns (j: nat, ok: bool)
    requires i < |path| && path[i] != '/'
    ensures i < j <= |path| && '/' !in path[i..j]
    ensures ok ==> j - i < NAME_MAX && (j == |path| || path[j] == '/')
    ensures !ok ==> j - i >= NAME_MAX
  {
    j := i;
    while j < |path| && path[j] != '/'
      invariant i <= j <= |path| && j - i < NAME_MAX && '/' !in path[i..j]
    {
      if j - i + 1 >= NAME_MAX {
        return j + 1, false;
      }
      j := j + 1;
    }
    ok := true;
  }

  method SkipSlashes(path: string, from: nat, ghost parts: seq<string>) returns (i: nat)
    requires from <= |path| && |parts| < DEPTH_MAX
    ensures from <= i <= |path| && (i < |path| ==> path[i] != '/')
    ensures Clean(path[i..], parts) == Clean(path[from..], parts)
  {
    hide Clean;
    i := from;
    while i < |path| && path[i] == '/'
      invariant from <= i <= |path| && Clean(path[i..], parts) == Clean(path[from..], parts)
    {
      CleanSlash(path, i, parts);
      i := i + 1;
    }
  }

  /** vfs_normalize */
  method Normalize(path: string, room: nat) returns (r: Result<string>)
    ensures r == Normalized(path, room)
  {
    hide Clean;
    if room < 2 || path == "" || path[0] != '/' {
      return Err(Invalid);
    }
    var c := Collect(path);
    if c.Err? {
      return Err(c.error);
    }
    r := Write(c.value, room);
  }

  /** Writing the components out, stopping when the buffer is full. */
  method Write(c: seq<string>, room: nat) returns (r: Result<string>)
    requires room >= 2
    ensures r == if |Render(c)| + 1 > room then Err(NoSpace) else Ok(Render(c))
  {
    hide Slashed;
    if c == [] {
      return Ok("/");
    }
    var out := "";
    assert c[0..] == c;
    for p := 0 to |c|
      invariant out + Slashed(c[p..]) == Slashed(c) && |out| + 1 <= room
    {
      SlashedAt(c, p);
      ghost var rest := Slashed(c[p + 1..]);
      assert out + ("/" + c[p] + rest) == out + ("/" + c[p]) + rest;
      var ok;
      out, ok := WritePiece(out, "/" + c[p], room);
      if !ok {
        return Err(NoSpace);
      }
    }
    SlashedEnd(c);
    assert out == out + Slashed(c[|c|..]);
    r := Ok(out);
  }

  lemma SlashedAt(c: seq<string>, p: nat)
    requires p < |c|
    ensures Slashed(c[p..]) == "/" + c[p] + Slashed(c[p + 1..])
  {
    assert c[p..][1..] == c[p + 1..];
  }

  lemma {:induction false} SlashedSnoc(c: seq<string>, part: string)
    ensures Slashed(c + [part]) == Slashed(c) + "/" + part
  {
    if c == [] {
      assert c + [part] == [part];
      assert Slashed([part]) == "/" + part + Slashed([]);
    } else {
      SlashedSnoc(c[1..], part);
      assert (c + [part])[1..] == c[1..] + [part];
    }
  }

  lemma {:induction false} SlashedConcat(a: seq<string>, b: seq<string>)
    ensures Slashed(a + b) == Slashed(a) + Slashed(b)
  {
    if a == [] {
      assert a + b == b;
    } else {
      SlashedConcat(a[1..], b);
      assert (a + b)[1..] == a[1..] + b;
    }
  }

  lemma SlashedEnd(c: seq<string>)
    ensures Slashed(c[|c|..]) == ""
  {
  }

  method WritePiece(out0: string, piece: string, room: nat) returns (out: string, ok: bool)
    requires |out0| + 1 <= room
    ensures ok ==> out == out0 + piece && |out| + 1 <= room
    ensures !ok ==> |out0| + |piece| + 1 > room
  {
    out := out0;
    for k := 0 to |piece|
      invariant out == out0 + piece[..k] && |out| + 1 <= room
    {
      if |out| + 1 >= room {
        return out, false;
      }
      out := out + [piece[k]];
    }
    ok := true;
  }

  // ---- the components a lookup walks ----

  /** Where the component at `i` ends; a component longer than a name buffer is cut there. */
  function PartStop(s: string, i: nat, j: nat): (k: nat)
    requires i <= j <= |s|
    ensures j <= k <= |s| && (k < |s| ==> s[k] == '/' || k - i >= NAME_MAX - 1)
    ensures j - i < NAME_MAX ==> k - i < NAME_MAX
    decreases |s| - j
  {
    if j < |s| && s[j] != '/' && j - i + 1 < NAME_MAX then PartStop(s, i, j + 1) else j
  }

  function After(s: string, j: nat): (k: nat)
    requires j <= |s|
    ensures j <= k <= |s|
  {
    if j < |s| && s[j] == '/' then j + 1 else j
  }

  /** The components of a path from position `i` on, as vfs_lookup reads them. */
  function Parts(s: string, i: nat): seq<string>
    requires i <= |s|
    decreases |s| - i
  {
    if i == |s| then []
    else
      var j := PartStop(s, i, i);
      var rest := Parts(s, After(s, j));
      if j == i then rest else [s[i..j]] + rest
  }

  /** The text before the last slash and the name after it. */
  predicate Splits(path: string, last: nat) {
    && last < |path| && path[last] == '/' && '/' !in path[last + 1..]
    && 0 < |path[last + 1..]| < NAME_MAX
  }

  lemma {:induction false} StopsBefore(path: string, last: nat, i: nat, j: nat)
    requires Splits(path, last) && i <= j <= last
    ensures PartStop(path, i, j) == PartStop(path[..last], i, j)
    decreases last - j
  {
    if j < last {
      assert path[..last][j] == path[j];
      if path[j] != '/' && j - i + 1 < NAME_MAX {
        StopsBefore(path, last, i, j + 1);
      }
    }
  }

  lemma {:induction false} StopsAtEnd(path: string, last: nat, i: nat, j: nat)
    requires Splits(path, last) && i == last + 1 <= j <= |path|
    ensures PartStop(path, i, j) == |path|
    decreases |path| - j
  {
    if j < |path| {
      assert path[last + 1..][j - i] == path[j];
      StopsAtEnd(path, last, i, j + 1);
    }
  }

  /** The components of a path are those of its directory and then its name. */
  lemma {:induction false} PartsSplit(path: string, last: nat, i: nat)
    requires Splits(path, last) && i <= last + 1
    ensures Parts(path, i) == (if i <= last then Parts(path[..last], i) else []) + [path[last + 1..]]
    decreases |path| - i
  {
    if i == last + 1 {
      StopsAtEnd(path, last, i, i);
      assert path[i..|path|] == path[last + 1..];
      assert Parts(path, |path|) == [];
    } else {
      StopsBefore(path, last, i, i);
      var j := PartStop(path, i, i);
      assert j <= last;
      PartsSplit(path, last, After(path, j));
      if i < last {
        assert path[..last][i..j] == path[i..j];
        assert j < last ==> path[..last][j] == path[j];
        assert Parts(path[..last], last) == [];
      }
    }
  }

  /** Names a lookup can reach. */
  predicate Plain(c: seq<string>) {
    forall i :: 0 <= i < |c| ==> 0 < |c[i]| < NAME_MAX && '/' !in c[i]
  }

  /** A written path of plain names is read back by a lookup. */
  lemma {:induction false} PartsSlashed(pre: string, c: seq<string>)
    requires Plain(c)
    ensures var s := pre + Slashed(c);
            Parts(s, After(s, |pre|)) == c
    decreases |c|
  {
    var s := pre + Slashed(c);
    if c == [] {
      assert s == pre;
    } else {
      var rest := Slashed(c[1..]);
      assert s[|pre|] == '/';
      var i := |pre| + 1;
      var next := pre + "/" + c[0];
      assert s == next + rest;
      PartStopsAt(s, i, i, |next|);
      assert s[i..|next|] == c[0];
      PartsSlashed(next, c[1..]);
    }
  }

  lemma {:induction false} PartStopsAt(s: string, i: nat, j: nat, k: nat)
    requires i <= j <= k <= |s| && k - i < NAME_MAX && '/' !in s[i..k] && (k == |s| || s[k] == '/')
    ensures PartStop(s, i, j) == k
    decreases k - j
  {
    if j < k {
      assert s[i..k][j - i] == s[j];
      PartStopsAt(s, i, j + 1, k);
    }
  }

  lemma RenderParts(c: seq<string>)
    requires Plain(c)
    ensures Parts(Render(c), 1) == c
  {
    if c != [] {
      PartsSlashed("", c);
      assert "" + Slashed(c) == Slashed(c);
    }
  }
}
