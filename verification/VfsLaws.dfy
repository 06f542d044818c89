/**
 Laws of lexical normalisation (kernel/vfs.c, vfs_normalize) on whole texts: what "." and ".." and doubled slashes
 stand for in the middle of any path, what each further component adds, and where the limit of 32 components makes
 ".." lose its meaning.
 */
module VfsLaws {
  import opened VfsPath

  /** A text that can follow or be followed by further components. */
  predicate Stretch(p: string) {
    p == "" || p[0] == '/'
  }

  function Rooted(p: string): string {
    if p == "" then "/" else p
  }

  /** Two texts that normalise alike, whatever the buffer. */
  ghost predicate Alike(p: string, q: string) {
    forall room: nat :: Normalized(p, room) == Normalized(q, room)
  }

  /** The text normalises to the path of these components, whenever that fits the buffer. */
  ghost predicate Means(p: string, c: seq<string>) {
    && Canonical(c)
    && forall room: nat :: room >= 2 ==>
         Normalized(p, room) == if |Render(c)| + 1 > room then Err(NoSpace) else Ok(Render(c))
  }

  ghost predicate Refused(p: string) {
    forall room: nat :: Normalized(p, room) == Err(Invalid)
  }

  // ---- texts one after another ----

  lemma {:induction false} CleanAppend(a: string, b: string, stack: seq<string>)
    requires Stretch(b)
    ensures Clean(a + b, stack) == match Clean(a, stack) case Err(e) => Err(e) case Ok(c) => Clean(b, c)
    decreases |a|
  {
    if a == "" {
      assert a + b == b;
    } else if |stack| < DEPTH_MAX {
      if a[0] == '/' {
        assert (a + b)[1..] == a[1..] + b;
        CleanAppend(a[1..], b, stack);
      } else {
        var k := PartLen(a);
        PartIs(a[..k], a[k..] + b);
        assert a[..k] + (a[k..] + b) == a + b;
        assert (a + b)[..k] == a[..k] && (a + b)[k..] == a[k..] + b;
        if k < NAME_MAX {
          CleanAppend(a[k..], b, Pushed(stack, a[..k]));
        }
      }
    }
  }

  /** One component more. */
  lemma CleanOne(part: string, stack: seq<string>)
    requires part != "" && '/' !in part && |stack| < DEPTH_MAX
    ensures Clean("/" + part, stack) == if |part| >= NAME_MAX then Err(Invalid) else Ok(Pushed(stack, part))
  {
    hide Clean;
    var s := "/" + part;
    assert s[1..|s|] == part && s[|s|..] == "" && s[0..] == s;
    CleanSlash(s, 0, stack);
    CleanStep(s, 1, |s|, stack);
    CleanEnd(Pushed(stack, part));
  }

  lemma CleanFull(s: string, stack: seq<string>)
    requires |stack| >= DEPTH_MAX
    ensures Clean(s, stack) == Ok(stack)
  {
  }

  lemma NormalizedBy(p: string, q: string)
    requires p != "" && p[0] == '/' && q != "" && q[0] == '/' && Clean(p, []) == Clean(q, [])
    ensures Alike(p, q)
  {
    assert Clean(p, []) == Clean(p[1..], []) && Clean(q, []) == Clean(q[1..], []);
    hide Clean;
  }

  lemma CleanRooted(p: string)
    requires Stretch(p)
    ensures Clean(Rooted(p), []) == Clean(p, [])
  {
    if p == "" {
      assert Clean("/", []) == Clean("/"[1..], []);
    }
  }

  /** Replacing a stretch by one that does the same to any components keeps what the whole text normalises to. */
  lemma Replaced(p: string, a: string, b: string, s: string)
    requires Stretch(p) && Stretch(a) && Stretch(b) && Stretch(s) && a != ""
    requires Clean(p, []).Ok? ==> Clean(a, Clean(p, []).value) == Clean(b, Clean(p, []).value)
    ensures Alike(p + a + s, Rooted(p + b + s))
  {
    hide Clean;
    CleanAppend(p, a, []);
    CleanAppend(p + a, s, []);
    CleanAppend(p, b, []);
    CleanAppend(p + b, s, []);
    CleanRooted(p + b + s);
    NormalizedBy(p + a + s, Rooted(p + b + s));
  }

  // ---- the laws ----

  /** "." stands for nothing. */
  lemma DotLaw(p: string, s: string)
    requires Stretch(p) && Stretch(s)
    ensures Alike(p + "/." + s, Rooted(p + s))
  {
    forall c: seq<string> ensures Clean("/.", c) == Clean("", c) {
      DotCleans(c);
    }
    hide Clean;
    assert p + "" + s == p + s;
    Replaced(p, "/.", "", s);
  }

  lemma DotCleans(c: seq<string>)
    ensures Clean("/.", c) == Clean("", c)
  {
    if |c| < DEPTH_MAX {
      assert "/" + "." == "/.";
      CleanOne(".", c);
    }
  }

  /** Two slashes are one; a slash at the end is none. */
  lemma SlashLaw(p: string, s: string)
    requires Stretch(p) && Stretch(s)
    ensures Alike(p + "/" + s, Rooted(p + s))
  {
    forall c: seq<string> ensures Clean("/", c) == Clean("", c) {
      assert |c| < DEPTH_MAX ==> Clean("/", c) == Clean("/"[1..], c);
    }
    hide Clean;
    assert p + "" + s == p + s;
    Replaced(p, "/", "", s);
  }

  /** ".." at the root stays there. */
  lemma RootLaw(s: string)
    requires Stretch(s)
    ensures Alike("/.." + s, Rooted(s))
  {
    assert "/" + ".." == "/..";
    CleanOne("..", []);
    CleanEnd([]);
    hide Clean;
    assert "" + "/.." + s == "/.." + s && "" + "" + s == s;
    Replaced("", "/..", "", s);
  }

  /** The text normalises to 31 components, so that the next name fills the table. */
  ghost predicate Brimming(p: string) {
    exists c :: Means(p, c) && |c| == DEPTH_MAX - 1
  }

  /** A name and the ".." after it cancel, unless the name is the 32nd component. */
  lemma UpLaw(p: string, name: string, s: string)
    requires Stretch(p) && Stretch(s) && IsName(name) && !Brimming(p)
    ensures Alike(p + "/" + name + "/.." + s, Rooted(p + s))
  {
    if Clean(p, []).Ok? {
      var c := Clean(p, []).value;
      if p != "" {
        MeansIff(p, c);
      }
      UpCleans(name, c);
    }
    hide Clean, Means;
    var a := "/" + name + "/..";
    assert p + a + s == p + "/" + name + "/.." + s && p + "" + s == p + s;
    Replaced(p, a, "", s);
  }

  lemma UpCleans(name: string, c: seq<string>)
    requires IsName(name) && |c| != DEPTH_MAX - 1
    ensures Clean("/" + name + "/..", c) == Clean("", c)
  {
    if |c| < DEPTH_MAX {
      hide Clean;
      CleanAppend("/" + name, "/..", c);
      CleanOne(name, c);
      assert "/" + ".." == "/..";
      CleanOne("..", c + [name]);
      CleanEnd(c);
    }
  }

  /** If it is the 32nd, it stays, and all that follows is ignored. */
  lemma BrimLaw(p: string, c: seq<string>, name: string, s: string)
    requires p != "" && p[0] == '/' && Means(p, c) && |c| == DEPTH_MAX - 1 && IsName(name) && Stretch(s)
    ensures Means(p + "/" + name + s, c + [name])
  {
    hide Clean, Means;
    MeansIff(p, c);
    CleanAppend(p, "/" + name, []);
    CleanOne(name, c);
    CleanAppend(p + ("/" + name), s, []);
    CleanFull(s, c + [name]);
    assert p + ("/" + name) + s == p + "/" + name + s;
    MeansIff(p + "/" + name + s, c + [name]);
  }

  /** A name and the ".." after it cancel exactly when the name is not the 32nd component. */
  lemma UpLawIff(p: string, name: string)
    requires p != "" && p[0] == '/' && IsName(name)
    ensures Alike(p + "/" + name + "/..", p) <==> !Brimming(p)
  {
    if c :| Means(p, c) && |c| == DEPTH_MAX - 1 {
      BrimLaw(p, c, name, "/..");
      Different(p + "/" + name + "/..", p, c + [name], c);
    } else {
      UpLaw(p, name, "");
      assert p + "/" + name + "/.." + "" == p + "/" + name + "/.." && p + "" == p;
    }
  }

  /** Thirty-one times "/a", then "/b/..": the b stays. */
  lemma BrimAtWork()
    ensures var p := Slashed(seq(DEPTH_MAX - 1, _ => "a"));
            Means(p + "/" + "b" + "/..", seq(DEPTH_MAX - 1, _ => "a") + ["b"]) && !Alike(p + "/" + "b" + "/..", p)
  {
    var c := seq(DEPTH_MAX - 1, _ => "a");
    hide Clean, Slashed, Means, Alike;
    assert [] + c == c && IsName("a") && IsName("b");
    CleanSlashed([], c);
    var p := Slashed(c);
    SlashedAt(c, 0);
    assert c[0..] == c;
    MeansIff(p, c);
    BrimLaw(p, c, "b", "/..");
    Different(p + "/" + "b" + "/..", p, c + ["b"], c);
  }

  lemma Different(p: string, q: string, a: seq<string>, b: seq<string>)
    requires Means(p, a) && Means(q, b) && a != b
    ensures !Alike(p, q)
  {
    if Render(a) == Render(b) {
      RenderInjective(a, b);
    }
    var room := |Render(a)| + |Render(b)| + 2;
    assert Normalized(p, room) != Normalized(q, room);
  }

  /** A text with at most 30 slashes is never that deep. */
  lemma FewSlashes(p: string)
    requires p != "" && p[0] == '/' && multiset(p)['/'] < DEPTH_MAX - 1
    ensures !Brimming(p)
  {
    forall c | Means(p, c) ensures |c| != DEPTH_MAX - 1 {
      MeansIff(p, c);
      CleanCount(p, []);
    }
  }

  /** As many components as slashes, at most. */
  lemma {:induction false} CleanCount(s: string, stack: seq<string>)
    requires Stretch(s)
    ensures Clean(s, stack).Ok? ==> |Clean(s, stack).value| <= |stack| + multiset(s)['/']
    decreases |s|
  {
    if s != "" && |stack| < DEPTH_MAX {
      hide Clean;
      Ahead(s, stack);
      var k := 1 + PartLen(s[1..]);
      assert s == s[..k] + s[k..];
      assert s[..k][0] == '/';
      assert multiset(s[..k])['/'] >= 1;
      if k == 1 || (k <= NAME_MAX && |Pushed(stack, s[1..k])| <= |stack| + 1) {
        CleanCount(s[k..], if k == 1 then stack else Pushed(stack, s[1..k]));
      }
    }
  }

  /** What the scan does with the next slash and what follows it up to the next. */
  lemma Ahead(s: string, stack: seq<string>)
    requires s != "" && s[0] == '/' && |stack| < DEPTH_MAX
    ensures var k := 1 + PartLen(s[1..]);
            && k <= |s| && Stretch(s[k..])
            && Clean(s, stack) == if k == 1 then Clean(s[k..], stack)
                                  else if k > NAME_MAX then Err(Invalid)
                                  else Clean(s[k..], Pushed(stack, s[1..k]))
  {
    hide Clean;
    var k := 1 + PartLen(s[1..]);
    assert s[0..] == s && s[1..][..k - 1] == s[1..k];
    assert k < |s| ==> s[1..][k - 1] == s[k];
    CleanSlash(s, 0, stack);
    if k > 1 {
      CleanStep(s, 1, k, stack);
    }
  }

  // ---- component by component ----

  lemma MeansIff(p: string, c: seq<string>)
    requires p != "" && p[0] == '/'
    ensures Means(p, c) <==> Clean(p, []) == Ok(c)
  {
    CleanCanonical(p, []);
    assert Clean(p, []) == Clean(p[1..], []);
    if Means(p, c) {
      var room := |Render(c)| + 2;
      assert Normalized(p, room) == Ok(Render(c));
      RenderInjective(c, Clean(p, []).value);
    }
  }

  lemma RefusedIff(p: string)
    requires p != "" && p[0] == '/'
    ensures Refused(p) <==> Clean(p, []) == Err(Invalid)
  {
    assert Clean(p, []) == Clean(p[1..], []);
    CleanErrs(p, []);
    if Clean(p, []).Ok? {
      var room := |Render(Clean(p, []).value)| + 2;
      assert Normalized(p, room).Ok?;
    }
  }

  lemma {:induction false} CleanErrs(s: string, stack: seq<string>)
    ensures Clean(s, stack).Err? ==> Clean(s, stack) == Err(Invalid)
    decreases |s|
  {
    if s != "" && |stack| < DEPTH_MAX {
      if s[0] == '/' {
        CleanErrs(s[1..], stack);
      } else if PartLen(s) < NAME_MAX {
        CleanErrs(s[PartLen(s)..], Pushed(stack, s[..PartLen(s)]));
      }
    }
  }

  /**
   What one more component makes of a path: nothing once there are 32; otherwise one too long is an error, "." adds
   nothing, ".." takes the last component away if there is one, and a name is added.
   */
  lemma ComponentLaw(p: string, c: seq<string>, part: string)
    requires p != "" && p[0] == '/' && Means(p, c) && part != "" && '/' !in part
    ensures |c| == DEPTH_MAX ==> Means(p + "/" + part, c)
    ensures |c| < DEPTH_MAX && |part| >= NAME_MAX ==> Refused(p + "/" + part)
    ensures |c| < DEPTH_MAX && part == "." ==> Means(p + "/" + part, c)
    ensures part == ".." && |c| < DEPTH_MAX ==> Means(p + "/" + part, if c == [] then [] else c[..|c| - 1])
    ensures |c| < DEPTH_MAX && IsName(part) ==> Means(p + "/" + part, c + [part])
  {
    hide Clean, Means;
    MeansIff(p, c);
    var q := p + "/" + part;
    CleanAppend(p, "/" + part, []);
    assert p + ("/" + part) == q;
    CleanFullOr("/" + part, c);
    if |c| < DEPTH_MAX {
      CleanOne(part, c);
    }
    MeansIff(q, c);
    MeansIff(q, c + [part]);
    MeansIff(q, if c == [] then [] else c[..|c| - 1]);
    RefusedIff(q);
    MeansCanonical(p, c);
  }

  lemma MeansCanonical(p: string, c: seq<string>)
    requires Means(p, c)
    ensures |c| <= DEPTH_MAX
  {
  }

  lemma CleanFullOr(s: string, c: seq<string>)
    ensures |c| >= DEPTH_MAX ==> Clean(s, c) == Ok(c)
  {
  }

  /** Every text that starts with a slash is refused or means some components; the root means none. */
  lemma MeansSomething(p: string)
    requires p != "" && p[0] == '/'
    ensures Refused(p) || exists c :: Means(p, c)
    ensures Means("/", [])
  {
    hide Clean, Means, Refused;
    RefusedIff(p);
    CleanErrs(p, []);
    if Clean(p, []).Ok? {
      MeansIff(p, Clean(p, []).value);
    }
    CleanRooted("");
    CleanEnd([]);
    MeansIff("/", []);
  }

  // ---- lengths ----

  /** Normalising never makes a text longer. */
  lemma NeverLonger(p: string, c: seq<string>)
    requires p != "" && p[0] == '/' && Means(p, c)
    ensures |Render(c)| <= |p|
  {
    MeansIff(p, c);
    CleanLength(p, []);
  }

  lemma {:induction false} CleanLength(s: string, stack: seq<string>)
    requires Stretch(s)
    ensures Clean(s, stack).Ok? ==> |Slashed(Clean(s, stack).value)| <= |Slashed(stack)| + |s|
    decreases |s|
  {
    if s != "" && |stack| < DEPTH_MAX {
      hide Clean, Slashed;
      Ahead(s, stack);
      var k := 1 + PartLen(s[1..]);
      if k == 1 {
        CleanLength(s[k..], stack);
      } else if k <= NAME_MAX {
        PushedLength(stack, s[1..k]);
        CleanLength(s[k..], Pushed(stack, s[1..k]));
      }
    }
  }

  lemma PushedLength(stack: seq<string>, part: string)
    ensures |Slashed(Pushed(stack, part))| <= |Slashed(stack)| + 1 + |part|
  {
    SlashedSnoc(stack, part);
    if stack != [] {
      var n := |stack| - 1;
      assert stack == stack[..n] + [stack[n]];
      SlashedSnoc(stack[..n], stack[n]);
    }
  }
}
