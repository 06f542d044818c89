/**
 Which paths an image may name (kernel/vfs_path_util.c, peakfs_path_allowed_for_profile), said of the components a
 path normalises to: an allowed text never leads out of the persistent namespaces.
 */
module PeakFsPaths {
  import opened VfsPath
  import opened VfsLaws
  import opened VfsTree
  import opened PeakImage
  import Fs = PeakFs

  /** What a profile may save: nothing, the home directories, or all three namespaces. */
  predicate InProfile(c: Path, profile: int) {
    profile > 0 && (["home"] <= c || (profile != 1 && (["etc", "peak"] <= c || ["var", "peak"] <= c)))
  }

  /** Without ".." components a text only adds to what is there. */
  lemma {:induction false} OnlyGrows(s: string, stack: seq<string>)
    requires Stretch(s) && forall i :: 0 <= i < |s| ==> !DotDotAt(s, i)
    ensures Clean(s, stack).Ok? ==> stack <= Clean(s, stack).value
    decreases |s|
  {
    if s != "" && |stack| < DEPTH_MAX {
      hide Clean;
      Ahead(s, stack);
      var k := 1 + PartLen(s[1..]);
      NoDotsBehind(s, k);
      if k == 1 {
        OnlyGrows(s[k..], stack);
      } else if k <= NAME_MAX {
        UpIsSeen(s, k);
        OnlyGrows(s[k..], Pushed(stack, s[1..k]));
      }
    } else {
      Finished(s, stack);
    }
  }

  lemma UpIsSeen(s: string, k: nat)
    requires 0 < k <= |s| && s[0] == '/' && Stretch(s[k..])
    ensures s[1..k] == ".." ==> DotDotAt(s, 1)
  {
    if s[1..k] == ".." {
      assert s[1] == s[1..k][0] && s[2] == s[1..k][1];
    }
  }

  lemma NoDotsBehind(s: string, k: nat)
    requires k <= |s| && Stretch(s[k..]) && forall i :: 0 <= i < |s| ==> !DotDotAt(s, i)
    ensures forall i :: 0 <= i < |s[k..]| ==> !DotDotAt(s[k..], i)
  {
    forall i | 0 <= i < |s[k..]| ensures !DotDotAt(s[k..], i) {
      assert !DotDotAt(s, k + i);
    }
  }

  /** A text under a directory normalises to a path under it, if it has no ".." component. */
  lemma UnderStays(s: string, root: Path, c: Path)
    requires Canonical(root) && root != [] && Under(s, Slashed(root)) && Means(s, c)
    requires forall i :: 0 <= i < |s| ==> !DotDotAt(s, i)
    ensures root <= c
  {
    var r := Slashed(root);
    var rest := s[|r|..];
    assert s == r + rest;
    Fs.SlashedFirst(root);
    NoDotsBehind(s, |r|);
    hide Clean, Means, DotDotAt;
    MeansIff(s, c);
    CleanAppend(r, rest, []);
    assert [] + root == root;
    CleanSlashed([], root);
    OnlyGrows(rest, root);
  }

  /** An allowed text that normalises leads into the profile's namespaces. */
  lemma AllowedStays(s: string, profile: int, c: Path)
    requires Allowed(s, profile) && Means(s, c)
    ensures InProfile(c, profile)
  {
    hide Means, DotDotAt, Under;
    Fs.RootTexts();
    if Under(s, "/home") {
      UnderStays(s, Fs.Home(), c);
    } else if Under(s, "/etc/peak") {
      UnderStays(s, Fs.Etc(), c);
    } else {
      UnderStays(s, Fs.Var(), c);
    }
  }

  /** A canonical path is allowed exactly when it lies there. */
  lemma AllowedIff(c: Path, profile: int)
    requires Canonical(c) && c != []
    ensures Allowed(Render(c), profile) <==> InProfile(c, profile)
  {
    hide DotDotAt, Under, Slashed, Clean;
    Fs.RootTexts();
    forall i | 0 <= i < |Render(c)| ensures !DotDotAt(Render(c), i) {
      Fs.NoDots(c, i);
    }
    Fs.SlashedFirst(c);
    if Allowed(Render(c), profile) {
      CleanSlashed([], c);
      assert [] + c == c;
      MeansIff(Render(c), c);
      AllowedStays(Render(c), profile, c);
    }
    if InProfile(c, profile) {
      var root := if Fs.Home() <= c then Fs.Home() else if Fs.Etc() <= c then Fs.Etc() else Fs.Var();
      Fs.UnderRoot(root, c);
    }
  }
}
