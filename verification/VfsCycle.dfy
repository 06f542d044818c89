/**
 A rename that leaves no tree (kernel/vfs.c): a directory moved below itself.
 */
module VfsCycle {
  import opened VfsPath
  import opened VfsTree
  import opened Vfs
  import opened PeakFsIo

  lemma CyclePaths()
    ensures Parts("/a", 1) == ["a"] && Parts("/a/b", 1) == ["a", "b"] && LeafOk("/a/b")
  {
    hide Parts;
    SlashedTexts();
    TextParts(["a"], "/a");
    TextParts(["a", "b"], "/a/b");
    forall last: nat | last < 4 && "/a/b"[last] == '/' && '/' !in "/a/b"[last + 1..] ensures Splits("/a/b", last) {
      assert last == 2 by {
        assert "/a/b"[1..][1] == '/';
      }
    }
  }

  lemma SlashedTexts()
    ensures Slashed(["a"]) == "/a" && Slashed(["a", "b"]) == "/a/b"
  {
    assert Slashed(["a", "b"]) == "/a" + ("/b" + "");
    assert Slashed(["a"]) == "/a" + "";
  }

  /** On a new pool /a is made and renamed to /a/b: the call succeeds, and no paths fit the links any more. */
  method RenameIntoItself() returns (p: Pool, r: Result<()>)
    ensures r.Ok? && forall paths :: !TreeOk(p.T().(path := paths))
  {
    hide TreeOk, FsOf, Parts, LeafOk;
    CyclePaths();
    p := new Pool();
    NewDir(p.Files());
    var ok := MakeDir(p, "/a");
    MadeDir(p.Files());
    r := p.Rename("/a", "/a/b");
  }

  lemma NewDir(fs: Fs)
    requires fs == map[[] := DirObj]
    ensures CanMake(fs, ["a"]) && Dirs(fs, ["a"], 1) == map[[] := DirObj, ["a"] := DirObj]
  {
    assert ["a"][..1] == ["a"];
    assert Dirs(fs, ["a"], 0) == fs;
    assert |map[[] := DirObj, ["a"] := DirObj]| <= 2;
  }

  lemma MadeDir(fs: Fs)
    requires fs == map[[] := DirObj, ["a"] := DirObj] && Parts("/a", 1) == ["a"] && Parts("/a/b", 1) == ["a", "b"]
    ensures CanRename(fs, "/a", "/a/b")
  {
    assert ["a", "b"][..1] == ["a"];
  }
}
