/**
 * A worked scan: a vault holding `notes/a.md`, `notes/.git/config` and
 * `readme.md` scans to the folder `notes` with its one document, then the
 * document `readme.md`; `.git` is skipped.
 */
module ScannerExample {
  import opened Fs
  import opened Scanner

  const Vault: Path := ["v"]

  function ExampleDisk(): Disk {
    Disk(
      map[["v", "notes", "a.md"] := "# A", ["v", "notes", ".git", "config"] := "", ["v", "readme.md"] := "# Read me"],
      {[], ["v"], ["v", "notes"], ["v", "notes", ".git"]},
      {},
      {})
  }

  function ExpectedTree(): seq<TreeNode> {
    [Folder("notes", ["notes"], [File("a.md", ["notes", "a.md"])]), File("readme.md", ["readme.md"])]
  }

  lemma NotesScan()
    ensures ScanOf(ExampleDisk(), Vault, ["notes"], [File("a.md", ["notes", "a.md"])])
  {
    var d := ExampleDisk();
    var items := [File("a.md", ["notes", "a.md"])];
    var dir := Vault + ["notes"];
    assert dir == ["v", "notes"];
    // `a.md` and `.git` have the same length: the file is not the directory.
    assert "a.md"[0] != ".git"[0];
    assert IsMarkdown("a.md") by {
      assert "a.md"[|"a.md"| - 3..] == ".md";
    }
    assert dir + ["a.md"] == ["v", "notes", "a.md"];
    assert NodeOk(d, Vault, ["notes"], items[0]);
    forall n | Shown(d, dir, n)
      ensures exists k :: 0 <= k < |items| && items[k].name == n
    {
      var q := dir + [n];
      assert n == q[2];
      if q in d.dirs {
        assert false;
      } else {
        assert q == ["v", "notes", "a.md"];
        assert items[0].name == n;
      }
    }
  }

  /** The example vault scans to the expected tree, and since a scan is unique, to nothing else. */
  lemma ExampleScan(items: seq<TreeNode>)
    requires ScanOf(ExampleDisk(), Vault, [], items)
    ensures items == ExpectedTree()
  {
    var d := ExampleDisk();
    var expected := ExpectedTree();
    assert Vault + [] == ["v"];
    assert IsMarkdown("readme.md") by {
      assert "readme.md"[|"readme.md"| - 3..] == ".md";
    }
    NotesScan();
    assert Vault + [] + ["notes"] == ["v", "notes"];
    assert Vault + [] + ["readme.md"] == ["v", "readme.md"];
    assert NodeOk(d, Vault, [], expected[0]);
    assert NodeOk(d, Vault, [], expected[1]);
    forall n | Shown(d, Vault + [], n)
      ensures exists k :: 0 <= k < |expected| && expected[k].name == n
    {
      var q := Vault + [n];
      assert n == q[1];
      if q in d.dirs {
        assert q == ["v", "notes"];
        assert expected[0].name == n;
      } else {
        assert q == ["v", "readme.md"];
        assert expected[1].name == n;
      }
    }
    assert Compare(expected[0], expected[1]) < 0;
    assert ScanOf(d, Vault, [], expected);
    ScanUnique(d, Vault, [], items, expected);
  }
}
