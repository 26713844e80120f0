/** Concrete cases of the planner's pieces on small inputs. */
module Scenarios {
  import opened PathNames
  import opened Rename

  lemma SplitOfTxt()
    ensures Stem("a.txt") == "a" && Suffix("a.txt") == ".txt"
  {
    assert LastDot("a.txt") == 1 by {
      assert "a.txt"[..4] == "a.tx" && "a.tx"[..3] == "a.t" && "a.t"[..2] == "a.";
    }
  }

  /** A dot that starts or ends the name opens no suffix. */
  lemma SplitOfDotNames()
    ensures Stem(".bashrc") == ".bashrc" && Suffix(".bashrc") == ""
    ensures Stem("a.") == "a." && Suffix("a.") == ""
  {
    assert LastDot(".bashrc") == 0 by {
      assert LastDot(".") == 0;
      assert ".b"[..1] == "." && LastDot(".b") == 0;
      assert ".ba"[..2] == ".b" && LastDot(".ba") == 0;
      assert ".bas"[..3] == ".ba" && LastDot(".bas") == 0;
      assert ".bash"[..4] == ".bas" && LastDot(".bash") == 0;
      assert ".bashr"[..5] == ".bash" && LastDot(".bashr") == 0;
      assert ".bashrc"[..6] == ".bashr";
    }
    assert LastDot("a.") == 1;
  }

  /** An absent name is kept as it is. */
  lemma FreeNameKept()
    ensures UniquePath("dest", "a.txt", {}) == FsPath("dest", "a.txt")
  {
    UniqueKeepsFreeName("dest", "a.txt", {});
  }

  /** `a.txt` present: the first counter is used. */
  lemma FirstSuffix()
    ensures UniquePath("dest", "a.txt", {"a.txt"}) == FsPath("dest", "a_1.txt")
  {
    var existing := {"a.txt"};
    SplitOfTxt();
    assert Decimal(1) == "1";
    assert Candidate("a.txt", 1) == "a_1.txt";
    assert FirstFree("a.txt", existing) == 1 by {
      assert FirstFreeFrom("a.txt", existing, 1) == 1;
    }
  }

  /** `a.txt` and `a_1.txt` present: the second counter is used, and the
      suffix is not stacked onto the previous candidate (`a_1_2.txt`). */
  lemma SecondSuffixNotStacked()
    ensures UniquePath("dest", "a.txt", {"a.txt", "a_1.txt"}) == FsPath("dest", "a_2.txt")
  {
    var existing := {"a.txt", "a_1.txt"};
    SplitOfTxt();
    assert Decimal(1) == "1" && Decimal(2) == "2";
    assert Candidate("a.txt", 1) == "a_1.txt";
    assert Candidate("a.txt", 2) == "a_2.txt";
    assert FirstFreeFrom("a.txt", existing, 2) == 2;
    assert FirstFreeFrom("a.txt", existing, 1) == 2;
  }

  /** Two files in different sub-directories with the same substituted name
      are planned onto one destination path, since the destination is checked
      against the directory as it was before any move. */
  lemma SameNameCollides()
    ensures var entries := [Entry(FsPath("src/x", "a.txt"), true), Entry(FsPath("src/y", "a.txt"), true)];
      var plan := Planned(CollectFiles(entries, n => true), "dest", {}, n => n);
      |plan| == 2 && plan[0].dest == plan[1].dest == FsPath("dest", "a.txt")
  {
    var entries := [Entry(FsPath("src/x", "a.txt"), true), Entry(FsPath("src/y", "a.txt"), true)];
    var files := CollectFiles(entries, n => true);
    assert entries[1..][1..] == [];
    assert files == [FsPath("src/x", "a.txt"), FsPath("src/y", "a.txt")];
    FreeNameKept();
  }

  /** Even distinct substituted names can collide: with `a.txt` present, a
      file renamed to `a.txt` is sent to `a_1.txt`, and so is a file renamed
      to `a_1.txt` itself. */
  lemma DistinctNamesCollide()
    ensures var entries := [Entry(FsPath("src", "a.txt"), true), Entry(FsPath("src", "a_1.txt"), true)];
      var plan := Planned(CollectFiles(entries, n => true), "dest", {"a.txt"}, n => n);
      |plan| == 2 && plan[0].dest == plan[1].dest == FsPath("dest", "a_1.txt")
  {
    var entries := [Entry(FsPath("src", "a.txt"), true), Entry(FsPath("src", "a_1.txt"), true)];
    var files := CollectFiles(entries, n => true);
    assert entries[1..][1..] == [];
    assert files == [FsPath("src", "a.txt"), FsPath("src", "a_1.txt")];
    FirstSuffix();
    UniqueKeepsFreeName("dest", "a_1.txt", {"a.txt"});
  }

  /** Directories and names the pattern does not match are not collected. */
  lemma OnlyMatchingFiles()
    ensures var entries := [Entry(FsPath("src", "img1.jpg"), true), Entry(FsPath("src", "doc.txt"), true),
                            Entry(FsPath("src", "img2"), false)];
      CollectFiles(entries, n => |n| >= 3 && n[..3] == "img") == [FsPath("src", "img1.jpg")]
  {
    var entries := [Entry(FsPath("src", "img1.jpg"), true), Entry(FsPath("src", "doc.txt"), true),
                    Entry(FsPath("src", "img2"), false)];
    assert entries[1..][1..][1..] == [];
    assert "doc.txt"[..3] == "doc";
  }
}
