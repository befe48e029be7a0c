/**
 * Worked examples of one upload and the searches over it, computed from the
 * definitions of the model.
 */
module Scenarios {
  import opened Wrappers
  import opened Strings
  import opened Paths
  import opened FileIndex
  import opened FileTree
  import opened Ingestion
  import opened Search
  import opened SearchFlow
  import opened Sessions

  /** A two-segment path without empty segments splits into those two segments. */
  lemma SegmentsOfTwo(a: string, b: string)
    requires a != "" && b != "" && '/' !in a && '/' !in b
    ensures Segments(a + "/" + b) == [a, b]
  {
    assert [a, b][..1] == [a];
    assert Join([a, b], "/") == a + "/" + b;
    SplitJoin([a, b], '/');
    NonEmptyKeepsAll([a, b]);
  }

  /** The archive of the example: two code files in `src` and a file with an extension that is not kept. */
  function ArchiveA(): seq<ArchiveEntry>
  {
    [EntryA1(), EntryA2(), EntryA3()]
  }

  function EntryA1(): ArchiveEntry { ArchiveEntry("src/a.ts", false, Some("foo")) }
  function EntryA2(): ArchiveEntry { ArchiveEntry("src/b.md", false, Some("bar")) }
  function EntryA3(): ArchiveEntry { ArchiveEntry("README.exe", false, Some("binary")) }

  /** The state after the first file. */
  function WorkspaceA1(): Workspace
  {
    Workspace([IndexEntry("src/a.ts", "foo")], TreeA1())
  }

  /** The index the example builds. */
  function IndexA(): FileContents
  {
    [IndexEntry("src/a.ts", "foo"), IndexEntry("src/b.md", "bar")]
  }

  /** The tree the example builds: the root holds folder `src`, which holds files `a.ts` and `b.md`. */
  function TreeA(): seq<Node>
  {
    [ Node("root", Folder, "", Some([1])),
      Node("src", Folder, "src", Some([2, 3])),
      Node("a.ts", File, "src/a.ts", None),
      Node("b.md", File, "src/b.md", None) ]
  }

  /** The two code files are kept and the `.exe` file is not. */
  lemma KeptExample()
    ensures Kept(EntryA1()) && Kept(EntryA2()) && !Kept(EntryA3())
  {
    assert EndsWith("src/a.ts", ".ts");
    assert EndsWith("src/b.md", ".md");
    forall ext | ext in CodeFileExtensions
      ensures !EndsWith("README.exe", ext)
    {
    }
  }

  /** The tree after the first file. */
  function TreeA1(): seq<Node>
  {
    [ Node("root", Folder, "", Some([1])),
      Node("src", Folder, "src", Some([2])),
      Node("a.ts", File, "src/a.ts", None) ]
  }

  /** Into a bare root, `src/a.ts` attaches folder `src` and file `a.ts` below it. */
  lemma FirstInsertExample()
    ensures Insert([Root()], ["src", "a.ts"]) == TreeA1()
  {
    var t0 := [Root()];
    var p1 := ["src", "a.ts"];
    assert Walk(t0, p1) == (0, 0);
    assert p1[..1] == ["src"] && p1[..2] == p1;
    assert Join(["src"], "/") == "src";
    var n0 := NewNode(p1, 0);
    assert n0 == Node("src", Folder, "src", Some([]));
    var a := AddChild(t0, 0, n0);
    assert t0[0].children.value + [|t0|] == [1];
    assert a == [Node("root", Folder, "", Some([1])), n0];
    var n1 := NewNode(p1, 1);
    assert n1 == TreeA1()[2];
    assert Attach(t0, 0, p1, 0, 1) == a;
    assert a[1].children.value + [|a|] == [2];
    assert AddChild(a, 1, n1) == TreeA1();
    assert Attach(t0, 0, p1, 0, 2) == AddChild(a, 1, n1);
  }

  /** `src/b.md` then finds folder `src` and attaches only file `b.md`, after `a.ts`. */
  lemma SecondInsertExample()
    ensures Insert(TreeA1(), ["src", "b.md"]) == TreeA()
  {
    var t1 := TreeA1();
    var p2 := ["src", "b.md"];
    assert ChildNamed(t1, 0, "src") == Some(1);
    assert ChildNamed(t1, 1, "b.md") == None by {
      assert "a.ts"[0] != "b.md"[0];
    }
    assert Walk(t1, p2) == (1, 1);
    assert p2[..2] == p2;
    assert NewNode(p2, 1) == TreeA()[3];
    assert [2] + [3] == [2, 3];
  }

  /** The first file goes into the empty index and the bare tree. */
  lemma AbsorbFirstExample()
    ensures Absorb(Fresh(), EntryA1()) == Success(WorkspaceA1())
  {
    KeptExample();
    SegmentsOfTwo("src", "a.ts");
    FirstInsertExample();
    assert Put(Fresh().contents, "src/a.ts", "foo") == [IndexEntry("src/a.ts", "foo")];
  }

  /** The second file is a new key, after the first, and a new node under `src`. */
  lemma AbsorbSecondExample()
    ensures Absorb(WorkspaceA1(), EntryA2()) == Success(Workspace(IndexA(), TreeA()))
  {
    KeptExample();
    SegmentsOfTwo("src", "b.md");
    SecondInsertExample();
    PutExample();
  }

  /** Writing a new key puts it after the existing one. */
  lemma PutExample()
    ensures Put([IndexEntry("src/a.ts", "foo")], "src/b.md", "bar") == IndexA()
  {
    assert "src/a.ts"[4] != "src/b.md"[4];
    assert [IndexEntry("src/a.ts", "foo")][1..] == [];
  }

  /** The `.exe` file is skipped. */
  lemma AbsorbThirdExample()
    ensures Absorb(Workspace(IndexA(), TreeA()), EntryA3()) == Success(Workspace(IndexA(), TreeA()))
  {
    KeptExample();
  }

  /** After the first entry, the index holds `src/a.ts` and the tree its two nodes. */
  lemma UploadFirstExample()
    ensures Ingest([EntryA1()]) == Success(WorkspaceA1())
  {
    AbsorbFirstExample();
    IngestSnoc([], EntryA1());
    assert [] + [EntryA1()] == [EntryA1()];
  }

  /** After the second entry, the index and the tree are complete. */
  lemma UploadSecondExample()
    ensures Ingest([EntryA1(), EntryA2()]) == Success(Workspace(IndexA(), TreeA()))
  {
    UploadFirstExample();
    AbsorbSecondExample();
    IngestSnoc([EntryA1()], EntryA2());
    assert [EntryA1()] + [EntryA2()] == [EntryA1(), EntryA2()];
  }

  /** Uploading the example archive keeps the two code files, in order, and builds `root/src/{a.ts, b.md}`. */
  lemma UploadExample()
    ensures Ingest(ArchiveA()) == Success(Workspace(IndexA(), TreeA()))
  {
    UploadSecondExample();
    AbsorbThirdExample();
    IngestSnoc([EntryA1(), EntryA2()], EntryA3());
    assert [EntryA1(), EntryA2()] + [EntryA3()] == ArchiveA();
  }

  /** Of the example index, only `src/a.ts` contains "foo". */
  lemma MatchingExample()
    ensures Matching(IndexA(), "foo") == [IndexEntry("src/a.ts", "foo")]
  {
    assert Lower("foo") == "foo";
    assert Lower("bar") == "bar";
    assert StartsWith("foo", "foo");
    assert !Includes("bar", "foo") by {
      assert "bar"[..3][0] != "foo"[0];
      assert "bar"[1..] == "ar";
      IncludesShorter("ar", "foo");
    }
    assert IndexA()[..1] == [IndexEntry("src/a.ts", "foo")];
    assert IndexA()[..1][..0] == [];
  }

  /** Searching the example index for "foo" sends exactly the one matching file, formatted. */
  lemma SearchExample(prompt: Prompt)
    ensures Snippet(IndexA(), "foo") == "File: src/a.ts\n\nfoo"
    ensures RunSearch(IndexA(), "foo", prompt).value.sent == Some(SearchInput("foo", "File: src/a.ts\n\nfoo"))
  {
    MatchingExample();
    assert Format(IndexEntry("src/a.ts", "foo")) == "File: src/a.ts\n\nfoo";
    assert Blocks([IndexEntry("src/a.ts", "foo")]) == ["File: src/a.ts\n\nfoo"];
  }

  /** A query no file contains gets the fixed answer without asking the model. */
  lemma NoMatchExample(prompt: Prompt)
    ensures RunSearch(IndexA(), "zzz", prompt) == Some(SearchOutcome(NoRelevantCode, "Search Result", None))
  {
    assert Lower("zzz") == "zzz";
    assert Lower("foo") == "foo";
    assert Lower("bar") == "bar";
    assert !Includes("foo", "zzz") by {
      assert "foo"[..3][0] != "zzz"[0];
      assert "foo"[1..] == "oo";
      IncludesShorter("oo", "zzz");
    }
    assert !Includes("bar", "zzz") by {
      assert "bar"[..3][0] != "zzz"[0];
      assert "bar"[1..] == "ar";
      IncludesShorter("ar", "zzz");
    }
    SnippetEmptyIff(IndexA(), "zzz");
  }

  /** A tree holding only the file `a.ts`. */
  function TreeB(): seq<Node>
  {
    [Node("root", Folder, "", Some([1])), Node("a.ts", File, "a.ts", None)]
  }

  /** A path that runs through the file `a.ts` is dropped: the tree does not change and the path has no node. */
  lemma BlockedExample()
    ensures Insert(TreeB(), ["a.ts", "b.ts"]) == TreeB()
    ensures Lookup(TreeB(), ["a.ts", "b.ts"]) == None
  {
    assert ChildNamed(TreeB(), 0, "a.ts") == Some(1);
    assert Walk(TreeB(), ["a.ts", "b.ts"]) == (1, 1);
  }

  /** A leading `/` is dropped from the segments, so the tree node for `/a.ts` has path `a.ts`. */
  lemma LeadingSlashExample()
    ensures Segments("/a.ts") == ["a.ts"]
    ensures Join(Segments("/a.ts"), "/") == "a.ts"
  {
    assert "/a.ts" == "" + "/" + "a.ts";
    assert Join(["", "a.ts"], "/") == "/a.ts" by {
      assert ["", "a.ts"][..1] == [""];
    }
    SplitJoin(["", "a.ts"], '/');
    assert NonEmpty(["", "a.ts"]) == ["a.ts"] by {
      assert ["", "a.ts"][..1] == [""];
      assert [""][..0] == [];
    }
  }

  /** A one-segment path inserted into the bare root becomes a file node under the root, with the segment as its path. */
  lemma InsertOneIntoRoot(name: string)
    ensures Insert([Root()], [name]) == [Node("root", Folder, "", Some([1])), Node(name, File, name, None)]
  {
    var t0 := [Root()];
    var p := [name];
    assert Walk(t0, p) == (0, 0);
    assert p[..1] == p;
    var n0 := NewNode(p, 0);
    assert n0 == Node(name, File, name, None);
    assert t0[0].children.value + [|t0|] == [1];
    assert Attach(t0, 0, p, 0, 1) == AddChild(t0, 0, n0);
  }

  /** Inserting `/a.ts` into the bare root creates the file node `a.ts` whose path is `a.ts`, not `/a.ts`. */
  lemma LeadingSlashNodeExample()
    ensures Insert([Root()], Segments("/a.ts")) == TreeB()
  {
    LeadingSlashExample();
    InsertOneIntoRoot("a.ts");
  }

  /** Opening the tree path `a.ts` does not find the index key `/a.ts`. */
  lemma LeadingSlashSelectExample()
    ensures SelectedContent([IndexEntry("/a.ts", "x")], "a.ts") == ErrorReadingFile
  {
    assert "/a.ts"[0] != "a.ts"[0];
  }
}
