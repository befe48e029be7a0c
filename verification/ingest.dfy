/**
 * What one upload builds from an archive (`handleFileUpload` in
 * CodePilotAI.tsx): the entries are visited in enumeration order, the kept
 * ones are written into the file index and inserted into the tree, and a
 * read failure aborts the whole upload.
 */
module Ingestion {
  import opened Wrappers
  import opened Strings
  import opened Paths
  import opened FileIndex
  import opened FileTree
  import opened TreeLaws

  /**
   * One member of `zip.files`: its path, whether it is a directory, and its
   * text (None when `file.async("text")` rejects).
   */
  datatype ArchiveEntry = ArchiveEntry(path: string, dir: bool, text: Option<string>)

  /** Why an upload is abandoned. */
  datatype UploadError =
    | Undecodable          // `JSZip.loadAsync` rejects the file
    | ReadFailed(path: string)

  /** The index and the tree an upload installs. */
  datatype Workspace = Workspace(contents: FileContents, tree: seq<Node>)

  /** The entry is not a directory and its path ends with one of the listed extensions. */
  predicate Kept(e: ArchiveEntry)
  {
    !e.dir && HasCodeExtension(e.path)
  }

  /** `zip.files` is an object keyed by path, so no two entries share one. */
  predicate DistinctPaths(entries: seq<ArchiveEntry>)
  {
    forall i, j :: 0 <= i < j < |entries| ==> entries[i].path != entries[j].path
  }

  /** An empty index and a tree that is only the root. */
  function Fresh(): Workspace
  {
    Workspace(Empty(), [Root()])
  }

  /** One iteration of the upload loop. */
  function Absorb(u: Workspace, e: ArchiveEntry): (r: Result<Workspace, UploadError>)
    requires Closed(u.tree) && |u.tree| > 0
    ensures r.Failure? <==> Kept(e) && e.text.None?
    ensures r.Success? ==> Closed(r.value.tree) && |r.value.tree| > 0
  {
    if !Kept(e) then Success(u)
    else
      match e.text
      case None => Failure(ReadFailed(e.path))
      case Some(t) =>
        InsertClosed(u.tree, Segments(e.path));
        Success(Workspace(Put(u.contents, e.path, t), Insert(u.tree, Segments(e.path))))
  }

  /** The upload loop over `entries`, stopping at the first read failure. */
  function Ingest(entries: seq<ArchiveEntry>): (r: Result<Workspace, UploadError>)
    ensures r.Success? ==> Closed(r.value.tree) && |r.value.tree| > 0
  {
    if entries == [] then Success(Fresh())
    else
      match Ingest(entries[..|entries| - 1])
      case Failure(err) => Failure(err)
      case Success(u) => Absorb(u, entries[|entries| - 1])
  }

  /** The upload of one more entry continues from the upload of the ones before it. */
  lemma IngestSnoc(entries: seq<ArchiveEntry>, e: ArchiveEntry)
    ensures Ingest(entries + [e]) ==
      match Ingest(entries)
      case Failure(err) => Failure(err)
      case Success(u) => Absorb(u, e)
  {
    assert (entries + [e])[..|entries|] == entries;
  }

  /** Entry `i` continues the upload from the state the entries before it left. */
  lemma IngestStep(entries: seq<ArchiveEntry>, i: nat, u: Workspace)
    requires i < |entries| && Ingest(entries[..i]) == Success(u)
    ensures Closed(u.tree) && |u.tree| > 0
    ensures Ingest(entries[..i + 1]) == Absorb(u, entries[i])
  {
    IngestSnoc(entries[..i], entries[i]);
    assert entries[..i] + [entries[i]] == entries[..i + 1];
  }

  /** The paths of the kept entries, in archive order. */
  function KeptPaths(entries: seq<ArchiveEntry>): (r: seq<string>)
    ensures forall p :: p in r <==> exists i :: 0 <= i < |entries| && Kept(entries[i]) && entries[i].path == p
  {
    if entries == [] then []
    else
      var init := entries[..|entries| - 1];
      var last := entries[|entries| - 1];
      assert forall i :: 0 <= i < |init| ==> init[i] == entries[i];
      KeptPaths(init) + (if Kept(last) then [last.path] else [])
  }

  // ---------------------------------------------------------------------------
  // Failure

  /** The upload fails exactly when some kept entry cannot be read, and then it names the first such entry. */
  lemma {:induction false} IngestFailsIff(entries: seq<ArchiveEntry>)
    ensures Ingest(entries).Failure? <==> exists i :: 0 <= i < |entries| && Kept(entries[i]) && entries[i].text.None?
    ensures Ingest(entries).Failure? ==>
      exists i :: 0 <= i < |entries| && Kept(entries[i]) && entries[i].text.None?
        && Ingest(entries).error == ReadFailed(entries[i].path)
        && forall j :: 0 <= j < i ==> !(Kept(entries[j]) && entries[j].text.None?)
  {
    if entries != [] {
      var init := entries[..|entries| - 1];
      assert forall i :: 0 <= i < |init| ==> init[i] == entries[i];
      IngestFailsIff(init);
    }
  }

  /** One kept entry that cannot be read makes the whole upload fail. */
  lemma IngestFailsAt(entries: seq<ArchiveEntry>, i: nat)
    requires i < |entries| && Kept(entries[i]) && entries[i].text.None?
    ensures Ingest(entries).Failure?
  {
    IngestFailsIff(entries);
  }

  /** A prefix of a successful upload succeeds too. */
  lemma {:induction false} IngestPrefix(entries: seq<ArchiveEntry>, k: nat)
    requires k <= |entries| && Ingest(entries).Success?
    ensures Ingest(entries[..k]).Success?
    decreases |entries|
  {
    if k < |entries| {
      var init := entries[..|entries| - 1];
      assert Ingest(init).Success?;
      assert init[..k] == entries[..k];
      IngestPrefix(init, k);
    } else {
      assert entries[..k] == entries;
    }
  }

  // ---------------------------------------------------------------------------
  // The index

  /** The index keys are the kept paths, unmodified and in archive order. */
  lemma {:induction false} IngestKeys(entries: seq<ArchiveEntry>)
    requires DistinctPaths(entries) && Ingest(entries).Success?
    ensures Keys(Ingest(entries).value.contents) == KeptPaths(entries)
  {
    if entries != [] {
      var init := entries[..|entries| - 1];
      var last := entries[|entries| - 1];
      assert forall i :: 0 <= i < |init| ==> init[i] == entries[i];
      IngestKeys(init);
      if Kept(last) {
        GetKeys(Ingest(init).value.contents, last.path);
      }
    }
  }

  /** Every kept entry's path reads back that entry's text. */
  lemma IngestContent(entries: seq<ArchiveEntry>)
    requires DistinctPaths(entries) && Ingest(entries).Success?
    ensures forall i :: 0 <= i < |entries| && Kept(entries[i]) ==>
      Get(Ingest(entries).value.contents, entries[i].path) == entries[i].text
  {
    forall i | 0 <= i < |entries| && Kept(entries[i])
      ensures Get(Ingest(entries).value.contents, entries[i].path) == entries[i].text
    {
      IngestContentAt(entries, i);
    }
  }

  /** The kept entry at `i` reads back its text. */
  lemma {:induction false} IngestContentAt(entries: seq<ArchiveEntry>, i: nat)
    requires DistinctPaths(entries) && Ingest(entries).Success?
    requires i < |entries| && Kept(entries[i])
    ensures Get(Ingest(entries).value.contents, entries[i].path) == entries[i].text
  {
    var init := entries[..|entries| - 1];
    var last := entries[|entries| - 1];
    var d := Ingest(init).value.contents;
    if i == |entries| - 1 {
      PutGet(d, last.path, last.text.value, last.path);
    } else {
      assert init[i] == entries[i];
      IngestContentAt(init, i);
      if Kept(last) {
        PutGet(d, last.path, last.text.value, entries[i].path);
      }
    }
  }

  /** A path is in the index exactly when a kept entry has it. */
  lemma IngestIndexed(entries: seq<ArchiveEntry>, p: string)
    requires DistinctPaths(entries) && Ingest(entries).Success?
    ensures Get(Ingest(entries).value.contents, p).Some? <==>
      exists i :: 0 <= i < |entries| && Kept(entries[i]) && entries[i].path == p
  {
    IngestKeys(entries);
    GetKeys(Ingest(entries).value.contents, p);
  }

  // ---------------------------------------------------------------------------
  // The tree

  /** The tree of a successful upload is well formed. */
  lemma {:induction false} IngestValid(entries: seq<ArchiveEntry>)
    requires Ingest(entries).Success?
    ensures Valid(Ingest(entries).value.tree)
  {
    if entries == [] {
      RootValid();
    } else {
      var init := entries[..|entries| - 1];
      IngestValid(init);
      var last := entries[|entries| - 1];
      if Kept(last) {
        InsertValid(Ingest(init).value.tree, Segments(last.path));
      }
    }
  }

  /** Inserting one path keeps every settled path of a list settled. */
  lemma InsertKeepsAll(t: seq<Node>, parts: seq<string>, paths: seq<string>)
    requires Closed(t) && |t| > 0
    requires forall p :: p in paths ==> Settled(t, Segments(p))
    ensures Closed(Insert(t, parts))
    ensures forall p :: p in paths ==> Settled(Insert(t, parts), Segments(p))
  {
    InsertClosed(t, parts);
    forall p | p in paths
      ensures Settled(Insert(t, parts), Segments(p))
    {
      InsertKeeps(t, parts, Segments(p));
    }
  }

  /** Every kept path is settled in the tree: it has a node, or a file on its way blocked it. */
  lemma {:induction false} IngestSettles(entries: seq<ArchiveEntry>)
    requires Ingest(entries).Success?
    ensures forall p :: p in KeptPaths(entries) ==> Settled(Ingest(entries).value.tree, Segments(p))
  {
    if entries != [] {
      var init := entries[..|entries| - 1];
      var last := entries[|entries| - 1];
      IngestSettles(init);
      if Kept(last) {
        var t := Ingest(init).value.tree;
        InsertSettles(t, Segments(last.path));
        InsertKeepsAll(t, Segments(last.path), KeptPaths(init));
      }
    }
  }

  /**
   * The node found for a kept path without empty segments carries that very
   * path and is named after its last segment.
   */
  lemma IngestNodePath(entries: seq<ArchiveEntry>, i: nat)
    requires Ingest(entries).Success? && i < |entries| && Kept(entries[i]) && Normal(entries[i].path)
    requires Lookup(Ingest(entries).value.tree, Segments(entries[i].path)).Some?
    ensures var t := Ingest(entries).value.tree;
            var k := Lookup(t, Segments(entries[i].path)).value;
            var parts := Segments(entries[i].path);
            k < |t| && t[k].path == entries[i].path && parts != [] && t[k].name == parts[|parts| - 1]
  {
    var t := Ingest(entries).value.tree;
    var parts := Segments(entries[i].path);
    IngestValid(entries);
    LookupPath(t, parts);
    NormalSegments(entries[i].path);
    KeptPathSegments(entries[i].path);
  }

  /** The tree only grows: every node of an earlier stage keeps its name, kind and path, and its children stay a prefix. */
  lemma {:induction false} IngestGrows(entries: seq<ArchiveEntry>, k: nat)
    requires k <= |entries| && Ingest(entries).Success?
    ensures Ingest(entries[..k]).Success? && Extends(Ingest(entries[..k]).value.tree, Ingest(entries).value.tree)
    decreases |entries|
  {
    IngestPrefix(entries, k);
    if k == |entries| {
      assert entries[..k] == entries;
    } else {
      var init := entries[..|entries| - 1];
      var last := entries[|entries| - 1];
      assert init[..k] == entries[..k];
      IngestGrows(init, k);
      var t := Ingest(init).value.tree;
      if Kept(last) {
        InsertAppends(t, Segments(last.path));
        ExtendsTransitive(Ingest(entries[..k]).value.tree, t, Insert(t, Segments(last.path)));
      }
    }
  }

  /** Inserting any kept path again leaves the uploaded tree as it is. */
  lemma ReinsertKept(entries: seq<ArchiveEntry>, p: string)
    requires Ingest(entries).Success? && p in KeptPaths(entries)
    ensures Insert(Ingest(entries).value.tree, Segments(p)) == Ingest(entries).value.tree
  {
    IngestSettles(entries);
    InsertUnchangedIff(Ingest(entries).value.tree, Segments(p));
  }

  /** An archive with nothing to keep yields an empty index and a bare root. */
  lemma {:induction false} IngestNothingKept(entries: seq<ArchiveEntry>)
    requires forall i :: 0 <= i < |entries| ==> !Kept(entries[i])
    ensures Ingest(entries) == Success(Fresh())
  {
    if entries != [] {
      var init := entries[..|entries| - 1];
      assert forall i :: 0 <= i < |init| ==> init[i] == entries[i];
      IngestNothingKept(init);
    }
  }
}
