/**
 * The editor component's state (`CodePilotAI` in CodePilotAI.tsx) and the
 * handlers that change it: uploading an archive, opening a file, searching,
 * and the guard in front of an error-fix request. Each handler runs to
 * completion before the next; loading flags and notifications are not state
 * here.
 */
module Sessions {
  import opened Wrappers
  import opened Strings
  import opened Paths
  import opened FileIndex
  import opened FileTree
  import opened PathTreeBuilder
  import opened Ingestion
  import opened Search
  import opened SearchFlow

  /** What opening a file shows when the index has no text for it. */
  const ErrorReadingFile: string := "Error reading file."

  /** What the search shows when the model call rejects. */
  const AiUnavailable: SearchOutput :=
    SearchOutput("Error: The AI could not process the search request.",
                 "An error occurred while trying to analyze the code.")

  /** The upload's outcome: `archive` is None when the file is not a readable ZIP. */
  function UploadOutcome(archive: Option<seq<ArchiveEntry>>): (r: Result<Workspace, UploadError>)
  {
    match archive
    case None => Failure(Undecodable)
    case Some(entries) => Ingest(entries)
  }

  /** `fileContents[path] || "Error reading file."`: a missing path and an empty text both fall back. */
  function SelectedContent(d: FileContents, path: string): (r: string)
    ensures Get(d, path).Some? && Get(d, path).value != "" ==> r == Get(d, path).value
    ensures Get(d, path).None? || Get(d, path).value == "" ==> r == ErrorReadingFile
  {
    match Get(d, path)
    case Some(text) => if text != "" then text else ErrorReadingFile
    case None => ErrorReadingFile
  }

  /** What a search leaves on screen: the result record, the editor tab title, and what the model was sent. */
  datatype SearchOutcome = SearchOutcome(result: SearchOutput, title: string, sent: Option<SearchInput>)

  /** `performSearch`: None for an empty query, which returns before anything changes. */
  function RunSearch(d: FileContents, query: string, prompt: Prompt): (r: Option<SearchOutcome>)
  {
    if query == "" then None
    else
      var snippet := Snippet(d, query);
      if snippet == "" then Some(SearchOutcome(NoRelevantCode, "Search Result", None))
      else
        var run := Flow(SearchInput(query, snippet), prompt);
        match run.output
        case Success(o) => Some(SearchOutcome(o, "Search Result", run.asked))
        case Failure(_) => Some(SearchOutcome(AiUnavailable, "Search Result (Error)", run.asked))
  }

  /** `ErrorAutoFixInput` */
  datatype FixInput = FixInput(errorMessage: string, codeSnippet: string)

  /** `performErrorFix`: the request is sent only when both the message and the code are non-empty. */
  function FixRequest(errorMessage: string, errorCode: string): (r: Option<FixInput>)
  {
    if errorMessage == "" || errorCode == "" then None
    else Some(FixInput(errorMessage, errorCode))
  }

  class Session {
    var contents: FileContents
    var fileTree: Option<seq<Node>>
    var activeFile: Option<string>
    var activeContent: string
    var searchResult: Option<SearchOutput>

    /** The initial state: no archive, nothing open, no result. */
    constructor ()
      ensures contents == Empty() && fileTree == None
      ensures activeFile == None && activeContent == "" && searchResult == None
    {
      contents := Empty();
      fileTree := None;
      activeFile := None;
      activeContent := "";
      searchResult := None;
    }

    /**
     * `handleFileUpload`: build a fresh index and tree from the archive and
     * install both only when every kept entry has been read.
     */
    method Upload(archive: Option<seq<ArchiveEntry>>)
      modifies this
      ensures UploadOutcome(archive).Success? ==>
        contents == UploadOutcome(archive).value.contents && fileTree == Some(UploadOutcome(archive).value.tree)
      ensures UploadOutcome(archive).Failure? ==> contents == old(contents) && fileTree == old(fileTree)
      ensures activeFile == old(activeFile) && activeContent == old(activeContent) && searchResult == old(searchResult)
    {
      if archive.None? {
        return;
      }
      var entries := archive.value;
      var tree := new PathTree();
      var index := Empty();
      for i := 0 to |entries|
        invariant Ingest(entries[..i]) == Success(Workspace(index, tree.nodes))
        invariant unchanged(this)
      {
        IngestValid(entries[..i]);
        IngestStep(entries, i, Workspace(index, tree.nodes));
        var read := AddEntry(index, tree, entries[i]);
        if read.Failure? {
          IngestFailsAt(entries, i);
          return;
        }
        index := read.value;
      }
      assert entries[..|entries|] == entries;
      contents := index;
      fileTree := Some(tree.nodes);
    }

    /**
     * One turn of the upload loop: a kept entry has its text read into the
     * index and its path inserted into the tree; a read failure ends the upload.
     */
    method AddEntry(index: FileContents, tree: PathTree, e: ArchiveEntry) returns (r: Result<FileContents, UploadError>)
      requires Valid(tree.nodes)
      modifies tree
      ensures r.Failure? <==> Kept(e) && e.text.None?
      ensures r.Failure? ==> r == Failure(ReadFailed(e.path)) && tree.nodes == old(tree.nodes)
      ensures r.Success? ==>
        Absorb(Workspace(index, old(tree.nodes)), e) == Success(Workspace(r.value, tree.nodes)) && Valid(tree.nodes)
    {
      r := Success(index);
      if !e.dir && HasCodeExtension(e.path) {
        match e.text
        case None =>
          r := Failure(ReadFailed(e.path));
        case Some(text) =>
          r := Success(Put(index, e.path, text));
          tree.InsertPath(e.path);
      }
    }

    /** `handleFileSelect`: open the path, show its text or the fallback, and clear the search result. */
    method SelectFile(path: string)
      modifies this
      ensures activeFile == Some(path) && activeContent == SelectedContent(contents, path) && searchResult == None
      ensures contents == old(contents) && fileTree == old(fileTree)
    {
      activeFile := Some(path);
      activeContent := SelectedContent(contents, path);
      searchResult := None;
    }

    /** `performSearch`: show the outcome's result, and its code in the editor. */
    method Search(query: string, prompt: Prompt)
      modifies this
      ensures contents == old(contents) && fileTree == old(fileTree)
      ensures RunSearch(contents, query, prompt).None? ==>
        activeFile == old(activeFile) && activeContent == old(activeContent) && searchResult == old(searchResult)
      ensures RunSearch(contents, query, prompt).Some? ==>
        var o := RunSearch(contents, query, prompt).value;
        searchResult == Some(o.result) && activeFile == Some(o.title) && activeContent == o.result.relevantCode
    {
      if query == "" {
        return;
      }
      searchResult := None;
      var snippet := Snippet(contents, query);
      if snippet != "" {
        var run := Flow(SearchInput(query, snippet), prompt);
        match run.output
        case Success(result) =>
          searchResult := Some(result);
          activeFile := Some("Search Result");
          activeContent := result.relevantCode;
        case Failure(_) =>
          searchResult := Some(AiUnavailable);
          activeFile := Some("Search Result (Error)");
          activeContent := AiUnavailable.relevantCode;
      } else {
        searchResult := Some(NoRelevantCode);
        activeFile := Some("Search Result");
        activeContent := NoRelevantCode.relevantCode;
      }
    }
  }

  // ---------------------------------------------------------------------------
  // Properties across handlers

  /** An upload that fails leaves nothing of itself behind, and one fails exactly when the archive is undecodable or a kept entry cannot be read. */
  lemma UploadFailsIff(archive: Option<seq<ArchiveEntry>>)
    ensures UploadOutcome(archive).Failure? <==>
      archive.None? || exists i :: 0 <= i < |archive.value| && Kept(archive.value[i]) && archive.value[i].text.None?
  {
    if archive.Some? {
      IngestFailsIff(archive.value);
    }
  }

  /** After a successful upload, opening a kept file shows its text, unless that text is empty. */
  lemma SelectAfterUpload(entries: seq<ArchiveEntry>, i: nat)
    requires DistinctPaths(entries) && Ingest(entries).Success?
    requires i < |entries| && Kept(entries[i])
    ensures entries[i].text.Some?
    ensures var shown := SelectedContent(Ingest(entries).value.contents, entries[i].path);
            shown == if entries[i].text.value == "" then ErrorReadingFile else entries[i].text.value
  {
    IngestFailsIff(entries);
    IngestContent(entries);
  }

  /** Opening a path that is not a key of the index shows the fallback. */
  lemma SelectUnindexed(d: FileContents, path: string)
    requires path !in Keys(d)
    ensures SelectedContent(d, path) == ErrorReadingFile
  {
    GetKeys(d, path);
  }

  /** After a successful upload, opening a path no kept entry has shows the fallback. */
  lemma SelectMissing(entries: seq<ArchiveEntry>, path: string)
    requires DistinctPaths(entries) && Ingest(entries).Success?
    requires path !in KeptPaths(entries)
    ensures SelectedContent(Ingest(entries).value.contents, path) == ErrorReadingFile
  {
    IngestKeys(entries);
    SelectUnindexed(Ingest(entries).value.contents, path);
  }

  /** An empty query changes nothing; any other query always ends with a result and a tab. */
  lemma SearchRunsIff(d: FileContents, query: string, prompt: Prompt)
    ensures RunSearch(d, query, prompt).None? <==> query == ""
  {
  }

  /**
   * When nothing matches, the model is not asked and the result is the fixed
   * answer, the same record the server flow gives for an empty candidate text.
   */
  lemma SearchNoMatch(d: FileContents, query: string, prompt: Prompt)
    requires query != "" && forall e :: e in d ==> !Matches(e, query)
    ensures var o := RunSearch(d, query, prompt).value;
            o.sent == None && o.title == "Search Result" &&
            Success(o.result) == Flow(SearchInput(query, ""), prompt).output
  {
    SnippetEmptyIff(d, query);
  }

  /**
   * When some entry matches, the model is asked with the query and the
   * candidate text unchanged, and its answer (or the error record) is shown.
   */
  lemma SearchSends(d: FileContents, query: string, prompt: Prompt, e: IndexEntry)
    requires query != "" && e in d && Matches(e, query)
    ensures var o := RunSearch(d, query, prompt).value;
            && o.sent == Some(SearchInput(query, Snippet(d, query)))
            && Includes(o.sent.value.codeSnippet, Format(e))
            && (prompt(o.sent.value).Success? ==> o.result == prompt(o.sent.value).value && o.title == "Search Result")
            && (prompt(o.sent.value).Failure? ==> o.result == AiUnavailable && o.title == "Search Result (Error)")
  {
    SnippetEmptyIff(d, query);
    SnippetShowsMatch(d, query, e);
  }

  /** The fix request goes out exactly when both inputs are non-empty, and carries them unchanged. */
  lemma FixRequestIff(errorMessage: string, errorCode: string)
    ensures FixRequest(errorMessage, errorCode).Some? <==> errorMessage != "" && errorCode != ""
    ensures FixRequest(errorMessage, errorCode).Some? ==>
      FixRequest(errorMessage, errorCode).value == FixInput(errorMessage, errorCode)
  {
  }
}
