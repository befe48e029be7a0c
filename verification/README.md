# CodePilot AI — upload, index, tree and search, in Dafny

CodePilot AI is a browser assistant. The user uploads a zipped codebase. The
assistant shows the archive as a file tree and opens files in an editor. It
also runs a natural-language search over the code, which a language model
answers. This project models the deterministic part of that assistant and
proves its properties:

- **Upload** (`handleFileUpload`). The archive's entries are visited in
  enumeration order. An entry is kept when it is not a directory and its path
  ends with one of 15 code extensions.
  - Each kept entry is written into the *file index*, a path → text object
  whose keys keep insertion order.
  - Its path is also inserted into the *file tree*. The insertion is a trie walk
  over the path's non-empty `/`-separated segments. An existing child is found
  by name; otherwise a node is created and pushed onto the current node's
  child list.
  - The index and the tree are installed only when every kept entry has been
  read, so an upload is all or nothing.
- **Opening a file** (`handleFileSelect`) shows the indexed text. It falls back
  to `"Error reading file."` when the text is missing or empty.
- **Search** (`performSearch`), in order:
  1. An empty query does nothing.
  2. Otherwise the entries whose lower-cased text contains the lower-cased
     query are formatted as `File: <path>\n\n<text>` and joined with
     `\n\n---\n\n`.
  3. An empty result gets a fixed "not found" answer without the model being
     asked.
  4. Otherwise the query and the candidate text go to the server search flow,
     and its answer (or a fixed error record) is shown.
- **Server search flow** (`naturalLanguageCodeSearchFlow`). It gives the same
  fixed answer for an empty candidate text without calling the prompt.
  Otherwise it returns the prompt's output. The prompt is a parameter: a
  function from the input record to an output record or a failure.
- **Fix request guard** (`performErrorFix`). A request is sent only when both
  the error message and the code are non-empty.

The tree is an *arena*: a sequence of nodes in creation order. A folder's
children are indices into the arena, in push order. A file's children are
`None`, which is the source's `children: undefined`. The specification of
inserting one path is `Insert` = `Walk`, which follows existing children by
name, then `Attach`, which pushes one node per remaining segment. The class
`PathTree` performs the same walk imperatively, one `forEach` callback
(`VisitSegment`, specified by the function `Visit`) at a time, and is proved
equal to `Insert`. The loop invariant `Progress` names the three stages of an
insertion: walking existing nodes, blocked at a file, and creating nodes.
`Valid` collects the tree invariants:

- the root is a folder named `root` with path `""`;
- child indices point forward;
- only folders have child lists;
- a child of the root has its name alone as path; every other child's path is its parent's path, `/`, and its name;
- sibling names are distinct;
- no node is in two child lists, or twice in one;
- every node except the root is the child of an earlier node, so the root is
  the only node without a parent.

Modules, in dependency order:

- `Wrappers`: `Option` and `Result`.
- `Strings`: JavaScript `join`, `split`, `endsWith`, `includes` and ASCII
  `toLowerCase`.
- `Paths`: the extension allow-list and the path segments.
- `FileIndex`: the ordered path → text object.
- `FileTree`: nodes, the walk and the insertion specification.
- `TreeLaws`: the insertion invariants.
- `PathTreeBuilder`: the imperative tree.
- `Ingestion`: the upload as a fold over the entries.
- `Search`: the client pre-filter.
- `SearchFlow`: the server flow.
- `Sessions`: the component state and its handlers.
- `Scenarios`: worked examples.

## Model

Source paths are relative to the repository root. `CodePilotAI.tsx` is
`src/components/codepilot/CodePilotAI.tsx`.

| member | source | states |
|---|---|---|
| Strings.JoinSplit | src/components/codepilot/CodePilotAI.tsx:132 | joining the pieces of `split(sep)` with `sep` gives back the original string |
| Strings.JoinSnoc | src/components/codepilot/CodePilotAI.tsx:135 | joining one more element adds the separator and that element at the end |
| Strings.JoinEndsWithLast | src/components/codepilot/CodePilotAI.tsx:135 | a join ends with its last element |
| Strings.SplitJoin | src/components/codepilot/CodePilotAI.tsx:132 | splitting a join of separator-free pieces gives back exactly those pieces |
| Strings.Split | src/components/codepilot/CodePilotAI.tsx:132 | a split has at least one piece and no piece contains the separator |
| Strings.SplitSnoc | src/components/codepilot/CodePilotAI.tsx:132 | one more character other than the separator lengthens only the last piece |
| Strings.SplitExtend | src/components/codepilot/CodePilotAI.tsx:132 | separator-free text appended to a string lengthens only the last piece |
| Strings.JoinIncludes | src/components/codepilot/CodePilotAI.tsx:195 | every element of a join occurs as a substring of the joined text |
| Strings.IncludesIff | src/components/codepilot/CodePilotAI.tsx:192 | `includes` holds exactly when some position starts a copy of the query (both directions) |
| Strings.IncludesEmpty | src/components/codepilot/CodePilotAI.tsx:192 | every text includes the empty string |
| Strings.IncludesShorter | src/components/codepilot/CodePilotAI.tsx:192 | no text includes a longer one |
| Strings.IncludesInfix | src/components/codepilot/CodePilotAI.tsx:192 | a text includes every piece embedded in it |
| Strings.Lower | src/components/codepilot/CodePilotAI.tsx:192 | lower-casing keeps the length and maps each character on its own |
| Strings.LowerIdempotent | src/components/codepilot/CodePilotAI.tsx:192 | lower-casing twice equals lower-casing once |
| Paths.Segments | src/components/codepilot/CodePilotAI.tsx:132 | every segment of `split("/").filter(p => p)` is non-empty and contains no `/` |
| Paths.NonEmpty | src/components/codepilot/CodePilotAI.tsx:132 | the filter keeps only non-empty pieces and every non-empty piece, and shortens the list or keeps its length |
| Paths.NonEmptySingle | src/components/codepilot/CodePilotAI.tsx:132 | one piece is kept exactly when it is non-empty |
| Paths.NonEmptyAppend | src/components/codepilot/CodePilotAI.tsx:132 | filtering a concatenation is the concatenation of the filters, so the kept pieces keep their order and multiplicity |
| Paths.NonEmptyKeepsAll | src/components/codepilot/CodePilotAI.tsx:132 | the filter changes nothing when no piece is empty |
| Paths.ExtensionShape | src/components/codepilot/CodePilotAI.tsx:124 | every listed extension is non-empty and has no `/` |
| Paths.NormalSegments | src/components/codepilot/CodePilotAI.tsx:132-135 | for a path without empty segments, the segments are the split pieces and joining them with `/` restores the path |
| Paths.KeptPathSegments | src/components/codepilot/CodePilotAI.tsx:124-134 | a path with a listed extension has at least one segment, and its last segment (the one made a file) still ends with a listed extension |
| FileIndex.Get | src/components/codepilot/CodePilotAI.tsx:174 | `contents[path]` is undefined exactly when no key equals the path, and otherwise is the text stored under it |
| FileIndex.Put | src/components/codepilot/CodePilotAI.tsx:129 | writing a key keeps the key order, appending the key only if it was absent |
| FileIndex.PutGet | src/components/codepilot/CodePilotAI.tsx:129 | after a write the key reads back the written text and every other key reads as before |
| FileIndex.GetKeys | src/lib/types.ts:9-11 | a path reads as present exactly when it is one of the keys |
| FileIndex.PutDistinct | src/lib/types.ts:9-11 | a write keeps the keys distinct |
| FileTree.RootValid | src/components/codepilot/CodePilotAI.tsx:122 | the initial root-only tree satisfies every tree invariant |
| FileTree.FirstNamed | src/components/codepilot/CodePilotAI.tsx:136 | `find` returns a child with the wanted name, and returns none exactly when no child has that name |
| FileTree.FirstNamedIsFirst | src/components/codepilot/CodePilotAI.tsx:136 | the child `find` returns is the earliest with that name |
| FileTree.WalkFrom | src/components/codepilot/CodePilotAI.tsx:133-146 | the walk over existing nodes only moves forward, and where it stops early the next segment has no child of that name |
| FileTree.AddChild | src/components/codepilot/CodePilotAI.tsx:144 | a push adds exactly one node, at the end of the arena |
| FileTree.Attach | src/components/codepilot/CodePilotAI.tsx:137-146 | creating the remaining segments adds one node per segment, the last being the node for the final segment |
| TreeLaws.AddChildShape | src/components/codepilot/CodePilotAI.tsx:137-144 | a push keeps the root shape, and the new node has a child list exactly when it is a folder |
| TreeLaws.AddChildValid | src/components/codepilot/CodePilotAI.tsx:137-144 | pushing a new node whose name no sibling has, with the nested path, keeps every tree invariant |
| TreeLaws.AddChildKids | src/components/codepilot/CodePilotAI.tsx:144 | a push renames, re-kinds and re-paths no old node, and only the parent gains a child, at the end |
| TreeLaws.AddChildClosed | src/components/codepilot/CodePilotAI.tsx:144 | pushing a fresh node keeps child indices in range and after their parents |
| TreeLaws.AddChildPaths | src/components/codepilot/CodePilotAI.tsx:141-144 | pushing a node whose path is its name alone under the root, and otherwise its parent's path, `/` and its name, keeps every path nested |
| TreeLaws.AddChildSiblings | src/components/codepilot/CodePilotAI.tsx:136-144 | pushing a node named like no sibling keeps sibling names distinct |
| TreeLaws.AddChildSingleParent | src/components/codepilot/CodePilotAI.tsx:144 | pushing a fresh node keeps every node in at most one child list, at one position |
| TreeLaws.AddChildRooted | src/components/codepilot/CodePilotAI.tsx:144 | after a push the new node has a parent, and every old node keeps one, so the root stays the only node without a parent |
| TreeLaws.WalkReaches | src/components/codepilot/CodePilotAI.tsx:133-146 | the node where a walk stops has as path the join of the segments walked and as name the last of them |
| TreeLaws.LookupPath | src/components/codepilot/CodePilotAI.tsx:135-141 | the node found for a segment path has path = the segments joined with `/` and name = the last segment |
| TreeLaws.AttachValid | src/components/codepilot/CodePilotAI.tsx:137-146 | attaching the missing segments below where the walk stopped keeps every tree invariant |
| TreeLaws.AttachStepValid | src/components/codepilot/CodePilotAI.tsx:137-146 | if attaching up to one segment keeps the tree valid, attaching the next one does too |
| TreeLaws.AttachFirstValid | src/components/codepilot/CodePilotAI.tsx:137-144 | creating the first missing node below where the walk stopped keeps every tree invariant |
| TreeLaws.AttachNextValid | src/components/codepilot/CodePilotAI.tsx:137-146 | creating the next node below the node just created keeps every tree invariant |
| TreeLaws.AttachClosed | src/components/codepilot/CodePilotAI.tsx:137-146 | creating the remaining segments keeps child indices in range and after their parents |
| TreeLaws.AttachShape | src/components/codepilot/CodePilotAI.tsx:137-146 | the created nodes form a chain, each a folder holding the next, and only the start node gains a child |
| TreeLaws.AttachAppends | src/components/codepilot/CodePilotAI.tsx:144 | creating the remaining segments keeps every old node and appends one child to the start node only |
| TreeLaws.AttachChain | src/components/codepilot/CodePilotAI.tsx:137-146 | a complete attachment ends in a chain of created nodes ending in the file node |
| TreeLaws.ChainWalk | src/components/codepilot/CodePilotAI.tsx:136-146 | walking down a chain of created nodes reaches its end, consuming every segment |
| TreeLaws.AttachFirstChild | src/components/codepilot/CodePilotAI.tsx:136-144 | after attaching, the start node's child named after the next segment is the first created node |
| TreeLaws.AttachWalk | src/components/codepilot/CodePilotAI.tsx:133-146 | walking again after attaching consumes every segment and stops at the last created node |
| TreeLaws.AttachCreatedAt | src/components/codepilot/CodePilotAI.tsx:134-143 | any one created node is named after its segment, has the joined path up to it, and is a file exactly for the last segment |
| TreeLaws.AttachCreated | src/components/codepilot/CodePilotAI.tsx:134-143 | each created node is named after its segment, has the joined path up to it, and is a file exactly for the last segment |
| TreeLaws.InsertValid | src/components/codepilot/CodePilotAI.tsx:131-147 | inserting a path keeps unique sibling names, nested paths, kinds and single parents |
| TreeLaws.InsertClosed | src/components/codepilot/CodePilotAI.tsx:131-147 | inserting keeps child indices in range and after their parents, and the arena non-empty |
| TreeLaws.InsertAppends | src/components/codepilot/CodePilotAI.tsx:136-145 | insertion never removes, renames or re-kinds a node; no old node's child list changes except that of the node where the walk stops, which gains the first new node at its end exactly when the tree grows |
| TreeLaws.InsertNewNodes | src/components/codepilot/CodePilotAI.tsx:134-143 | the new nodes follow the segments the walk did not find, in order; each is named after its segment and has as path the segments up to it; it is a file with no children exactly for the last segment |
| TreeLaws.InsertGrows | src/components/codepilot/CodePilotAI.tsx:136-144 | the tree grows only when the walk stops at a folder before the last segment |
| TreeLaws.InsertIsAttach | src/components/codepilot/CodePilotAI.tsx:136-146 | when the walk stops at a folder before the last segment, insertion creates the remaining segments there |
| TreeLaws.InsertSettles | src/components/codepilot/CodePilotAI.tsx:131-147 | after insertion the path has a node, or the walk stops at a file |
| TreeLaws.InsertUnchangedIff | src/components/codepilot/CodePilotAI.tsx:136-146 | insertion leaves the tree unchanged exactly when the path is present or blocked by a file (both directions) |
| TreeLaws.InsertIdempotent | src/components/codepilot/CodePilotAI.tsx:136-146 | inserting the same path twice equals inserting it once |
| TreeLaws.InsertKeeps | src/components/codepilot/CodePilotAI.tsx:136-146 | inserting a path keeps every other present path at the same node, and keeps settled paths settled |
| TreeLaws.KidPath | src/components/codepilot/CodePilotAI.tsx:141 | a child comes after its parent; its path is its name alone under the root, and otherwise its parent's path, `/` and its name |
| TreeLaws.ReachedByStep | src/components/codepilot/CodePilotAI.tsx:135-146 | stepping to a child named after the next segment extends the path walked by that segment |
| TreeLaws.FirstNamedSnoc | src/components/codepilot/CodePilotAI.tsx:136 | `find` over a list whose only child with the name is the appended one returns that child |
| TreeLaws.FirstNamedExtends | src/components/codepilot/CodePilotAI.tsx:136 | `find` keeps its answer when nodes and children are only appended |
| TreeLaws.WalkExtends | src/components/codepilot/CodePilotAI.tsx:133-146 | on a tree that only grew, the walk passes through where it used to stop |
| TreeLaws.LookupExtends | src/components/codepilot/CodePilotAI.tsx:133-146 | a path found in a tree is found at the same node after the tree grows |
| TreeLaws.SettledExtends | src/components/codepilot/CodePilotAI.tsx:133-146 | a settled path stays settled when the tree grows |
| TreeLaws.ExtendsTransitive | src/components/codepilot/CodePilotAI.tsx:126-149 | growth of the tree composes across insertions |
| PathTreeBuilder.PathTree.constructor | src/components/codepilot/CodePilotAI.tsx:122 | the new tree is the root folder alone and is valid |
| PathTreeBuilder.PathTree.FindChild | src/components/codepilot/CodePilotAI.tsx:136 | the loop over a node's children returns the child `find` returns, and nothing for a file |
| PathTreeBuilder.PathTree.Push | src/components/codepilot/CodePilotAI.tsx:144 | `children.push` appends the new node's index to the parent and the node to the arena |
| PathTreeBuilder.PathTree.VisitSegment | src/components/codepilot/CodePilotAI.tsx:133-146 | one callback call updates the arena and the cursor exactly as `Visit` says: follow an existing child, push a new node under a folder, or lose the cursor |
| PathTreeBuilder.PathTree.Advance | src/components/codepilot/CodePilotAI.tsx:133-147 | one callback call moves the insertion from one stage of `Progress` to the next |
| PathTreeBuilder.PathTree.InsertPath | src/components/codepilot/CodePilotAI.tsx:131-147 | the in-place walk leaves exactly the arena `Insert` specifies, and a valid tree |
| PathTreeBuilder.ProgressDone | src/components/codepilot/CodePilotAI.tsx:133-147 | after the last segment, the arena is the one `Insert` specifies |
| PathTreeBuilder.ProgressClosed | src/components/codepilot/CodePilotAI.tsx:133-147 | in every stage the arena keeps child indices in range and the cursor points into it |
| PathTreeBuilder.VisitProgress | src/components/codepilot/CodePilotAI.tsx:133-147 | the callback on any segment moves every stage of the insertion (walking, blocked, creating) to the next |
| PathTreeBuilder.VisitWalking | src/components/codepilot/CodePilotAI.tsx:136-146 | before the walk's stopping point the callback follows the existing child, as `Walk` does |
| PathTreeBuilder.VisitStop | src/components/codepilot/CodePilotAI.tsx:137-146 | at the walk's stopping point the callback creates the first missing node, or loses the cursor at a file |
| PathTreeBuilder.VisitAttaching | src/components/codepilot/CodePilotAI.tsx:137-146 | after the first created node each callback creates the next node, as `Attach` does |
| PathTreeBuilder.VisitDetached | src/components/codepilot/CodePilotAI.tsx:144-146 | once the cursor is lost, the remaining callbacks change nothing |
| PathTreeBuilder.AttachVisit | src/components/codepilot/CodePilotAI.tsx:136-146 | below a just-created node no child has the next name, so the callback pushes the next created node |
| PathTreeBuilder.NextChildAbsent | src/components/codepilot/CodePilotAI.tsx:136 | a just-created folder has no child yet, so `find` finds nothing |
| PathTreeBuilder.NextAttach | src/components/codepilot/CodePilotAI.tsx:137-146 | pushing the next node under the last created one is the next stage of `Attach` |
| Ingestion.Absorb | src/components/codepilot/CodePilotAI.tsx:128-147 | one loop iteration fails exactly for a kept entry whose read fails |
| Ingestion.KeptPaths | src/components/codepilot/CodePilotAI.tsx:126-128 | the listed paths are exactly those of kept entries |
| Ingestion.IngestSnoc | src/components/codepilot/CodePilotAI.tsx:126-149 | the upload of one more entry continues from the upload of the entries before it |
| Ingestion.IngestStep | src/components/codepilot/CodePilotAI.tsx:126-149 | entry `i` continues the upload from the state the earlier entries left |
| Ingestion.IngestFailsAt | src/components/codepilot/CodePilotAI.tsx:129 | a kept entry whose read fails makes the whole upload fail |
| Ingestion.IngestFailsIff | src/components/codepilot/CodePilotAI.tsx:119-159 | the upload fails exactly when some kept entry cannot be read, and reports the first such entry |
| Ingestion.IngestPrefix | src/components/codepilot/CodePilotAI.tsx:126-149 | every prefix of a successful upload succeeds |
| Ingestion.IngestKeys | src/components/codepilot/CodePilotAI.tsx:126-129 | the index keys are the kept paths, unmodified, in archive order |
| Ingestion.IngestContent | src/components/codepilot/CodePilotAI.tsx:129 | every kept path reads back its entry's text |
| Ingestion.IngestContentAt | src/components/codepilot/CodePilotAI.tsx:129 | the kept entry `i`'s path reads back that entry's text |
| Ingestion.IngestIndexed | src/components/codepilot/CodePilotAI.tsx:128-129 | a path is in the index exactly when a kept entry has it (both directions) |
| Ingestion.IngestValid | src/components/codepilot/CodePilotAI.tsx:122-149 | the uploaded tree satisfies every tree invariant |
| Ingestion.IngestSettles | src/components/codepilot/CodePilotAI.tsx:126-149 | every kept path has a node in the tree or is blocked by a file on its way |
| Ingestion.IngestNodePath | src/components/codepilot/CodePilotAI.tsx:132-143 | the node found for a kept path without empty segments has that very path, and its name is the last segment |
| Ingestion.IngestGrows | src/components/codepilot/CodePilotAI.tsx:126-149 | across the upload the tree only grows: earlier nodes keep name, kind, path and child-list prefix |
| Ingestion.ReinsertKept | src/components/codepilot/CodePilotAI.tsx:136-146 | inserting any kept path again leaves the uploaded tree unchanged |
| Ingestion.IngestNothingKept | src/components/codepilot/CodePilotAI.tsx:122-128 | an archive with no kept entry yields an empty index and the root-only tree |
| Ingestion.InsertKeepsAll | src/components/codepilot/CodePilotAI.tsx:131-147 | inserting one path keeps every settled path of a list settled |
| Search.Matching | src/components/codepilot/CodePilotAI.tsx:190-193 | the filter keeps exactly the entries whose lower-cased text includes the lower-cased query |
| Search.MatchingAppend | src/components/codepilot/CodePilotAI.tsx:190-193 | filtering a concatenation is the concatenation of the filters, so the matches keep index order |
| Search.Format | src/components/codepilot/CodePilotAI.tsx:194 | every block starts with `File: ` and is non-empty |
| Search.Blocks | src/components/codepilot/CodePilotAI.tsx:194 | the map yields one formatted block per matching entry, in the same order |
| Search.MatchingEmptyQuery | src/components/codepilot/CodePilotAI.tsx:183-192 | with an empty query the filter would keep every entry, which is why the handler returns first |
| Search.SnippetEmptyIff | src/components/codepilot/CodePilotAI.tsx:190-197 | the candidate text is empty exactly when no entry matches (both directions) |
| Search.SnippetShowsMatch | src/components/codepilot/CodePilotAI.tsx:194-195 | each matching entry's block, with its path and full text, occurs in the candidate text |
| Search.MatchingIgnoresQueryCase | src/components/codepilot/CodePilotAI.tsx:192 | lower-casing the query first changes no match |
| Search.MatchesIgnoresContentCase | src/components/codepilot/CodePilotAI.tsx:192 | lower-casing a file's text first changes no match |
| SearchFlow.Flow | src/ai/flows/natural-language-code-search.ts:59-76 | the prompt is asked exactly when the candidate text is non-empty, and then with the input unchanged |
| SearchFlow.FlowCanned | src/ai/flows/natural-language-code-search.ts:66-71 | an empty candidate text gets the fixed "not found" record, whatever the prompt would answer |
| SearchFlow.FlowForwards | src/ai/flows/natural-language-code-search.ts:73-74 | a non-empty candidate text returns exactly the prompt's output |
| Sessions.SelectedContent | src/components/codepilot/CodePilotAI.tsx:174 | a stored non-empty text is shown as is; a missing path or an empty text shows `Error reading file.` |
| Sessions.Session.constructor | src/components/codepilot/CodePilotAI.tsx:94-101 | the initial state has an empty index, no tree, no open file and no result |
| Sessions.Session.Upload | src/components/codepilot/CodePilotAI.tsx:109-164 | success installs the ingested index and tree; an unreadable archive or a failed read leaves both as they were; nothing else changes |
| Sessions.Session.AddEntry | src/components/codepilot/CodePilotAI.tsx:127-147 | one loop turn fails exactly for a kept entry whose read fails, reporting that path and leaving the tree as it was; otherwise it leaves the index and tree that `Absorb` specifies, still valid |
| Sessions.Session.SelectFile | src/components/codepilot/CodePilotAI.tsx:172-176 | opens the path, shows its text or the fallback, and clears the search result |
| Sessions.Session.Search | src/components/codepilot/CodePilotAI.tsx:182-224 | an empty query changes nothing; otherwise the result, the tab title and the editor text (the result's code) are those of the search outcome |
| Sessions.UploadFailsIff | src/components/codepilot/CodePilotAI.tsx:118-159 | an upload fails exactly when the archive cannot be decoded or a kept entry cannot be read |
| Sessions.SelectAfterUpload | src/components/codepilot/CodePilotAI.tsx:174 | after an upload, opening a kept file shows its text, or the fallback when that text is empty |
| Sessions.SelectUnindexed | src/components/codepilot/CodePilotAI.tsx:174 | opening a path that is not a key shows the fallback |
| Sessions.SelectMissing | src/components/codepilot/CodePilotAI.tsx:174 | after an upload, opening a path that no kept entry has shows the fallback |
| Sessions.SearchRunsIff | src/components/codepilot/CodePilotAI.tsx:183 | a search has an effect exactly when the query is non-empty |
| Sessions.SearchNoMatch | src/components/codepilot/CodePilotAI.tsx:217-223 | with no match the model is not asked, and the shown record equals the server flow's answer for an empty candidate text |
| Sessions.SearchSends | src/components/codepilot/CodePilotAI.tsx:197-216 | with a match the model receives the query and the candidate text unchanged, which contains that match's block; its answer or the error record is shown |
| Sessions.FixRequestIff | src/components/codepilot/CodePilotAI.tsx:270-284 | a fix request is made exactly when both inputs are non-empty, and carries them unchanged |
| Scenarios.SegmentsOfTwo | src/components/codepilot/CodePilotAI.tsx:132 | `a/b` splits into the segments `a` and `b` |
| Scenarios.KeptExample | src/components/codepilot/CodePilotAI.tsx:124-128 | `src/a.ts` and `src/b.md` are kept and `README.exe` is not |
| Scenarios.FirstInsertExample | src/components/codepilot/CodePilotAI.tsx:133-146 | inserting `src/a.ts` into the bare root creates folder `src` holding file `a.ts` |
| Scenarios.SecondInsertExample | src/components/codepilot/CodePilotAI.tsx:133-146 | inserting `src/b.md` then reuses `src` and appends `b.md` after `a.ts` |
| Scenarios.PutExample | src/components/codepilot/CodePilotAI.tsx:129 | a new key is written after the existing one |
| Scenarios.AbsorbFirstExample | src/components/codepilot/CodePilotAI.tsx:128-147 | the first loop iteration of the example |
| Scenarios.AbsorbSecondExample | src/components/codepilot/CodePilotAI.tsx:128-147 | the second loop iteration of the example |
| Scenarios.AbsorbThirdExample | src/components/codepilot/CodePilotAI.tsx:128 | the `.exe` entry is skipped |
| Scenarios.UploadFirstExample | src/components/codepilot/CodePilotAI.tsx:126-149 | the state after the first entry |
| Scenarios.UploadSecondExample | src/components/codepilot/CodePilotAI.tsx:126-149 | the state after the two code files |
| Scenarios.UploadExample | src/components/codepilot/CodePilotAI.tsx:122-152 | the example archive yields the index `{src/a.ts: foo, src/b.md: bar}` and the tree root → `src` → `a.ts`, `b.md` |
| Scenarios.MatchingExample | src/components/codepilot/CodePilotAI.tsx:190-193 | of the example index only `src/a.ts` contains `foo` |
| Scenarios.SearchExample | src/components/codepilot/CodePilotAI.tsx:190-202 | searching `foo` keeps only `src/a.ts` and sends `File: src/a.ts\n\nfoo` |
| Scenarios.NoMatchExample | src/components/codepilot/CodePilotAI.tsx:217-223 | searching `zzz` gives the fixed "not found" record without asking the model |
| Scenarios.LeadingSlashExample | src/components/codepilot/CodePilotAI.tsx:132-135 | `/a.ts` has the single segment `a.ts`, and joining the segments gives `a.ts` |
| Scenarios.InsertOneIntoRoot | src/components/codepilot/CodePilotAI.tsx:133-146 | a one-segment path inserted into the bare root becomes a file node under the root whose path is that segment |
| Scenarios.LeadingSlashNodeExample | src/components/codepilot/CodePilotAI.tsx:132-146 | inserting `/a.ts` gives a file node whose path is `a.ts`, not the index key `/a.ts` |
| Scenarios.LeadingSlashSelectExample | src/components/codepilot/CodePilotAI.tsx:174 | opening `a.ts` shows the fallback when the index key is `/a.ts` |
| Scenarios.BlockedExample | src/components/codepilot/CodePilotAI.tsx:136-146 | a path running through the file `a.ts` leaves the tree unchanged and gets no node |

### Behaviour of the code worth knowing

- **Not every indexed path has a node.** The index holds every kept path.
  A tree node exists for every kept path only when paths have no empty
  segments and no path runs through another kept file
  (`Ingestion.IngestSettles`, `Scenarios.BlockedExample`). A path that passes
  through a file node is dropped from the tree: `children?.push` does nothing
  on a file. A path with empty segments (`a//b.ts`, `/a.ts`) gets a node whose
  `path` is the normalised join, not the index key, so opening it from the tree
  shows `Error reading file.` (`Scenarios.LeadingSlashNodeExample`, `Scenarios.LeadingSlashSelectExample`). A kept path inserted after a longer path
  through it (`a.ts/b.ts`, then `a.ts`) is found as the existing folder, not
  as a file.
- **An empty query returns before filtering.** `includes("")` is true, so the
  filter itself would keep every entry (`Search.MatchingEmptyQuery`).
- Upload starts a fresh index and tree each time. A later upload replaces both
  and never merges with the earlier one.

## Left out

- Decompression and UTF-8 decoding (`JSZip.loadAsync`, `file.async("text")`)
  are a foreign library. The archive is a sequence of entries: path, directory
  flag, and text or a read failure. An undecodable archive is `None`.
  `zip.files` is an object keyed by path. Lemmas that need distinct paths say
  so (`DistinctPaths`).
- `zipRef.current = zip` keeps a handle that the core never reads again.
- Picking no file (`if (!file) return;`) is not modelled: the handler returns
  before anything changes.
- Loading flags, task labels, toasts and `console.error` are display state.
- The language-model prompts are the only source of model answers. The server
  flow takes the prompt as a function parameter. A rejected call and a missing
  output are both a `Failure`; the client treats both alike through its inner
  `catch`. The explain and fix flows and the pass-through server actions are
  not part of this model. Only the fix-request guard is.
- The search's outer `catch` is left out: nothing in the filter or the format
  can throw on strings.
- `Sessions.SelectedContent`: the source reads `fileContents[path]` on a plain
  object, so a path that names an inherited property (`toString`,
  `constructor`, `__proto__`) yields that inherited value, not the fallback.
  The model's index has no prototype: every path that is not a key shows
  `Error reading file.`. Opening is only offered for the file nodes of the tree, whose paths
  end in a code extension, so these names do not arise from the tree.
- `Strings.Lower`: does not model full Unicode `toLowerCase`; only the ASCII
  letters `A`–`Z` are mapped.
- Concurrency is left out. Overlapping uploads or searches can interleave in
  the event loop; each handler here runs atomically.
- `PathTreeBuilder.PathTree.InsertPath`: once the walk reaches a file before
  the last segment, the source keeps creating nodes that are attached nowhere
  and can never be reached. The model drops the cursor instead, so these
  unreachable nodes are not in the arena.
- The tree is an arena of indices, not nested objects, so object identity and
  aliasing of `FileNode`s are not modelled. The source never shares a node
  between two parents, and `TreeLaws` proves the arena keeps a single parent
  per node.
- Rendering the tree (`FileTreeItem`) and the editor selection used by the
  explain action are UI.
