/**
 * The client-side pre-filter of `performSearch` (CodePilotAI.tsx): keep the
 * index entries whose lower-cased content includes the lower-cased query,
 * format each as a block headed by its path, and join the blocks with a
 * horizontal-rule separator.
 */
module Search {
  import opened Strings
  import opened FileIndex

  /** `content.toLowerCase().includes(searchQuery.toLowerCase())` */
  predicate Matches(e: IndexEntry, query: string)
  {
    Includes(Lower(e.content), Lower(query))
  }

  /** `Object.entries(fileContents).filter(...)`: the matching entries in index order. */
  function Matching(d: FileContents, query: string): (r: FileContents)
    ensures |r| <= |d|
    ensures forall e :: e in r <==> e in d && Matches(e, query)
  {
    if d == [] then []
    else
      var init := d[..|d| - 1];
      var last := d[|d| - 1];
      assert d == init + [last];
      Matching(init, query) + (if Matches(last, query) then [last] else [])
  }

  /** `` `File: ${path}\n\n${content}` `` */
  function Format(e: IndexEntry): (r: string)
    ensures StartsWith(r, "File: ") && r != ""
  {
    "File: " + e.path + "\n\n" + e.content
  }

  /** `.map(...)`: one formatted block per entry, in the same order. */
  function Blocks(d: FileContents): (r: seq<string>)
    ensures |r| == |d| && forall i :: 0 <= i < |d| ==> r[i] == Format(d[i])
  {
    seq(|d|, i requires 0 <= i < |d| => Format(d[i]))
  }

  /** The separator between blocks. */
  const Separator: string := "\n\n---\n\n"

  /** The candidate text sent to the search flow. */
  function Snippet(d: FileContents, query: string): string
  {
    Join(Blocks(Matching(d, query)), Separator)
  }

  /** Filtering a concatenation filters each part, so the matches keep index order. */
  lemma {:induction false} MatchingAppend(a: FileContents, b: FileContents, query: string)
    ensures Matching(a + b, query) == Matching(a, query) + Matching(b, query)
    decreases |b|
  {
    if b != [] {
      var init := b[..|b| - 1];
      assert (a + b)[..|a + b| - 1] == a + init;
      MatchingAppend(a, init, query);
    } else {
      assert a + b == a;
    }
  }

  /** Every content includes the empty string, so an empty query would keep every entry. */
  lemma {:induction false} MatchingEmptyQuery(d: FileContents)
    ensures Matching(d, "") == d
  {
    if d != [] {
      var init, last := d[..|d| - 1], d[|d| - 1];
      MatchingEmptyQuery(init);
      IncludesEmpty(Lower(last.content));
      assert Lower("") == "";
      assert Matches(last, "");
      assert Matching(d, "") == Matching(init, "") + [last];
      assert d == init + [last];
    }
  }

  /** The candidate text is empty exactly when no entry matches. */
  lemma SnippetEmptyIff(d: FileContents, query: string)
    ensures Snippet(d, query) == "" <==> forall e :: e in d ==> !Matches(e, query)
  {
    var m := Matching(d, query);
    if m != [] {
      JoinEndsWithLast(Blocks(m), Separator);
      assert m[|m| - 1] in m;
    }
  }

  /** Each matching entry's block, path header and full content, appears in the candidate text. */
  lemma SnippetShowsMatch(d: FileContents, query: string, e: IndexEntry)
    requires e in d && Matches(e, query)
    ensures Includes(Snippet(d, query), Format(e))
  {
    var m := Matching(d, query);
    var i :| 0 <= i < |m| && m[i] == e;
    JoinIncludes(Blocks(m), Separator, i);
  }

  /** The match is case-insensitive in the query: lower-casing it first changes nothing. */
  lemma {:induction false} MatchingIgnoresQueryCase(d: FileContents, query: string)
    ensures Matching(d, Lower(query)) == Matching(d, query)
  {
    LowerIdempotent(query);
    if d != [] {
      MatchingIgnoresQueryCase(d[..|d| - 1], query);
    }
  }

  /** The match is case-insensitive in the content too: lower-casing a file's text first changes nothing. */
  lemma MatchesIgnoresContentCase(e: IndexEntry, query: string)
    ensures Matches(e, query) <==> Matches(IndexEntry(e.path, Lower(e.content)), query)
  {
    LowerIdempotent(e.content);
  }
}
