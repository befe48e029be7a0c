/**
 * Archive paths as the upload handler reads them: the allow-list of code
 * file extensions (CodePilotAI.tsx, `codeFileExtensions`) and the split of a
 * path into its non-empty `/`-separated segments.
 */
module Paths {
  import opened Strings

  /** The 15 kept extensions, matched case-sensitively as suffixes. */
  const CodeFileExtensions: seq<string> :=
    [".ts", ".tsx", ".js", ".jsx", ".py", ".go", ".java", ".cs", ".rb", ".php",
     ".html", ".css", ".scss", ".json", ".md"]

  /** `codeFileExtensions.some(ext => path.endsWith(ext))` */
  predicate HasCodeExtension(path: string)
  {
    exists ext :: ext in CodeFileExtensions && EndsWith(path, ext)
  }

  /** `filter((p) => p)` on a list of strings: the non-empty ones, in order. */
  function NonEmpty(xs: seq<string>): (r: seq<string>)
    ensures |r| <= |xs|
    ensures forall i :: 0 <= i < |r| ==> r[i] != ""
    ensures forall x :: x in r <==> x in xs && x != ""
  {
    if xs == [] then []
    else
      var last := xs[|xs| - 1];
      NonEmpty(xs[..|xs| - 1]) + (if last == "" then [] else [last])
  }

  /** The filter of a single piece keeps it exactly when it is non-empty. */
  lemma NonEmptySingle(x: string)
    ensures NonEmpty([x]) == if x == "" then [] else [x]
  {
    assert [x][..0] == [];
  }

  /** Filtering a concatenation is the concatenation of the filters, so the kept pieces stay in order and keep their multiplicity. */
  lemma {:induction false} NonEmptyAppend(xs: seq<string>, ys: seq<string>)
    ensures NonEmpty(xs + ys) == NonEmpty(xs) + NonEmpty(ys)
    decreases |ys|
  {
    if ys == [] {
      assert xs + ys == xs;
    } else {
      var init, y := ys[..|ys| - 1], ys[|ys| - 1];
      var tail := if y == "" then [] else [y];
      assert (xs + ys)[..|xs + ys| - 1] == xs + init;
      assert (xs + ys)[|xs + ys| - 1] == y;
      NonEmptyAppend(xs, init);
      assert NonEmpty(xs + ys) == NonEmpty(xs) + NonEmpty(init) + tail;
      assert NonEmpty(ys) == NonEmpty(init) + tail;
    }
  }

  /** `path.split("/").filter((p) => p)`: the segments the tree walk follows. */
  function Segments(path: string): (r: seq<string>)
    ensures forall i :: 0 <= i < |r| ==> r[i] != "" && '/' !in r[i]
  {
    var pieces := Split(path, '/');
    var r := NonEmpty(pieces);
    assert forall i :: 0 <= i < |r| ==> r[i] in r && r[i] in pieces;
    r
  }

  /** A path without empty segments: no leading, trailing or doubled `/`, and not "". */
  predicate Normal(path: string)
  {
    forall i :: 0 <= i < |Split(path, '/')| ==> Split(path, '/')[i] != ""
  }

  lemma {:induction false} NonEmptyKeepsAll(xs: seq<string>)
    requires forall i :: 0 <= i < |xs| ==> xs[i] != ""
    ensures NonEmpty(xs) == xs
  {
    if xs != [] {
      NonEmptyKeepsAll(xs[..|xs| - 1]);
      assert xs[..|xs| - 1] + [xs[|xs| - 1]] == xs;
    }
  }

  /** For a normal path the segments are exactly the split pieces, and joining them restores the path. */
  lemma NormalSegments(path: string)
    requires Normal(path)
    ensures Segments(path) == Split(path, '/')
    ensures Join(Segments(path), "/") == path
  {
    NonEmptyKeepsAll(Split(path, '/'));
    JoinSplit(path, '/');
  }

  /** Every kept extension is a non-empty string without `/`. */
  lemma ExtensionShape(ext: string)
    requires ext in CodeFileExtensions
    ensures ext != "" && '/' !in ext
  {
  }

  /**
   * A path with a kept extension has at least one segment, and its last
   * segment carries the extension: the walk always ends on a segment that
   * names the file.
   */
  lemma KeptPathSegments(path: string)
    requires HasCodeExtension(path)
    ensures |Segments(path)| >= 1
    ensures HasCodeExtension(Segments(path)[|Segments(path)| - 1])
  {
    var ext :| ext in CodeFileExtensions && EndsWith(path, ext);
    ExtensionShape(ext);
    var pre := path[..|path| - |ext|];
    assert pre + ext == path;
    SplitExtend(pre, ext, '/');
    var xs := Split(path, '/');
    var last := xs[|xs| - 1];
    assert EndsWith(last, ext);
    assert Segments(path) == NonEmpty(xs[..|xs| - 1]) + [last];
  }
}
