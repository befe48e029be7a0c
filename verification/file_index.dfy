/**
 * The in-memory file index (`FileContents` in types.ts): a JavaScript object
 * from path to text. Its string keys iterate in insertion order, so it is
 * modelled as a list of entries with distinct paths; writing an existing key
 * replaces the value in place and keeps its position.
 */
module FileIndex {
  import opened Wrappers

  datatype IndexEntry = IndexEntry(path: string, content: string)

  /** The entries in the order `Object.entries` yields them. */
  type FileContents = seq<IndexEntry>

  /** `{}` */
  function Empty(): FileContents { [] }

  /** `Object.keys(contents)` */
  function Keys(d: FileContents): (r: seq<string>)
    ensures |r| == |d| && forall i :: 0 <= i < |d| ==> r[i] == d[i].path
  {
    seq(|d|, i requires 0 <= i < |d| => d[i].path)
  }

  /** Every key occurs once, as in a JavaScript object. */
  predicate DistinctKeys(d: FileContents)
  {
    forall i, j :: 0 <= i < j < |d| ==> d[i].path != d[j].path
  }

  /** `contents[path]`, with `undefined` as None. */
  function Get(d: FileContents, path: string): (r: Option<string>)
    ensures r.None? <==> forall i :: 0 <= i < |d| ==> d[i].path != path
    ensures r.Some? ==> exists i :: 0 <= i < |d| && d[i] == IndexEntry(path, r.value)
  {
    if d == [] then None
    else if d[0].path == path then Some(d[0].content)
    else
      var r := Get(d[1..], path);
      assert forall i :: 1 <= i < |d| ==> d[i] == d[1..][i - 1];
      r
  }

  /** `contents[path] = content`: a new key goes last, an existing key keeps its place. */
  function Put(d: FileContents, path: string, content: string): (r: FileContents)
    ensures Keys(r) == if Get(d, path).Some? then Keys(d) else Keys(d) + [path]
  {
    if d == [] then [IndexEntry(path, content)]
    else if d[0].path == path then
      assert Keys([IndexEntry(path, content)] + d[1..]) == Keys(d);
      [IndexEntry(path, content)] + d[1..]
    else
      var rest := Put(d[1..], path, content);
      assert Keys([d[0]] + rest) == [d[0].path] + Keys(rest);
      assert Keys(d) == [d[0].path] + Keys(d[1..]);
      [d[0]] + rest
  }

  /** After a write, the key reads back the written text and every other key reads as before. */
  lemma {:induction false} PutGet(d: FileContents, path: string, content: string, p: string)
    ensures Get(Put(d, path, content), p) == if p == path then Some(content) else Get(d, p)
  {
    if d != [] && d[0].path != path {
      PutGet(d[1..], path, content, p);
      assert Put(d, path, content)[1..] == Put(d[1..], path, content);
    }
  }

  /** A path reads as present exactly when it is one of the keys. */
  lemma GetKeys(d: FileContents, path: string)
    ensures Get(d, path).Some? <==> path in Keys(d)
  {
    if path in Keys(d) {
      var i :| 0 <= i < |d| && Keys(d)[i] == path;
    }
  }

  /** A write keeps the keys distinct. */
  lemma PutDistinct(d: FileContents, path: string, content: string)
    requires DistinctKeys(d)
    ensures DistinctKeys(Put(d, path, content))
  {
    var r := Put(d, path, content);
    assert forall i :: 0 <= i < |r| ==> r[i].path == Keys(r)[i];
  }
}
