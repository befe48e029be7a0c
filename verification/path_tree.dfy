/**
 * The tree under construction in `handleFileUpload` (CodePilotAI.tsx): one
 * object whose node arena grows as each kept path is walked and pushed.
 */
module PathTreeBuilder {
  import opened Wrappers
  import opened Strings
  import opened Paths
  import opened FileTree
  import opened TreeLaws

  class PathTree {
    /** The arena; index 0 is the root. */
    var nodes: seq<Node>

    /** `const fileTree: FileNode = { name: "root", type: "folder", path: "", children: [] }` */
    constructor ()
      ensures nodes == [Root()] && Valid(nodes)
    {
      nodes := [Root()];
      RootValid();
    }

    /** `currentNode.children?.find((n) => n.name === part)`: the first child with that name, none for a file. */
    method FindChild(cur: nat, name: string) returns (r: Option<nat>)
      requires Closed(nodes) && cur < |nodes|
      ensures r == ChildNamed(nodes, cur, name)
      ensures r.Some? ==> r.value in Kids(nodes, cur) && nodes[r.value].name == name
    {
      match nodes[cur].children
      case None =>
        r := None;
      case Some(kids) =>
        assert kids == Kids(nodes, cur);
        var j := 0;
        while j < |kids|
          invariant 0 <= j <= |kids|
          invariant FirstNamed(nodes, kids[j..], name) == FirstNamed(nodes, kids, name)
        {
          if nodes[kids[j]].name == name {
            return Some(kids[j]);
          }
          assert kids[j..][1..] == kids[j + 1..];
          j := j + 1;
        }
        r := None;
    }

    /**
     * The body of the upload loop for one kept path: split it into non-empty
     * segments and walk them from the root, descending into the child of each
     * name or creating it (a file for the last segment, an empty folder
     * otherwise) and pushing it into the current node's child list. A push
     * into a file does nothing, and the walk then continues on nodes that are
     * attached nowhere, so the cursor is dropped.
     */
    method InsertPath(path: string)
      requires Valid(nodes)
      modifies this
      ensures nodes == Insert(old(nodes), Segments(path))
      ensures Valid(nodes)
    {
      var parts := Segments(path);
      ghost var start := nodes;
      ghost var w := Walk(start, parts);
      var cursor: Option<nat> := Some(0);
      for i := 0 to |parts|
        invariant Progress(start, parts, w, i, nodes, cursor)
      {
        cursor := Advance(parts, i, cursor, start, w);
      }
      ProgressDone(start, parts, w, nodes, cursor);
      InsertValid(start, parts);
    }

    /**
     * One call of the `forEach` callback: from `cursor`, find the child named
     * `parts[i]` or create it, and return the node the walk continues from.
     */
    method VisitSegment(parts: seq<string>, i: nat, cursor: Option<nat>) returns (next: Option<nat>)
      requires i < |parts| && Closed(nodes) && (cursor.Some? ==> cursor.value < |nodes|)
      modifies this
      ensures (nodes, next) == Visit(old(nodes), parts, i, cursor)
    {
      next := cursor;
      if cursor.None? {
        return;
      }
      var cur := cursor.value;
      var isFile := i == |parts| - 1;
      var currentPath := Join(parts[..i + 1], "/");
      var child := FindChild(cur, parts[i]);
      if child.None? {
        if nodes[cur].children.Some? {
          var node := Node(parts[i], if isFile then File else Folder, currentPath, if isFile then None else Some([]));
          Push(cur, node);
          next := Some(|nodes| - 1);
        } else {
          next := None;
        }
      } else {
        next := child;
      }
    }

    /** One turn of the `forEach` loop: the callback call, which moves the insertion one stage of `Progress` on. */
    method Advance(parts: seq<string>, i: nat, cursor: Option<nat>, ghost start: seq<Node>, ghost w: (nat, nat))
        returns (next: Option<nat>)
      requires Closed(start) && w.0 <= |parts| && w.1 < |start| && i < |parts|
      requires Progress(start, parts, w, i, nodes, cursor)
      modifies this
      ensures Progress(start, parts, w, i + 1, nodes, next)
    {
      ghost var before := nodes;
      ProgressClosed(start, parts, w, i, nodes, cursor);
      next := VisitSegment(parts, i, cursor);
      VisitProgress(start, parts, w, i, before, cursor, nodes, next);
    }

    /** `currentNode.children?.push(newNode)` on a folder: the new node takes the next arena slot. */
    method Push(p: nat, node: Node)
      requires p < |nodes| && nodes[p].children.Some?
      modifies this
      ensures nodes == AddChild(old(nodes), p, node)
    {
      var kids := nodes[p].children.value;
      nodes := nodes[p := nodes[p].(children := Some(kids + [|nodes|]))] + [node];
    }
  }

  /**
   * Where the insertion of `parts` into `start` stands after `i` segments,
   * given where the walk over existing nodes stops (`w`, as `Walk` returns
   * it): while the walk still finds existing children nothing has changed; once
   * it stops at a file the cursor is dropped; once it stops at a folder the
   * remaining segments are attached one below the other and the cursor is
   * the last of them.
   */
  ghost predicate Progress(start: seq<Node>, parts: seq<string>, w: (nat, nat), i: nat, nodes: seq<Node>, cursor: Option<nat>)
    requires Closed(start) && w.0 <= |parts| && w.1 < |start| && i <= |parts|
  {
    && Closed(nodes)
    && if i <= w.0 then
         nodes == start && cursor.Some? && cursor.value < |start| && WalkOn(start, cursor.value, parts, i) == w
       else if start[w.1].children.None? then
         nodes == start && cursor.None?
       else
         nodes == Attached(start, parts, w, i) && cursor == Some(|nodes| - 1)
  }

  /** Where the walk from node `cur`, with `i` segments consumed, stops. */
  ghost function WalkOn(start: seq<Node>, cur: nat, parts: seq<string>, i: nat): (nat, nat)
    requires Closed(start) && cur < |start| && i <= |parts|
  {
    WalkFrom(start, cur, parts, i)
  }

  /** The arena once the nodes for segments `w.0` .. `i - 1` hang below node `w.1`. */
  ghost function Attached(start: seq<Node>, parts: seq<string>, w: (nat, nat), i: nat): seq<Node>
    requires w.1 < |start| && start[w.1].children.Some? && w.0 < i <= |parts|
  {
    Attach(start, w.1, parts, w.0, i)
  }

  /** After the last segment, the arena is the one `Insert` specifies. */
  lemma ProgressDone(start: seq<Node>, parts: seq<string>, w: (nat, nat), nodes: seq<Node>, cursor: Option<nat>)
    requires Closed(start) && |start| > 0 && w == Walk(start, parts)
    requires Progress(start, parts, w, |parts|, nodes, cursor)
    ensures nodes == Insert(start, parts)
  {
  }

  /**
   * What one call of the `forEach` callback does, by what it sees: with no
   * cursor, nothing; a child of that name becomes the cursor; with none under
   * a file the cursor is dropped; with none under a folder the new node is
   * pushed and becomes the cursor.
   */
  function Visit(nodes: seq<Node>, parts: seq<string>, i: nat, cursor: Option<nat>): (r: (seq<Node>, Option<nat>))
    requires i < |parts| && Closed(nodes) && (cursor.Some? ==> cursor.value < |nodes|)
  {
    match cursor
    case None => (nodes, None)
    case Some(cur) =>
      match ChildNamed(nodes, cur, parts[i])
      case Some(k) => (nodes, Some(k))
      case None =>
        if nodes[cur].children.Some? then (AddChild(nodes, cur, NewNode(parts, i)), Some(|nodes|))
        else (nodes, None)
  }

  /** While the insertion is under way, the arena stays closed and a live cursor names one of its nodes. */
  lemma ProgressClosed(start: seq<Node>, parts: seq<string>, w: (nat, nat), i: nat, nodes: seq<Node>, cursor: Option<nat>)
    requires Closed(start) && w.0 <= |parts| && w.1 < |start| && i <= |parts|
    requires Progress(start, parts, w, i, nodes, cursor)
    ensures Closed(nodes) && (cursor.Some? ==> cursor.value < |nodes|)
  {
  }

  /** One callback call moves the insertion from one stage of `Progress` to the next. */
  lemma VisitProgress(start: seq<Node>, parts: seq<string>, w: (nat, nat), i: nat,
                      nodes: seq<Node>, cursor: Option<nat>, nodes': seq<Node>, cursor': Option<nat>)
    requires Closed(start) && w.0 <= |parts| && w.1 < |start| && i < |parts|
    requires Progress(start, parts, w, i, nodes, cursor)
    requires Closed(nodes) && (cursor.Some? ==> cursor.value < |nodes|)
    requires (nodes', cursor') == Visit(nodes, parts, i, cursor)
    ensures Progress(start, parts, w, i + 1, nodes', cursor')
  {
    if cursor.None? {
      VisitDetached(start, parts, w, i, nodes);
    } else if i < w.0 {
      VisitWalking(start, parts, w, i, cursor.value);
    } else if i == w.0 {
      VisitStop(start, parts, w, i, cursor.value);
    } else {
      VisitAttaching(start, parts, w, i, nodes, cursor.value);
    }
  }

  /** Once the cursor is dropped, later segments change nothing. */
  lemma VisitDetached(start: seq<Node>, parts: seq<string>, w: (nat, nat), i: nat, nodes: seq<Node>)
    requires Closed(start) && w.0 <= |parts| && w.1 < |start| && i < |parts|
    requires Progress(start, parts, w, i, nodes, None)
    ensures Closed(nodes)
    ensures var v := Visit(nodes, parts, i, None); Progress(start, parts, w, i + 1, v.0, v.1)
  {
  }

  /** While the walk goes on, the segment names an existing child, which becomes the cursor. */
  lemma VisitWalking(start: seq<Node>, parts: seq<string>, w: (nat, nat), i: nat, cur: nat)
    requires Closed(start) && w.0 <= |parts| && w.1 < |start| && i < w.0
    requires Progress(start, parts, w, i, start, Some(cur))
    ensures cur < |start|
    ensures var v := Visit(start, parts, i, Some(cur)); Progress(start, parts, w, i + 1, v.0, v.1)
  {
    assert ChildNamed(start, cur, parts[i]).Some?;
  }

  /** Where the walk stops, the cursor is dropped at a file, and the first new node is pushed at a folder. */
  lemma VisitStop(start: seq<Node>, parts: seq<string>, w: (nat, nat), i: nat, cur: nat)
    requires Closed(start) && w.0 <= |parts| && w.1 < |start| && i < |parts| && i == w.0
    requires Progress(start, parts, w, i, start, Some(cur))
    ensures cur < |start|
    ensures var v := Visit(start, parts, i, Some(cur)); Progress(start, parts, w, i + 1, v.0, v.1)
  {
    if start[cur].children.Some? {
      AttachClosed(start, cur, parts, i, i + 1);
    }
  }

  /** Below each attached node the segment is not found, and its new node is pushed under it. */
  lemma VisitAttaching(start: seq<Node>, parts: seq<string>, w: (nat, nat), i: nat, nodes: seq<Node>, cur: nat)
    requires Closed(start) && w.0 < i < |parts| && w.1 < |start|
    requires Progress(start, parts, w, i, nodes, Some(cur))
    ensures cur < |nodes|
    ensures var v := Visit(nodes, parts, i, Some(cur)); Progress(start, parts, w, i + 1, v.0, v.1)
  {
    AttachVisit(start, w.1, parts, w.0, i);
  }

  /** Below the last attached node the segment is not found, so the callback attaches the next node. */
  lemma AttachVisit(start: seq<Node>, c: nat, parts: seq<string>, d: nat, i: nat)
    requires Closed(start) && c < |start| && start[c].children.Some? && d < i < |parts|
    ensures var r := Attach(start, c, parts, d, i);
      && Closed(r)
      && Visit(r, parts, i, Some(|r| - 1)) == (Attach(start, c, parts, d, i + 1), Some(|r|))
      && Closed(Attach(start, c, parts, d, i + 1))
  {
    var r := Attach(start, c, parts, d, i);
    AttachClosed(start, c, parts, d, i);
    NextChildAbsent(start, c, parts, d, i);
    NextAttach(start, c, parts, d, i);
  }

  /** A freshly attached folder has no children, so the next segment is not found under it. */
  lemma NextChildAbsent(start: seq<Node>, c: nat, parts: seq<string>, d: nat, i: nat)
    requires c < |start| && start[c].children.Some? && d < i < |parts|
    requires Closed(Attach(start, c, parts, d, i))
    ensures var r := Attach(start, c, parts, d, i); ChildNamed(r, |r| - 1, parts[i]).None?
  {
  }

  /** Each later node goes under the one attached just before it. */
  lemma NextAttach(start: seq<Node>, c: nat, parts: seq<string>, d: nat, i: nat)
    requires Closed(start) && c < |start| && start[c].children.Some? && d < i < |parts|
    ensures var r := Attach(start, c, parts, d, i);
      Attach(start, c, parts, d, i + 1) == AddChild(r, |r| - 1, NewNode(parts, i))
    ensures Closed(Attach(start, c, parts, d, i + 1))
  {
    AttachClosed(start, c, parts, d, i + 1);
  }
}
