/**
 * The file tree built during upload (`FileNode` in types.ts, the walk in
 * `handleFileUpload`, CodePilotAI.tsx).
 *
 * The tree is kept as an arena: a sequence of nodes in creation order, where a
 * folder's `children` lists the indices of its children in the order they were
 * pushed, and a file's `children` is None (the source's `children: undefined`).
 * Index 0 is the root. Inserting a path is specified in two parts: `Walk`
 * follows existing children by name as far as it can, and `Attach` pushes one
 * new node per remaining segment, each under the previous one.
 */
module FileTree {
  import opened Wrappers
  import opened Strings

  datatype Kind = File | Folder

  /** One `FileNode`: name, type, full path, and child indices (None for `undefined`). */
  datatype Node = Node(name: string, kind: Kind, path: string, children: Option<seq<nat>>)

  /** `{ name: "root", type: "folder", path: "", children: [] }` */
  function Root(): Node
  {
    Node("root", Folder, "", Some([]))
  }

  /** The child indices of node `n`; a file has none. */
  function Kids(nodes: seq<Node>, n: nat): seq<nat>
    requires n < |nodes|
  {
    if nodes[n].children.Some? then nodes[n].children.value else []
  }

  // ---------------------------------------------------------------------------
  // The tree invariant

  /** Every child index points into the arena, after its parent (so there are no cycles). */
  ghost predicate Closed(nodes: seq<Node>)
  {
    forall n, j :: 0 <= n < |nodes| && 0 <= j < |Kids(nodes, n)| ==> n < Kids(nodes, n)[j] < |nodes|
  }

  /** The root is the folder named "root" with path "". */
  ghost predicate RootShape(nodes: seq<Node>)
  {
    |nodes| > 0 && nodes[0].name == "root" && nodes[0].kind == Folder && nodes[0].path == ""
  }

  /** Files have no child list and folders have one. */
  ghost predicate KindsMatch(nodes: seq<Node>)
  {
    forall n :: 0 <= n < |nodes| ==> (nodes[n].kind == File <==> nodes[n].children.None?)
  }

  /** The path a child named `name` of node `n` gets: the name under the root, `parent/name` elsewhere. */
  function ChildPath(nodes: seq<Node>, n: nat, name: string): string
    requires n < |nodes|
  {
    if n == 0 then name else nodes[n].path + "/" + name
  }

  /** Every child's path extends its parent's path by its own name. */
  ghost predicate PathsNested(nodes: seq<Node>)
    requires Closed(nodes)
  {
    forall n, j :: 0 <= n < |nodes| && 0 <= j < |Kids(nodes, n)| ==>
      nodes[Kids(nodes, n)[j]].path == ChildPath(nodes, n, nodes[Kids(nodes, n)[j]].name)
  }

  /** No two children of one folder share a name. */
  ghost predicate SiblingsDistinct(nodes: seq<Node>)
    requires Closed(nodes)
  {
    forall n, j, k :: 0 <= n < |nodes| && 0 <= j < k < |Kids(nodes, n)| ==>
      nodes[Kids(nodes, n)[j]].name != nodes[Kids(nodes, n)[k]].name
  }

  /** A node is the child of at most one folder, and appears there once. */
  ghost predicate SingleParent(nodes: seq<Node>)
  {
    forall n, m, j, k ::
      (0 <= n < |nodes| && 0 <= m < |nodes| && 0 <= j < |Kids(nodes, n)| && 0 <= k < |Kids(nodes, m)| &&
       Kids(nodes, n)[j] == Kids(nodes, m)[k])
      ==> n == m && j == k
  }

  /** Node `k` is listed as a child of some node before it. */
  ghost predicate HasParent(nodes: seq<Node>, k: nat)
    requires k < |nodes|
  {
    exists n :: 0 <= n < k && k in Kids(nodes, n)
  }

  /** Every node except the root has a parent, so the root is the only node without one. */
  ghost predicate Rooted(nodes: seq<Node>)
  {
    forall k :: 0 < k < |nodes| ==> HasParent(nodes, k)
  }

  ghost predicate Valid(nodes: seq<Node>)
  {
    && RootShape(nodes)
    && Closed(nodes)
    && KindsMatch(nodes)
    && PathsNested(nodes)
    && SiblingsDistinct(nodes)
    && SingleParent(nodes)
    && Rooted(nodes)
  }

  /** The tree before any path is inserted is valid. */
  lemma RootValid()
    ensures Valid([Root()])
  {
  }

  // ---------------------------------------------------------------------------
  // Looking up a child: `currentNode.children?.find((n) => n.name === part)`

  /** The first of `kids` whose node is called `name`. */
  function FirstNamed(nodes: seq<Node>, kids: seq<nat>, name: string): (r: Option<nat>)
    requires forall j :: 0 <= j < |kids| ==> kids[j] < |nodes|
    ensures r.Some? ==> r.value in kids && nodes[r.value].name == name
    ensures r.None? <==> forall j :: 0 <= j < |kids| ==> nodes[kids[j]].name != name
  {
    if kids == [] then None
    else if nodes[kids[0]].name == name then Some(kids[0])
    else
      var r := FirstNamed(nodes, kids[1..], name);
      assert forall j :: 1 <= j < |kids| ==> kids[j] == kids[1..][j - 1];
      r
  }

  /** `find` returns the earliest match: no child before it has that name. */
  lemma {:induction false} FirstNamedIsFirst(nodes: seq<Node>, kids: seq<nat>, name: string)
    requires forall j :: 0 <= j < |kids| ==> kids[j] < |nodes|
    requires FirstNamed(nodes, kids, name).Some?
    ensures exists k :: 0 <= k < |kids| && kids[k] == FirstNamed(nodes, kids, name).value
                        && (forall j :: 0 <= j < k ==> nodes[kids[j]].name != name)
  {
    if nodes[kids[0]].name != name {
      FirstNamedIsFirst(nodes, kids[1..], name);
      var k :| 0 <= k < |kids[1..]| && kids[1..][k] == FirstNamed(nodes, kids[1..], name).value
               && (forall j :: 0 <= j < k ==> nodes[kids[1..][j]].name != name);
      assert kids[k + 1] == FirstNamed(nodes, kids, name).value;
      assert forall j :: 1 <= j < k + 1 ==> kids[j] == kids[1..][j - 1];
    } else {
      assert kids[0] == FirstNamed(nodes, kids, name).value;
    }
  }

  /** The child of `n` called `name`; a file has none. */
  function ChildNamed(nodes: seq<Node>, n: nat, name: string): Option<nat>
    requires Closed(nodes) && n < |nodes|
  {
    FirstNamed(nodes, Kids(nodes, n), name)
  }

  // ---------------------------------------------------------------------------
  // The walk over existing nodes

  /**
   * Starting at node `cur` with `parts[..i]` consumed, follow existing children
   * by name; stop at the end of the parts or at the first segment with no
   * child of that name (always the case at a file). Returns how many segments
   * were consumed and the node reached.
   */
  function WalkFrom(nodes: seq<Node>, cur: nat, parts: seq<string>, i: nat): (r: (nat, nat))
    requires Closed(nodes) && cur < |nodes| && i <= |parts|
    ensures i <= r.0 <= |parts| && r.1 < |nodes|
    ensures r.0 == i ==> r.1 == cur
    ensures r.0 > i ==> r.1 > cur
    ensures r.0 < |parts| ==> ChildNamed(nodes, r.1, parts[r.0]).None?
    decreases |parts| - i
  {
    if i == |parts| then (i, cur)
    else
      match ChildNamed(nodes, cur, parts[i])
      case Some(k) => WalkFrom(nodes, k, parts, i + 1)
      case None => (i, cur)
  }

  /** The walk from the root. */
  function Walk(nodes: seq<Node>, parts: seq<string>): (nat, nat)
    requires Closed(nodes) && |nodes| > 0
  {
    WalkFrom(nodes, 0, parts, 0)
  }

  /** The node whose segment path is `parts`, if the walk gets all the way. */
  function Lookup(nodes: seq<Node>, parts: seq<string>): Option<nat>
    requires Closed(nodes) && |nodes| > 0
  {
    var w := Walk(nodes, parts);
    if w.0 == |parts| then Some(w.1) else None
  }

  /**
   * Inserting `parts` has nothing to do: the path is present, or its walk stops
   * at a node without a child list (a file), under which nothing can be pushed.
   */
  predicate Settled(nodes: seq<Node>, parts: seq<string>)
    requires Closed(nodes) && |nodes| > 0
  {
    var w := Walk(nodes, parts);
    w.0 == |parts| || nodes[w.1].children.None?
  }

  // ---------------------------------------------------------------------------
  // Insertion

  /** The node created for segment `i`: a file with no child list for the last segment, else an empty folder. */
  function NewNode(parts: seq<string>, i: nat): Node
    requires i < |parts|
  {
    var isFile := i == |parts| - 1;
    Node(parts[i], if isFile then File else Folder, Join(parts[..i + 1], "/"),
         if isFile then None else Some([]))
  }

  /** Node `n` is the one created for segment `k`, up to the children pushed into it later. */
  ghost predicate CreatedFor(n: Node, parts: seq<string>, k: nat)
  {
    && k < |parts|
    && n.name == parts[k]
    && n.path == Join(parts[..k + 1], "/")
    && (n.kind == File <==> k == |parts| - 1)
    && (n.kind == File ==> n.children.None?)
  }

  /** `currentNode.children?.push(node)` on a folder: the node goes at the end of the arena and of the child list. */
  function AddChild(nodes: seq<Node>, p: nat, node: Node): (r: seq<Node>)
    requires p < |nodes| && nodes[p].children.Some?
    ensures |r| == |nodes| + 1 && r[|nodes|] == node
  {
    nodes[p := nodes[p].(children := Some(nodes[p].children.value + [|nodes|]))] + [node]
  }

  /**
   * Create the nodes for segments `d` .. `i - 1`: the first under folder `c`,
   * each later one under the one before.
   */
  function Attach(nodes: seq<Node>, c: nat, parts: seq<string>, d: nat, i: nat): (r: seq<Node>)
    requires c < |nodes| && nodes[c].children.Some?
    requires d < i <= |parts|
    ensures |r| == |nodes| + (i - d) && r[|r| - 1] == NewNode(parts, i - 1)
    decreases i
  {
    if i == d + 1 then AddChild(nodes, c, NewNode(parts, d))
    else
      var r := Attach(nodes, c, parts, d, i - 1);
      AddChild(r, |r| - 1, NewNode(parts, i - 1))
  }

  /** Insert the segment path `parts`: walk existing nodes, then attach the rest if the walk stopped at a folder. */
  function Insert(nodes: seq<Node>, parts: seq<string>): seq<Node>
    requires Closed(nodes) && |nodes| > 0
  {
    var w := Walk(nodes, parts);
    if w.0 == |parts| || nodes[w.1].children.None? then nodes
    else Attach(nodes, w.1, parts, w.0, |parts|)
  }
}
