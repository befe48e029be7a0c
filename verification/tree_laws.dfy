/**
 * What inserting a path does to the file tree: it keeps the tree invariant,
 * only appends, is idempotent, never loses a path, gives every new node the
 * join of its segment prefix as its path, and leaves the tree alone exactly
 * when the path is present or runs through a file.
 */
module TreeLaws {
  import opened Wrappers
  import opened Strings
  import opened FileTree

  // ---------------------------------------------------------------------------
  // One push

  /** A push changes only the parent's child list, which gains the new index at its end. */
  lemma AddChildKids(nodes: seq<Node>, p: nat, node: Node)
    requires p < |nodes| && nodes[p].children.Some?
    ensures var r := AddChild(nodes, p, node);
            forall n :: 0 <= n < |nodes| ==>
              r[n].name == nodes[n].name && r[n].kind == nodes[n].kind && r[n].path == nodes[n].path &&
              r[n].children.None? == nodes[n].children.None? &&
              Kids(r, n) == if n == p then Kids(nodes, n) + [|nodes|] else Kids(nodes, n)
  {
  }

  lemma AddChildClosed(nodes: seq<Node>, p: nat, node: Node)
    requires Closed(nodes) && p < |nodes| && nodes[p].children.Some?
    requires node.children.None? || node.children == Some([])
    ensures Closed(AddChild(nodes, p, node))
  {
    var r := AddChild(nodes, p, node);
    AddChildKids(nodes, p, node);
    assert Kids(r, |nodes|) == [];
  }

  lemma AddChildPaths(nodes: seq<Node>, p: nat, node: Node)
    requires Closed(nodes) && PathsNested(nodes) && p < |nodes| && nodes[p].children.Some?
    requires node.children.None? || node.children == Some([])
    requires node.path == ChildPath(nodes, p, node.name)
    ensures Closed(AddChild(nodes, p, node)) && PathsNested(AddChild(nodes, p, node))
  {
    var r := AddChild(nodes, p, node);
    var n0 := |nodes|;
    AddChildKids(nodes, p, node);
    AddChildClosed(nodes, p, node);
    assert Kids(r, n0) == [];
    forall n, j | 0 <= n < |r| && 0 <= j < |Kids(r, n)|
      ensures r[Kids(r, n)[j]].path == ChildPath(r, n, r[Kids(r, n)[j]].name)
    {
      var k := Kids(r, n)[j];
      if k < n0 {
        assert k == Kids(nodes, n)[j];
      }
    }
  }

  lemma AddChildSiblings(nodes: seq<Node>, p: nat, node: Node)
    requires Closed(nodes) && SiblingsDistinct(nodes) && p < |nodes| && nodes[p].children.Some?
    requires node.children.None? || node.children == Some([])
    requires forall j :: 0 <= j < |Kids(nodes, p)| ==> nodes[Kids(nodes, p)[j]].name != node.name
    ensures Closed(AddChild(nodes, p, node)) && SiblingsDistinct(AddChild(nodes, p, node))
  {
    var r := AddChild(nodes, p, node);
    AddChildKids(nodes, p, node);
    AddChildClosed(nodes, p, node);
    assert Kids(r, |nodes|) == [];
    forall n, j, k | 0 <= n < |r| && 0 <= j < k < |Kids(r, n)|
      ensures r[Kids(r, n)[j]].name != r[Kids(r, n)[k]].name
    {
      if n == p && k == |Kids(nodes, p)| {
        assert Kids(r, n)[j] == Kids(nodes, p)[j];
      } else {
        assert Kids(r, n)[j] == Kids(nodes, n)[j] && Kids(r, n)[k] == Kids(nodes, n)[k];
      }
    }
  }

  lemma AddChildSingleParent(nodes: seq<Node>, p: nat, node: Node)
    requires Closed(nodes) && SingleParent(nodes) && p < |nodes| && nodes[p].children.Some?
    requires node.children.None? || node.children == Some([])
    ensures SingleParent(AddChild(nodes, p, node))
  {
    var r := AddChild(nodes, p, node);
    var n0 := |nodes|;
    AddChildKids(nodes, p, node);
    assert Kids(r, n0) == [];
    forall n, m, j, k |
      0 <= n < |r| && 0 <= m < |r| && 0 <= j < |Kids(r, n)| && 0 <= k < |Kids(r, m)| &&
      Kids(r, n)[j] == Kids(r, m)[k]
      ensures n == m && j == k
    {
      if Kids(r, n)[j] == n0 {
        assert n == p && j == |Kids(nodes, p)|;
        assert m == p && k == |Kids(nodes, p)|;
      } else {
        assert Kids(r, n)[j] == Kids(nodes, n)[j];
        assert Kids(r, m)[k] == Kids(nodes, m)[k];
      }
    }
  }

  /** A push gives the new node a parent and takes no old node's parent away. */
  lemma AddChildRooted(nodes: seq<Node>, p: nat, node: Node)
    requires Rooted(nodes) && p < |nodes| && nodes[p].children.Some?
    ensures Rooted(AddChild(nodes, p, node))
  {
    var r := AddChild(nodes, p, node);
    AddChildKids(nodes, p, node);
    forall k | 0 < k < |r|
      ensures HasParent(r, k)
    {
      if k == |nodes| {
        assert k in Kids(r, p);
      } else {
        assert HasParent(nodes, k);
        var n :| 0 <= n < k && k in Kids(nodes, n);
        assert k in Kids(r, n);
      }
    }
  }

  /** A push keeps the root as it is and gives the new node a child list exactly when it is a folder. */
  lemma AddChildShape(nodes: seq<Node>, p: nat, node: Node)
    requires RootShape(nodes) && KindsMatch(nodes) && p < |nodes| && nodes[p].children.Some?
    requires node.children == if node.kind == File then None else Some([])
    ensures RootShape(AddChild(nodes, p, node)) && KindsMatch(AddChild(nodes, p, node))
  {
    AddChildKids(nodes, p, node);
  }

  /** Pushing a well-formed new node under a folder that has no child of that name keeps the tree valid. */
  lemma AddChildValid(nodes: seq<Node>, p: nat, node: Node)
    requires Valid(nodes)
    requires p < |nodes| && nodes[p].children.Some?
    requires forall j :: 0 <= j < |Kids(nodes, p)| ==> nodes[Kids(nodes, p)[j]].name != node.name
    requires node.path == ChildPath(nodes, p, node.name)
    requires node.children == if node.kind == File then None else Some([])
    ensures Valid(AddChild(nodes, p, node))
  {
    AddChildShape(nodes, p, node);
    AddChildPaths(nodes, p, node);
    AddChildSiblings(nodes, p, node);
    AddChildSingleParent(nodes, p, node);
    AddChildRooted(nodes, p, node);
  }

  // ---------------------------------------------------------------------------
  // Paths along a walk

  /** Node `c` is where the segment path `parts[..d]` leads: the root for no segments, else a node with that path and last name. */
  ghost predicate ReachedBy(nodes: seq<Node>, parts: seq<string>, d: nat, c: nat)
    requires c < |nodes| && d <= |parts|
  {
    || (d == 0 && c == 0)
    || (0 < d && 0 < c && nodes[c].path == Join(parts[..d], "/") && nodes[c].name == parts[d - 1])
  }

  /** A child's path is its parent's path extended by its name. */
  lemma KidPath(nodes: seq<Node>, cur: nat, k: nat)
    requires Closed(nodes) && PathsNested(nodes) && cur < |nodes|
    requires k in Kids(nodes, cur)
    ensures cur < k < |nodes| && nodes[k].path == ChildPath(nodes, cur, nodes[k].name)
  {
    var j :| 0 <= j < |Kids(nodes, cur)| && Kids(nodes, cur)[j] == k;
  }

  /** One step of a walk extends the prefix that leads to the current node by one segment. */
  lemma ReachedByStep(nodes: seq<Node>, parts: seq<string>, i: nat, cur: nat, k: nat)
    requires cur < k < |nodes| && i < |parts|
    requires ReachedBy(nodes, parts, i, cur)
    requires nodes[k].name == parts[i] && nodes[k].path == ChildPath(nodes, cur, parts[i])
    ensures ReachedBy(nodes, parts, i + 1, k)
  {
    assert parts[..i + 1] == parts[..i] + [parts[i]];
    if i > 0 {
      JoinSnoc(parts[..i], parts[i], "/");
    }
  }

  /** Following children by name from a node reached by `parts[..i]` reaches nodes reached by longer prefixes. */
  lemma {:induction false} WalkReaches(nodes: seq<Node>, cur: nat, parts: seq<string>, i: nat)
    requires Closed(nodes) && PathsNested(nodes) && cur < |nodes| && i <= |parts|
    requires ReachedBy(nodes, parts, i, cur)
    ensures var w := WalkFrom(nodes, cur, parts, i); ReachedBy(nodes, parts, w.0, w.1)
    decreases |parts| - i
  {
    if i < |parts| {
      match ChildNamed(nodes, cur, parts[i])
      case None =>
      case Some(k) =>
        KidPath(nodes, cur, k);
        ReachedByStep(nodes, parts, i, cur, k);
        WalkReaches(nodes, k, parts, i + 1);
    }
  }

  /** A node's path is the `/`-join of the segments that lead to it, and its name is the last of them. */
  lemma LookupPath(nodes: seq<Node>, parts: seq<string>)
    requires Valid(nodes) && Lookup(nodes, parts).Some?
    ensures var n := Lookup(nodes, parts).value;
            nodes[n].path == Join(parts, "/") && (parts != [] ==> nodes[n].name == parts[|parts| - 1])
  {
    WalkReaches(nodes, 0, parts, 0);
    assert parts[..|parts|] == parts;
  }

  // ---------------------------------------------------------------------------
  // The attached chain

  /** What attaching does, node by node: one push into `c`, then a chain of new nodes each holding the next. */
  lemma {:induction false} AttachShape(nodes: seq<Node>, c: nat, parts: seq<string>, d: nat, i: nat)
    requires c < |nodes| && nodes[c].children.Some?
    requires d < i <= |parts|
    ensures var r := Attach(nodes, c, parts, d, i);
            var n0 := |nodes|;
            && (forall n :: 0 <= n < n0 && n != c ==> r[n] == nodes[n])
            && r[c] == nodes[c].(children := Some(nodes[c].children.value + [n0]))
            && (forall j :: n0 <= j < n0 + i - d - 1 ==> r[j] == NewNode(parts, d + j - n0).(children := Some([j + 1])))
            && r[n0 + i - d - 1] == NewNode(parts, i - 1)
    decreases i
  {
    if i > d + 1 {
      AttachShape(nodes, c, parts, d, i - 1);
      var r' := Attach(nodes, c, parts, d, i - 1);
      var last := |r'| - 1;
      assert r'[last] == NewNode(parts, i - 2);
      assert r'[last].children.value + [|r'|] == [|r'|];
    }
  }

  /** `b` grows `a`: old nodes keep name, kind, path and child-list presence, and their child lists only grow at the end. */
  ghost predicate Extends(a: seq<Node>, b: seq<Node>)
  {
    |a| <= |b| &&
    forall n :: 0 <= n < |a| ==>
      b[n].name == a[n].name && b[n].kind == a[n].kind && b[n].path == a[n].path &&
      b[n].children.None? == a[n].children.None? && Kids(a, n) <= Kids(b, n)
  }

  /** Attaching only appends: one old folder gains the first new node as its last child; nothing else old changes. */
  lemma AttachAppends(nodes: seq<Node>, c: nat, parts: seq<string>, d: nat, i: nat)
    requires c < |nodes| && nodes[c].children.Some?
    requires d < i <= |parts|
    ensures var r := Attach(nodes, c, parts, d, i);
            Extends(nodes, r) &&
            forall n :: 0 <= n < |nodes| ==>
              Kids(r, n) == if n == c then Kids(nodes, n) + [|nodes|] else Kids(nodes, n)
  {
    AttachShape(nodes, c, parts, d, i);
  }

  /** The first push: the node for segment `d` under the folder the walk stopped at. */
  lemma AttachFirstValid(nodes: seq<Node>, c: nat, parts: seq<string>, d: nat)
    requires Valid(nodes) && c < |nodes| && nodes[c].children.Some?
    requires d < |parts|
    requires ReachedBy(nodes, parts, d, c) && ChildNamed(nodes, c, parts[d]).None?
    ensures Valid(AddChild(nodes, c, NewNode(parts, d)))
  {
    assert parts[..d + 1] == parts[..d] + [parts[d]];
    if d > 0 {
      JoinSnoc(parts[..d], parts[d], "/");
    }
    AddChildValid(nodes, c, NewNode(parts, d));
  }

  /** A later push: the node for segment `i` under the node just created for segment `i - 1`. */
  lemma AttachNextValid(r: seq<Node>, parts: seq<string>, i: nat)
    requires Valid(r) && 1 < |r| && 0 < i < |parts|
    requires r[|r| - 1] == NewNode(parts, i - 1) && i - 1 < |parts| - 1
    ensures Valid(AddChild(r, |r| - 1, NewNode(parts, i)))
  {
    assert Kids(r, |r| - 1) == [];
    assert parts[..i + 1] == parts[..i] + [parts[i]];
    JoinSnoc(parts[..i], parts[i], "/");
    AddChildValid(r, |r| - 1, NewNode(parts, i));
  }

  /** Attaching keeps child indices inside the arena and after their parents. */
  lemma {:induction false} AttachClosed(nodes: seq<Node>, c: nat, parts: seq<string>, d: nat, i: nat)
    requires Closed(nodes) && c < |nodes| && nodes[c].children.Some?
    requires d < i <= |parts|
    ensures Closed(Attach(nodes, c, parts, d, i))
    decreases i
  {
    if i == d + 1 {
      AddChildClosed(nodes, c, NewNode(parts, d));
    } else {
      AttachClosed(nodes, c, parts, d, i - 1);
      AddChildClosed(Attach(nodes, c, parts, d, i - 1), |nodes| + i - d - 2, NewNode(parts, i - 1));
    }
  }

  /** Attaching below the end of a walk keeps the tree valid. */
  lemma {:induction false} AttachValid(nodes: seq<Node>, c: nat, parts: seq<string>, d: nat, i: nat)
    requires Valid(nodes) && c < |nodes| && nodes[c].children.Some?
    requires d < i <= |parts|
    requires ReachedBy(nodes, parts, d, c) && ChildNamed(nodes, c, parts[d]).None?
    ensures Valid(Attach(nodes, c, parts, d, i))
    decreases i
  {
    if i == d + 1 {
      AttachFirstValid(nodes, c, parts, d);
      assert Attach(nodes, c, parts, d, i) == AddChild(nodes, c, NewNode(parts, d));
    } else {
      AttachValid(nodes, c, parts, d, i - 1);
      AttachStepValid(nodes, c, parts, d, i);
    }
  }

  /** Each push after the first keeps the tree valid. */
  lemma AttachStepValid(nodes: seq<Node>, c: nat, parts: seq<string>, d: nat, i: nat)
    requires c < |nodes| && nodes[c].children.Some? && d + 1 < i <= |parts|
    requires Valid(Attach(nodes, c, parts, d, i - 1))
    ensures Valid(Attach(nodes, c, parts, d, i))
  {
    var r := Attach(nodes, c, parts, d, i - 1);
    AttachNextValid(r, parts, i - 1);
    assert Attach(nodes, c, parts, d, i) == AddChild(r, |r| - 1, NewNode(parts, i - 1));
  }

  // ---------------------------------------------------------------------------
  // Walks in a grown tree

  /** A child found by name in `a` is still the one found in `b`. */
  lemma {:induction false} FirstNamedExtends(a: seq<Node>, b: seq<Node>, ka: seq<nat>, kb: seq<nat>, name: string)
    requires forall j :: 0 <= j < |ka| ==> ka[j] < |a| && ka[j] < |b| && b[ka[j]].name == a[ka[j]].name
    requires forall j :: 0 <= j < |kb| ==> kb[j] < |b|
    requires ka <= kb
    requires FirstNamed(a, ka, name).Some?
    ensures FirstNamed(b, kb, name) == FirstNamed(a, ka, name)
  {
    if a[ka[0]].name != name {
      FirstNamedExtends(a, b, ka[1..], kb[1..], name);
    }
  }

  /** In a grown tree, a walk first retraces the old walk and then carries on from where that stopped. */
  lemma {:induction false} WalkExtends(a: seq<Node>, b: seq<Node>, cur: nat, parts: seq<string>, i: nat)
    requires Closed(a) && Closed(b) && Extends(a, b)
    requires cur < |a| && i <= |parts|
    ensures var w := WalkFrom(a, cur, parts, i);
            w.1 < |b| && WalkFrom(b, cur, parts, i) == WalkFrom(b, w.1, parts, w.0)
    decreases |parts| - i
  {
    if i < |parts| {
      match ChildNamed(a, cur, parts[i])
      case None =>
      case Some(k) =>
        FirstNamedExtends(a, b, Kids(a, cur), Kids(b, cur), parts[i]);
        WalkExtends(a, b, k, parts, i + 1);
    }
  }

  /** Growing a tree keeps every path it had. */
  lemma LookupExtends(a: seq<Node>, b: seq<Node>, parts: seq<string>)
    requires Closed(a) && Closed(b) && Extends(a, b) && |a| > 0
    requires Lookup(a, parts).Some?
    ensures Lookup(b, parts) == Lookup(a, parts)
  {
    WalkExtends(a, b, 0, parts, 0);
  }

  /** Growing a tree keeps every settled path settled: a walk blocked at a file stays blocked there. */
  lemma SettledExtends(a: seq<Node>, b: seq<Node>, parts: seq<string>)
    requires Closed(a) && Closed(b) && Extends(a, b) && |a| > 0
    requires Settled(a, parts)
    ensures Settled(b, parts)
  {
    WalkExtends(a, b, 0, parts, 0);
  }

  /** Growing is transitive. */
  lemma ExtendsTransitive(a: seq<Node>, b: seq<Node>, c: seq<Node>)
    requires Extends(a, b) && Extends(b, c)
    ensures Extends(a, c)
  {
  }

  /** The nodes from `n0` on are the complete chain for segments `d` onwards, each holding the next. */
  ghost predicate Chain(r: seq<Node>, n0: nat, parts: seq<string>, d: nat)
  {
    && n0 + |parts| - d == |r| && d < |parts|
    && (forall k :: n0 <= k < |r| - 1 ==> r[k] == NewNode(parts, d + k - n0).(children := Some([k + 1])))
    && r[|r| - 1] == NewNode(parts, |parts| - 1)
  }

  /** A complete attachment ends in a complete chain. */
  lemma AttachChain(nodes: seq<Node>, c: nat, parts: seq<string>, d: nat)
    requires c < |nodes| && nodes[c].children.Some?
    requires d < |parts|
    ensures Chain(Attach(nodes, c, parts, d, |parts|), |nodes|, parts, d)
  {
    AttachShape(nodes, c, parts, d, |parts|);
  }

  /** After attaching, the walk from any chain node follows the chain to its end. */
  lemma {:induction false} ChainWalk(r: seq<Node>, n0: nat, parts: seq<string>, d: nat, j: nat)
    requires Closed(r) && Chain(r, n0, parts, d)
    requires n0 <= j < |r|
    ensures WalkFrom(r, j, parts, d + j - n0 + 1) == (|parts|, |r| - 1)
    decreases |r| - j
  {
    if j < |r| - 1 {
      var i := d + j - n0 + 1;
      assert r[j] == NewNode(parts, i - 1).(children := Some([j + 1]));
      assert Kids(r, j) == [j + 1];
      if j + 1 < |r| - 1 {
        assert r[j + 1] == NewNode(parts, i).(children := Some([j + 2]));
      } else {
        assert i == |parts| - 1;
      }
      assert r[j + 1].name == parts[i];
      assert ChildNamed(r, j, parts[i]) == Some(j + 1);
      ChainWalk(r, n0, parts, d, j + 1);
    }
  }

  // ---------------------------------------------------------------------------
  // Insertion

  /** Inserting keeps the tree invariant. */
  lemma InsertValid(nodes: seq<Node>, parts: seq<string>)
    requires Valid(nodes)
    ensures Valid(Insert(nodes, parts))
  {
    var w := Walk(nodes, parts);
    if w.0 < |parts| && nodes[w.1].children.Some? {
      WalkReaches(nodes, 0, parts, 0);
      AttachValid(nodes, w.1, parts, w.0, |parts|);
    }
  }

  /** Inserting keeps child indices inside the arena and after their parents. */
  lemma InsertClosed(nodes: seq<Node>, parts: seq<string>)
    requires Closed(nodes) && |nodes| > 0
    ensures Closed(Insert(nodes, parts)) && |Insert(nodes, parts)| > 0
  {
    var w := Walk(nodes, parts);
    if w.0 < |parts| && nodes[w.1].children.Some? {
      AttachClosed(nodes, w.1, parts, w.0, |parts|);
    }
  }

  /**
   * Inserting only appends: no old node changes name, kind or path, and at most
   * one old folder, the one where the walk stops, gains a child: the first new
   * node, at the end of its list.
   */
  lemma InsertAppends(nodes: seq<Node>, parts: seq<string>)
    requires Closed(nodes) && |nodes| > 0
    ensures var r := Insert(nodes, parts);
            var c := Walk(nodes, parts).1;
            && Extends(nodes, r)
            && (forall n :: 0 <= n < |nodes| && n != c ==> Kids(r, n) == Kids(nodes, n))
            && Kids(r, c) == if |r| == |nodes| then Kids(nodes, c) else Kids(nodes, c) + [|nodes|]
  {
    var w := Walk(nodes, parts);
    if w.0 < |parts| && nodes[w.1].children.Some? {
      AttachAppends(nodes, w.1, parts, w.0, |parts|);
    }
  }

  /**
   * Each new node is created for one of the segments the walk did not find,
   * in order: with `w` the walk's result, new node `j` is the one for segment
   * `w.0 + (j - |nodes|)`. Its name is that segment, its path is the join of
   * the segments up to it, and it is a file exactly when it is the last segment.
   */
  lemma InsertNewNodes(nodes: seq<Node>, parts: seq<string>, w: (nat, nat), j: nat)
    requires Closed(nodes) && |nodes| > 0 && w == Walk(nodes, parts)
    requires |nodes| <= j < |Insert(nodes, parts)|
    ensures CreatedFor(Insert(nodes, parts)[j], parts, w.0 + (j - |nodes|))
  {
    InsertGrows(nodes, parts, w);
    InsertAttachedAt(nodes, parts, w, j);
  }

  /** `InsertNewNodes` where the walk stopped at folder `w.1` before the last segment. */
  lemma InsertAttachedAt(nodes: seq<Node>, parts: seq<string>, w: (nat, nat), j: nat)
    requires Closed(nodes) && |nodes| > 0 && w == Walk(nodes, parts)
    requires w.0 < |parts| && w.1 < |nodes| && nodes[w.1].children.Some?
    requires |nodes| <= j < |Insert(nodes, parts)|
    ensures CreatedFor(Insert(nodes, parts)[j], parts, w.0 + (j - |nodes|))
  {
    InsertIsAttach(nodes, parts, w);
    AttachCreatedAt(nodes, w.1, parts, w.0, Insert(nodes, parts), j);
  }

  /** Where the walk stops at a folder before the last segment, inserting attaches the remaining segments there. */
  lemma InsertIsAttach(nodes: seq<Node>, parts: seq<string>, w: (nat, nat))
    requires Closed(nodes) && |nodes| > 0 && w == Walk(nodes, parts)
    requires w.0 < |parts| && w.1 < |nodes| && nodes[w.1].children.Some?
    ensures Insert(nodes, parts) == Attach(nodes, w.1, parts, w.0, |parts|)
  { }

  /** Inserting adds nodes only where the walk stops at a folder before the last segment. */
  lemma InsertGrows(nodes: seq<Node>, parts: seq<string>, w: (nat, nat))
    requires Closed(nodes) && |nodes| > 0 && w == Walk(nodes, parts)
    ensures |Insert(nodes, parts)| > |nodes| ==> w.0 < |parts| && w.1 < |nodes| && nodes[w.1].children.Some?
  { }

  /** The nodes attached for segments `d` onwards are, in order, the ones created for those segments. */
  lemma AttachCreated(nodes: seq<Node>, c: nat, parts: seq<string>, d: nat)
    requires c < |nodes| && nodes[c].children.Some? && d < |parts|
    ensures var r := Attach(nodes, c, parts, d, |parts|);
            forall j :: |nodes| <= j < |r| ==> CreatedFor(r[j], parts, d + (j - |nodes|))
  {
    var r := Attach(nodes, c, parts, d, |parts|);
    forall j | |nodes| <= j < |r|
      ensures CreatedFor(r[j], parts, d + (j - |nodes|))
    {
      AttachCreatedAt(nodes, c, parts, d, r, j);
    }
  }

  /** `AttachCreated` at one index `j` of the attached tree `r`. */
  lemma AttachCreatedAt(nodes: seq<Node>, c: nat, parts: seq<string>, d: nat, r: seq<Node>, j: nat)
    requires c < |nodes| && nodes[c].children.Some? && d < |parts|
    requires r == Attach(nodes, c, parts, d, |parts|) && |nodes| <= j < |r|
    ensures CreatedFor(r[j], parts, d + (j - |nodes|))
  {
    AttachShape(nodes, c, parts, d, |parts|);
    var k := d + (j - |nodes|);
    if j < |r| - 1 {
      assert r[j] == NewNode(parts, k).(children := Some([j + 1]));
    } else {
      assert r[j] == NewNode(parts, k);
    }
  }


  /** Appending a child with the name no earlier child has makes it the one found by that name. */
  lemma FirstNamedSnoc(nodes: seq<Node>, kids: seq<nat>, x: nat, name: string)
    requires forall j :: 0 <= j < |kids| ==> kids[j] < |nodes| && nodes[kids[j]].name != name
    requires x < |nodes| && nodes[x].name == name
    ensures FirstNamed(nodes, kids + [x], name) == Some(x)
  {
    if kids != [] {
      assert (kids + [x])[1..] == kids[1..] + [x];
      FirstNamedSnoc(nodes, kids[1..], x, name);
    }
  }

  /** In the attached tree, the folder where the walk stopped now has the first new node as its child of that name. */
  lemma AttachFirstChild(nodes: seq<Node>, c: nat, parts: seq<string>, d: nat)
    requires Closed(nodes) && c < |nodes| && nodes[c].children.Some?
    requires d < |parts| && ChildNamed(nodes, c, parts[d]).None?
    ensures var r := Attach(nodes, c, parts, d, |parts|);
            Closed(r) && ChildNamed(r, c, parts[d]) == Some(|nodes|)
  {
    var r := Attach(nodes, c, parts, d, |parts|);
    var kids := Kids(nodes, c);
    AttachClosed(nodes, c, parts, d, |parts|);
    AttachShape(nodes, c, parts, d, |parts|);
    assert Kids(r, c) == kids + [|nodes|];
    forall j | 0 <= j < |kids|
      ensures kids[j] < |r| && r[kids[j]].name != parts[d]
    {
      assert c < kids[j] < |nodes|;
    }
    FirstNamedSnoc(r, kids, |nodes|, parts[d]);
  }

  /** From the folder where the old walk stopped, the walk in the attached tree follows the new chain to its end. */
  lemma AttachWalk(nodes: seq<Node>, c: nat, parts: seq<string>, d: nat)
    requires Closed(nodes) && c < |nodes| && nodes[c].children.Some?
    requires d < |parts| && ChildNamed(nodes, c, parts[d]).None?
    ensures var r := Attach(nodes, c, parts, d, |parts|);
            Closed(r) && WalkFrom(r, c, parts, d) == (|parts|, |r| - 1)
  {
    var r := Attach(nodes, c, parts, d, |parts|);
    var n0 := |nodes|;
    AttachFirstChild(nodes, c, parts, d);
    AttachChain(nodes, c, parts, d);
    ChainWalk(r, n0, parts, d, n0);
    assert WalkFrom(r, c, parts, d) == WalkFrom(r, n0, parts, d + 1);
  }

  /** After inserting, the path is settled: present, or blocked by a file on the way. */
  lemma InsertSettles(nodes: seq<Node>, parts: seq<string>)
    requires Closed(nodes) && |nodes| > 0
    ensures Closed(Insert(nodes, parts)) && Settled(Insert(nodes, parts), parts)
  {
    InsertClosed(nodes, parts);
    var w := Walk(nodes, parts);
    if w.0 < |parts| && nodes[w.1].children.Some? {
      var r := Insert(nodes, parts);
      AttachWalk(nodes, w.1, parts, w.0);
      AttachAppends(nodes, w.1, parts, w.0, |parts|);
      WalkExtends(nodes, r, 0, parts, 0);
    }
  }

  /** Inserting leaves the tree unchanged exactly when the path is already settled. */
  lemma InsertUnchangedIff(nodes: seq<Node>, parts: seq<string>)
    requires Closed(nodes) && |nodes| > 0
    ensures Insert(nodes, parts) == nodes <==> Settled(nodes, parts)
  {
  }

  /** Inserting the same path twice is inserting it once. */
  lemma InsertIdempotent(nodes: seq<Node>, parts: seq<string>)
    requires Closed(nodes) && |nodes| > 0
    ensures Closed(Insert(nodes, parts)) && Insert(Insert(nodes, parts), parts) == Insert(nodes, parts)
  {
    InsertSettles(nodes, parts);
  }

  /** Inserting one path keeps every other path that was present, at the same node, and keeps settled paths settled. */
  lemma InsertKeeps(nodes: seq<Node>, parts: seq<string>, other: seq<string>)
    requires Closed(nodes) && |nodes| > 0
    ensures Closed(Insert(nodes, parts))
    ensures Lookup(nodes, other).Some? ==> Lookup(Insert(nodes, parts), other) == Lookup(nodes, other)
    ensures Settled(nodes, other) ==> Settled(Insert(nodes, parts), other)
  {
    InsertClosed(nodes, parts);
    InsertAppends(nodes, parts);
    if Lookup(nodes, other).Some? {
      LookupExtends(nodes, Insert(nodes, parts), other);
    }
    if Settled(nodes, other) {
      SettledExtends(nodes, Insert(nodes, parts), other);
    }
  }
}
