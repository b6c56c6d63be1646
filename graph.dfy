/**
 * The mind map's graph: nodes and parent-to-child edges kept in flat, ordered lists
 * and looked up by id, the field updates the store applies to nodes, and the
 * descendant closure that collapse and delete compute.
 */
module Graph {
  import opened Wrappers
  import opened Lists

  datatype Position = Position(x: int, y: int)

  /** A node with the fields of its `data` record flattened (`text` is `data.label`); `hidden` is false until a collapse sets it. */
  datatype Node = Node(id: string, text: string, color: string, expanded: bool, hidden: bool, position: Position)

  /** A directed parent-to-child edge. */
  datatype Edge = Edge(id: string, source: string, target: string)

  /** The colour a node gets when none is chosen. */
  const DefaultColor: string := "#3b82f6"

  /** The ids of the nodes in the list. */
  function NodeIds(nodes: seq<Node>): set<string> {
    set n | n in nodes :: n.id
  }

  /** `nodes[i]` is the first node with that id. */
  ghost predicate IsFirst(nodes: seq<Node>, i: int, id: string) {
    0 <= i < |nodes| && nodes[i].id == id && forall j :: 0 <= j < i ==> nodes[j].id != id
  }

  /** `nodes.find(n => n.id === id)`: the first node with that id. */
  function FindNode(nodes: seq<Node>, id: string): (r: Option<Node>)
    ensures r.None? <==> id !in NodeIds(nodes)
    ensures r.Some? ==> exists i :: IsFirst(nodes, i, id) && nodes[i] == r.value
  {
    if nodes == [] then None
    else if nodes[0].id == id then Some(nodes[0])
    else
      var r := FindNode(nodes[1..], id);
      NodeIdsCons(nodes);
      assert r.Some? ==> exists i :: IsFirst(nodes, i, id) && nodes[i] == r.value by {
        if r.Some? {
          var i :| IsFirst(nodes[1..], i, id) && nodes[1..][i] == r.value;
          FirstAfterHead(nodes, i, id);
        }
      }
      r
  }

  /** The ids of a non-empty list: the head's and the rest's. */
  lemma NodeIdsCons(nodes: seq<Node>)
    requires nodes != []
    ensures NodeIds(nodes) == {nodes[0].id} + NodeIds(nodes[1..])
  {
    assert nodes == [nodes[0]] + nodes[1..];
  }

  /** The first match in the tail is the first match overall when the head does not match. */
  lemma FirstAfterHead(nodes: seq<Node>, i: int, id: string)
    requires nodes != [] && nodes[0].id != id && IsFirst(nodes[1..], i, id)
    ensures IsFirst(nodes, i + 1, id) && nodes[i + 1] == nodes[1..][i]
  {
  }

  /** One field update, as the store spreads it into a node. */
  datatype Change = SetLabel(text: string) | SetColor(color: string) | SetExpanded(expanded: bool)
                  | SetHidden(hidden: bool) | MoveTo(position: Position)

  /** The node with one field replaced. */
  function Apply(n: Node, c: Change): (m: Node)
    ensures m.id == n.id
  {
    match c
    case SetLabel(text) => n.(text := text)
    case SetColor(color) => n.(color := color)
    case SetExpanded(expanded) => n.(expanded := expanded)
    case SetHidden(hidden) => n.(hidden := hidden)
    case MoveTo(position) => n.(position := position)
  }

  /** `nodes.map(n => ids includes n.id ? change(n) : n)`. */
  function Patch(nodes: seq<Node>, ids: set<string>, c: Change): (r: seq<Node>)
    ensures |r| == |nodes|
    ensures forall i :: 0 <= i < |nodes| ==> r[i] == if nodes[i].id in ids then Apply(nodes[i], c) else nodes[i]
  {
    seq(|nodes|, i requires 0 <= i < |nodes| => if nodes[i].id in ids then Apply(nodes[i], c) else nodes[i])
  }

  /** Patching keeps every node's id, so the set of ids stays. */
  lemma PatchKeepsIds(nodes: seq<Node>, ids: set<string>, c: Change)
    ensures NodeIds(Patch(nodes, ids, c)) == NodeIds(nodes)
  {
    var r := Patch(nodes, ids, c);
    forall x | x in NodeIds(nodes) ensures x in NodeIds(r) {
      var k :| 0 <= k < |nodes| && nodes[k].id == x;
      assert r[k].id == x;
    }
    forall x | x in NodeIds(r) ensures x in NodeIds(nodes) {
      var k :| 0 <= k < |r| && r[k].id == x;
      assert nodes[k].id == x;
    }
  }

  /** After a patch, looking up an id finds the same node, updated when the patch covers it. */
  lemma {:induction false} PatchFind(nodes: seq<Node>, ids: set<string>, c: Change, id: string)
    ensures FindNode(Patch(nodes, ids, c), id) ==
      match FindNode(nodes, id)
      case None => None
      case Some(n) => Some(if id in ids then Apply(n, c) else n)
  {
    if nodes != [] && nodes[0].id != id {
      var r := Patch(nodes, ids, c);
      assert r[1..] == Patch(nodes[1..], ids, c);
      PatchFind(nodes[1..], ids, c, id);
    }
  }

  /** Patching nodes that are not in the list changes nothing. */
  lemma PatchUnknown(nodes: seq<Node>, ids: set<string>, c: Change)
    requires ids * NodeIds(nodes) == {}
    ensures Patch(nodes, ids, c) == nodes
  {
    forall i | 0 <= i < |nodes| ensures nodes[i].id !in ids {
      assert nodes[i] in nodes;
      assert nodes[i].id !in ids * NodeIds(nodes);
    }
  }

  // ---------------------------------------------------------------------------
  // Reachability along source-to-target edges
  // ---------------------------------------------------------------------------

  /** Some edge goes from `s` to `t`. */
  predicate Linked(edges: seq<Edge>, s: string, t: string) {
    exists e :: e in edges && e.source == s && e.target == t
  }

  /** The targets of all edges. */
  function Targets(edges: seq<Edge>): set<string> {
    set e | e in edges :: e.target
  }

  /** A walk of at least one edge. */
  ghost predicate IsChain(edges: seq<Edge>, path: seq<string>) {
    |path| >= 2 && forall i :: 0 <= i < |path| - 1 ==> Linked(edges, path[i], path[i + 1])
  }

  /** `b` is a (transitive) descendant of `a`. */
  ghost predicate Reachable(edges: seq<Edge>, a: string, b: string) {
    exists path :: IsChain(edges, path) && path[0] == a && path[|path| - 1] == b
  }

  /** The descendants of `a`: every node reachable from it by source-to-target edges. */
  ghost function ReachSet(edges: seq<Edge>, a: string): set<string> {
    set x | x in Targets(edges) && Reachable(edges, a, x)
  }

  /** No node is its own descendant. */
  ghost predicate Acyclic(edges: seq<Edge>) {
    forall n :: n !in ReachSet(edges, n)
  }

  lemma ReachableIsTarget(edges: seq<Edge>, a: string, b: string)
    requires Reachable(edges, a, b)
    ensures b in Targets(edges) && b in ReachSet(edges, a)
  {
    var path :| IsChain(edges, path) && path[0] == a && path[|path| - 1] == b;
    assert Linked(edges, path[|path| - 2], path[|path| - 1]);
  }

  /** An edge followed by a walk (or by nothing) is a walk. */
  lemma ReachStep(edges: seq<Edge>, a: string, c: string, b: string)
    requires Linked(edges, a, c) && (c == b || Reachable(edges, c, b))
    ensures Reachable(edges, a, b)
  {
    if c == b {
      assert IsChain(edges, [a, b]);
    } else {
      var path :| IsChain(edges, path) && path[0] == c && path[|path| - 1] == b;
      var longer := [a] + path;
      assert forall i :: 1 <= i < |longer| - 1 ==> longer[i] == path[i - 1] && longer[i + 1] == path[i];
      assert IsChain(edges, longer);
    }
  }

  /** Every walk starts with an edge. */
  lemma ReachFirst(edges: seq<Edge>, a: string, b: string) returns (c: string)
    requires Reachable(edges, a, b)
    ensures Linked(edges, a, c) && (c == b || Reachable(edges, c, b))
  {
    var path :| IsChain(edges, path) && path[0] == a && path[|path| - 1] == b;
    c := path[1];
    assert Linked(edges, path[0], path[1]);
    if |path| > 2 {
      var rest := path[1..];
      forall i | 0 <= i < |rest| - 1 ensures Linked(edges, rest[i], rest[i + 1]) {
        assert Linked(edges, path[i + 1], path[i + 2]);
      }
      assert IsChain(edges, rest);
    }
  }

  /** Walks compose. */
  lemma ReachTrans(edges: seq<Edge>, a: string, b: string, c: string)
    requires Reachable(edges, a, b) && Reachable(edges, b, c)
    ensures Reachable(edges, a, c)
  {
    var p :| IsChain(edges, p) && p[0] == a && p[|p| - 1] == b;
    var q :| IsChain(edges, q) && q[0] == b && q[|q| - 1] == c;
    var w := p + q[1..];
    forall i | 0 <= i < |w| - 1 ensures Linked(edges, w[i], w[i + 1]) {
      if i < |p| - 1 {
        assert w[i] == p[i] && w[i + 1] == p[i + 1];
      } else {
        assert w[i] == q[i - |p| + 1] && w[i + 1] == q[i - |p| + 2];
      }
    }
    assert IsChain(edges, w);
  }

  /** In an acyclic graph a child has strictly fewer descendants than its parent. */
  lemma ReachSetShrinks(edges: seq<Edge>, p: string, c: string)
    requires Acyclic(edges) && Linked(edges, p, c)
    ensures ReachSet(edges, c) < ReachSet(edges, p)
    ensures |ReachSet(edges, c)| < |ReachSet(edges, p)|
  {
    forall x | x in ReachSet(edges, c) ensures x in ReachSet(edges, p) {
      ReachStep(edges, p, c, x);
    }
    ReachStep(edges, p, c, c);
    ReachableIsTarget(edges, p, c);
    assert c !in ReachSet(edges, c);
    var big, small := ReachSet(edges, p), ReachSet(edges, c);
    assert small <= big - {c};
    assert |big - {c}| == |big| - 1;
    SubsetSize(small, big - {c});
  }

  lemma SubsetSize<T>(a: set<T>, b: set<T>)
    requires a <= b
    ensures |a| <= |b|
  {
    assert b == a + (b - a);
  }

  /** `edges.filter(e => e.source === p).map(e => e.target)`, in edge order. */
  function DirectChildren(edges: seq<Edge>, p: string): (r: seq<string>)
    ensures forall x :: x in r ==> x in Targets(edges)
  {
    if edges == [] then []
    else
      var rest := DirectChildren(edges[1..], p);
      assert forall x :: x in rest ==> x in Targets(edges) by {
        assert forall e :: e in edges[1..] ==> e in edges;
      }
      if edges[0].source == p then [edges[0].target] + rest else rest
  }

  /**
   * The direct children of `p`, in order and with repeats, are the targets of the
   * edges whose source is `p`, taken in edge order.
   */
  lemma {:induction false} DirectChildrenInOrder(edges: seq<Edge>, p: string)
    ensures DirectChildren(edges, p) == Map(Filter(edges, (e: Edge) => e.source == p), (e: Edge) => e.target)
  {
    if edges != [] {
      DirectChildrenInOrder(edges[1..], p);
      var rest := Filter(edges[1..], (e: Edge) => e.source == p);
      if edges[0].source == p {
        assert ([edges[0]] + rest)[1..] == rest;
      }
    }
  }

  /** The direct children of `p` are exactly the targets of the edges out of `p`. */
  lemma {:induction false} DirectChildrenLinked(edges: seq<Edge>, p: string)
    ensures forall x :: x in DirectChildren(edges, p) <==> Linked(edges, p, x)
  {
    if edges != [] {
      DirectChildrenLinked(edges[1..], p);
      assert forall e :: e in edges <==> e == edges[0] || e in edges[1..];
    }
  }

  /**
   * `findAllChildren`: the direct children of `parentId`, then the descendants of each
   * child in turn. It recurses with no visited set, so it needs an acyclic edge list;
   * on a cycle the recursion does not end.
   */
  method FindAllChildren(edges: seq<Edge>, parentId: string) returns (ids: seq<string>)
    requires Acyclic(edges)
    ensures forall x :: x in ids <==> Reachable(edges, parentId, x)
    decreases |ReachSet(edges, parentId)|
  {
    var direct := DirectChildren(edges, parentId);
    DirectChildrenLinked(edges, parentId);
    ids := direct;
    var i := 0;
    while i < |direct|
      invariant 0 <= i <= |direct|
      invariant forall x :: x in ids <==> x in direct || exists j :: 0 <= j < i && Reachable(edges, direct[j], x)
    {
      ReachSetShrinks(edges, parentId, direct[i]);
      var sub := FindAllChildren(edges, direct[i]);
      ids := ids + sub;
      i := i + 1;
    }
    forall x | Reachable(edges, parentId, x) ensures x in ids {
      var c := ReachFirst(edges, parentId, x);
      if c != x {
        var j :| 0 <= j < |direct| && direct[j] == c;
      }
    }
    forall x | x in ids ensures Reachable(edges, parentId, x) {
      if x in direct {
        ReachStep(edges, parentId, x, x);
      } else {
        var j :| 0 <= j < |direct| && Reachable(edges, direct[j], x);
        ReachStep(edges, parentId, direct[j], x);
      }
    }
  }

  // ---------------------------------------------------------------------------
  // Acyclicity
  // ---------------------------------------------------------------------------

  /** Every edge is also in `big`. */
  ghost predicate SubEdges(small: seq<Edge>, big: seq<Edge>) {
    forall e :: e in small ==> e in big
  }

  /** A walk over fewer edges is a walk over more. */
  lemma ReachableMonotone(small: seq<Edge>, big: seq<Edge>, a: string, b: string)
    requires SubEdges(small, big) && Reachable(small, a, b)
    ensures Reachable(big, a, b)
  {
    var path :| IsChain(small, path) && path[0] == a && path[|path| - 1] == b;
    forall i | 0 <= i < |path| - 1 ensures Linked(big, path[i], path[i + 1]) {
      assert Linked(small, path[i], path[i + 1]);
    }
    assert IsChain(big, path);
  }

  /** Dropping edges keeps a graph acyclic. */
  lemma AcyclicSubset(small: seq<Edge>, big: seq<Edge>)
    requires SubEdges(small, big) && Acyclic(big)
    ensures Acyclic(small)
  {
    forall n ensures n !in ReachSet(small, n) {
      if n in ReachSet(small, n) {
        ReachableMonotone(small, big, n, n);
        ReachableIsTarget(big, n, n);
      }
    }
  }

  /** No edge leaves `id`. */
  ghost predicate NoEdgeFrom(edges: seq<Edge>, id: string) {
    forall e :: e in edges ==> e.source != id
  }

  /** A closed walk over `edges + [e]` never uses `e` when nothing leaves `e.target`. */
  lemma ClosedWalkAvoidsLeaf(edges: seq<Edge>, e: Edge, path: seq<string>)
    requires NoEdgeFrom(edges, e.target) && e.source != e.target
    requires IsChain(edges + [e], path) && path[0] == path[|path| - 1]
    ensures IsChain(edges, path)
  {
    var big := edges + [e];
    forall i | 0 <= i < |path| - 1 ensures path[i] != e.target {
      assert Linked(big, path[i], path[i + 1]);
      var f :| f in big && f.source == path[i] && f.target == path[i + 1];
      assert f in edges || f == e;
    }
    forall i | 0 <= i < |path| - 1 ensures Linked(edges, path[i], path[i + 1]) {
      assert Linked(big, path[i], path[i + 1]);
      var f :| f in big && f.source == path[i] && f.target == path[i + 1];
      var k := if i + 1 < |path| - 1 then i + 1 else 0;
      assert path[i + 1] == path[k] && path[k] != e.target;
      assert f in edges;
    }
  }

  /**
   * Appending an edge to a node that has no outgoing edges (a fresh leaf) keeps a
   * graph acyclic: a cycle cannot pass through a node nothing leaves.
   */
  lemma AddLeafKeepsAcyclic(edges: seq<Edge>, e: Edge)
    requires Acyclic(edges) && NoEdgeFrom(edges, e.target) && e.source != e.target
    ensures Acyclic(edges + [e])
  {
    var big := edges + [e];
    forall n ensures n !in ReachSet(big, n) {
      if n in ReachSet(big, n) {
        var path :| IsChain(big, path) && path[0] == n && path[|path| - 1] == n;
        ClosedWalkAvoidsLeaf(edges, e, path);
        ReachableIsTarget(edges, n, n);
      }
    }
  }

  /** The ranks of an edge's ends strictly fall along every walk. */
  lemma {:induction false} ChainDescends(edges: seq<Edge>, rank: string -> nat, path: seq<string>)
    requires forall e :: e in edges ==> rank(e.target) < rank(e.source)
    requires IsChain(edges, path)
    ensures rank(path[|path| - 1]) < rank(path[0])
  {
    assert Linked(edges, path[0], path[1]);
    if |path| > 2 {
      var rest := path[1..];
      forall i | 0 <= i < |rest| - 1 ensures Linked(edges, rest[i], rest[i + 1]) {
        assert Linked(edges, path[i + 1], path[i + 2]);
      }
      ChainDescends(edges, rank, rest);
    }
  }

  /** A graph whose edges all go down a ranking is acyclic. */
  lemma RankedAcyclic(edges: seq<Edge>, rank: string -> nat)
    requires forall e :: e in edges ==> rank(e.target) < rank(e.source)
    ensures Acyclic(edges)
  {
    forall n ensures n !in ReachSet(edges, n) {
      if n in ReachSet(edges, n) {
        var path :| IsChain(edges, path) && path[0] == n && path[|path| - 1] == n;
        ChainDescends(edges, rank, path);
      }
    }
  }

  // ---------------------------------------------------------------------------
  // Removal and well-formedness
  // ---------------------------------------------------------------------------

  /** The ids `deleteNode` removes: the node and all of its descendants. */
  ghost function Doomed(edges: seq<Edge>, id: string): (r: set<string>)
    ensures forall x :: x in r <==> x == id || Reachable(edges, id, x)
  {
    assert forall x :: Reachable(edges, id, x) ==> x in ReachSet(edges, id) by {
      forall x | Reachable(edges, id, x) ensures x in Targets(edges) {
        ReachableIsTarget(edges, id, x);
      }
    }
    {id} + ReachSet(edges, id)
  }

  /** `nodes.filter(n => !gone.includes(n.id))`. */
  function WithoutNodes(nodes: seq<Node>, gone: set<string>): (r: seq<Node>)
    ensures forall n :: n in r <==> n in nodes && n.id !in gone
    ensures NodeIds(r) == NodeIds(nodes) - gone
  {
    var r := Filter(nodes, (n: Node) => n.id !in gone);
    assert forall n :: n in r <==> n in nodes && n.id !in gone by {
      forall n | n in nodes && n.id !in gone ensures n in r {
        var i :| 0 <= i < |nodes| && nodes[i] == n;
      }
      forall n | n in r ensures n in nodes && n.id !in gone {
        var i :| 0 <= i < |r| && r[i] == n;
      }
    }
    r
  }

  /** `edges.filter(e => !gone.includes(e.source) && !gone.includes(e.target))`. */
  function WithoutEdges(edges: seq<Edge>, gone: set<string>): (r: seq<Edge>)
    ensures forall e :: e in r <==> e in edges && e.source !in gone && e.target !in gone
  {
    var r := Filter(edges, (e: Edge) => e.source !in gone && e.target !in gone);
    assert forall e :: e in r <==> e in edges && e.source !in gone && e.target !in gone by {
      forall e | e in edges && e.source !in gone && e.target !in gone ensures e in r {
        var i :| 0 <= i < |edges| && edges[i] == e;
      }
      forall e | e in r ensures e in edges && e.source !in gone && e.target !in gone {
        var i :| 0 <= i < |r| && r[i] == e;
      }
    }
    r
  }

  /** Removal works element by element, so the survivors keep their order. */
  lemma WithoutNodesConcat(a: seq<Node>, b: seq<Node>, gone: set<string>)
    ensures WithoutNodes(a + b, gone) == WithoutNodes(a, gone) + WithoutNodes(b, gone)
  {
    FilterConcat(a, b, (n: Node) => n.id !in gone);
  }

  /** Removing ids no node has changes nothing. */
  lemma WithoutUnknownNodes(nodes: seq<Node>, gone: set<string>)
    requires gone * NodeIds(nodes) == {}
    ensures WithoutNodes(nodes, gone) == nodes
  {
    forall i | 0 <= i < |nodes| ensures nodes[i].id !in gone {
      assert nodes[i] in nodes;
      assert nodes[i].id !in gone * NodeIds(nodes);
    }
    FilterAll(nodes, (n: Node) => n.id !in gone);
  }

  /** No two nodes share an id. */
  ghost predicate UniqueIds(nodes: seq<Node>) {
    forall i, j :: 0 <= i < j < |nodes| ==> nodes[i].id != nodes[j].id
  }

  /** Every edge joins two nodes of the list. */
  ghost predicate EdgesConnect(nodes: seq<Node>, edges: seq<Edge>) {
    forall e :: e in edges ==> e.source in NodeIds(nodes) && e.target in NodeIds(nodes)
  }

  ghost predicate WellFormed(nodes: seq<Node>, edges: seq<Edge>) {
    UniqueIds(nodes) && EdgesConnect(nodes, edges)
  }

  /** Removing nodes keeps the remaining ids distinct. */
  lemma {:induction false} WithoutNodesUnique(nodes: seq<Node>, gone: set<string>)
    requires UniqueIds(nodes)
    ensures UniqueIds(WithoutNodes(nodes, gone))
  {
    if nodes != [] {
      var rest := nodes[1..];
      assert UniqueIds(rest) by {
        forall i, j | 0 <= i < j < |rest| ensures rest[i].id != rest[j].id {
          assert rest[i] == nodes[i + 1] && rest[j] == nodes[j + 1];
        }
      }
      WithoutNodesUnique(rest, gone);
      var tail := WithoutNodes(rest, gone);
      assert WithoutNodes(nodes, gone) == if nodes[0].id !in gone then [nodes[0]] + tail else tail;
      forall k | 0 <= k < |tail| ensures tail[k].id != nodes[0].id {
        assert tail[k] in rest;
        var j :| 0 <= j < |rest| && rest[j] == tail[k];
        assert rest[j] == nodes[j + 1];
      }
    }
  }

  /** Deleting a set of ids together with every edge touching them keeps the graph well formed and acyclic. */
  lemma DeleteKeepsWellFormed(nodes: seq<Node>, edges: seq<Edge>, gone: set<string>)
    requires WellFormed(nodes, edges)
    ensures WellFormed(WithoutNodes(nodes, gone), WithoutEdges(edges, gone))
    ensures Acyclic(edges) ==> Acyclic(WithoutEdges(edges, gone))
  {
    WithoutNodesUnique(nodes, gone);
    if Acyclic(edges) {
      AcyclicSubset(WithoutEdges(edges, gone), edges);
    }
  }

  // ---------------------------------------------------------------------------
  // Collapse and expand
  // ---------------------------------------------------------------------------

  /**
   * A toggle of `id` whose descendants are `desc`: the first update flips the node's
   * `expanded`, the second sets `hidden` on every node in `desc` to the negation of
   * the new value. An unknown id changes nothing.
   */
  function ToggleWith(nodes: seq<Node>, id: string, desc: set<string>): (r: seq<Node>)
    ensures |r| == |nodes|
    ensures id !in NodeIds(nodes) ==> r == nodes
    ensures forall i :: 0 <= i < |nodes| ==>
      && r[i] == nodes[i].(expanded := r[i].expanded, hidden := r[i].hidden)
      && (nodes[i].id != id && nodes[i].id !in desc ==> r[i] == nodes[i])
  {
    match FindNode(nodes, id)
    case None => nodes
    case Some(n) => Patch(Patch(nodes, {id}, SetExpanded(!n.expanded)), desc, SetHidden(n.expanded))
  }

  /** The node list after `toggleNodeExpansion(id)`. */
  ghost function Toggled(nodes: seq<Node>, edges: seq<Edge>, id: string): (r: seq<Node>)
    ensures |r| == |nodes|
    ensures forall i :: 0 <= i < |nodes| ==>
      && r[i] == nodes[i].(expanded := r[i].expanded, hidden := r[i].hidden)
      && (nodes[i].id != id && !Reachable(edges, id, nodes[i].id) ==> r[i] == nodes[i])
  {
    ToggleWith(nodes, id, ReachSet(edges, id))
  }

  /** One node of a toggle's result, when the node is not among its own descendants. */
  lemma ToggleWithAt(nodes: seq<Node>, id: string, desc: set<string>, n: Node, i: int)
    requires id !in desc && FindNode(nodes, id) == Some(n) && 0 <= i < |nodes|
    ensures ToggleWith(nodes, id, desc)[i] ==
      if nodes[i].id == id then nodes[i].(expanded := !n.expanded)
      else if nodes[i].id in desc then nodes[i].(hidden := n.expanded)
      else nodes[i]
  {
    var mid := Patch(nodes, {id}, SetExpanded(!n.expanded));
    assert mid[i] == if nodes[i].id == id then nodes[i].(expanded := !n.expanded) else nodes[i];
    var r := Patch(mid, desc, SetHidden(n.expanded));
    assert r[i] == if mid[i].id in desc then mid[i].(hidden := n.expanded) else mid[i];
  }

  /**
   * Node by node, a toggle flips the target's `expanded`, sets `hidden` on every
   * descendant whatever its own `expanded` says, and leaves every other node as it was.
   */
  lemma ToggleEffect(nodes: seq<Node>, edges: seq<Edge>, id: string)
    requires id !in ReachSet(edges, id)
    ensures |Toggled(nodes, edges, id)| == |nodes|
    ensures FindNode(nodes, id).None? ==> Toggled(nodes, edges, id) == nodes
    ensures FindNode(nodes, id).Some? ==>
      forall i :: 0 <= i < |nodes| ==>
        Toggled(nodes, edges, id)[i] ==
          if nodes[i].id == id then nodes[i].(expanded := !FindNode(nodes, id).value.expanded)
          else if Reachable(edges, id, nodes[i].id) then nodes[i].(hidden := FindNode(nodes, id).value.expanded)
          else nodes[i]
  {
    if FindNode(nodes, id).Some? {
      var n := FindNode(nodes, id).value;
      forall i | 0 <= i < |nodes|
        ensures Toggled(nodes, edges, id)[i] ==
          if nodes[i].id == id then nodes[i].(expanded := !n.expanded)
          else if Reachable(edges, id, nodes[i].id) then nodes[i].(hidden := n.expanded)
          else nodes[i]
      {
        ToggleWithAt(nodes, id, ReachSet(edges, id), n, i);
        if nodes[i].id != id && Reachable(edges, id, nodes[i].id) {
          ReachableIsTarget(edges, id, nodes[i].id);
        }
      }
    }
  }

  /** With distinct ids, the node `FindNode` returns is the only one with that id. */
  lemma FindUnique(nodes: seq<Node>, id: string, i: int)
    requires UniqueIds(nodes) && 0 <= i < |nodes| && nodes[i].id == id
    ensures FindNode(nodes, id) == Some(nodes[i])
  {
    assert nodes[i] in nodes;
    var r := FindNode(nodes, id);
    var j :| IsFirst(nodes, j, id) && nodes[j] == r.value;
    assert nodes[j].id == nodes[i].id;
  }

  /** Patching with a change every selected node already carries changes nothing. */
  lemma PatchAlreadyApplied(nodes: seq<Node>, ids: set<string>, c: Change)
    requires forall i :: 0 <= i < |nodes| && nodes[i].id in ids ==> Apply(nodes[i], c) == nodes[i]
    ensures Patch(nodes, ids, c) == nodes
  {
  }

  /** After a toggle the node is found with its `expanded` flipped. */
  lemma ToggleWithFind(nodes: seq<Node>, id: string, desc: set<string>, n: Node)
    requires id !in desc && FindNode(nodes, id) == Some(n)
    ensures FindNode(ToggleWith(nodes, id, desc), id) == Some(n.(expanded := !n.expanded))
  {
    var mid := Patch(nodes, {id}, SetExpanded(!n.expanded));
    PatchFind(nodes, {id}, SetExpanded(!n.expanded), id);
    PatchFind(mid, desc, SetHidden(n.expanded), id);
  }

  /** One node of the result of toggling twice. */
  lemma ToggleTwiceAt(nodes: seq<Node>, id: string, desc: set<string>, n: Node, i: int)
    requires id !in desc && UniqueIds(nodes) && FindNode(nodes, id) == Some(n) && 0 <= i < |nodes|
    ensures ToggleWith(ToggleWith(nodes, id, desc), id, desc)[i] == Patch(nodes, desc, SetHidden(!n.expanded))[i]
  {
    var once := ToggleWith(nodes, id, desc);
    ToggleWithFind(nodes, id, desc, n);
    ToggleWithAt(nodes, id, desc, n, i);
    ToggleWithAt(once, id, desc, n.(expanded := !n.expanded), i);
    if nodes[i].id == id {
      FindUnique(nodes, id, i);
    }
  }

  /** Toggling twice, for any descendant set that leaves out the node itself. */
  lemma ToggleWithTwice(nodes: seq<Node>, id: string, desc: set<string>, n: Node)
    requires id !in desc && UniqueIds(nodes) && FindNode(nodes, id) == Some(n)
    ensures ToggleWith(ToggleWith(nodes, id, desc), id, desc) == Patch(nodes, desc, SetHidden(!n.expanded))
  {
    var twice := ToggleWith(ToggleWith(nodes, id, desc), id, desc);
    var expected := Patch(nodes, desc, SetHidden(!n.expanded));
    forall i | 0 <= i < |nodes| ensures twice[i] == expected[i] {
      ToggleTwiceAt(nodes, id, desc, n, i);
    }
  }

  /**
   * Toggling twice restores the target's `expanded` but leaves every descendant with
   * `hidden` equal to the target's original `!expanded`, whatever it was before.
   */
  lemma ToggleTwice(nodes: seq<Node>, edges: seq<Edge>, id: string, n: Node)
    requires id !in ReachSet(edges, id) && UniqueIds(nodes)
    requires FindNode(nodes, id) == Some(n)
    ensures Toggled(Toggled(nodes, edges, id), edges, id) == Patch(nodes, ReachSet(edges, id), SetHidden(!n.expanded))
  {
    ToggleWithTwice(nodes, id, ReachSet(edges, id), n);
  }

  /**
   * When every descendant's `hidden` already matches the target's `!expanded` (as a
   * collapse or expand of this node leaves it), toggling twice is the identity.
   */
  lemma ToggleTwiceConsistent(nodes: seq<Node>, edges: seq<Edge>, id: string, n: Node)
    requires id !in ReachSet(edges, id) && UniqueIds(nodes)
    requires FindNode(nodes, id) == Some(n)
    requires forall i :: 0 <= i < |nodes| && Reachable(edges, id, nodes[i].id) ==> nodes[i].hidden == !n.expanded
    ensures Toggled(Toggled(nodes, edges, id), edges, id) == nodes
  {
    ToggleTwice(nodes, edges, id, n);
    HiddenAlreadySet(nodes, ReachSet(edges, id), !n.expanded);
  }

  /** Setting `hidden` to the value every selected node already has changes nothing. */
  lemma HiddenAlreadySet(nodes: seq<Node>, ids: set<string>, h: bool)
    requires forall i :: 0 <= i < |nodes| && nodes[i].id in ids ==> nodes[i].hidden == h
    ensures Patch(nodes, ids, SetHidden(h)) == nodes
  {
    PatchAlreadyApplied(nodes, ids, SetHidden(h));
  }
}
