/**
 * The mind-map canvas store: an ordered list of nodes (the first one is the root the
 * tidy-up starts from), an ordered list of parent-to-child edges, and the selected
 * node. Each operation of the canvas is a method of `MindMap` that rewrites these
 * fields the way the canvas's `setNodes`/`setEdges` updates do, one after the other.
 */
module MindMapStore {
  import opened Wrappers
  import opened Lists
  import opened Graph
  import opened Layout
  import opened JsText
  import IdeaRoute
  import ModelCall

  /** The node a new document starts with, and the one "Add Idea" creates on an empty map. */
  const CentralIdea: Node := Node("1", "Central Idea", DefaultColor, true, false, Position(0, 0))

  /** The label of a child added from the toolbar or the "Add Idea" button. */
  const NewIdeaLabel: string := "New Idea"

  /** The labels added when idea generation fails or brings back no ideas. */
  const PlaceholderIdeas: seq<string> := ["Related concept 1", "Related concept 2", "Related concept 3"]

  // ---------------------------------------------------------------------------
  // Adding a child
  // ---------------------------------------------------------------------------

  /** `color || "#3b82f6"`: an absent or empty colour falls back to the default. */
  function ColorOrDefault(color: Option<string>): (c: string)
    ensures c != ""
    ensures color.Some? && color.value != "" ==> c == color.value
  {
    if color.Some? && color.value != "" then color.value else DefaultColor
  }

  /** `childrenCount`: how many listed nodes some edge from `parentId` points at. */
  function ChildCount(nodes: seq<Node>, edges: seq<Edge>, parentId: string): (c: nat)
    ensures c <= |nodes|
    ensures c == 0 <==> forall n :: n in nodes ==> !Linked(edges, parentId, n.id)
  {
    var kept := Filter(nodes, (n: Node) => Linked(edges, parentId, n.id));
    assert (forall n :: n in nodes ==> !Linked(edges, parentId, n.id)) ==> kept == [] by {
      if forall n :: n in nodes ==> !Linked(edges, parentId, n.id) {
        FilterNone(nodes, (n: Node) => Linked(edges, parentId, n.id));
      }
    }
    |kept|
  }

  /** The provisional spot of a new child: one column right of the parent, one row per existing child. */
  function ChildSpot(parent: Node, count: nat): (p: Position)
    ensures p.x > parent.position.x && p.y >= parent.position.y
    ensures count > 0 ==> p.y > parent.position.y
    ensures forall c: nat :: c < count ==> p.y > ChildSpot(parent, c).y
  {
    Position(parent.position.x + HorizontalSpacing, parent.position.y + count * VerticalSpacing)
  }

  /** The node `addNode` creates: expanded, visible, at the provisional spot. */
  function NewChild(parent: Node, count: nat, text: string, color: Option<string>, id: string): (n: Node)
    ensures n.id == id && n.text == text && n.color != ""
    ensures n.expanded && !n.hidden
    ensures n.position.x > parent.position.x && n.position.y >= parent.position.y
  {
    Node(id, text, ColorOrDefault(color), true, false, ChildSpot(parent, count))
  }

  /** The edge `addNode` creates, with id `e<parent>-<child>`. */
  function EdgeTo(parentId: string, childId: string): (e: Edge)
    ensures e.source == parentId && e.target == childId
  {
    Edge("e" + parentId + "-" + childId, parentId, childId)
  }

  lemma NodeIdsConcat(a: seq<Node>, b: seq<Node>)
    ensures NodeIds(a + b) == NodeIds(a) + NodeIds(b)
  {
    assert forall n :: n in a + b <==> n in a || n in b;
  }

  /**
   * Appending a child with a new id and the edge from a listed parent to it keeps the
   * ids distinct and every edge between listed nodes, and keeps an acyclic graph
   * acyclic, since nothing leaves the new node.
   */
  lemma AddChildKeepsWellFormed(nodes: seq<Node>, edges: seq<Edge>, parentId: string, child: Node)
    requires WellFormed(nodes, edges) && parentId in NodeIds(nodes) && child.id !in NodeIds(nodes)
    ensures WellFormed(nodes + [child], edges + [EdgeTo(parentId, child.id)])
    ensures Acyclic(edges) ==> Acyclic(edges + [EdgeTo(parentId, child.id)])
  {
    var nodes', e := nodes + [child], EdgeTo(parentId, child.id);
    NodeIdsConcat(nodes, [child]);
    assert NodeIds([child]) == {child.id};
    forall i, j | 0 <= i < j < |nodes'| ensures nodes'[i].id != nodes'[j].id {
      if j == |nodes| {
        assert nodes'[i] == nodes[i] && nodes[i] in nodes;
      }
    }
    assert NoEdgeFrom(edges, child.id);
    if Acyclic(edges) {
      AddLeafKeepsAcyclic(edges, e);
    }
  }

  /**
   * After one child is added, the parent's child count is one more, so a later
   * `addNode` that sees the new state puts its child one row further down.
   */
  lemma AddChildCounts(nodes: seq<Node>, edges: seq<Edge>, parentId: string, child: Node)
    requires EdgesConnect(nodes, edges) && child.id !in NodeIds(nodes)
    ensures ChildCount(nodes + [child], edges + [EdgeTo(parentId, child.id)], parentId) == ChildCount(nodes, edges, parentId) + 1
  {
    var e := EdgeTo(parentId, child.id);
    var edges' := edges + [e];
    var before := (n: Node) => Linked(edges, parentId, n.id);
    var after := (n: Node) => Linked(edges', parentId, n.id);
    forall i | 0 <= i < |nodes| ensures after(nodes[i]) == before(nodes[i]) {
      assert nodes[i] in nodes;
      if after(nodes[i]) {
        var f :| f in edges' && f.source == parentId && f.target == nodes[i].id;
        assert f != e;
      }
    }
    FilterAgree(nodes, after, before);
    FilterConcat(nodes, [child], after);
    assert after(child) by {
      assert e in edges';
    }
  }

  // ---------------------------------------------------------------------------
  // Generating ideas
  // ---------------------------------------------------------------------------

  /** The JSON body posted to the idea route: the node's label and its parent's label, or "". */
  datatype IdeaRequest = IdeaRequest(nodeText: string, parentText: string)

  /** What the `fetch` brought back: it threw, or a response with a status and its `ideas` (empty when absent). */
  datatype Response = Failed | Answered(status: int, ideas: seq<string>)

  /** `edges[i]` is the first edge into `id`. */
  ghost predicate FirstInto(edges: seq<Edge>, i: int, id: string) {
    0 <= i < |edges| && edges[i].target == id && forall j :: 0 <= j < i ==> edges[j].target != id
  }

  /** `edges.find(e => e.target === id)`: the first edge into `id`. */
  function FindEdgeInto(edges: seq<Edge>, id: string): (r: Option<Edge>)
    ensures r.Some? ==> r.value in edges && r.value.target == id
    ensures r.Some? ==> exists i :: FirstInto(edges, i, id) && edges[i] == r.value
    ensures r.None? ==> forall e :: e in edges ==> e.target != id
  {
    if edges == [] then None
    else if edges[0].target == id then
      assert FirstInto(edges, 0, id);
      Some(edges[0])
    else
      var r := FindEdgeInto(edges[1..], id);
      assert forall e :: e in edges ==> e == edges[0] || e in edges[1..];
      assert r.Some? ==> exists i :: FirstInto(edges, i, id) && edges[i] == r.value by {
        if r.Some? {
          var i :| FirstInto(edges[1..], i, id) && edges[1..][i] == r.value;
          assert FirstInto(edges, i + 1, id);
        }
      }
      r
  }

  /** There is at most one first edge into an id. */
  lemma FirstIntoUnique(edges: seq<Edge>, i: int, j: int, id: string)
    requires FirstInto(edges, i, id) && FirstInto(edges, j, id)
    ensures i == j
  {
  }

  /** There is at most one first node with an id. */
  lemma IsFirstUnique(nodes: seq<Node>, i: int, j: int, id: string)
    requires IsFirst(nodes, i, id) && IsFirst(nodes, j, id)
    ensures i == j
  {
  }

  /** The request for `node`: its label, and the label of the source of the first edge into it. */
  function RequestFor(nodes: seq<Node>, edges: seq<Edge>, node: Node): (q: IdeaRequest)
    ensures q.nodeText == node.text
    ensures q.parentText != "" ==> exists e, p :: e in edges && e.target == node.id && p in nodes && p.id == e.source && p.text == q.parentText
    ensures (forall e :: e in edges ==> e.target != node.id) ==> q.parentText == ""
    ensures forall i, k :: FirstInto(edges, i, node.id) && IsFirst(nodes, k, edges[i].source) ==> q.parentText == nodes[k].text
    ensures forall i :: FirstInto(edges, i, node.id) && edges[i].source !in NodeIds(nodes) ==> q.parentText == ""
  {
    var parentText :=
      match FindEdgeInto(edges, node.id)
      case None => ""
      case Some(e) =>
        assert forall i :: FirstInto(edges, i, node.id) ==> edges[i] == e by {
          var i0 :| FirstInto(edges, i0, node.id) && edges[i0] == e;
          forall i | FirstInto(edges, i, node.id) ensures edges[i] == e {
            FirstIntoUnique(edges, i, i0, node.id);
          }
        }
        match FindNode(nodes, e.source)
        case None =>
          assert forall k :: !IsFirst(nodes, k, e.source) by {
            forall k | 0 <= k < |nodes| ensures nodes[k].id != e.source {
              assert nodes[k] in nodes;
            }
          }
          ""
        case Some(p) =>
          assert p in nodes && p.id == e.source && forall k :: IsFirst(nodes, k, e.source) ==> nodes[k] == p by {
            var k0 :| IsFirst(nodes, k0, e.source) && nodes[k0] == p;
            forall k | IsFirst(nodes, k, e.source) ensures nodes[k] == p {
              IsFirstUnique(nodes, k, k0, e.source);
            }
          }
          p.text;
    IdeaRequest(node.text, parentText)
  }

  /**
   * The ideas the store adds for a response: the response's ideas when it is OK (2xx)
   * and has some; otherwise (a thrown fetch, an error status, no ideas) the placeholders.
   */
  function IdeasToAdd(r: Response): (ideas: seq<string>)
    ensures |ideas| > 0
    ensures r.Answered? && 200 <= r.status < 300 && r.ideas != [] ==> ideas == r.ideas
    ensures !(r.Answered? && 200 <= r.status < 300 && r.ideas != []) ==> ideas == PlaceholderIdeas
  {
    if r.Answered? && 200 <= r.status < 300 && r.ideas != [] then r.ideas else PlaceholderIdeas
  }

  /**
   * Through the idea route, whatever the language model does, the store adds only
   * non-empty, trimmed labels, and a node with an empty label gets the placeholders.
   */
  lemma RouteFeedsStore(q: IdeaRequest, completion: ModelCall.Completion)
    ensures var reply := IdeaRoute.Post(IdeaRoute.Body(Some(q.nodeText), Some(q.parentText)), completion).reply;
      var added := IdeasToAdd(Answered(reply.status, reply.ideas));
      && (q.nodeText == "" ==> added == PlaceholderIdeas)
      && forall i :: 0 <= i < |added| ==> added[i] != "" && IsTrimmed(added[i])
  {
    var reply := IdeaRoute.Post(IdeaRoute.Body(Some(q.nodeText), Some(q.parentText)), completion).reply;
    var added := IdeasToAdd(Answered(reply.status, reply.ideas));
    if added == PlaceholderIdeas {
      assert IsTrimmed(PlaceholderIdeas[0]) && IsTrimmed(PlaceholderIdeas[1]) && IsTrimmed(PlaceholderIdeas[2]);
    } else {
      IdeaRoute.PostAlwaysOffersIdeas(IdeaRoute.Body(Some(q.nodeText), Some(q.parentText)), completion);
    }
  }

  /** The uuids handed out: none already a node id, no two alike. */
  ghost predicate FreshIds(nodes: seq<Node>, ids: seq<string>) {
    && (forall k :: 0 <= k < |ids| ==> ids[k] !in NodeIds(nodes))
    && (forall j, k :: 0 <= j < k < |ids| ==> ids[j] != ids[k])
  }

  /**
   * The children one batch of ideas adds. Every `addNode` of the batch looks up the
   * parent and counts its children in the state from before the batch, so all of them
   * land on the same provisional spot.
   */
  function Batch(parent: Node, count: nat, ideas: seq<string>, ids: seq<string>): (r: seq<Node>)
    requires |ids| >= |ideas|
    ensures |r| == |ideas|
    ensures forall k :: 0 <= k < |ideas| ==>
      && r[k].id == ids[k] && r[k].text == ideas[k] && r[k].color == DefaultColor
      && r[k].expanded && !r[k].hidden && r[k].position == ChildSpot(parent, count)
  {
    seq(|ideas|, k requires 0 <= k < |ideas| => NewChild(parent, count, ideas[k], None, ids[k]))
  }

  /** The edges one batch of ideas adds, from the parent to each new child in turn. */
  function BatchEdges(parentId: string, n: nat, ids: seq<string>): (r: seq<Edge>)
    requires |ids| >= n
    ensures |r| == n
    ensures forall k :: 0 <= k < n ==> r[k] == EdgeTo(parentId, ids[k])
    ensures forall e :: e in r ==> e.source == parentId
  {
    seq(n, k requires 0 <= k < n => EdgeTo(parentId, ids[k]))
  }

  /** A batch of children with fresh ids keeps the graph well formed and acyclic. */
  lemma BatchKeepsWellFormed(nodes: seq<Node>, edges: seq<Edge>, parent: Node, count: nat,
                             ideas: seq<string>, ids: seq<string>)
    requires WellFormed(nodes, edges) && parent.id in NodeIds(nodes)
    requires |ids| >= |ideas| && FreshIds(nodes, ids)
    ensures WellFormed(nodes + Batch(parent, count, ideas, ids), edges + BatchEdges(parent.id, |ideas|, ids))
    ensures Acyclic(edges) ==> Acyclic(edges + BatchEdges(parent.id, |ideas|, ids))
  {
    BatchPrefixWellFormed(nodes, edges, parent, count, ideas, ids, |ideas|);
    assert Batch(parent, count, ideas, ids)[..|ideas|] == Batch(parent, count, ideas, ids);
    assert BatchEdges(parent.id, |ideas|, ids)[..|ideas|] == BatchEdges(parent.id, |ideas|, ids);
  }

  lemma {:induction false} BatchPrefixWellFormed(nodes: seq<Node>, edges: seq<Edge>, parent: Node, count: nat,
                                                 ideas: seq<string>, ids: seq<string>, n: nat)
    requires WellFormed(nodes, edges) && parent.id in NodeIds(nodes)
    requires |ids| >= |ideas| && FreshIds(nodes, ids) && n <= |ideas|
    ensures var b, be := Batch(parent, count, ideas, ids), BatchEdges(parent.id, |ideas|, ids);
      WellFormed(nodes + b[..n], edges + be[..n]) && (Acyclic(edges) ==> Acyclic(edges + be[..n]))
  {
    var b, be := Batch(parent, count, ideas, ids), BatchEdges(parent.id, |ideas|, ids);
    if n == 0 {
      assert nodes + b[..0] == nodes && edges + be[..0] == edges;
    } else {
      BatchPrefixWellFormed(nodes, edges, parent, count, ideas, ids, n - 1);
      BatchIdFresh(nodes, parent, count, ideas, ids, n - 1);
      NodeIdsConcat(nodes, b[..n - 1]);
      AddChildKeepsWellFormed(nodes + b[..n - 1], edges + be[..n - 1], parent.id, b[n - 1]);
      PrefixSnoc(nodes, b, n);
      PrefixSnoc(edges, be, n);
    }
  }

  /** A batch of children under a listed node, with fresh ids, keeps the graph well formed and acyclic. */
  lemma BatchUnderKeepsWellFormed(nodes: seq<Node>, edges: seq<Edge>, parentId: string, ideas: seq<string>, ids: seq<string>)
    requires FindNode(nodes, parentId).Some? && |ids| >= |ideas| && FreshIds(nodes, ids)
    ensures var b := Batch(FindNode(nodes, parentId).value, ChildCount(nodes, edges, parentId), ideas, ids);
      var be := BatchEdges(parentId, |ideas|, ids);
      WellFormed(nodes, edges) ==> WellFormed(nodes + b, edges + be) && (Acyclic(edges) ==> Acyclic(edges + be))
  {
    var parent := FindNode(nodes, parentId).value;
    if WellFormed(nodes, edges) {
      var k :| IsFirst(nodes, k, parentId) && nodes[k] == parent;
      assert nodes[k] in nodes;
      BatchKeepsWellFormed(nodes, edges, parent, ChildCount(nodes, edges, parentId), ideas, ids);
    }
  }

  /**
   * What `generateNodeIdeas` holds while its `fetch` is outstanding: the node, the
   * nodes and edges it captured when it was called, and the request it sent.
   */
  datatype PendingIdeas = PendingIdeas(nodeId: string, snapNodes: seq<Node>, snapEdges: seq<Edge>, request: IdeaRequest)

  /** `p` was issued for a node of its captured state, with the request for that node. */
  ghost predicate Issued(p: PendingIdeas) {
    && FindNode(p.snapNodes, p.nodeId).Some?
    && p.request == RequestFor(p.snapNodes, p.snapEdges, FindNode(p.snapNodes, p.nodeId).value)
  }

  /**
   * A batch added under a parent that is no longer listed leaves its edges pointing
   * from a missing node.
   */
  lemma OrphanedBatch(nodes: seq<Node>, edges: seq<Edge>, parent: Node, count: nat,
                      ideas: seq<string>, ids: seq<string>)
    requires parent.id !in NodeIds(nodes) && ideas != []
    requires |ids| >= |ideas| && forall k :: 0 <= k < |ids| ==> ids[k] != parent.id
    ensures !EdgesConnect(nodes + Batch(parent, count, ideas, ids), edges + BatchEdges(parent.id, |ideas|, ids))
  {
    var b := Batch(parent, count, ideas, ids);
    var e := BatchEdges(parent.id, |ideas|, ids)[0];
    assert e in edges + BatchEdges(parent.id, |ideas|, ids);
    NodeIdsConcat(nodes, b);
    assert parent.id !in NodeIds(b) by {
      forall n | n in b ensures n.id != parent.id {
        var k :| 0 <= k < |b| && b[k] == n;
      }
    }
  }

  /** The next id of a batch is not among the nodes so far. */
  lemma BatchIdFresh(nodes: seq<Node>, parent: Node, count: nat, ideas: seq<string>, ids: seq<string>, n: nat)
    requires |ids| >= |ideas| && FreshIds(nodes, ids) && n < |ideas|
    ensures Batch(parent, count, ideas, ids)[n].id == ids[n]
    ensures ids[n] !in NodeIds(nodes) + NodeIds(Batch(parent, count, ideas, ids)[..n])
  {
    var b := Batch(parent, count, ideas, ids)[..n];
    forall m | m in b ensures m.id != ids[n] {
      var k :| 0 <= k < n && b[k] == m;
    }
  }

  /** A prefix one longer is the shorter prefix and one more element. */
  lemma PrefixSnoc<T>(a: seq<T>, s: seq<T>, n: nat)
    requires 0 < n <= |s|
    ensures a + s[..n] == (a + s[..n - 1]) + [s[n - 1]]
  {
    assert s[..n] == s[..n - 1] + [s[n - 1]];
  }

  /** A patch keeps every node's id in its place, so it keeps the graph well formed. */
  lemma PatchKeepsWellFormed(nodes: seq<Node>, edges: seq<Edge>, ids: set<string>, c: Change)
    requires WellFormed(nodes, edges)
    ensures WellFormed(Patch(nodes, ids, c), edges)
  {
    PatchKeepsIds(nodes, ids, c);
  }

  /** The children loop's result with the moves `done` made before it. */
  ghost function RowAfter(done: seq<Move>, r: Row): Row {
    Row(done + r.moves, r.visited, r.total, r.widest)
  }

  /**
   * One turn of the children loop: once the first child is placed with footprint `size`
   * and the running height and width are advanced by it, the row still ends in the same
   * result, with that child's moves added to `done`.
   */
  lemma ChildrenLoopStep(edges: seq<Edge>, kids: seq<string>, i: nat, x: int, y: int,
                         total: int, widest: int, visited: set<string>, done: seq<Move>,
                         size: Footprint, seen: set<string>, total': int, widest': int)
    requires i < |kids|
    requires size == Place(edges, kids[i], x, y + total, visited).size
    requires seen == Place(edges, kids[i], x, y + total, visited).visited
    requires total' == total + size.height + VerticalSpacing
    requires widest' == if size.width > widest then size.width else widest
    ensures RowAfter(done, PlaceChildren(edges, kids[i..], x, y, total, widest, visited))
      == RowAfter(done + Place(edges, kids[i], x, y + total, visited).moves,
                  PlaceChildren(edges, kids[i + 1..], x, y, total', widest', seen))
  {
    var p := Place(edges, kids[i], x, y + total, visited);
    PlaceChildrenStep(edges, kids[i..], x, y, total, widest, visited);
    assert kids[i..][1..] == kids[i + 1..];
    var rest := PlaceChildren(edges, kids[i + 1..], x, y, total', widest', seen);
    assert PlaceChildren(edges, kids[i..], x, y, total, widest, visited)
      == Row(p.moves + rest.moves, rest.visited, rest.total, rest.widest);
    assert done + (p.moves + rest.moves) == (done + p.moves) + rest.moves;
  }

  /** Moving nodes keeps every node's id in its place, so it keeps the graph well formed. */
  lemma {:induction false} MovesKeepWellFormed(nodes: seq<Node>, edges: seq<Edge>, moves: seq<Move>)
    requires WellFormed(nodes, edges)
    ensures WellFormed(ApplyMoves(nodes, moves), edges)
    decreases moves
  {
    if moves != [] {
      PatchKeepsWellFormed(nodes, edges, {moves[0].id}, MoveTo(moves[0].to));
      MovesKeepWellFormed(Patch(nodes, {moves[0].id}, MoveTo(moves[0].to)), edges, moves[1..]);
    }
  }

  // ---------------------------------------------------------------------------
  // The store
  // ---------------------------------------------------------------------------

  class MindMap {
    var nodes: seq<Node>
    var edges: seq<Edge>
    /** The id of the selected node, if one is selected. */
    var selected: Option<string>

    /** A new document (`getInitialNodes`): the central idea alone, no edges, nothing selected. */
    constructor ()
      ensures nodes == [CentralIdea] && edges == [] && selected == None
    {
      nodes := [CentralIdea];
      edges := [];
      selected := None;
    }

    /** `addRootNode`: on an empty map, put the central idea back; otherwise do nothing. */
    method AddRootNode()
      modifies this
      ensures nodes == if old(nodes) == [] then [CentralIdea] else old(nodes)
      ensures edges == old(edges) && selected == old(selected)
    {
      if nodes == [] {
        nodes := [CentralIdea];
      }
    }

    /** `onNodeClick`: select a node. */
    method SelectNode(id: string)
      modifies this
      ensures selected == Some(id) && nodes == old(nodes) && edges == old(edges)
    {
      selected := Some(id);
    }

    /** `onPaneClick`: clear the selection. */
    method ClearSelection()
      modifies this
      ensures selected == None && nodes == old(nodes) && edges == old(edges)
    {
      selected := None;
    }

    /**
     * `addNode` as the closure made over the state `snapNodes`/`snapEdges` runs it: the
     * parent is looked up and its children counted there, and the new node and edge
     * are appended to the current lists. An unknown parent changes nothing.
     */
    method AddNodeFrom(snapNodes: seq<Node>, snapEdges: seq<Edge>, parentId: string, text: string,
                       color: Option<string>, freshId: string) returns (newId: Option<string>)
      modifies this
      ensures FindNode(snapNodes, parentId).None? ==> newId == None && nodes == old(nodes) && edges == old(edges)
      ensures FindNode(snapNodes, parentId).Some? ==>
        && newId == Some(freshId)
        && nodes == old(nodes) + [NewChild(FindNode(snapNodes, parentId).value, ChildCount(snapNodes, snapEdges, parentId), text, color, freshId)]
        && edges == old(edges) + [EdgeTo(parentId, freshId)]
      ensures selected == old(selected)
    {
      var parent := FindNode(snapNodes, parentId);
      if parent.None? {
        return None;
      }
      var count := ChildCount(snapNodes, snapEdges, parentId);
      nodes := nodes + [NewChild(parent.value, count, text, color, freshId)];
      edges := edges + [EdgeTo(parentId, freshId)];
      newId := Some(freshId);
    }

    /**
     * `addNode(parentId, text, color)` on the current state, with `freshId` standing
     * for the uuid it draws.
     */
    method AddNode(parentId: string, text: string, color: Option<string>, freshId: string) returns (newId: Option<string>)
      requires freshId !in NodeIds(nodes)
      modifies this
      ensures FindNode(old(nodes), parentId).None? ==> newId == None && nodes == old(nodes) && edges == old(edges)
      ensures FindNode(old(nodes), parentId).Some? ==>
        && newId == Some(freshId)
        && nodes == old(nodes) + [NewChild(FindNode(old(nodes), parentId).value, ChildCount(old(nodes), old(edges), parentId), text, color, freshId)]
        && edges == old(edges) + [EdgeTo(parentId, freshId)]
      ensures WellFormed(old(nodes), old(edges)) ==>
        WellFormed(nodes, edges) && (Acyclic(old(edges)) ==> Acyclic(edges))
      ensures selected == old(selected)
    {
      var found := FindNode(nodes, parentId);
      if found.Some? && WellFormed(nodes, edges) {
        var i :| IsFirst(nodes, i, parentId) && nodes[i] == found.value;
        assert nodes[i] in nodes;
        AddChildKeepsWellFormed(nodes, edges, parentId,
          NewChild(found.value, ChildCount(nodes, edges, parentId), text, color, freshId));
      }
      newId := AddNodeFrom(nodes, edges, parentId, text, color, freshId);
    }

    /** The "Add Idea" button: a "New Idea" child of the first node, or the central idea on an empty map. */
    method AddIdeaButton(freshId: string)
      requires freshId !in NodeIds(nodes)
      modifies this
      ensures old(nodes) == [] ==> nodes == [CentralIdea] && edges == old(edges)
      ensures old(nodes) != [] ==>
        var root := old(nodes)[0];
        && nodes == old(nodes) + [NewChild(root, ChildCount(old(nodes), old(edges), root.id), NewIdeaLabel, None, freshId)]
        && edges == old(edges) + [EdgeTo(root.id, freshId)]
      ensures selected == old(selected)
    {
      if |nodes| > 0 {
        var added := AddNode(nodes[0].id, NewIdeaLabel, None, freshId);
      } else {
        AddRootNode();
      }
    }

    /** The toolbar's add-child action: a "New Idea" child of `id`, then the selection is cleared. */
    method AddChildFromToolbar(id: string, freshId: string)
      requires freshId !in NodeIds(nodes)
      modifies this
      ensures FindNode(old(nodes), id).None? ==> nodes == old(nodes) && edges == old(edges)
      ensures FindNode(old(nodes), id).Some? ==>
        && nodes == old(nodes) + [NewChild(FindNode(old(nodes), id).value, ChildCount(old(nodes), old(edges), id), NewIdeaLabel, None, freshId)]
        && edges == old(edges) + [EdgeTo(id, freshId)]
      ensures selected == None
    {
      var added := AddNode(id, NewIdeaLabel, None, freshId);
      selected := None;
    }

    /** `editNodeLabel`: every node with that id gets the new label; nothing else changes. */
    method EditNodeLabel(nodeId: string, newLabel: string)
      modifies this
      ensures nodes == Patch(old(nodes), {nodeId}, SetLabel(newLabel))
      ensures edges == old(edges) && selected == old(selected)
      ensures WellFormed(old(nodes), edges) ==> WellFormed(nodes, edges)
    {
      if WellFormed(nodes, edges) {
        PatchKeepsWellFormed(nodes, edges, {nodeId}, SetLabel(newLabel));
      }
      nodes := Patch(nodes, {nodeId}, SetLabel(newLabel));
    }

    /** `changeNodeColor`: every node with that id gets the new colour; nothing else changes. */
    method ChangeNodeColor(nodeId: string, color: string)
      modifies this
      ensures nodes == Patch(old(nodes), {nodeId}, SetColor(color))
      ensures edges == old(edges) && selected == old(selected)
      ensures WellFormed(old(nodes), edges) ==> WellFormed(nodes, edges)
    {
      if WellFormed(nodes, edges) {
        PatchKeepsWellFormed(nodes, edges, {nodeId}, SetColor(color));
      }
      nodes := Patch(nodes, {nodeId}, SetColor(color));
    }

    /**
     * `toggleNodeExpansion`: flip the node's `expanded`, then set `hidden` on every
     * descendant `findAllChildren` lists to the negation of the new value. An unknown
     * id changes nothing; for a known one the descendant walk needs acyclic edges.
     */
    method ToggleNodeExpansion(nodeId: string)
      requires FindNode(nodes, nodeId).Some? ==> Acyclic(edges)
      modifies this
      ensures nodes == Toggled(old(nodes), edges, nodeId)
      ensures edges == old(edges) && selected == old(selected)
      ensures WellFormed(old(nodes), edges) ==> WellFormed(nodes, edges)
    {
      var found := FindNode(nodes, nodeId);
      if found.None? {
        return;
      }
      var newExpanded := !found.value.expanded;
      var mid := Patch(nodes, {nodeId}, SetExpanded(newExpanded));
      nodes := mid;
      var childIds := FindAllChildren(edges, nodeId);
      var descendants := (set x | x in childIds);
      assert descendants == ReachSet(edges, nodeId) by {
        forall x | x in descendants ensures x in ReachSet(edges, nodeId) {
          ReachableIsTarget(edges, nodeId, x);
        }
      }
      if WellFormed(old(nodes), edges) {
        PatchKeepsWellFormed(old(nodes), edges, {nodeId}, SetExpanded(newExpanded));
        PatchKeepsWellFormed(mid, edges, descendants, SetHidden(!newExpanded));
      }
      nodes := Patch(nodes, descendants, SetHidden(!newExpanded));
    }

    /**
     * `deleteNode`: remove the node and every descendant, and every edge with an end
     * among them; clear the selection when the selected node is removed.
     */
    method DeleteNode(nodeId: string)
      requires Acyclic(edges)
      modifies this
      ensures nodes == WithoutNodes(old(nodes), Doomed(old(edges), nodeId))
      ensures edges == WithoutEdges(old(edges), Doomed(old(edges), nodeId))
      ensures selected == if old(selected).Some? && old(selected).value in Doomed(old(edges), nodeId) then None else old(selected)
      ensures Acyclic(edges)
      ensures WellFormed(old(nodes), old(edges)) ==> WellFormed(nodes, edges)
    {
      var childIds := FindAllChildren(edges, nodeId);
      var toRemove := [nodeId] + childIds;
      var gone := (set x | x in toRemove);
      assert gone == Doomed(edges, nodeId) by {
        forall x | x in gone && x != nodeId ensures x in ReachSet(edges, nodeId) {
          ReachableIsTarget(edges, nodeId, x);
        }
      }
      AcyclicSubset(WithoutEdges(edges, gone), edges);
      if WellFormed(nodes, edges) {
        DeleteKeepsWellFormed(nodes, edges, gone);
      }
      nodes := WithoutNodes(nodes, gone);
      edges := WithoutEdges(edges, gone);
      if selected.Some? && selected.value in gone {
        selected := None;
      }
    }

    /**
     * `generateNodeIdeas`: for a listed node, post its label and its parent's label,
     * then add one child per idea the response brings, or the three placeholders when
     * it brings none or fails. Every child is added by an `addNode` closed over the
     * state from before the batch, so all of them share one provisional spot.
     * `freshIds` stands for the uuids drawn.
     */
    /** `generateNodeIdeas` up to its `fetch` (lines 426-434): look the node up and build the request. */
    method RequestIdeas(nodeId: string) returns (pending: Option<PendingIdeas>)
      ensures pending.None? <==> FindNode(nodes, nodeId).None?
      ensures pending.Some? ==>
        && Issued(pending.value)
        && pending.value.nodeId == nodeId && pending.value.snapNodes == nodes && pending.value.snapEdges == edges
    {
      var found := FindNode(nodes, nodeId);
      if found.None? {
        return None;
      }
      pending := Some(PendingIdeas(nodeId, nodes, edges, RequestFor(nodes, edges, found.value)));
    }

    /**
     * `generateNodeIdeas` after its `fetch` (lines 445-475), on the map as it is when
     * the response arrives. Every `addNode` of the batch still looks the parent up and
     * counts its children in the captured state, while `setNodes` and `setEdges` append
     * to the current one. If the node was deleted meanwhile, the new edges come from a
     * node that is not there.
     */
    method ReceiveIdeas(pending: PendingIdeas, response: Response, freshIds: seq<string>)
      requires Issued(pending) && |freshIds| >= |IdeasToAdd(response)|
      requires FreshIds(nodes, freshIds) && FreshIds(pending.snapNodes, freshIds)
      modifies this
      ensures var ideas := IdeasToAdd(response);
        var parent := FindNode(pending.snapNodes, pending.nodeId).value;
        && nodes == old(nodes) + Batch(parent, ChildCount(pending.snapNodes, pending.snapEdges, pending.nodeId), ideas, freshIds)
        && edges == old(edges) + BatchEdges(pending.nodeId, |ideas|, freshIds)
      ensures WellFormed(old(nodes), old(edges)) && pending.nodeId in NodeIds(old(nodes)) ==>
        WellFormed(nodes, edges) && (Acyclic(old(edges)) ==> Acyclic(edges))
      ensures pending.nodeId !in NodeIds(old(nodes)) ==> !EdgesConnect(nodes, edges)
      ensures selected == old(selected)
    {
      var parent := FindNode(pending.snapNodes, pending.nodeId).value;
      var count := ChildCount(pending.snapNodes, pending.snapEdges, pending.nodeId);
      var ideas := IdeasToAdd(response);
      assert parent.id == pending.nodeId && parent.id in NodeIds(pending.snapNodes) by {
        var k :| IsFirst(pending.snapNodes, k, pending.nodeId) && pending.snapNodes[k] == parent;
        assert pending.snapNodes[k] in pending.snapNodes;
      }
      if WellFormed(nodes, edges) && pending.nodeId in NodeIds(nodes) {
        BatchKeepsWellFormed(nodes, edges, parent, count, ideas, freshIds);
      }
      if pending.nodeId !in NodeIds(nodes) {
        OrphanedBatch(nodes, edges, parent, count, ideas, freshIds);
      }
      AddEach(pending.snapNodes, pending.snapEdges, pending.nodeId, ideas, freshIds);
    }

    /**
     * `generateNodeIdeas(nodeId)` when nothing else changes the map while the `fetch`
     * is outstanding: the response's ideas, or the placeholders, become children of the
     * node; an unknown id does nothing.
     */
    method GenerateNodeIdeas(nodeId: string, response: Response, freshIds: seq<string>) returns (request: Option<IdeaRequest>)
      requires |freshIds| >= |IdeasToAdd(response)| && FreshIds(nodes, freshIds)
      modifies this
      ensures FindNode(old(nodes), nodeId).None? ==> request == None && nodes == old(nodes) && edges == old(edges)
      ensures FindNode(old(nodes), nodeId).Some? ==>
        var node := FindNode(old(nodes), nodeId).value;
        var ideas := IdeasToAdd(response);
        && request == Some(RequestFor(old(nodes), old(edges), node))
        && nodes == old(nodes) + Batch(node, ChildCount(old(nodes), old(edges), nodeId), ideas, freshIds)
        && edges == old(edges) + BatchEdges(nodeId, |ideas|, freshIds)
      ensures WellFormed(old(nodes), old(edges)) ==>
        WellFormed(nodes, edges) && (Acyclic(old(edges)) ==> Acyclic(edges))
      ensures selected == old(selected)
    {
      var pending := RequestIdeas(nodeId);
      if pending.None? {
        return None;
      }
      request := Some(pending.value.request);
      assert nodeId in NodeIds(nodes) by {
        var k :| IsFirst(nodes, k, nodeId) && nodes[k] == FindNode(nodes, nodeId).value;
        assert nodes[k] in nodes;
      }
      ReceiveIdeas(pending.value, response, freshIds);
    }

    method AddEach(snapNodes: seq<Node>, snapEdges: seq<Edge>, parentId: string, ideas: seq<string>, ids: seq<string>)
      requires FindNode(snapNodes, parentId).Some? && |ids| >= |ideas|
      modifies this
      ensures nodes == old(nodes) + Batch(FindNode(snapNodes, parentId).value, ChildCount(snapNodes, snapEdges, parentId), ideas, ids)
      ensures edges == old(edges) + BatchEdges(parentId, |ideas|, ids)
      ensures selected == old(selected)
    {
      ghost var batch := Batch(FindNode(snapNodes, parentId).value, ChildCount(snapNodes, snapEdges, parentId), ideas, ids);
      ghost var batchEdges := BatchEdges(parentId, |ideas|, ids);
      var i := 0;
      while i < |ideas|
        invariant 0 <= i <= |ideas|
        invariant nodes == old(nodes) + batch[..i]
        invariant edges == old(edges) + batchEdges[..i]
        invariant selected == old(selected)
      {
        var added := AddNodeFrom(snapNodes, snapEdges, parentId, ideas[i], None, ids[i]);
        PrefixSnoc(old(nodes), batch, i + 1);
        PrefixSnoc(old(edges), batchEdges, i + 1);
        i := i + 1;
      }
      assert batch[..i] == batch && batchEdges[..i] == batchEdges;
    }

    /**
     * `positionNode` inside `tidyUpMap`, with the shared visited set threaded through as
     * a value: it makes the moves `Place` lists, one `setNodes` update at a time, and
     * returns the footprint and the visited set `Place` computes. The child edges are
     * read from `edges`, which it does not change.
     */
    method PositionNode(id: string, x: int, y: int, visited: set<string>) returns (size: Footprint, after: set<string>)
      modifies this
      ensures var p := Place(edges, id, x, y, visited);
        size == p.size && after == p.visited && nodes == ApplyMoves(old(nodes), p.moves)
      ensures edges == old(edges) && selected == old(selected)
      decreases Pending(edges, visited), 0
    {
      if id in visited {
        return Footprint(0, 0), visited;
      }
      after := visited + {id};
      nodes := Patch(nodes, {id}, MoveTo(Position(x, y)));
      var childIds := DirectChildren(edges, id);
      if childIds == [] {
        return Footprint(NodeWidth, NodeHeight), after;
      }
      PendingDrops(edges, id, visited);
      ghost var row := PlaceChildren(edges, childIds, x + HorizontalSpacing, y, 0, 0, after);
      var totalHeight, maxChildWidth;
      totalHeight, maxChildWidth, after := PositionChildren(childIds, x + HorizontalSpacing, y, after);
      assert ([Move(id, Position(x, y))] + row.moves)[1..] == row.moves;
      size := Footprint(NodeWidth + maxChildWidth,
                        if totalHeight - VerticalSpacing > NodeHeight then totalHeight - VerticalSpacing else NodeHeight);
    }

    /**
     * The `forEach` over a node's children in `positionNode`: each child is positioned
     * at (x, y + totalHeight), then its height and the spacing are added to
     * `totalHeight` and `maxChildWidth` keeps the widest footprint, as `PlaceChildren`
     * computes.
     */
    method PositionChildren(childIds: seq<string>, x: int, y: int, visited: set<string>)
      returns (totalHeight: int, maxChildWidth: int, after: set<string>)
      modifies this
      ensures var row := PlaceChildren(edges, childIds, x, y, 0, 0, visited);
        && totalHeight == row.total && maxChildWidth == row.widest && after == row.visited
        && nodes == ApplyMoves(old(nodes), row.moves)
      ensures edges == old(edges) && selected == old(selected)
      decreases Pending(edges, visited), 1
    {
      totalHeight, maxChildWidth, after := 0, 0, visited;
      ghost var es := edges;
      ghost var start := nodes;
      ghost var row := PlaceChildren(es, childIds, x, y, 0, 0, visited);
      ghost var done: seq<Move> := [];
      var i := 0;
      while i < |childIds|
        invariant 0 <= i <= |childIds|
        invariant edges == es && selected == old(selected)
        invariant visited <= after
        invariant nodes == ApplyMoves(start, done)
        invariant row == RowAfter(done, PlaceChildren(es, childIds[i..], x, y, totalHeight, maxChildWidth, after))
      {
        ghost var total, widest, seen := totalHeight, maxChildWidth, after;
        ghost var moves := Place(es, childIds[i], x, y + total, seen).moves;
        PendingMonotone(es, visited, after);
        var childSize;
        childSize, after := PositionNode(childIds[i], x, y + totalHeight, after);
        totalHeight := totalHeight + childSize.height + VerticalSpacing;
        maxChildWidth := if childSize.width > maxChildWidth then childSize.width else maxChildWidth;
        ChildrenLoopStep(es, childIds, i, x, y, total, widest, seen, done, childSize, after, totalHeight, maxChildWidth);
        ApplyMovesConcat(start, done, moves);
        done := done + moves;
        i := i + 1;
      }
      assert PlaceChildren(es, childIds[i..], x, y, totalHeight, maxChildWidth, after) == Row([], after, totalHeight, maxChildWidth);
      assert done + [] == done;
    }

    /**
     * `tidyUpMap`: lay out the first node's subtree from (50, 50). An empty map is left
     * alone. Only positions change, so a well-formed graph stays well formed.
     */
    method TidyUpMap()
      modifies this
      ensures nodes == Tidy(old(nodes), edges)
      ensures edges == old(edges) && selected == old(selected)
      ensures WellFormed(old(nodes), edges) ==> WellFormed(nodes, edges)
    {
      if |nodes| > 0 {
        if WellFormed(nodes, edges) {
          MovesKeepWellFormed(nodes, edges, TidyPlacement(nodes, edges).moves);
        }
        var size, visited := PositionNode(nodes[0].id, Origin, Origin, {});
      }
    }
  }
}
