/**
 * Small maps on which the store's behaviour can be read off directly: the layout of a
 * root with two leaf children, and what re-expanding a node does to a collapsed
 * branch below it. The ids are any three distinct strings.
 */
module MapScenarios {
  import opened Wrappers
  import opened Graph
  import opened Layout
  import opened MindMapStore

  /** A leaf, placed for the first time, moves once and takes the leaf footprint. */
  lemma PlaceLeaf(edges: seq<Edge>, id: string, x: int, y: int, visited: set<string>)
    requires id !in visited && DirectChildren(edges, id) == []
    ensures Place(edges, id, x, y, visited) == Placed([Move(id, Position(x, y))], visited + {id}, Footprint(NodeWidth, NodeHeight))
  {
  }

  /**
   * A root with two leaf children `a` and `b`: the root stays at (x, y), `a` goes one
   * column right on the same row, and `b` goes below it, 50 for `a`'s footprint plus
   * 100 of spacing further down. The footprint spans two columns and both rows.
   */
  lemma PlaceTwoLeaves(r: string, a: string, b: string, x: int, y: int)
    requires r != a && r != b && a != b
    ensures var edges := [Edge("e" + r + "-" + a, r, a), Edge("e" + r + "-" + b, r, b)];
      Place(edges, r, x, y, {}) ==
        Placed([Move(r, Position(x, y)), Move(a, Position(x + 250, y)), Move(b, Position(x + 250, y + 150))],
               {r, a, b}, Footprint(400, 200))
  {
    var edges := [Edge("e" + r + "-" + a, r, a), Edge("e" + r + "-" + b, r, b)];
    assert edges[1..] == [edges[1]] && edges[1..][1..] == [];
    assert DirectChildren(edges[1..][1..], r) == [];
    assert DirectChildren(edges[1..], r) == [b];
    assert DirectChildren(edges, r) == [a, b];
    assert DirectChildren(edges[1..][1..], a) == [] && DirectChildren(edges[1..][1..], b) == [];
    assert DirectChildren(edges[1..], a) == [] && DirectChildren(edges[1..], b) == [];
    assert DirectChildren(edges, a) == [] && DirectChildren(edges, b) == [];
    assert {} + {r} == {r} && {r} + {a} == {r, a} && {r, a} + {b} == {r, a, b};
    PlaceLeaf(edges, a, x + 250, y, {r});
    PlaceLeaf(edges, b, x + 250, y + 150, {r, a});
    PlaceChildrenStep(edges, [b], x + 250, y, 150, 200, {r, a});
    assert [b][1..] == [];
    assert PlaceChildren(edges, [b], x + 250, y, 150, 200, {r, a}) ==
      Row([Move(b, Position(x + 250, y + 150))], {r, a, b}, 300, 200);
    PlaceChildrenStep(edges, [a, b], x + 250, y, 0, 0, {r});
    assert [a, b][1..] == [b];
    assert PlaceChildren(edges, [a, b], x + 250, y, 0, 0, {r}) ==
      Row([Move(a, Position(x + 250, y)), Move(b, Position(x + 250, y + 150))], {r, a, b}, 300, 200);
  }

  /**
   * Collapsing and re-expanding a root `r` whose child `c` is collapsed, with `c`'s
   * child `g` hidden, leaves `c` collapsed but shows `g`: the toggle sets `hidden` on
   * every descendant without looking at the collapsed node between.
   */
  lemma ReexpandShowsCollapsedBranch(root: Node, c: Node, g: Node, e1: string, e2: string)
    requires root.id != c.id && root.id != g.id && c.id != g.id
    requires root.expanded && !c.expanded && g.hidden
    ensures var nodes, edges := [root, c, g], [Edge(e1, root.id, c.id), Edge(e2, c.id, g.id)];
      var twice := Toggled(Toggled(nodes, edges, root.id), edges, root.id);
      && Acyclic(edges)
      && twice == [root, c.(hidden := false), g.(hidden := false)]
  {
    var nodes, edges := [root, c, g], [Edge(e1, root.id, c.id), Edge(e2, c.id, g.id)];
    ChainDescendants(root.id, c.id, g.id, e1, e2);
    assert FindNode(nodes, root.id) == Some(root);
    assert UniqueIds(nodes);
    ToggleTwice(nodes, edges, root.id, root);
    ShowBelow(root, c, g);
  }

  /** Showing everything below the root of the chain. */
  lemma ShowBelow(root: Node, c: Node, g: Node)
    requires root.id != c.id && root.id != g.id
    ensures Patch([root, c, g], {c.id, g.id}, SetHidden(false)) == [root, c.(hidden := false), g.(hidden := false)]
  {
    var p := Patch([root, c, g], {c.id, g.id}, SetHidden(false));
    assert p[0] == root && p[1] == c.(hidden := false) && p[2] == g.(hidden := false);
  }

  /** In a chain r -> c -> g the descendants of r are c and g, and the graph is acyclic. */
  lemma ChainDescendants(r: string, c: string, g: string, e1: string, e2: string)
    requires r != c && r != g && c != g
    ensures var edges := [Edge(e1, r, c), Edge(e2, c, g)];
      ReachSet(edges, r) == {c, g} && Acyclic(edges)
  {
    var edges := [Edge(e1, r, c), Edge(e2, c, g)];
    assert edges[0] in edges && edges[1] in edges;
    ReachStep(edges, c, g, g);
    ReachStep(edges, r, c, g);
    ReachableIsTarget(edges, r, g);
    ReachStep(edges, r, c, c);
    ReachableIsTarget(edges, r, c);
    assert Targets(edges) == {c, g};
    RankedAcyclic(edges, (s: string) => if s == r then 2 else if s == c then 1 else 0);
  }

  /** A new document is well formed and acyclic. */
  lemma InitialWellFormed()
    ensures WellFormed([CentralIdea], []) && Acyclic([])
  {
    RankedAcyclic([], (s: string) => 0);
  }
}
