/**
 * The tidy-up layout: a depth-first placement from the first node that puts every
 * child one column to the right of its parent and stacks sibling subtrees top to
 * bottom, guarded by a set of visited ids. The placement is computed here as the list
 * of position updates it makes, in visiting order; the store applies them one by one.
 */
module Layout {
  import opened Wrappers
  import opened Graph

  const NodeWidth: int := 200
  const NodeHeight: int := 50
  const HorizontalSpacing: int := 250
  const VerticalSpacing: int := 100
  /** `tidyUpMap` places the root at (Origin, Origin). */
  const Origin: int := 50

  /** One `setNodes` update: move the node with this id. */
  datatype Move = Move(id: string, to: Position)

  /** The footprint `positionNode` returns for a subtree. */
  datatype Footprint = Footprint(width: int, height: int)

  /** What one `positionNode` call does: its moves, the visited set afterwards, its footprint. */
  datatype Placed = Placed(moves: seq<Move>, visited: set<string>, size: Footprint)

  /** The state of the loop over a node's children: moves so far, visited set, running height, widest child. */
  datatype Row = Row(moves: seq<Move>, visited: set<string>, total: int, widest: int)

  function MoveIds(moves: seq<Move>): set<string> {
    set m | m in moves :: m.id
  }

  /** No node is moved twice. */
  ghost predicate DistinctMoves(moves: seq<Move>) {
    forall a, b :: 0 <= a < b < |moves| ==> moves[a].id != moves[b].id
  }

  /** Every move lands at or right of column `x`, in the rows from `top` up to (excluding) `bottom`. */
  ghost predicate InBand(moves: seq<Move>, x: int, top: int, bottom: int) {
    forall k :: 0 <= k < |moves| ==> x <= moves[k].to.x && top <= moves[k].to.y < bottom
  }

  /** Every child of a node in `placed` is in `visited`. */
  ghost predicate ClosedUnder(edges: seq<Edge>, placed: set<string>, visited: set<string>) {
    forall v, c :: v in placed && c in DirectChildren(edges, v) ==> c in visited
  }

  lemma MoveIdsConcat(a: seq<Move>, b: seq<Move>)
    ensures MoveIds(a + b) == MoveIds(a) + MoveIds(b)
  {
    assert forall m :: m in a + b <==> m in a || m in b;
  }

  /**
   * The number of edges whose source is not yet visited: it never grows as more nodes
   * are visited, and visiting a node with children shrinks it. It is the measure that
   * makes the visited-set guard end the recursion.
   */
  function Pending(edges: seq<Edge>, visited: set<string>): nat {
    if edges == [] then 0
    else (if edges[0].source in visited then 0 else 1) + Pending(edges[1..], visited)
  }

  lemma {:induction false} PendingMonotone(edges: seq<Edge>, visited: set<string>, more: set<string>)
    requires visited <= more
    ensures Pending(edges, more) <= Pending(edges, visited)
  {
    if edges != [] {
      PendingMonotone(edges[1..], visited, more);
    }
  }

  lemma {:induction false} PendingDrops(edges: seq<Edge>, id: string, visited: set<string>)
    requires id !in visited && DirectChildren(edges, id) != []
    ensures Pending(edges, visited + {id}) < Pending(edges, visited)
  {
    if edges[0].source == id {
      PendingMonotone(edges[1..], visited, visited + {id});
    } else {
      PendingDrops(edges[1..], id, visited);
    }
  }

  /**
   * `positionNode(id, x, y, …, visited)`. An already-visited id yields a zero footprint
   * and no moves. Otherwise the node moves to (x, y) and is marked visited; a node
   * without children has the leaf footprint, and a node with children places them at
   * x + 250, each below the subtrees of the siblings before it.
   */
  function Place(edges: seq<Edge>, id: string, x: int, y: int, visited: set<string>): (p: Placed)
    ensures visited <= p.visited && id in p.visited
    ensures id in visited ==> p == Placed([], visited, Footprint(0, 0))
    ensures id !in visited ==> |p.moves| > 0 && p.moves[0] == Move(id, Position(x, y))
    decreases Pending(edges, visited), 0, 0
  {
    if id in visited then Placed([], visited, Footprint(0, 0))
    else
      var kids := DirectChildren(edges, id);
      if kids == [] then
        Placed([Move(id, Position(x, y))], visited + {id}, Footprint(NodeWidth, NodeHeight))
      else
        PendingDrops(edges, id, visited);
        var row := PlaceChildren(edges, kids, x + HorizontalSpacing, y, 0, 0, visited + {id});
        var height := if row.total - VerticalSpacing > NodeHeight then row.total - VerticalSpacing else NodeHeight;
        Placed([Move(id, Position(x, y))] + row.moves, row.visited, Footprint(NodeWidth + row.widest, height))
  }

  /**
   * The `forEach` over a node's children: place `kids[0]` at (x, y + total), add its
   * height and the vertical spacing to `total`, keep the widest footprint, and go on
   * with the rest.
   */
  function PlaceChildren(edges: seq<Edge>, kids: seq<string>, x: int, y: int,
                         total: int, widest: int, visited: set<string>): (r: Row)
    ensures visited <= r.visited
    ensures forall k :: k in kids ==> k in r.visited
    decreases Pending(edges, visited), 1, |kids|
  {
    if kids == [] then Row([], visited, total, widest)
    else
      var k := kids[0];
      var p := Place(edges, k, x, y + total, visited);
      PendingMonotone(edges, visited, p.visited);
      var rest := PlaceChildren(edges, kids[1..], x, y, total + p.size.height + VerticalSpacing,
                                if p.size.width > widest then p.size.width else widest, p.visited);
      Row(p.moves + rest.moves, rest.visited, rest.total, rest.widest)
  }

  // ---------------------------------------------------------------------------
  // Facts about joining the results of two placements
  // ---------------------------------------------------------------------------

  /** The visited set grows in layers: what two steps add is what each step adds. */
  lemma Layers(v0: set<string>, v1: set<string>, v2: set<string>)
    requires v0 <= v1 <= v2
    ensures v2 - v0 == (v1 - v0) + (v2 - v1) && (v1 - v0) !! (v2 - v1)
  {
  }

  /** Moves covering two successive layers of newly visited nodes cover both, without repeats. */
  lemma MovesJoin(a: seq<Move>, b: seq<Move>, v0: set<string>, v1: set<string>, v2: set<string>)
    requires v0 <= v1 <= v2
    requires MoveIds(a) == v1 - v0 && DistinctMoves(a)
    requires MoveIds(b) == v2 - v1 && DistinctMoves(b)
    ensures MoveIds(a + b) == v2 - v0 && DistinctMoves(a + b)
  {
    Layers(v0, v1, v2);
    MoveIdsConcat(a, b);
    var m := a + b;
    forall i, j | 0 <= i < j < |m| ensures m[i].id != m[j].id {
      if j < |a| {
        assert m[i] == a[i] && m[j] == a[j];
      } else if i >= |a| {
        assert m[i] == b[i - |a|] && m[j] == b[j - |a|];
      } else {
        assert m[i] == a[i] && a[i] in a && a[i].id in MoveIds(a);
        assert m[j] == b[j - |a|] && b[j - |a|] in b && b[j - |a|].id in MoveIds(b);
      }
    }
  }

  /** A move list in a band is in every band around it. */
  lemma InBandWiden(moves: seq<Move>, x: int, top: int, bottom: int, x': int, top': int, bottom': int)
    requires InBand(moves, x, top, bottom) && x' <= x && top' <= top && bottom <= bottom'
    ensures InBand(moves, x', top', bottom')
  {
  }

  /** Two move lists in one band make a move list in that band. */
  lemma InBandConcat(a: seq<Move>, b: seq<Move>, x: int, top: int, bottom: int)
    requires InBand(a, x, top, bottom) && InBand(b, x, top, bottom)
    ensures InBand(a + b, x, top, bottom)
  {
    forall j | 0 <= j < |a + b| ensures x <= (a + b)[j].to.x && top <= (a + b)[j].to.y < bottom {
      if j < |a| {
        assert (a + b)[j] == a[j];
      } else {
        assert (a + b)[j] == b[j - |a|];
      }
    }
  }

  /** The children loop keeps its band: the first child's subtree above, the rest below it. */
  lemma RowInBand(p: Placed, rest: Row, x: int, y: int, total: int)
    requires InBand(p.moves, x, y + total, y + total + p.size.height) && p.size.height >= 0
    requires rest.total >= total + p.size.height + VerticalSpacing
    requires InBand(rest.moves, x, y + (total + p.size.height + VerticalSpacing), y + rest.total - VerticalSpacing)
    ensures InBand(p.moves + rest.moves, x, y + total, y + rest.total - VerticalSpacing)
  {
    var bottom := y + rest.total - VerticalSpacing;
    InBandWiden(p.moves, x, y + total, y + total + p.size.height, x, y + total, bottom);
    InBandWiden(rest.moves, x, y + (total + p.size.height + VerticalSpacing), bottom, x, y + total, bottom);
    InBandConcat(p.moves, rest.moves, x, y + total, bottom);
  }

  /** Closure under children survives a union when the visited sets grow. */
  lemma ClosedJoin(edges: seq<Edge>, a: set<string>, b: set<string>, va: set<string>, vb: set<string>)
    requires va <= vb && ClosedUnder(edges, a, va) && ClosedUnder(edges, b, vb)
    ensures ClosedUnder(edges, a + b, vb)
  {
  }

  // ---------------------------------------------------------------------------
  // Facts about a placement
  // ---------------------------------------------------------------------------

  /** One turn of the children loop: the first child's placement, then the rest below it. */
  lemma PlaceChildrenStep(edges: seq<Edge>, kids: seq<string>, x: int, y: int,
                          total: int, widest: int, visited: set<string>)
    requires kids != []
    ensures var p := Place(edges, kids[0], x, y + total, visited);
      var rest := PlaceChildren(edges, kids[1..], x, y, total + p.size.height + VerticalSpacing,
                                if p.size.width > widest then p.size.width else widest, p.visited);
      PlaceChildren(edges, kids, x, y, total, widest, visited) == Row(p.moves + rest.moves, rest.visited, rest.total, rest.widest)
  {
  }

  /** The moves of a placement are the newly visited nodes, each moved once. */
  lemma {:induction false} PlaceMovesVisited(edges: seq<Edge>, id: string, x: int, y: int, visited: set<string>)
    ensures var p := Place(edges, id, x, y, visited);
      MoveIds(p.moves) == p.visited - visited && DistinctMoves(p.moves)
    decreases Pending(edges, visited), 0, 0
  {
    if id !in visited {
      var head := [Move(id, Position(x, y))];
      assert MoveIds(head) == {id} == (visited + {id}) - visited;
      var kids := DirectChildren(edges, id);
      if kids != [] {
        PendingDrops(edges, id, visited);
        var row := PlaceChildren(edges, kids, x + HorizontalSpacing, y, 0, 0, visited + {id});
        PlaceChildrenMovesVisited(edges, kids, x + HorizontalSpacing, y, 0, 0, visited + {id});
        MovesJoin(head, row.moves, visited, visited + {id}, row.visited);
      }
    }
  }

  lemma {:induction false} PlaceChildrenMovesVisited(edges: seq<Edge>, kids: seq<string>, x: int, y: int,
                                                     total: int, widest: int, visited: set<string>)
    ensures var r := PlaceChildren(edges, kids, x, y, total, widest, visited);
      MoveIds(r.moves) == r.visited - visited && DistinctMoves(r.moves)
    decreases Pending(edges, visited), 1, |kids|
  {
    if kids != [] {
      var k := kids[0];
      var p := Place(edges, k, x, y + total, visited);
      PendingMonotone(edges, visited, p.visited);
      var widest' := if p.size.width > widest then p.size.width else widest;
      var total' := total + p.size.height + VerticalSpacing;
      var rest := PlaceChildren(edges, kids[1..], x, y, total', widest', p.visited);
      PlaceMovesVisited(edges, k, x, y + total, visited);
      PlaceChildrenMovesVisited(edges, kids[1..], x, y, total', widest', p.visited);
      MovesJoin(p.moves, rest.moves, visited, p.visited, rest.visited);
      PlaceChildrenStep(edges, kids, x, y, total, widest, visited);
    }
  }

  /**
   * Every move of a placement lands at or right of x and in the rows its footprint
   * covers; a placed node's footprint is at least the leaf's, a skipped one is empty.
   */
  lemma {:induction false} PlaceInBand(edges: seq<Edge>, id: string, x: int, y: int, visited: set<string>)
    ensures var p := Place(edges, id, x, y, visited);
      && InBand(p.moves, x, y, y + p.size.height)
      && (id !in visited ==> p.size.width >= NodeWidth && p.size.height >= NodeHeight)
      && p.size.height >= 0
    decreases Pending(edges, visited), 0, 0
  {
    var kids := DirectChildren(edges, id);
    if id !in visited && kids != [] {
      PendingDrops(edges, id, visited);
      var row := PlaceChildren(edges, kids, x + HorizontalSpacing, y, 0, 0, visited + {id});
      PlaceChildrenInBand(edges, kids, x + HorizontalSpacing, y, 0, 0, visited + {id});
      var p := Place(edges, id, x, y, visited);
      InBandWiden(row.moves, x + HorizontalSpacing, y, y + row.total - VerticalSpacing, x, y, y + p.size.height);
      InBandConcat([Move(id, Position(x, y))], row.moves, x, y, y + p.size.height);
    }
  }

  lemma {:induction false} PlaceChildrenInBand(edges: seq<Edge>, kids: seq<string>, x: int, y: int,
                                               total: int, widest: int, visited: set<string>)
    ensures var r := PlaceChildren(edges, kids, x, y, total, widest, visited);
      && InBand(r.moves, x, y + total, y + r.total - VerticalSpacing)
      && r.total >= total && r.widest >= widest
    decreases Pending(edges, visited), 1, |kids|
  {
    if kids != [] {
      var k := kids[0];
      var p := Place(edges, k, x, y + total, visited);
      PendingMonotone(edges, visited, p.visited);
      var widest' := if p.size.width > widest then p.size.width else widest;
      var total' := total + p.size.height + VerticalSpacing;
      var rest := PlaceChildren(edges, kids[1..], x, y, total', widest', p.visited);
      PlaceInBand(edges, k, x, y + total, visited);
      PlaceChildrenInBand(edges, kids[1..], x, y, total', widest', p.visited);
      RowInBand(p, rest, x, y, total);
      PlaceChildrenStep(edges, kids, x, y, total, widest, visited);
    }
  }

  /**
   * A placement stays inside any set that holds the node and the children of each of
   * its members, and leaves no child of a node it visited unvisited.
   */
  lemma {:induction false} PlaceWithin(edges: seq<Edge>, id: string, x: int, y: int, visited: set<string>,
                                       within: set<string>)
    requires id in within && ClosedUnder(edges, within, within)
    ensures var p := Place(edges, id, x, y, visited);
      p.visited - visited <= within && ClosedUnder(edges, p.visited - visited, p.visited)
    decreases Pending(edges, visited), 0, 0
  {
    if id !in visited {
      var p := Place(edges, id, x, y, visited);
      var kids := DirectChildren(edges, id);
      assert ClosedUnder(edges, {id}, p.visited);
      if kids != [] {
        PendingDrops(edges, id, visited);
        var row := PlaceChildren(edges, kids, x + HorizontalSpacing, y, 0, 0, visited + {id});
        PlaceChildrenWithin(edges, kids, x + HorizontalSpacing, y, 0, 0, visited + {id}, within);
        Layers(visited, visited + {id}, row.visited);
        ClosedJoin(edges, {id}, row.visited - (visited + {id}), p.visited, p.visited);
      } else {
        assert p.visited - visited == {id};
      }
    }
  }

  lemma {:induction false} PlaceChildrenWithin(edges: seq<Edge>, kids: seq<string>, x: int, y: int,
                                               total: int, widest: int, visited: set<string>, within: set<string>)
    requires (forall k :: k in kids ==> k in within) && ClosedUnder(edges, within, within)
    ensures var r := PlaceChildren(edges, kids, x, y, total, widest, visited);
      r.visited - visited <= within && ClosedUnder(edges, r.visited - visited, r.visited)
    decreases Pending(edges, visited), 1, |kids|
  {
    if kids != [] {
      var k := kids[0];
      var p := Place(edges, k, x, y + total, visited);
      PendingMonotone(edges, visited, p.visited);
      var widest' := if p.size.width > widest then p.size.width else widest;
      var total' := total + p.size.height + VerticalSpacing;
      var rest := PlaceChildren(edges, kids[1..], x, y, total', widest', p.visited);
      PlaceWithin(edges, k, x, y + total, visited, within);
      PlaceChildrenWithin(edges, kids[1..], x, y, total', widest', p.visited, within);
      Layers(visited, p.visited, rest.visited);
      ClosedJoin(edges, p.visited - visited, rest.visited - p.visited, p.visited, rest.visited);
      PlaceChildrenStep(edges, kids, x, y, total, widest, visited);
    }
  }

  // ---------------------------------------------------------------------------
  // Applying the moves
  // ---------------------------------------------------------------------------

  /** The `setNodes` updates of a placement, applied one after the other. */
  function ApplyMoves(nodes: seq<Node>, moves: seq<Move>): (r: seq<Node>)
    ensures |r| == |nodes|
    ensures forall i :: 0 <= i < |nodes| ==> r[i] == nodes[i].(position := r[i].position)
    ensures forall i :: 0 <= i < |nodes| && nodes[i].id !in MoveIds(moves) ==> r[i] == nodes[i]
    decreases moves
  {
    if moves == [] then nodes
    else ApplyMoves(Patch(nodes, {moves[0].id}, MoveTo(moves[0].to)), moves[1..])
  }

  /** Where the last move of `id` puts it, if any move does. */
  function LastMove(moves: seq<Move>, id: string): (r: Option<Position>)
    ensures r.None? <==> id !in MoveIds(moves)
  {
    if moves == [] then None
    else
      var rest := LastMove(moves[1..], id);
      assert MoveIds(moves) == {moves[0].id} + MoveIds(moves[1..]) by {
        assert moves == [moves[0]] + moves[1..];
        MoveIdsConcat([moves[0]], moves[1..]);
      }
      if rest.Some? then rest
      else if moves[0].id == id then Some(moves[0].to)
      else None
  }

  /** Each node ends where the last move of its id puts it, and keeps every other field. */
  lemma {:induction false} ApplyMovesAt(nodes: seq<Node>, moves: seq<Move>, i: int)
    requires 0 <= i < |nodes|
    ensures ApplyMoves(nodes, moves)[i] ==
      match LastMove(moves, nodes[i].id)
      case None => nodes[i]
      case Some(to) => nodes[i].(position := to)
    decreases moves
  {
    if moves != [] {
      var next := Patch(nodes, {moves[0].id}, MoveTo(moves[0].to));
      ApplyMovesAt(next, moves[1..], i);
    }
  }

  /** Applying a list of moves a second time changes nothing. */
  lemma ApplyMovesTwice(nodes: seq<Node>, moves: seq<Move>)
    ensures ApplyMoves(ApplyMoves(nodes, moves), moves) == ApplyMoves(nodes, moves)
  {
    var once := ApplyMoves(nodes, moves);
    forall i | 0 <= i < |nodes| ensures ApplyMoves(once, moves)[i] == once[i] {
      ApplyMovesAt(nodes, moves, i);
      ApplyMovesAt(once, moves, i);
    }
  }

  /** Applying two lists of moves is applying their concatenation. */
  lemma {:induction false} ApplyMovesConcat(nodes: seq<Node>, a: seq<Move>, b: seq<Move>)
    ensures ApplyMoves(nodes, a + b) == ApplyMoves(ApplyMoves(nodes, a), b)
    decreases a
  {
    if a == [] {
      assert a + b == b;
    } else {
      assert (a + b)[0] == a[0] && (a + b)[1..] == a[1..] + b;
      ApplyMovesConcat(Patch(nodes, {a[0].id}, MoveTo(a[0].to)), a[1..], b);
    }
  }

  /** In a list of moves without repeats, the first move of an id is also its last. */
  lemma {:induction false} LastMoveOfFirst(moves: seq<Move>)
    requires |moves| > 0 && DistinctMoves(moves)
    ensures LastMove(moves, moves[0].id) == Some(moves[0].to)
  {
    var rest := moves[1..];
    forall m | m in rest ensures m.id != moves[0].id {
      var b :| 0 <= b < |rest| && rest[b] == m;
      assert moves[b + 1] == m;
    }
    assert moves[0].id !in MoveIds(rest);
  }

  // ---------------------------------------------------------------------------
  // tidyUpMap
  // ---------------------------------------------------------------------------

  /** The placement `tidyUpMap` makes: from the first node, at (50, 50), with nothing visited. */
  function TidyPlacement(nodes: seq<Node>, edges: seq<Edge>): (p: Placed)
    requires |nodes| > 0
    ensures |p.moves| > 0 && p.moves[0] == Move(nodes[0].id, Position(Origin, Origin))
  {
    Place(edges, nodes[0].id, Origin, Origin, {})
  }

  /** The node list after `tidyUpMap`; an empty map is left alone. */
  function Tidy(nodes: seq<Node>, edges: seq<Edge>): (r: seq<Node>)
    ensures |r| == |nodes|
    ensures forall i :: 0 <= i < |nodes| ==> r[i] == nodes[i].(position := r[i].position)
  {
    if nodes == [] then nodes else ApplyMoves(nodes, TidyPlacement(nodes, edges).moves)
  }

  /** The tidy-up visits exactly the first node and its descendants. */
  lemma TidyVisitsSubtree(nodes: seq<Node>, edges: seq<Edge>)
    requires |nodes| > 0
    ensures TidyPlacement(nodes, edges).visited == {nodes[0].id} + ReachSet(edges, nodes[0].id)
  {
    var root := nodes[0].id;
    var p := TidyPlacement(nodes, edges);
    var subtree := {root} + ReachSet(edges, root);
    SubtreeClosed(edges, root);
    PlaceWithin(edges, root, Origin, Origin, {}, subtree);
    forall v | v in ReachSet(edges, root) ensures v in p.visited {
      ReachedIsVisited(edges, root, v, p.visited);
    }
  }

  /** A node's subtree holds the children of each of its members. */
  lemma SubtreeClosed(edges: seq<Edge>, root: string)
    ensures ClosedUnder(edges, {root} + ReachSet(edges, root), {root} + ReachSet(edges, root))
  {
    var subtree := {root} + ReachSet(edges, root);
    forall v, c | v in subtree && c in DirectChildren(edges, v) ensures c in subtree {
      DirectChildrenLinked(edges, v);
      if v == root {
        ReachStep(edges, root, c, c);
      } else {
        ReachStep(edges, v, c, c);
        ReachTrans(edges, root, v, c);
      }
      ReachableIsTarget(edges, root, c);
    }
  }

  /** A visited set that holds the root and is closed under children holds every descendant. */
  lemma ReachedIsVisited(edges: seq<Edge>, root: string, v: string, visited: set<string>)
    requires root in visited && ClosedUnder(edges, visited, visited) && Reachable(edges, root, v)
    ensures v in visited
  {
    var path :| IsChain(edges, path) && path[0] == root && path[|path| - 1] == v;
    var i := 0;
    while i < |path| - 1
      invariant 0 <= i <= |path| - 1 && path[i] in visited
    {
      assert Linked(edges, path[i], path[i + 1]);
      DirectChildrenLinked(edges, path[i]);
      i := i + 1;
    }
  }

  /**
   * After a tidy-up the first node is at (50, 50); a node changes only in its
   * position, and only when it is the first node or one of its descendants.
   */
  lemma TidyMovesOnlySubtree(nodes: seq<Node>, edges: seq<Edge>)
    requires |nodes| > 0
    ensures Tidy(nodes, edges)[0] == nodes[0].(position := Position(Origin, Origin))
    ensures forall i :: 0 <= i < |nodes| ==>
      Tidy(nodes, edges)[i] == nodes[i].(position := Tidy(nodes, edges)[i].position)
    ensures forall i :: 0 <= i < |nodes| && nodes[i].id != nodes[0].id && !Reachable(edges, nodes[0].id, nodes[i].id) ==>
      Tidy(nodes, edges)[i] == nodes[i]
  {
    var p := TidyPlacement(nodes, edges);
    TidyVisitsSubtree(nodes, edges);
    PlaceMovesVisited(edges, nodes[0].id, Origin, Origin, {});
    LastMoveOfFirst(p.moves);
    ApplyMovesAt(nodes, p.moves, 0);
    forall i | 0 <= i < |nodes| ensures Tidy(nodes, edges)[i] == nodes[i].(position := Tidy(nodes, edges)[i].position) {
      ApplyMovesAt(nodes, p.moves, i);
    }
    forall i | 0 <= i < |nodes| && nodes[i].id != nodes[0].id && !Reachable(edges, nodes[0].id, nodes[i].id)
      ensures Tidy(nodes, edges)[i] == nodes[i]
    {
      ApplyMovesAt(nodes, p.moves, i);
      assert nodes[i].id !in p.visited;
    }
  }

  /** Tidying up twice in a row gives the same positions as tidying up once. */
  lemma TidyIdempotent(nodes: seq<Node>, edges: seq<Edge>)
    ensures Tidy(Tidy(nodes, edges), edges) == Tidy(nodes, edges)
  {
    if nodes != [] {
      var once := Tidy(nodes, edges);
      var moves := TidyPlacement(nodes, edges).moves;
      ApplyMovesAt(nodes, moves, 0);
      assert once[0].id == nodes[0].id;
      ApplyMovesTwice(nodes, moves);
    }
  }
}
