/** The grid path search: neighbour generation, relaxation and the best-first loop. */
module Search {
  import opened Grids
  import opened Nodes
  import opened SearchProof

  datatype Option<T> = None | Some(value: T)

  /** Fresh nodes for the cells one move away from `node` that are inside the board and not
      obstacles, tried up, down, left, right. */
  method NeighbourNodes(m: Grid, node: Node, rows: int, cols: int) returns (neighbours: seq<Node>)
    requires rows == |m| && cols == |m[0]|
    ensures |neighbours| == |Neighbours(m, node.Coord())|
    ensures forall i :: 0 <= i < |neighbours| ==> neighbours[i].Coord() == Neighbours(m, node.Coord())[i]
    ensures forall i :: 0 <= i < |neighbours| ==> fresh(neighbours[i]) && neighbours[i].Pristine()
    ensures forall i, j :: 0 <= i < j < |neighbours| ==> neighbours[i] != neighbours[j]
  {
    neighbours := [];
    ghost var cells: seq<Coord> := [];
    for k := 0 to |Directions|
      invariant cells == NeighboursFrom(m, node.Coord(), k) && |neighbours| == |cells|
      invariant forall i :: 0 <= i < |neighbours| ==> neighbours[i].Coord() == cells[i]
      invariant forall i :: 0 <= i < |neighbours| ==> fresh(neighbours[i]) && neighbours[i].Pristine()
      invariant forall i, j :: 0 <= i < j < |neighbours| ==> neighbours[i] != neighbours[j]
    {
      var d := Directions[k];
      var nx, ny := node.x + d.0, node.y + d.1;
      NeighboursFromStep(m, node.Coord(), k);
      if 0 <= nx < rows && 0 <= ny < cols {
        if m[nx][ny] != Obstacle {
          var v := new Node(nx, ny);
          neighbours, cells := neighbours + [v], cells + [(nx, ny)];
        }
      }
    }
  }

  /** The relaxation of a neighbour reached from `current`: when one more step from `current`
      is cheaper than the neighbour's recorded cost, the neighbour takes `current` as its
      parent, that cost as `g`, its distance to the goal as `h`, and `g + h` as `f`. */
  method Relax(current: Node, neighbour: Node, goal: Node) returns (improved: bool)
    requires current != neighbour && current.Linked() && neighbour !in current.Repr
    modifies neighbour
    ensures improved <==> current.g.Plus(1).Less(old(neighbour.g))
    ensures improved ==>
      neighbour.parent == current && neighbour.g == current.g.Plus(1) &&
      neighbour.h == Manhattan(neighbour.Coord(), goal.Coord()) &&
      neighbour.f == neighbour.g.Plus(neighbour.h)
    ensures improved ==>
      neighbour.Linked() && neighbour.Path == current.Path + [neighbour.Coord()] &&
      neighbour.Repr == {neighbour} + current.Repr
    ensures !improved ==> unchanged(neighbour)
  {
    var tentative := current.g.Plus(1);
    improved := tentative.Less(neighbour.g);
    if improved {
      neighbour.parent := current;
      neighbour.g := tentative;
      neighbour.h := Manhattan(neighbour.Coord(), goal.Coord());
      neighbour.f := neighbour.g.Plus(neighbour.h);
      neighbour.Path := current.Path + [neighbour.Coord()];
      neighbour.Repr := {neighbour} + current.Repr;
    }
  }

  /** A node agrees with the value the correctness argument tracks for it. */
  ghost predicate Mirrors(n: Node, e: Entry)
    reads n
  {
    n.Coord() == e.pos && n.g == Fin(e.g) && n.f == Fin(e.f) && n.Path == e.path
  }

  /** Each node of `ns` has a linked parent chain inside `nodes`, the nodes the search no longer
      changes, and agrees with the matching entry of `es`. */
  ghost predicate Tracks(ns: seq<Node>, es: seq<Entry>, nodes: set<Node>)
    reads nodes
  {
    |ns| == |es| &&
    forall k :: 0 <= k < |ns| ==>
      ns[k] in nodes && ns[k].Repr <= nodes && ns[k].Linked() && Mirrors(ns[k], es[k])
  }

  lemma TracksGrow(ns: seq<Node>, es: seq<Entry>, nodes: set<Node>, more: set<Node>)
    requires Tracks(ns, es, nodes) && nodes <= more
    ensures Tracks(ns, es, more)
  {
  }

  lemma TracksAppend(ns: seq<Node>, es: seq<Entry>, nodes: set<Node>, n: Node, e: Entry)
    requires Tracks(ns, es, nodes)
    requires n in nodes && n.Repr <= nodes && n.Linked() && Mirrors(n, e)
    ensures Tracks(ns + [n], es + [e], nodes)
  {
    var ns', es' := ns + [n], es + [e];
    forall k | 0 <= k < |ns'|
      ensures ns'[k] in nodes && ns'[k].Repr <= nodes && ns'[k].Linked() && Mirrors(ns'[k], es'[k])
    {
      if k < |ns| {
        assert ns'[k] == ns[k] && es'[k] == es[k];
      }
    }
  }

  /** Queueing a node that just joined the sealed nodes. */
  lemma TracksPush(ns: seq<Node>, es: seq<Entry>, nodes: set<Node>, n: Node, e: Entry)
    requires Tracks(ns, es, nodes)
    requires n.Repr <= nodes + {n} && n.Linked() && Mirrors(n, e)
    ensures Tracks(ns + [n], es + [e], nodes + {n})
  {
    TracksGrow(ns, es, nodes, nodes + {n});
    TracksAppend(ns, es, nodes + {n}, n, e);
  }

  lemma TracksRemove(ns: seq<Node>, es: seq<Entry>, nodes: set<Node>, i: nat)
    requires Tracks(ns, es, nodes) && i < |ns|
    ensures Tracks(ns[..i] + ns[i + 1..], Remove(es, i), nodes)
  {
    var ns', es' := ns[..i] + ns[i + 1..], Remove(es, i);
    forall k | 0 <= k < |ns'|
      ensures ns'[k] in nodes && ns'[k].Repr <= nodes && ns'[k].Linked() && Mirrors(ns'[k], es'[k])
    {
      if k < i {
        assert ns'[k] == ns[k] && es'[k] == es[k];
      } else {
        assert ns'[k] == ns[k + 1] && es'[k] == es[k + 1];
      }
    }
  }

  /** Searching the closed list for a node's cell is asking whether its cell is closed. */
  lemma ContainsClosed(closed: seq<Node>, closedE: seq<Entry>, nodes: set<Node>, v: Node)
    requires Tracks(closed, closedE, nodes)
    ensures Contains(closed, v) <==> v.Coord() in Positions(closedE)
  {
    if v.Coord() in Positions(closedE) {
      var k :| 0 <= k < |closedE| && closedE[k].pos == v.Coord();
      assert closed[k].Eq(v);
    }
  }

  /** One turn of the inner loop: a neighbour whose cell is closed is skipped; any other is
      relaxed from `current` and queued, since relaxing a node still at infinite cost always
      lowers it. `v` is the node for the `j`-th cell `Neighbours` lists for `current`. */
  method VisitNeighbour(m: Grid, current: Node, goalNode: Node, v: Node,
                        open: seq<Node>, closed: seq<Node>, ghost j: nat,
                        ghost openE: seq<Entry>, ghost closedE: seq<Entry>, ghost nodes: set<Node>)
    returns (open': seq<Node>, ghost openE': seq<Entry>, ghost nodes': set<Node>)
    requires Tracks(open, openE, nodes) && Tracks(closed, closedE, nodes)
    requires |closed| > 0 && current == closed[|closed| - 1]
    requires j < |Neighbours(m, current.Coord())| && v.Coord() == Neighbours(m, current.Coord())[j]
    requires v !in nodes && v.g == Inf
    modifies v
    ensures open' == if Contains(closed, v) then open else open + [v]
    ensures nodes <= nodes' <= nodes + {v}
    ensures Tracks(open', openE', nodes') && Tracks(closed, closedE, nodes')
    ensures openE' == AfterVisit(m, goalNode.Coord(), openE, closedE, j)
  {
    ghost var e := closedE[|closedE| - 1];
    open', openE', nodes' := open, openE, nodes;
    ContainsClosed(closed, closedE, nodes, v);
    if Contains(closed, v) {
      return;
    }
    assert current in nodes && current.Linked() && current.Repr <= nodes && Mirrors(current, e);
    var improved := Relax(current, v, goalNode);
    if improved {
      ghost var x := Child(e, v.Coord(), goalNode.Coord());
      assert Mirrors(v, x);
      TracksPush(open, openE, nodes, v, x);
      TracksGrow(closed, closedE, nodes, nodes + {v});
      open', openE', nodes' := open + [v], openE + [x], nodes + {v};
    }
  }

  /** The inner loop of the search: every neighbour of the node just closed is visited. */
  method ExpandNeighbours(m: Grid, current: Node, goalNode: Node, rows: int, cols: int,
                          open: seq<Node>, closed: seq<Node>,
                          ghost start: Coord, ghost openE: seq<Entry>, ghost closedE: seq<Entry>,
                          ghost nodes: set<Node>)
    returns (open': seq<Node>, ghost openE': seq<Entry>, ghost nodes': set<Node>)
    requires rows == |m| && cols == |m[0]|
    requires Tracks(open, openE, nodes) && Tracks(closed, closedE, nodes)
    requires |closed| > 0 && current == closed[|closed| - 1]
    requires ExpandingInv(m, start, goalNode.Coord(), openE, closedE, 0)
    ensures nodes <= nodes' && Tracks(open', openE', nodes') && Tracks(closed, closedE, nodes')
    ensures SearchInv(m, start, goalNode.Coord(), openE', closedE)
    ensures Weight(openE', Positions(closedE)) <= Weight(openE, Positions(closedE)) + 4
    ensures open <= open'
    ensures openE' == openE + Expansion(m, goalNode.Coord(), closedE[|closedE| - 1], Positions(closedE))
  {
    ghost var goal := goalNode.Coord();
    ghost var w0 := Weight(openE, Positions(closedE));
    ghost var e := closedE[|closedE| - 1];
    assert Mirrors(closed[|closed| - 1], e);
    open', openE', nodes' := open, openE, nodes;
    var neighbours := NeighbourNodes(m, current, rows, cols);
    for j := 0 to |neighbours|
      invariant nodes <= nodes' && Tracks(open', openE', nodes') && Tracks(closed, closedE, nodes')
      invariant forall q :: j <= q < |neighbours| ==> neighbours[q] !in nodes' && neighbours[q].g == Inf
      invariant ExpandingInv(m, start, goal, openE', closedE, j)
      invariant Weight(openE', Positions(closedE)) <= w0 + j
      invariant open <= open'
      invariant openE' == openE + Queued(e, Neighbours(m, e.pos)[..j], Positions(closedE), goal)
    {
      VisitKeepsInv(m, start, goal, openE', closedE, j);
      AfterVisitQueues(m, goal, openE, closedE, j);
      open', openE', nodes' :=
        VisitNeighbour(m, current, goalNode, neighbours[j], open', closed, j, openE', closedE, nodes');
    }
    ExpandingDone(m, start, goal, openE', closedE);
    assert Neighbours(m, e.pos)[..|neighbours|] == Neighbours(m, e.pos);
  }

  /** Heap pop: takes out a node that no other queued node precedes in the `f` order. */
  method PopMin(open: seq<Node>, ghost openE: seq<Entry>, ghost nodes: set<Node>)
    returns (current: Node, open': seq<Node>, ghost i: nat)
    requires Tracks(open, openE, nodes) && |open| > 0
    ensures i < |open| && current == open[i] && open' == open[..i] + open[i + 1..]
    ensures forall k :: 0 <= k < |open| ==> !open[k].Lt(current)
    ensures IsMin(openE, i)
    ensures current in nodes && current.Repr <= nodes && current.Linked() && Mirrors(current, openE[i])
    ensures Tracks(open', Remove(openE, i), nodes)
  {
    ghost var i0 := MinIndex(openE);
    assert forall k :: 0 <= k < |open| ==> !open[k].Lt(open[i0]);
    var p :| 0 <= p < |open| && forall k :: 0 <= k < |open| ==> !open[k].Lt(open[p]);
    forall k | 0 <= k < |openE| ensures openE[p].f <= openE[k].f {
      assert Mirrors(open[k], openE[k]) && Mirrors(open[p], openE[p]);
      assert !open[k].Lt(open[p]);
    }
    i := p;
    current := open[p];
    open' := open[..p] + open[p + 1..];
    TracksRemove(open, openE, nodes, p);
  }

  /** Best-first search from `start` to `goal` over the free cells of `m`. Returns a shortest
      walk when the goal can be reached and nothing otherwise. */
  method FindPath(m: Grid, start: Coord, goal: Coord) returns (route: Option<seq<Coord>>)
    ensures route.Some? ==> ShortestPath(m, start, goal, route.value)
    ensures route.None? ==> !Reachable(m, start, goal)
    ensures start == goal ==> route == Some([start])
    ensures goal != start && !Free(m, goal) ==> route == None
  {
    var rows, cols := |m|, |m[0]|;
    var open: seq<Node> := [];
    var closed: seq<Node> := [];
    var startNode := new Node(start.0, start.1);
    var goalNode := new Node(goal.0, goal.1);
    open := open + [startNode];
    startNode.g := Fin(0);
    startNode.f := Fin(Manhattan(startNode.Coord(), goalNode.Coord()));

    ghost var nodes: set<Node> := {startNode};
    ghost var openE: seq<Entry> := [StartEntry(start, goal)];
    ghost var closedE: seq<Entry> := [];
    InitInv(m, start, goal);

    while |open| > 0
      invariant Tracks(open, openE, nodes) && Tracks(closed, closedE, nodes)
      invariant SearchInv(m, start, goal, openE, closedE)
      decreases |Universe(m, start) - Positions(closedE)|, Weight(openE, Positions(closedE))
    {
      ghost var openBefore, closedBefore := openE, closedE;
      var current;
      ghost var i;
      current, open, i := PopMin(open, openE, nodes);
      ghost var e := openE[i];
      openE := Remove(openE, i);

      if current.Eq(goalNode) {
        GoalPopped(m, start, goal, openBefore, closedE, i);
        var path := BuildPath(current);
        if start == goal {
          ShortestToSelf(m, start, path);
        }
        ReachedCellIsFree(m, start, goal);
        return Some(path);
      }

      TracksAppend(closed, closedE, nodes, current, e);
      closed := closed + [current];
      PopKeepsInv(m, start, goal, openBefore, closedE, i);
      closedE := closedE + [e];
      open, openE, nodes := ExpandNeighbours(m, current, goalNode, rows, cols, open, closed,
                                              start, openE, closedE, nodes);
      Progress(m, start, goal, openBefore, closedBefore, i, openE);
    }
    Exhausted(m, start, goal, closedE);
    assert PathTo(m, start, start, [start]);
    return None;
  }
}
