/** Search nodes: one grid cell's search state with a link to the node it was reached from. */
module Nodes {
  import opened Grids

  /** A path cost that may be infinite: unknown costs start at infinity. */
  datatype Cost = Fin(n: nat) | Inf
  {
    /** `<` on costs: finite costs compare as numbers and every finite cost is below infinity. */
    function Less(other: Cost): (r: bool)
      ensures other.Inf? ==> (r <==> Fin?)
      ensures Inf? ==> !r
      ensures Fin? && other.Fin? ==> (r <==> n < other.n)
    {
      match (this, other)
      case (Fin(a), Fin(b)) => a < b
      case (Fin(_), Inf) => true
      case (Inf, _) => false
    }

    /** Adding a finite amount; infinity absorbs it. */
    function Plus(k: nat): (r: Cost)
      ensures r.Inf? <==> Inf?
      ensures Fin? ==> r.n == n + k
    {
      match this
      case Fin(a) => Fin(a + k)
      case Inf => Inf
    }
  }

  /** `Less` is a strict total order on costs, so the heap order on nodes is a strict weak order. */
  lemma LessIsStrictTotalOrder(a: Cost, b: Cost, c: Cost)
    ensures !a.Less(a)
    ensures a.Less(b) ==> !b.Less(a)
    ensures a.Less(b) && b.Less(c) ==> a.Less(c)
    ensures a.Less(b) || b.Less(a) || a == b
  {
  }

  /** The search state of one cell. Nodes are ordered by `f` alone and equal when their cells are. */
  class Node {
    const x: int
    const y: int
    /** Cost of the walk from the start to this node. */
    var g: Cost
    /** Heuristic estimate of the remaining cost to the goal. */
    var h: nat
    /** Total estimate g + h, the priority in the open list. */
    var f: Cost
    var parent: Node?

    /** The cells of the parent chain, from its parentless root to this node. */
    ghost var Path: seq<Coord>
    /** The nodes of the parent chain, this one included. */
    ghost var Repr: set<Node>

    /** A node as first created: unknown cost, no heuristic and no parent. */
    constructor (x: int, y: int)
      ensures this.x == x && this.y == y
      ensures g == Inf && h == 0 && f == Inf && parent == null
      ensures Path == [(x, y)] && Repr == {this} && Linked()
    {
      this.x := x;
      this.y := y;
      g := Inf;
      h := 0;
      f := Inf;
      parent := null;
      Path := [(x, y)];
      Repr := {this};
    }

    function Coord(): Coord
    {
      (x, y)
    }

    /** The state of a node straight from the constructor. */
    ghost predicate Pristine()
      reads this
    {
      g == Inf && h == 0 && f == Inf && parent == null && Path == [Coord()] && Repr == {this}
    }

    /** Heap order: by `f` only; a node with infinite `f` never precedes another. */
    predicate Lt(other: Node): (r: bool)
      reads this, other
      ensures r ==> f.Fin?
      ensures other.f.Inf? ==> (r <==> f.Fin?)
      ensures f.Fin? && other.f.Fin? ==> (r <==> f.n < other.f.n)
    {
      f.Less(other.f)
    }

    /** Node equality is cell equality, i.e. zero heuristic distance. */
    predicate Eq(other: Node): (r: bool)
      ensures r <==> Coord() == other.Coord()
      ensures r <==> Manhattan(Coord(), other.Coord()) == 0
    {
      x == other.x && y == other.y
    }

    /** The parent chain is finite and acyclic, and `Path` lists its cells root first. */
    ghost predicate Linked()
      reads this, Repr
      decreases Repr
    {
      this in Repr &&
      if parent == null then
        Repr == {this} && Path == [Coord()]
      else
        parent in Repr && this !in parent.Repr && Repr == {this} + parent.Repr &&
        parent.Linked() && Path == parent.Path + [Coord()]
    }

    /** The parentless node the chain ends in. */
    ghost function Root(): Node
      reads this, Repr
      requires Linked()
      decreases Repr
    {
      if parent == null then this else parent.Root()
    }

    /** A linked chain has one cell per node, starts at its root's cell and ends at this node's. */
    lemma {:induction false} ChainShape()
      requires Linked()
      ensures |Path| == |Repr|
      ensures Path[0] == Root().Coord() && Path[|Path| - 1] == Coord()
      decreases Repr
    {
      if parent != null {
        parent.ChainShape();
      }
    }
  }

  /** List membership, which compares nodes with `Eq`, i.e. by cell. */
  predicate Contains(list: seq<Node>, n: Node): (r: bool)
    ensures r <==> n.Coord() in (set k | 0 <= k < |list| :: list[k].Coord())
  {
    exists k :: 0 <= k < |list| && list[k].Eq(n)
  }

  function Reverse<T>(s: seq<T>): (r: seq<T>)
    ensures |r| == |s|
    ensures forall i :: 0 <= i < |s| ==> r[i] == s[|s| - 1 - i]
  {
    if s == [] then [] else Reverse(s[1..]) + [s[0]]
  }

  /** Follows parent links from `last`, collecting cells, and returns them root first. */
  method BuildPath(last: Node) returns (path: seq<Coord>)
    requires last.Linked()
    ensures path == last.Path
    ensures |path| == |last.Repr|
    ensures path[0] == last.Root().Coord() && path[|path| - 1] == last.Coord()
  {
    var collected: seq<Coord> := [];
    var current: Node? := last;
    while current != null
      invariant current != null ==> current.Linked()
      invariant last.Path == (if current == null then [] else current.Path) + Reverse(collected)
      decreases if current == null then {} else current.Repr
    {
      collected := collected + [(current.x, current.y)];
      current := current.parent;
    }
    path := Reverse(collected);
    last.ChainShape();
  }
}
