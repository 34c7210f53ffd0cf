/** The board a search runs over: cells, obstacles, the four moves and walks. */
module Grids {

  /** A cell, as (row, column). */
  type Coord = (int, int)

  /** A board: a non-empty rectangular matrix of cell values. */
  type Grid = m: seq<seq<int>> | |m| > 0 && forall i :: 0 <= i < |m| ==> |m[i]| == |m[0]|
    witness [[0]]

  /** The cell value that marks an obstacle; every other value is passable. */
  const Obstacle := 1

  predicate InBounds(m: Grid, c: Coord)
  {
    0 <= c.0 < |m| && 0 <= c.1 < |m[0]|
  }

  /** A cell a move may enter: inside the board and not holding exactly `Obstacle`. */
  predicate Free(m: Grid, c: Coord)
  {
    InBounds(m, c) && m[c.0][c.1] != Obstacle
  }

  function Abs(k: int): nat
  {
    if k < 0 then -k else k
  }

  /** The search heuristic: the Manhattan distance between two cells. */
  function Manhattan(a: Coord, b: Coord): (r: nat)
    ensures r == 0 <==> a == b
  {
    Abs(a.0 - b.0) + Abs(a.1 - b.1)
  }

  lemma ManhattanTriangle(a: Coord, b: Coord, c: Coord)
    ensures Manhattan(a, c) <= Manhattan(a, b) + Manhattan(b, c)
  {
  }

  /** Two cells one orthogonal move apart. */
  predicate Adjacent(a: Coord, b: Coord)
  {
    Manhattan(a, b) == 1
  }

  /** The moves tried for every cell, in this order: up, down, left, right. */
  const Directions: seq<Coord> := [(-1, 0), (1, 0), (0, -1), (0, 1)]

  function Step(c: Coord, d: Coord): Coord
  {
    (c.0 + d.0, c.1 + d.1)
  }

  /** The free cells reached from `c` by the first `k` moves of `Directions`, in that order. */
  function NeighboursFrom(m: Grid, c: Coord, k: nat): (r: seq<Coord>)
    requires k <= |Directions|
    ensures |r| <= k
    ensures forall i :: 0 <= i < |r| ==> Free(m, r[i]) && Adjacent(c, r[i])
  {
    if k == 0 then []
    else
      var n := Step(c, Directions[k - 1]);
      NeighboursFrom(m, c, k - 1) + (if Free(m, n) then [n] else [])
  }

  lemma NeighboursFromStep(m: Grid, c: Coord, k: nat)
    requires k < |Directions|
    ensures NeighboursFrom(m, c, k + 1) ==
      NeighboursFrom(m, c, k) + (if Free(m, Step(c, Directions[k])) then [Step(c, Directions[k])] else [])
  {
  }

  /** The cells one move away from `c` that are inside the board and not obstacles. */
  function Neighbours(m: Grid, c: Coord): (r: seq<Coord>)
    ensures |r| <= 4
    ensures forall i :: 0 <= i < |r| ==> Free(m, r[i]) && Adjacent(c, r[i])
  {
    NeighboursFrom(m, c, |Directions|)
  }

  /** The position of a move in `Directions`; 4 for a cell that is not one move away. */
  function DirectionIndex(c: Coord, n: Coord): nat
  {
    if n == Step(c, Directions[0]) then 0
    else if n == Step(c, Directions[1]) then 1
    else if n == Step(c, Directions[2]) then 2
    else if n == Step(c, Directions[3]) then 3
    else 4
  }

  lemma {:induction false} NeighboursFromComplete(m: Grid, c: Coord, k: nat, d: nat)
    requires d < k <= |Directions|
    requires Free(m, Step(c, Directions[d]))
    ensures Step(c, Directions[d]) in NeighboursFrom(m, c, k)
  {
    if d < k - 1 {
      NeighboursFromComplete(m, c, k - 1, d);
    }
  }

  /** A cell is generated as a neighbour exactly when it is one move away, in bounds and free. */
  lemma NeighboursExact(m: Grid, c: Coord, n: Coord)
    ensures n in Neighbours(m, c) <==> Free(m, n) && Adjacent(c, n)
  {
    if Free(m, n) && Adjacent(c, n) {
      var d: nat :=
        if n.0 == c.0 - 1 then 0
        else if n.0 == c.0 + 1 then 1
        else if n.1 == c.1 - 1 then 2
        else 3;
      assert n == Step(c, Directions[d]);
      NeighboursFromComplete(m, c, |Directions|, d);
    }
  }

  lemma {:induction false} NeighboursFromOrdered(m: Grid, c: Coord, k: nat)
    requires k <= |Directions|
    ensures forall i :: 0 <= i < |NeighboursFrom(m, c, k)| ==> DirectionIndex(c, NeighboursFrom(m, c, k)[i]) < k
    ensures forall i, j :: 0 <= i < j < |NeighboursFrom(m, c, k)| ==>
      DirectionIndex(c, NeighboursFrom(m, c, k)[i]) < DirectionIndex(c, NeighboursFrom(m, c, k)[j])
  {
    if k > 0 {
      NeighboursFromOrdered(m, c, k - 1);
      var n := Step(c, Directions[k - 1]);
      assert DirectionIndex(c, n) == k - 1;
    }
  }

  /** Neighbours come in the order up, down, left, right, each move at most once. */
  lemma NeighboursInDirectionOrder(m: Grid, c: Coord)
    ensures forall i :: 0 <= i < |Neighbours(m, c)| ==> DirectionIndex(c, Neighbours(m, c)[i]) < 4
    ensures forall i, j :: 0 <= i < j < |Neighbours(m, c)| ==>
      DirectionIndex(c, Neighbours(m, c)[i]) < DirectionIndex(c, Neighbours(m, c)[j])
  {
    NeighboursFromOrdered(m, c, |Directions|);
  }

  /** No cell is generated twice as a neighbour. */
  lemma NeighboursDistinct(m: Grid, c: Coord)
    ensures forall i, j :: 0 <= i < j < |Neighbours(m, c)| ==> Neighbours(m, c)[i] != Neighbours(m, c)[j]
  {
    NeighboursInDirectionOrder(m, c);
  }

  /** A walk from `s`: every later cell is one move from the previous one, in bounds and free.
      The first cell is not required to be free: the search never checks its start cell. */
  predicate IsWalk(m: Grid, s: Coord, p: seq<Coord>)
  {
    |p| >= 1 && p[0] == s &&
    forall i :: 1 <= i < |p| ==> Adjacent(p[i - 1], p[i]) && Free(m, p[i])
  }

  predicate PathTo(m: Grid, s: Coord, t: Coord, p: seq<Coord>)
  {
    IsWalk(m, s, p) && p[|p| - 1] == t
  }

  ghost predicate Reachable(m: Grid, s: Coord, t: Coord)
  {
    exists p :: PathTo(m, s, t, p)
  }

  /** `p` is a walk from `s` to `t` and no walk from `s` to `t` has fewer cells. */
  ghost predicate ShortestPath(m: Grid, s: Coord, t: Coord, p: seq<Coord>)
  {
    PathTo(m, s, t, p) && forall q :: PathTo(m, s, t, q) ==> |p| <= |q|
  }

  lemma {:induction false} WalkManhattan(m: Grid, s: Coord, p: seq<Coord>, a: nat, b: nat)
    requires IsWalk(m, s, p) && a <= b < |p|
    ensures Manhattan(p[a], p[b]) <= b - a
  {
    if a < b {
      WalkManhattan(m, s, p, a, b - 1);
      ManhattanTriangle(p[a], p[b - 1], p[b]);
    }
  }

  /** The heuristic is admissible: a walk from `a` to `b` has more than Manhattan(a, b) cells. */
  lemma ManhattanAdmissible(m: Grid, a: Coord, b: Coord, p: seq<Coord>)
    requires PathTo(m, a, b, p)
    ensures Manhattan(a, b) < |p|
  {
    WalkManhattan(m, a, p, 0, |p| - 1);
  }

  lemma WalkPrefix(m: Grid, s: Coord, p: seq<Coord>, j: nat)
    requires IsWalk(m, s, p) && 1 <= j <= |p|
    ensures PathTo(m, s, p[j - 1], p[..j])
  {
  }

  lemma WalkExtend(m: Grid, s: Coord, p: seq<Coord>, c: Coord)
    requires IsWalk(m, s, p) && Adjacent(p[|p| - 1], c) && Free(m, c)
    ensures PathTo(m, s, c, p + [c])
  {
    var q := p + [c];
    forall i | 1 <= i < |q| ensures Adjacent(q[i - 1], q[i]) && Free(m, q[i]) {
      if i < |p| {
        assert q[i - 1] == p[i - 1] && q[i] == p[i];
      }
    }
  }

  /** From a cell to itself the only shortest walk is the one-cell walk. */
  lemma ShortestToSelf(m: Grid, s: Coord, p: seq<Coord>)
    requires ShortestPath(m, s, s, p)
    ensures p == [s]
  {
    assert PathTo(m, s, s, [s]);
  }

  /** Every cell a walk reaches, other than its start, is in bounds and not an obstacle; so a
      goal other than the start that is out of bounds or an obstacle is never reached. */
  lemma ReachedCellIsFree(m: Grid, s: Coord, t: Coord)
    requires Reachable(m, s, t)
    ensures t == s || Free(m, t)
  {
    var p :| PathTo(m, s, t, p);
    if |p| > 1 {
      assert Free(m, p[|p| - 1]);
    }
  }
}
