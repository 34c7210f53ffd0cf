/** The best-first search's open and closed lists seen as values, the invariant that makes the
    search return shortest walks, and the proof that each step of the search keeps it. */
module SearchProof {
  import opened Grids

  /** What the search knows about one node: its cell, its `g` and `f`, and its parent chain's cells. */
  datatype Entry = Entry(pos: Coord, g: nat, f: nat, path: seq<Coord>)

  function Positions(es: seq<Entry>): (r: set<Coord>)
    ensures forall k :: 0 <= k < |es| ==> es[k].pos in r
    ensures forall c :: c in r ==> exists k :: 0 <= k < |es| && es[k].pos == c
  {
    set k | 0 <= k < |es| :: es[k].pos
  }

  lemma PositionsAppend(es: seq<Entry>, e: Entry)
    ensures Positions(es + [e]) == Positions(es) + {e.pos}
  {
    var r := es + [e];
    forall c | c in Positions(r) ensures c in Positions(es) + {e.pos} {
      var k :| 0 <= k < |r| && r[k].pos == c;
      if k < |es| {
        assert r[k] == es[k];
      }
    }
    forall c | c in Positions(es) ensures c in Positions(r) {
      var k :| 0 <= k < |es| && es[k].pos == c;
      assert r[k] == es[k];
    }
    assert r[|es|] == e;
  }

  /** The node at the start cell, as the search sets it up: g = 0, f = its heuristic. */
  function StartEntry(s: Coord, t: Coord): Entry
  {
    Entry(s, 0, Manhattan(s, t), [s])
  }

  /** A neighbour `c` of `e` after relaxation: one step dearer, `f = g + h`, `e` as its parent. */
  function Child(e: Entry, c: Coord, t: Coord): Entry
  {
    Entry(c, e.g + 1, e.g + 1 + Manhattan(c, t), e.path + [c])
  }

  function Remove(es: seq<Entry>, i: nat): seq<Entry>
    requires i < |es|
  {
    es[..i] + es[i + 1..]
  }

  /** `i` holds an entry whose `f` no other entry undercuts: one the heap may pop. */
  predicate IsMin(es: seq<Entry>, i: nat)
  {
    i < |es| && forall k :: 0 <= k < |es| ==> es[i].f <= es[k].f
  }

  lemma MinIndex(es: seq<Entry>) returns (i: nat)
    requires |es| > 0
    ensures IsMin(es, i)
  {
    i := 0;
    var k := 1;
    while k < |es|
      invariant 0 <= i < k <= |es|
      invariant forall j :: 0 <= j < k ==> es[i].f <= es[j].f
    {
      if es[k].f < es[i].f {
        i := k;
      }
      k := k + 1;
    }
  }

  /** An entry's chain is a walk from the start to its cell with g + 1 cells, and f = g + h. */
  ghost predicate WellFormed(m: Grid, s: Coord, t: Coord, e: Entry)
  {
    PathTo(m, s, e.pos, e.path) && |e.path| == e.g + 1 && e.f == e.g + Manhattan(e.pos, t)
  }

  /** No walk reaches the entry's cell in fewer than g + 1 cells. */
  ghost predicate Shortest(m: Grid, s: Coord, e: Entry)
  {
    forall p :: PathTo(m, s, e.pos, p) ==> e.g < |p|
  }

  /** Cell `c` is closed, or queued at a cost of at most `bound`. */
  ghost predicate Covered(S: set<Coord>, open: seq<Entry>, c: Coord, bound: nat)
  {
    c in S || exists j :: 0 <= j < |open| && open[j].pos == c && open[j].g <= bound
  }

  /** The first `n` neighbours of the expanded entry `e` are closed or queued at cost g + 1 or less. */
  ghost predicate Expanded(m: Grid, S: set<Coord>, open: seq<Entry>, e: Entry, n: nat)
  {
    n <= |Neighbours(m, e.pos)| &&
    forall q :: 0 <= q < n ==> Covered(S, open, Neighbours(m, e.pos)[q], e.g + 1)
  }

  ghost predicate FullyExpanded(m: Grid, S: set<Coord>, open: seq<Entry>, e: Entry)
  {
    Expanded(m, S, open, e, |Neighbours(m, e.pos)|)
  }

  ghost predicate AllWellFormed(m: Grid, s: Coord, t: Coord, es: seq<Entry>)
  {
    forall k {:trigger WellFormed(m, s, t, es[k])} :: 0 <= k < |es| ==> WellFormed(m, s, t, es[k])
  }

  /** Every closed cell was first closed by an entry carrying its shortest distance. */
  ghost predicate ClosedShortest(m: Grid, s: Coord, closed: seq<Entry>)
  {
    forall c :: c in Positions(closed) ==>
      exists k :: 0 <= k < |closed| && closed[k].pos == c && Shortest(m, s, closed[k])
  }

  /** What holds at every point of the search: entries are well formed, the goal was never
      closed, every closed cell was first closed at its shortest distance, and the start is
      closed or queued at cost 0. */
  ghost predicate Settled(m: Grid, s: Coord, t: Coord, open: seq<Entry>, closed: seq<Entry>)
  {
    AllWellFormed(m, s, t, open) && AllWellFormed(m, s, t, closed) &&
    t !in Positions(closed) && ClosedShortest(m, s, closed) &&
    Covered(Positions(closed), open, s, 0)
  }

  ghost predicate AllExpanded(m: Grid, S: set<Coord>, open: seq<Entry>, es: seq<Entry>)
  {
    forall k {:trigger FullyExpanded(m, S, open, es[k])} :: 0 <= k < |es| ==> FullyExpanded(m, S, open, es[k])
  }

  /** The invariant at the head of the search loop: every closed entry is fully expanded. */
  ghost predicate SearchInv(m: Grid, s: Coord, t: Coord, open: seq<Entry>, closed: seq<Entry>)
  {
    Settled(m, s, t, open, closed) && AllExpanded(m, Positions(closed), open, closed)
  }

  /** The invariant while the last closed entry's first `n` neighbours have been handled. */
  ghost predicate ExpandingInv(m: Grid, s: Coord, t: Coord, open: seq<Entry>, closed: seq<Entry>, n: nat)
  {
    |closed| > 0 && Settled(m, s, t, open, closed) &&
    AllExpanded(m, Positions(closed), open, closed[..|closed| - 1]) &&
    Expanded(m, Positions(closed), open, closed[|closed| - 1], n)
  }

  /** The search starts with only the start node queued and nothing closed. */
  lemma InitInv(m: Grid, s: Coord, t: Coord)
    ensures SearchInv(m, s, t, [StartEntry(s, t)], [])
  {
    assert PathTo(m, s, s, [s]);
    assert [StartEntry(s, t)][0].pos == s;
  }

  lemma FirstOutside(p: seq<Coord>, S: set<Coord>) returns (j: nat)
    requires |p| > 0 && p[|p| - 1] !in S
    ensures j < |p| && p[j] !in S
    ensures forall i :: 0 <= i < j ==> p[i] in S
  {
    j := 0;
    while p[j] in S
      invariant j < |p|
      invariant forall i :: 0 <= i < j ==> p[i] in S
      decreases |p| - j
    {
      j := j + 1;
    }
  }

  /** A cell entered from a closed cell is closed, or queued at a cost no higher than its
      position on the walk. */
  lemma CoverStep(m: Grid, s: Coord, open: seq<Entry>, closed: seq<Entry>, p: seq<Coord>, j: nat)
    returns (w: nat)
    requires AllExpanded(m, Positions(closed), open, closed) && ClosedShortest(m, s, closed)
    requires IsWalk(m, s, p) && 0 < j < |p| && p[j] !in Positions(closed) && p[j - 1] in Positions(closed)
    ensures w < |open| && open[w].pos == p[j] && open[w].g <= j
  {
    var S := Positions(closed);
    var k :| 0 <= k < |closed| && closed[k].pos == p[j - 1] && Shortest(m, s, closed[k]);
    WalkPrefix(m, s, p, j);
    assert closed[k].g < j;
    var N := Neighbours(m, p[j - 1]);
    NeighboursExact(m, p[j - 1], p[j]);
    var q :| 0 <= q < |N| && N[q] == p[j];
    assert FullyExpanded(m, S, open, closed[k]);
    assert Covered(S, open, N[q], closed[k].g + 1);
    w :| 0 <= w < |open| && open[w].pos == p[j] && open[w].g <= closed[k].g + 1;
  }

  /** The first cell of a walk outside the closed cells is queued at a cost no higher than its
      position on the walk. */
  lemma CoverWitness(m: Grid, s: Coord, t: Coord, open: seq<Entry>, closed: seq<Entry>,
                     p: seq<Coord>, j: nat) returns (w: nat)
    requires SearchInv(m, s, t, open, closed)
    requires IsWalk(m, s, p) && j < |p| && p[j] !in Positions(closed)
    requires forall i :: 0 <= i < j ==> p[i] in Positions(closed)
    ensures w < |open| && open[w].pos == p[j] && open[w].g <= j
  {
    if j == 0 {
      w :| 0 <= w < |open| && open[w].pos == s && open[w].g <= 0;
    } else {
      w := CoverStep(m, s, open, closed, p, j);
    }
  }

  /** The heart of A* with a consistent heuristic: an entry of minimal `f` whose cell is not yet
      closed carries the shortest distance to its cell. */
  lemma PopIsShortest(m: Grid, s: Coord, t: Coord, open: seq<Entry>, closed: seq<Entry>, i: nat)
    requires SearchInv(m, s, t, open, closed)
    requires IsMin(open, i) && open[i].pos !in Positions(closed)
    ensures Shortest(m, s, open[i])
  {
    var e := open[i];
    forall p | PathTo(m, s, e.pos, p) ensures e.g < |p| {
      var j := FirstOutside(p, Positions(closed));
      var w := CoverWitness(m, s, t, open, closed, p, j);
      WalkManhattan(m, s, p, j, |p| - 1);
      ManhattanTriangle(p[j], e.pos, t);
      assert WellFormed(m, s, t, open[w]) && WellFormed(m, s, t, e);
      assert e.f <= open[w].f;
    }
  }

  /** When the goal is popped, its parent chain is a shortest walk from the start to the goal. */
  lemma GoalPopped(m: Grid, s: Coord, t: Coord, open: seq<Entry>, closed: seq<Entry>, i: nat)
    requires SearchInv(m, s, t, open, closed)
    requires IsMin(open, i) && open[i].pos == t
    ensures ShortestPath(m, s, t, open[i].path)
    ensures |open[i].path| == open[i].g + 1
  {
    PopIsShortest(m, s, t, open, closed, i);
    assert WellFormed(m, s, t, open[i]);
  }

  lemma CoveredAfterPop(S: set<Coord>, open: seq<Entry>, i: nat, c: Coord, b: nat)
    requires i < |open| && Covered(S, open, c, b)
    ensures Covered(S + {open[i].pos}, Remove(open, i), c, b)
  {
    if c !in S && c != open[i].pos {
      var j :| 0 <= j < |open| && open[j].pos == c && open[j].g <= b;
      var r := Remove(open, i);
      if j < i {
        assert r[j] == open[j];
      } else {
        assert r[j - 1] == open[j];
      }
    }
  }

  lemma CoveredAfterPush(S: set<Coord>, open: seq<Entry>, x: Entry, c: Coord, b: nat)
    requires Covered(S, open, c, b)
    ensures Covered(S, open + [x], c, b)
  {
    if c !in S {
      var j :| 0 <= j < |open| && open[j].pos == c && open[j].g <= b;
      assert (open + [x])[j] == open[j];
    }
  }

  lemma WellFormedRemove(m: Grid, s: Coord, t: Coord, es: seq<Entry>, i: nat)
    requires i < |es| && AllWellFormed(m, s, t, es)
    ensures AllWellFormed(m, s, t, Remove(es, i))
  {
    var r := Remove(es, i);
    forall k | 0 <= k < |r| ensures WellFormed(m, s, t, r[k]) {
      if k < i {
        assert r[k] == es[k];
      } else {
        assert r[k] == es[k + 1];
      }
    }
  }

  lemma WellFormedAppend(m: Grid, s: Coord, t: Coord, es: seq<Entry>, x: Entry)
    requires AllWellFormed(m, s, t, es) && WellFormed(m, s, t, x)
    ensures AllWellFormed(m, s, t, es + [x])
  {
    var r := es + [x];
    forall k | 0 <= k < |r| ensures WellFormed(m, s, t, r[k]) {
      if k < |es| {
        assert r[k] == es[k];
      }
    }
  }

  /** Closing an entry keeps every closed cell's first entry shortest, provided the entry is
      shortest whenever its cell is new. */
  lemma ShortestAfterClose(m: Grid, s: Coord, closed: seq<Entry>, e: Entry)
    requires ClosedShortest(m, s, closed)
    requires e.pos !in Positions(closed) ==> Shortest(m, s, e)
    ensures ClosedShortest(m, s, closed + [e])
  {
    var r := closed + [e];
    PositionsAppend(closed, e);
    forall c | c in Positions(r)
      ensures exists k :: 0 <= k < |r| && r[k].pos == c && Shortest(m, s, r[k])
    {
      if c in Positions(closed) {
        var k :| 0 <= k < |closed| && closed[k].pos == c && Shortest(m, s, closed[k]);
        assert r[k] == closed[k];
      } else {
        assert r[|closed|] == e;
      }
    }
  }

  /** Popping an entry and closing its cell keeps every expanded entry's neighbours covered. */
  lemma ExpandedAfterPop(m: Grid, S: set<Coord>, open: seq<Entry>, i: nat, es: seq<Entry>)
    requires i < |open| && AllExpanded(m, S, open, es)
    ensures AllExpanded(m, S + {open[i].pos}, Remove(open, i), es)
  {
    forall k | 0 <= k < |es| ensures FullyExpanded(m, S + {open[i].pos}, Remove(open, i), es[k]) {
      var N := Neighbours(m, es[k].pos);
      assert FullyExpanded(m, S, open, es[k]);
      forall q | 0 <= q < |N| ensures Covered(S + {open[i].pos}, Remove(open, i), N[q], es[k].g + 1) {
        CoveredAfterPop(S, open, i, N[q], es[k].g + 1);
      }
    }
  }

  /** Popping an entry of minimal `f` other than the goal and closing its cell keeps the
      entries well formed, the goal open, the closed cells shortest and the start covered. */
  lemma PopSettled(m: Grid, s: Coord, t: Coord, open: seq<Entry>, closed: seq<Entry>, i: nat)
    requires SearchInv(m, s, t, open, closed)
    requires IsMin(open, i) && open[i].pos != t
    ensures Settled(m, s, t, Remove(open, i), closed + [open[i]])
  {
    var e := open[i];
    PositionsAppend(closed, e);
    WellFormedRemove(m, s, t, open, i);
    WellFormedAppend(m, s, t, closed, e);
    if e.pos !in Positions(closed) {
      PopIsShortest(m, s, t, open, closed, i);
    }
    ShortestAfterClose(m, s, closed, e);
    CoveredAfterPop(Positions(closed), open, i, s, 0);
  }

  /** Popping a non-goal entry of minimal `f` and closing its cell keeps the invariant, with
      none of its neighbours handled yet. */
  lemma PopKeepsInv(m: Grid, s: Coord, t: Coord, open: seq<Entry>, closed: seq<Entry>, i: nat)
    requires SearchInv(m, s, t, open, closed)
    requires IsMin(open, i) && open[i].pos != t
    ensures ExpandingInv(m, s, t, Remove(open, i), closed + [open[i]], 0)
  {
    var closed' := closed + [open[i]];
    PopSettled(m, s, t, open, closed, i);
    PositionsAppend(closed, open[i]);
    ExpandedAfterPop(m, Positions(closed), open, i, closed);
    assert closed'[..|closed'| - 1] == closed;
  }

  /** A neighbour that is already closed is skipped without breaking the invariant. */
  lemma SkipClosed(m: Grid, s: Coord, t: Coord, open: seq<Entry>, closed: seq<Entry>, n: nat)
    requires ExpandingInv(m, s, t, open, closed, n)
    requires n < |Neighbours(m, closed[|closed| - 1].pos)|
    requires Neighbours(m, closed[|closed| - 1].pos)[n] in Positions(closed)
    ensures ExpandingInv(m, s, t, open, closed, n + 1)
  {
  }

  lemma SettledAfterPush(m: Grid, s: Coord, t: Coord, open: seq<Entry>, closed: seq<Entry>, x: Entry)
    requires Settled(m, s, t, open, closed) && WellFormed(m, s, t, x)
    ensures Settled(m, s, t, open + [x], closed)
  {
    WellFormedAppend(m, s, t, open, x);
    CoveredAfterPush(Positions(closed), open, x, s, 0);
  }

  lemma ExpandedAfterPush(m: Grid, S: set<Coord>, open: seq<Entry>, e: Entry, n: nat, x: Entry)
    requires Expanded(m, S, open, e, n)
    ensures Expanded(m, S, open + [x], e, n)
  {
    var N := Neighbours(m, e.pos);
    forall q | 0 <= q < n ensures Covered(S, open + [x], N[q], e.g + 1) {
      CoveredAfterPush(S, open, x, N[q], e.g + 1);
    }
  }

  lemma AllExpandedAfterPush(m: Grid, S: set<Coord>, open: seq<Entry>, es: seq<Entry>, x: Entry)
    requires AllExpanded(m, S, open, es)
    ensures AllExpanded(m, S, open + [x], es)
  {
    forall k | 0 <= k < |es| ensures FullyExpanded(m, S, open + [x], es[k]) {
      assert FullyExpanded(m, S, open, es[k]);
      ExpandedAfterPush(m, S, open, es[k], |Neighbours(m, es[k].pos)|, x);
    }
  }

  /** Queueing the relaxed child for the next neighbour keeps the invariant. */
  lemma PushChild(m: Grid, s: Coord, t: Coord, open: seq<Entry>, closed: seq<Entry>, n: nat)
    requires ExpandingInv(m, s, t, open, closed, n)
    requires n < |Neighbours(m, closed[|closed| - 1].pos)|
    ensures ExpandingInv(m, s, t,
      open + [Child(closed[|closed| - 1], Neighbours(m, closed[|closed| - 1].pos)[n], t)], closed, n + 1)
  {
    var e := closed[|closed| - 1];
    var N := Neighbours(m, e.pos);
    var c := N[n];
    var x := Child(e, c, t);
    var open' := open + [x];
    var S := Positions(closed);
    assert WellFormed(m, s, t, e);
    WalkExtend(m, s, e.path, c);
    assert WellFormed(m, s, t, x);
    SettledAfterPush(m, s, t, open, closed, x);
    AllExpandedAfterPush(m, S, open, closed[..|closed| - 1], x);
    ExpandedAfterPush(m, S, open, e, n, x);
    assert open'[|open|] == x;
    ExpandedStep(m, S, open', e, n);
  }

  lemma ExpandedStep(m: Grid, S: set<Coord>, open: seq<Entry>, e: Entry, n: nat)
    requires Expanded(m, S, open, e, n) && n < |Neighbours(m, e.pos)|
    requires exists j :: 0 <= j < |open| && open[j].pos == Neighbours(m, e.pos)[n] && open[j].g <= e.g + 1
    ensures Expanded(m, S, open, e, n + 1)
  {
  }

  /** The open list after the `n`-th neighbour of the last closed entry is handled: unchanged
      when that neighbour's cell is closed, otherwise with the neighbour queued as a child. */
  function AfterVisit(m: Grid, t: Coord, open: seq<Entry>, closed: seq<Entry>, n: nat): (r: seq<Entry>)
    requires |closed| > 0 && n < |Neighbours(m, closed[|closed| - 1].pos)|
    ensures |open| <= |r| <= |open| + 1 && r[..|open|] == open
  {
    var e := closed[|closed| - 1];
    var c := Neighbours(m, e.pos)[n];
    if c in Positions(closed) then open else open + [Child(e, c, t)]
  }

  /** The children of `e` at those of `cells` outside `S`, in the order of `cells`: what the
      expansion of `e` queues when `S` are the closed cells. */
  function Queued(e: Entry, cells: seq<Coord>, S: set<Coord>, t: Coord): (r: seq<Entry>)
    ensures |r| <= |cells|
  {
    if cells == [] then []
    else
      var c := cells[|cells| - 1];
      Queued(e, cells[..|cells| - 1], S, t) + (if c in S then [] else [Child(e, c, t)])
  }

  /** Handling the `n`-th neighbour extends what the first `n` queued by that neighbour's child. */
  lemma AfterVisitQueues(m: Grid, t: Coord, open: seq<Entry>, closed: seq<Entry>, n: nat)
    requires |closed| > 0 && n < |Neighbours(m, closed[|closed| - 1].pos)|
    ensures var e := closed[|closed| - 1]; var N := Neighbours(m, e.pos);
      AfterVisit(m, t, open + Queued(e, N[..n], Positions(closed), t), closed, n) ==
        open + Queued(e, N[..n + 1], Positions(closed), t)
  {
    var e := closed[|closed| - 1];
    var N := Neighbours(m, e.pos);
    assert N[..n + 1][..n] == N[..n];
  }

  /** Everything queued is a child of `e` at one of `cells`, and no cell of `S` is queued. */
  lemma {:induction false} QueuedOnlyOpen(e: Entry, cells: seq<Coord>, S: set<Coord>, t: Coord)
    ensures forall k :: 0 <= k < |Queued(e, cells, S, t)| ==>
      Queued(e, cells, S, t)[k].pos in cells && Queued(e, cells, S, t)[k].pos !in S &&
      Queued(e, cells, S, t)[k] == Child(e, Queued(e, cells, S, t)[k].pos, t)
  {
    if cells != [] {
      var init := cells[..|cells| - 1];
      var p, r := Queued(e, init, S, t), Queued(e, cells, S, t);
      QueuedOnlyOpen(e, init, S, t);
      var c := cells[|cells| - 1];
      assert r == p + (if c in S then [] else [Child(e, c, t)]);
      forall k | 0 <= k < |r| ensures r[k].pos in cells && r[k].pos !in S && r[k] == Child(e, r[k].pos, t) {
        if k < |p| {
          assert r[k] == p[k];
          assert p[k].pos in init && p[k].pos !in S && p[k] == Child(e, p[k].pos, t);
          var i :| 0 <= i < |init| && init[i] == p[k].pos;
          assert cells[i] == init[i];
        }
      }
    }
  }

  /** Every one of `cells` outside `S` is queued. */
  lemma {:induction false} QueuedEveryOpen(e: Entry, cells: seq<Coord>, S: set<Coord>, t: Coord)
    ensures forall c :: c in cells && c !in S ==> c in Positions(Queued(e, cells, S, t))
  {
    if cells != [] {
      var init, last := cells[..|cells| - 1], cells[|cells| - 1];
      var p := Queued(e, init, S, t);
      QueuedEveryOpen(e, init, S, t);
      var r := Queued(e, cells, S, t);
      if last !in S {
        assert r == p + [Child(e, last, t)];
        PositionsAppend(p, Child(e, last, t));
      } else {
        assert r == p;
      }
      assert Positions(p) <= Positions(r);
      forall c | c in cells && c !in S ensures c in Positions(r) {
        if c != last {
          var i :| 0 <= i < |cells| && cells[i] == c;
          assert c == init[i];
        }
      }
    }
  }

  /** When `cells` has no repeats, no cell is queued twice. */
  lemma {:induction false} QueuedOnce(e: Entry, cells: seq<Coord>, S: set<Coord>, t: Coord)
    requires forall i, j :: 0 <= i < j < |cells| ==> cells[i] != cells[j]
    ensures forall i, j :: 0 <= i < j < |Queued(e, cells, S, t)| ==>
      Queued(e, cells, S, t)[i].pos != Queued(e, cells, S, t)[j].pos
  {
    if cells != [] {
      var init := cells[..|cells| - 1];
      var p, r := Queued(e, init, S, t), Queued(e, cells, S, t);
      QueuedOnce(e, init, S, t);
      QueuedOnlyOpen(e, init, S, t);
      forall i, j | 0 <= i < j < |r| ensures r[i].pos != r[j].pos {
        assert r[i] == p[i];
        if j == |p| {
          var c := cells[|cells| - 1];
          assert r == p + [Child(e, c, t)];
          assert p[i].pos in init;
          var q :| 0 <= q < |init| && init[q] == p[i].pos;
          assert cells[q] == init[q];
        } else {
          assert r[j] == p[j];
        }
      }
    }
  }

  /** What expanding `e` queues when `S` are the closed cells. */
  function Expansion(m: Grid, t: Coord, e: Entry, S: set<Coord>): seq<Entry>
  {
    Queued(e, Neighbours(m, e.pos), S, t)
  }

  /** Expanding an entry queues each of its neighbours that is not closed exactly once, as a
      child one step dearer than the entry, and queues no closed cell. */
  lemma ExpansionQueues(m: Grid, t: Coord, e: Entry, S: set<Coord>)
    ensures forall k :: 0 <= k < |Expansion(m, t, e, S)| ==>
      Expansion(m, t, e, S)[k].pos !in S && Free(m, Expansion(m, t, e, S)[k].pos) &&
      Adjacent(e.pos, Expansion(m, t, e, S)[k].pos) &&
      Expansion(m, t, e, S)[k] == Child(e, Expansion(m, t, e, S)[k].pos, t)
    ensures forall c :: Free(m, c) && Adjacent(e.pos, c) && c !in S ==> c in Positions(Expansion(m, t, e, S))
    ensures forall i, j :: 0 <= i < j < |Expansion(m, t, e, S)| ==>
      Expansion(m, t, e, S)[i].pos != Expansion(m, t, e, S)[j].pos
  {
    var N := Neighbours(m, e.pos);
    var r := Expansion(m, t, e, S);
    QueuedOnlyOpen(e, N, S, t);
    QueuedEveryOpen(e, N, S, t);
    NeighboursDistinct(m, e.pos);
    QueuedOnce(e, N, S, t);
    forall k | 0 <= k < |r| ensures Free(m, r[k].pos) && Adjacent(e.pos, r[k].pos) {
      NeighboursExact(m, e.pos, r[k].pos);
    }
    forall c | Free(m, c) && Adjacent(e.pos, c) && c !in S ensures c in Positions(r) {
      NeighboursExact(m, e.pos, c);
    }
  }

  /** Handling one more neighbour keeps the invariant and adds at most 1 to the weight. */
  lemma VisitKeepsInv(m: Grid, s: Coord, t: Coord, open: seq<Entry>, closed: seq<Entry>, n: nat)
    requires ExpandingInv(m, s, t, open, closed, n)
    requires n < |Neighbours(m, closed[|closed| - 1].pos)|
    ensures ExpandingInv(m, s, t, AfterVisit(m, t, open, closed, n), closed, n + 1)
    ensures Weight(AfterVisit(m, t, open, closed, n), Positions(closed)) <= Weight(open, Positions(closed)) + 1
  {
    var e := closed[|closed| - 1];
    var c := Neighbours(m, e.pos)[n];
    if c in Positions(closed) {
      SkipClosed(m, s, t, open, closed, n);
    } else {
      PushChild(m, s, t, open, closed, n);
      WeightPush(open, Child(e, c, t), Positions(closed));
    }
  }

  /** Once every neighbour of the last closed entry is handled, the loop invariant holds again. */
  lemma ExpandingDone(m: Grid, s: Coord, t: Coord, open: seq<Entry>, closed: seq<Entry>)
    requires |closed| > 0
    requires ExpandingInv(m, s, t, open, closed, |Neighbours(m, closed[|closed| - 1].pos)|)
    ensures SearchInv(m, s, t, open, closed)
  {
    var S := Positions(closed);
    var init := closed[..|closed| - 1];
    forall k | 0 <= k < |closed| ensures FullyExpanded(m, S, open, closed[k]) {
      if k < |closed| - 1 {
        assert closed[k] == init[k];
        assert FullyExpanded(m, S, open, init[k]);
      }
    }
  }

  /** With nothing queued, a walk from a closed start never leaves the closed cells. */
  lemma {:induction false} WalkStaysClosed(m: Grid, s: Coord, closed: seq<Entry>, p: seq<Coord>, i: nat)
    requires AllExpanded(m, Positions(closed), [], closed) && s in Positions(closed)
    requires IsWalk(m, s, p) && i < |p|
    ensures p[i] in Positions(closed)
  {
    if i > 0 {
      WalkStaysClosed(m, s, closed, p, i - 1);
      var k :| 0 <= k < |closed| && closed[k].pos == p[i - 1];
      var N := Neighbours(m, p[i - 1]);
      NeighboursExact(m, p[i - 1], p[i]);
      var q :| 0 <= q < |N| && N[q] == p[i];
      assert FullyExpanded(m, Positions(closed), [], closed[k]);
      assert Covered(Positions(closed), [], N[q], closed[k].g + 1);
    }
  }

  /** With nothing left to pop, the closed cells contain every cell reachable from the start,
      and the goal is not among them: the goal is unreachable. */
  lemma Exhausted(m: Grid, s: Coord, t: Coord, closed: seq<Entry>)
    requires SearchInv(m, s, t, [], closed)
    ensures !Reachable(m, s, t)
  {
    forall p | IsWalk(m, s, p) ensures p[|p| - 1] in Positions(closed) {
      WalkStaysClosed(m, s, closed, p, |p| - 1);
    }
  }

  /** The cells an entry can name: the board's cells and the start. */
  ghost function Universe(m: Grid, s: Coord): set<Coord>
  {
    (set i, j | 0 <= i < |m| && 0 <= j < |m[0]| :: (i, j)) + {s}
  }

  lemma EntryInUniverse(m: Grid, s: Coord, t: Coord, e: Entry)
    requires WellFormed(m, s, t, e)
    ensures e.pos in Universe(m, s)
  {
    if |e.path| > 1 {
      assert Free(m, e.path[|e.path| - 1]);
      assert e.pos == (e.pos.0, e.pos.1);
    }
  }

  /** Termination measure of the open list: an entry whose cell is already closed weighs 5,
      since popping it re-expands the cell and queues at most 4 entries; any other weighs 1. */
  function Weight(es: seq<Entry>, S: set<Coord>): nat
  {
    if es == [] then 0 else EntryWeight(es[0], S) + Weight(es[1..], S)
  }

  function EntryWeight(e: Entry, S: set<Coord>): nat
  {
    if e.pos in S then 5 else 1
  }

  lemma {:induction false} WeightConcat(a: seq<Entry>, b: seq<Entry>, S: set<Coord>)
    ensures Weight(a + b, S) == Weight(a, S) + Weight(b, S)
  {
    if a != [] {
      WeightConcat(a[1..], b, S);
      assert (a + b)[1..] == a[1..] + b;
    } else {
      assert a + b == b;
    }
  }

  lemma WeightRemove(es: seq<Entry>, i: nat, S: set<Coord>)
    requires i < |es|
    ensures Weight(Remove(es, i), S) + EntryWeight(es[i], S) == Weight(es, S)
  {
    assert es == es[..i] + ([es[i]] + es[i + 1..]);
    WeightConcat(es[..i], [es[i]] + es[i + 1..], S);
    WeightConcat([es[i]], es[i + 1..], S);
    WeightConcat(es[..i], es[i + 1..], S);
  }

  lemma WeightPush(es: seq<Entry>, x: Entry, S: set<Coord>)
    ensures Weight(es + [x], S) == Weight(es, S) + EntryWeight(x, S)
  {
    WeightConcat(es, [x], S);
  }

  /** One turn of the search loop makes progress: closing a new cell shrinks the set of cells
      not yet closed; re-closing a cell removes an entry of weight 5 and queues at most 4 of
      weight 1 each. */
  lemma Progress(m: Grid, s: Coord, t: Coord, open: seq<Entry>, closed: seq<Entry>, i: nat,
                 final: seq<Entry>)
    requires i < |open| && WellFormed(m, s, t, open[i])
    requires Weight(final, Positions(closed + [open[i]])) <=
             Weight(Remove(open, i), Positions(closed + [open[i]])) + 4
    ensures |Universe(m, s) - Positions(closed + [open[i]])| < |Universe(m, s) - Positions(closed)| ||
            (|Universe(m, s) - Positions(closed + [open[i]])| == |Universe(m, s) - Positions(closed)| &&
             Weight(final, Positions(closed + [open[i]])) < Weight(open, Positions(closed)))
  {
    var e := open[i];
    var S := Positions(closed);
    PositionsAppend(closed, e);
    WeightRemove(open, i, S);
    if e.pos !in S {
      EntryInUniverse(m, s, t, e);
      assert Universe(m, s) - S == (Universe(m, s) - (S + {e.pos})) + {e.pos};
    } else {
      assert S + {e.pos} == S;
    }
  }
}
