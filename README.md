# MapMaster path search, modelled and verified in Dafny

MapMaster finds a route across a rectangular board. Cells holding `1` are obstacles. A route
moves up, down, left or right. The core is an A* search in `MapMaster.py`:

- `Nodo` objects carry a cell, the costs `g`, `h` and `f`, and a parent pointer.
- `encontrar_ruta` keeps an open heap ordered by `f` and a closed list. It pops a node, stops when
  the node is the goal, and otherwise relaxes the node's neighbours and pushes them.
- `obtener_vecinos` builds fresh nodes for the in-bounds, non-obstacle cells one move away.
- `calcular_f` is the Manhattan-distance heuristic.
- `construir_camino` follows parent pointers and reverses the collected cells.

The model has four modules, one per file:

- `Grids` (`grids.dfy`): the board, the heuristic (`Manhattan`), the neighbour cells in the
  source's direction order (`Neighbours`), and walks. `ShortestPath` means no walk from start to
  goal has fewer cells.
- `Nodes` (`nodes.dfy`): `Nodo` becomes `class Node`. Its `g`, `h`, `f` and `parent` are
  mutable fields, and infinity is the `Inf` constructor of `Cost`. Each node has two ghost
  fields. `Path` holds the cells of its parent chain, root first. `Repr` holds the chain's nodes.
  `Linked()` says the chain is finite and acyclic. `BuildPath` is `construir_camino`: a loop over
  parent pointers that is proved to return `Path`.
- `Search` (`search.dfy`): the imperative search.
  - `FindPath` is `encontrar_ruta`, and `NeighbourNodes` is `obtener_vecinos`.
  - `Relax` is the update at lines 71-75.
  - `PopMin` is the heap pop. It may take any node that no other queued node precedes in the
    `__lt__` order.
  - The body of the `for vecino in vecinos` loop is the method `VisitNeighbour`. The loop itself
    is `ExpandNeighbours`.
- `SearchProof` (`search_proof.dfy`): the correctness argument, stated on values.
  - Each node in the open and closed lists has a ghost `Entry` mirror holding its cell, `g`,
    `f` and chain.
  - `SearchInv` is the loop invariant:
    - every entry's chain is a walk with `g + 1` cells, and `f = g + h`;
    - the goal was never closed;
    - every closed cell was first closed at its shortest distance;
    - every neighbour of a closed entry is closed, or queued at cost at most one more;
    - the start is closed or queued at cost 0.
  - `PopIsShortest` is the central A* step: an entry of minimal `f` whose cell is not yet closed
    is shortest, because the Manhattan heuristic is consistent.
  - From the invariant, `FindPath` proves three things:
    - a returned walk is a shortest walk from start to goal;
    - `None` is returned only when the goal is unreachable;
    - the loop terminates, even though cells are re-expanded when they are queued twice.

## Model

| member | source | states |
|---|---|---|
| Grids.Manhattan | MapMaster.py:95-96 | the heuristic is `abs(dx) + abs(dy)`, never negative, and 0 exactly when the two cells coincide |
| Grids.ManhattanTriangle | MapMaster.py:95-96 | the heuristic obeys the triangle inequality, so it is consistent for unit moves |
| Grids.ManhattanAdmissible | MapMaster.py:95-96 | every walk from a to b has more than Manhattan(a, b) cells: the heuristic never overestimates |
| Grids.Neighbours | MapMaster.py:81-93 | at most 4 neighbour cells; each is in bounds, not an obstacle, and one move from the node |
| Grids.NeighboursExact | MapMaster.py:85-91 | a cell is produced exactly when it is one move away, inside the board and not holding 1 |
| Grids.NeighboursInDirectionOrder | MapMaster.py:83-85 | neighbours come in the order up, down, left, right, each direction at most once |
| Grids.ShortestToSelf | MapMaster.py:59-60 | when start and goal coincide, the only shortest walk is the one-cell walk `[start]` |
| Grids.ReachedCellIsFree | MapMaster.py:88-89 | every cell a walk reaches, other than its start, is inside the board and not an obstacle |
| Nodes.Cost.Less | MapMaster.py:12-13 | `<` on costs with infinity: finite costs compare as numbers, every finite cost is below infinity, and infinity is below nothing |
| Nodes.Cost.Plus | MapMaster.py:69 | adding 1 to a finite cost adds 1 to its value; infinity stays infinity |
| Nodes.LessIsStrictTotalOrder | MapMaster.py:12-13 | the cost order is irreflexive, asymmetric, transitive and total, so `__lt__` is a strict weak order on nodes |
| Nodes.Node.constructor | MapMaster.py:4-10 | a new node has the given cell, `g = inf`, `h = 0`, `f = inf`, no parent, and a one-node chain |
| Nodes.Node.Lt | MapMaster.py:12-13 | `a < b` compares `f` only: finite values compare as numbers, a node with infinite `f` precedes nothing, and any finite `f` precedes an infinite one |
| Nodes.Node.Eq | MapMaster.py:15-16 | nodes are equal exactly when their cells are, i.e. when their heuristic distance is 0 |
| Nodes.Node.ChainShape | MapMaster.py:98-106 | a linked chain has one cell per node, starts at its parentless root's cell and ends at the node's own cell |
| Nodes.Contains | MapMaster.py:66 | `in` on a node list holds exactly when some node in the list has the same cell |
| Nodes.BuildPath | MapMaster.py:98-106 | the returned cells are the parent chain in root-first order: as long as the chain, first the root's cell, last the final node's cell |
| Search.NeighbourNodes | MapMaster.py:81-93 | returns one fresh, distinct node per neighbour cell, in the same order, each with `g = inf`, `h = 0`, `f = inf` and no parent |
| Search.Relax | MapMaster.py:69-75 | the neighbour changes exactly when `g + 1` beats its `g`; it then takes the current node as parent, `g + 1` as `g`, its Manhattan distance to the goal as `h`, and `g + h` as `f` |
| Search.ContainsClosed | MapMaster.py:66 | a neighbour is `in` the closed list exactly when its cell is a closed cell |
| Search.VisitNeighbour | MapMaster.py:65-77 | a neighbour whose cell is closed is skipped; any other is relaxed and pushed, since a fresh node's `g` is infinite |
| Search.ExpandNeighbours | MapMaster.py:64-77 | after all neighbours are visited, the old open list is an untouched prefix of the new one, and the entries added are exactly `Expansion` of the closed node: its children at its non-closed neighbours, in neighbour order. The search invariant holds again, and the termination weight grew by at most 4 |
| Search.PopMin | MapMaster.py:57 | removes and returns a node that no queued node precedes by `__lt__`; its mirror has minimal `f` |
| Search.FindPath | MapMaster.py:42-79 | terminates. A returned route is a shortest walk from start to goal; `None` means the goal is unreachable. Start = goal gives `[start]`. A blocked or out-of-bounds goal other than the start gives `None` |
| SearchProof.MinIndex | MapMaster.py:57 | a non-empty open list has an entry of minimal `f`, so the heap always has something to pop |
| SearchProof.InitInv | MapMaster.py:49-54 | after the start is pushed with `g = 0` and `f = Manhattan(start, goal)`, with `h` left at 0, the search invariant holds |
| SearchProof.CoverWitness | MapMaster.py:56-77 | on any walk from the start, the first cell not yet closed is queued at a cost no greater than its position on the walk |
| SearchProof.PopIsShortest | MapMaster.py:56-62 | an entry of minimal `f` whose cell is not yet closed has the shortest distance to its cell |
| SearchProof.GoalPopped | MapMaster.py:57-60 | when the popped node is the goal, its parent chain is a shortest walk, with `g + 1` cells |
| SearchProof.PopSettled | MapMaster.py:57-62 | closing a popped non-goal entry keeps chains well formed, the goal open, closed cells shortest and the start covered |
| SearchProof.PopKeepsInv | MapMaster.py:57-62 | after a non-goal pop and its append to the closed list, the invariant holds with no neighbour handled yet |
| SearchProof.SkipClosed | MapMaster.py:66-67 | skipping a neighbour whose cell is closed keeps the invariant |
| SearchProof.PushChild | MapMaster.py:69-77 | pushing a relaxed neighbour with `g = parent.g + 1`, `f = g + h` and the parent's chain extended keeps the invariant |
| SearchProof.AfterVisit | MapMaster.py:65-77 | visiting one neighbour leaves the open list unchanged or adds exactly one entry at its end |
| SearchProof.AfterVisitQueues | MapMaster.py:64-77 | visiting the next neighbour extends what the earlier neighbours queued by that neighbour's child, exactly when its cell is not closed |
| SearchProof.QueuedOnlyOpen | MapMaster.py:66-77 | every queued entry is a child of the expanded entry at one of the listed cells, one step dearer, and never at a closed cell |
| SearchProof.QueuedEveryOpen | MapMaster.py:66-77 | every listed cell that is not closed is queued |
| SearchProof.QueuedOnce | MapMaster.py:64-77 | when the listed cells have no repeats, no cell is queued twice |
| SearchProof.ExpansionQueues | MapMaster.py:64-77 | expanding an entry queues each free cell one move away that is not closed, exactly once, as a child one step dearer, and queues nothing else: no closed cell, no cell off the board or blocked |
| Grids.NeighboursDistinct | MapMaster.py:83-91 | no cell appears twice among a cell's neighbours |
| SearchProof.VisitKeepsInv | MapMaster.py:65-77 | handling one more neighbour keeps the invariant and adds at most 1 to the termination weight |
| SearchProof.ExpandingDone | MapMaster.py:64-77 | once all neighbours of the closed node are handled, the loop invariant holds again |
| SearchProof.Exhausted | MapMaster.py:56-79 | when the open list runs empty, the goal cannot be reached from the start |
| SearchProof.Progress | MapMaster.py:56-77 | every loop turn closes a new cell, or lowers the open list's weight while the closed cells stay the same |

## Left out

- `obtener_coordenadas`, `agregar_obstaculo`, `imprimir_tablero_con_ruta` and the `__main__` block: these are console I/O and printing, and are not part of this model.
- `heapq`: the open list is a sequence. A pop may take any node of minimal `f`. Python's sift order, and so its tie-breaking, is not modelled.
- `float('inf')`: modelled as the `Inf` constructor of `Cost`, not as floating point. Costs are unbounded naturals, like Python integers.
- Nodes.Node.constructor: only the all-defaults form is modelled, because the source never passes `g`, `h`, `f` or `parent`.
- The board is a non-empty rectangular matrix, enforced by the `Grid` type. The source indexes `mapa[0]` and uses its length for every row, so an empty or ragged board is out of scope.
- Start and goal cells are not validated, as in the source. The search never reads the start cell, so an out-of-bounds or blocked start just starts the walk. No precondition is placed on start or goal.
- Search.NeighbourNodes: requires `rows` and `cols` to be the board's dimensions, which is how the search calls it.
- Search.Relax: requires the neighbour to be outside the current node's parent chain. In the search, every relaxed node is fresh. Relaxing a node into its own ancestry would make the chain walk loop forever; that case is not modelled.
- Nodes.BuildPath: requires a finite, acyclic parent chain (`Linked`). On a cyclic chain the source loops forever.
- Search.VisitNeighbour: requires the neighbour to be fresh (`g = inf`). That is the only case the search produces, so the relaxation test always succeeds there. A non-improving relaxation is modelled by `Relax` but never reached by the search.
- Search.FindPath: does not separately state that the closed list only grows. The loop changes the closed list only by appending.
- Ghost fields (`Path`, `Repr`) and the `Entry` mirrors exist only for the proof. The source has no counterpart for them.
