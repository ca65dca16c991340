/** The classic ghost strategy: breadth-first search over the 4-connected
    non-wall cells, the first step of the path it finds, and a per-ghost
    Scatter/Chase state machine aimed at four inset corners. */
module Classic {
  import opened Grid
  import opened Engine

  /** The search's own bounds test, on a row and a column count. */
  predicate IsWithinBounds(p: Position, rows: int, cols: int) {
    p.y >= 0 && p.y < rows && p.x >= 0 && p.x < cols
  }

  /** On a board's own dimensions the search's bounds test is the board's,
      so the cells the search may enter are exactly the engine's valid moves. */
  lemma WithinBoundsIsInBounds(b: Board, p: Position)
    requires b.Valid()
    ensures IsWithinBounds(p, b.Height(), b.width) <==> b.InBounds(p)
    ensures Keep(b, p) == (if IsValidMove(b, p) then [p] else [])
  {
  }

  /** The order in which the search explores neighbours. */
  const Directions: seq<Direction> := [Left, Right, Up, Down]

  /** Position of the cell `q` next to `p` in the exploration order. */
  function NeighborRank(p: Position, q: Position): nat {
    if q.x < p.x then 0 else if q.x > p.x then 1 else if q.y < p.y then 2 else 3
  }

  /** `[q]` when the search may enter `q`, else nothing. */
  function Keep(b: Board, q: Position): seq<Position>
    requires b.Valid()
  {
    if IsWithinBounds(q, b.Height(), b.width) && b.At(q) != Wall then [q] else []
  }

  /** The steps from `p` along `ds` that land in bounds and off walls, in order. */
  function NeighborsAlong(b: Board, p: Position, ds: seq<Direction>): seq<Position>
    requires b.Valid()
  {
    if ds == [] then [] else Keep(b, CalculateNewPosition(p, ds[0])) + NeighborsAlong(b, p, ds[1..])
  }

  lemma NeighborsUnrolled(b: Board, p: Position)
    requires b.Valid()
    ensures NeighborsAlong(b, p, Directions)
         == Keep(b, CalculateNewPosition(p, Left)) + Keep(b, CalculateNewPosition(p, Right))
          + Keep(b, CalculateNewPosition(p, Up)) + Keep(b, CalculateNewPosition(p, Down))
  {
    var ds := Directions;
    assert ds[1..] == [Right, Up, Down] && ds[1..][1..] == [Up, Down] && ds[1..][1..][1..] == [Down];
    assert NeighborsAlong(b, p, [Down]) == Keep(b, CalculateNewPosition(p, Down)) + NeighborsAlong(b, p, []);
    assert NeighborsAlong(b, p, [Up, Down]) == Keep(b, CalculateNewPosition(p, Up)) + NeighborsAlong(b, p, [Down]);
    assert NeighborsAlong(b, p, [Right, Up, Down]) == Keep(b, CalculateNewPosition(p, Right)) + NeighborsAlong(b, p, [Up, Down]);
  }

  lemma NeighborsMembers(b: Board, p: Position)
    requires b.Valid()
    ensures forall q :: q in NeighborsAlong(b, p, Directions) <==> Adjacent(p, q) && IsValidMove(b, q)
  {
    NeighborsUnrolled(b, p);
  }

  lemma NeighborsOrdered(b: Board, p: Position)
    requires b.Valid()
    ensures forall i, j :: 0 <= i < j < |NeighborsAlong(b, p, Directions)| ==>
      NeighborRank(p, NeighborsAlong(b, p, Directions)[i]) < NeighborRank(p, NeighborsAlong(b, p, Directions)[j])
  {
    NeighborsUnrolled(b, p);
    var ns := NeighborsAlong(b, p, Directions);
    forall i | 0 <= i < |ns|
      ensures NeighborRank(p, ns[i]) >= i
      ensures NeighborRank(p, ns[i]) + |ns| - i <= 4
    {
    }
    forall i, j | 0 <= i < j < |ns|
      ensures NeighborRank(p, ns[i]) < NeighborRank(p, ns[j])
    {
    }
  }

  /** The cells the search may step to from `p`: exactly the adjacent valid
      moves, listed Left, Right, Up, Down. */
  function GetNeighbors(b: Board, p: Position): (ns: seq<Position>)
    requires b.Valid()
    ensures forall q :: q in ns <==> Adjacent(p, q) && IsValidMove(b, q)
    ensures forall i, j :: 0 <= i < j < |ns| ==> NeighborRank(p, ns[i]) < NeighborRank(p, ns[j])
  {
    NeighborsMembers(b, p);
    NeighborsOrdered(b, p);
    NeighborsAlong(b, p, Directions)
  }

  // ------------------------------------------------------------------ paths

  /** Every consecutive pair of `path` is a search step. */
  predicate Walk(b: Board, path: seq<Position>)
    requires b.Valid()
  {
    forall i :: 0 <= i < |path| - 1 ==> path[i + 1] in GetNeighbors(b, path[i])
  }

  predicate IsPath(b: Board, path: seq<Position>, start: Position, target: Position)
    requires b.Valid()
  {
    |path| >= 1 && path[0] == start && path[|path| - 1] == target && Walk(b, path)
  }

  ghost predicate IsShortestPath(b: Board, path: seq<Position>, start: Position, target: Position)
    requires b.Valid()
  {
    IsPath(b, path, start, target) && forall q :: IsPath(b, q, start, target) ==> |path| <= |q|
  }

  ghost predicate Unreachable(b: Board, start: Position, target: Position)
    requires b.Valid()
  {
    forall q :: !IsPath(b, q, start, target)
  }

  // --------------------------------------------------------- search helpers

  /** Every search step out of `u` reaches a discovered cell at most one layer further. */
  ghost predicate Closed(b: Board, dist: map<Position, nat>, u: Position)
    requires b.Valid()
  {
    u in dist && forall w :: w in GetNeighbors(b, u) ==> w in dist && dist[w] <= dist[u] + 1
  }

  /** Parent pointers: every discovered cell but `start` has a parent one layer
      closer from which it is a search step. */
  ghost predicate ParentsOk(b: Board, start: Position, parent: map<Position, Position>, dist: map<Position, nat>)
    requires b.Valid()
  {
    && (forall v :: v in parent <==> v in dist && v != start)
    && forall v :: v in parent ==>
      parent[v] in dist && dist[v] == dist[parent[v]] + 1 && v in GetNeighbors(b, parent[v])
  }

  /** Discovering a new cell leaves every closed cell closed. */
  lemma ClosedAfterDiscovery(b: Board, dist: map<Position, nat>, n: Position, k: nat, u: Position)
    requires b.Valid() && n !in dist && Closed(b, dist, u)
    ensures Closed(b, dist[n := k], u)
  {
  }

  /** If every cell of a layer below `level` is closed, a walk of at most
      `level` steps from `start` ends on a discovered cell no deeper than its length. */
  lemma {:induction false} ReachedWithin(b: Board, start: Position, dist: map<Position, nat>, level: nat, path: seq<Position>)
    requires b.Valid()
    requires start in dist && dist[start] == 0
    requires forall u :: u in dist && dist[u] < level ==> Closed(b, dist, u)
    requires |path| >= 1 && path[0] == start && Walk(b, path)
    requires |path| - 1 <= level
    ensures path[|path| - 1] in dist && dist[path[|path| - 1]] <= |path| - 1
    decreases |path|
  {
    if |path| > 1 {
      var prefix := path[..|path| - 1];
      assert Walk(b, prefix) by {
        forall i | 0 <= i < |prefix| - 1
          ensures prefix[i + 1] in GetNeighbors(b, prefix[i])
        {
          assert prefix[i] == path[i] && prefix[i + 1] == path[i + 1];
        }
      }
      ReachedWithin(b, start, dist, level, prefix);
      assert path[|path| - 1] in GetNeighbors(b, path[|path| - 2]);
    }
  }

  lemma SubsetCardinality<T>(a: set<T>, c: set<T>)
    requires a <= c
    ensures |a| <= |c|
  {
    if a != {} {
      var x :| x in a;
      SubsetCardinality(a - {x}, c - {x});
    }
  }

  /** All in-bounds cells of a board. */
  function Cells(b: Board): set<Position> {
    set x, y | 0 <= x < b.width && 0 <= y < b.Height() :: Position(x, y)
  }

  // ------------------------------------------------------------------ search

  /** The facts the search keeps about its queue, its discovered cells and
      their parents; `level` is the layer of the cell last taken off the queue. */
  ghost predicate Frontier(b: Board, start: Position, target: Position, queue: seq<Position>,
                           visited: set<Position>, parent: map<Position, Position>,
                           dist: map<Position, nat>, level: nat)
    requires b.Valid()
  {
    && visited == dist.Keys
    && start in visited && dist[start] == 0
    && (forall i :: 0 <= i < |queue| ==> queue[i] in visited)
    && (forall i :: 0 <= i < |queue| ==> level <= dist[queue[i]] <= level + 1)
    && (forall i, j :: 0 <= i < j < |queue| ==> dist[queue[i]] <= dist[queue[j]])
    && (forall v :: v in visited ==> dist[v] <= level + 1)
    && ParentsOk(b, start, parent, dist)
    && (target in visited ==> target in queue)
  }

  /** Breadth-first search from `start` to `target`. The result is empty
      exactly when `target` cannot be reached; otherwise it is a shortest
      path from `start` to `target`. */
  method FindShortestPath(b: Board, start: Position, target: Position) returns (path: seq<Position>)
    requires b.Valid()
    ensures path != [] ==> IsShortestPath(b, path, start, target)
    ensures path == [] ==> Unreachable(b, start, target)
    ensures start == target ==> path == [start]
  {
    var queue := [start];
    var visited := {start};
    var parent: map<Position, Position> := map[];
    ghost var dist: map<Position, nat> := map[start := 0];
    ghost var level: nat := 0;
    ghost var universe := Cells(b) + {start};

    while |queue| > 0
      invariant Frontier(b, start, target, queue, visited, parent, dist, level)
      invariant visited <= universe
      invariant forall v :: v in visited && v !in queue ==> Closed(b, dist, v)
      decreases |universe| - |visited|, |queue|
    {
      SubsetCardinality(visited, universe);
      ghost var queue0 := queue;
      ghost var visited0 := visited;
      var current := queue[0];
      Dequeue(b, start, target, queue, visited, parent, dist, level);
      queue := queue[1..];
      level := dist[current];

      if current == target {
        path := ReconstructPath(b, start, target, parent, dist);
        FoundIsShortest(b, start, target, dist, path);
        return;
      }

      queue, visited, parent, dist := Expand(b, start, target, current, queue, visited, parent, dist, level, universe);
      if visited == visited0 {
        assert queue == queue0[1..];
      } else {
        var x :| x in visited && x !in visited0;
        SubsetCardinality(visited0, visited - {x});
        SubsetCardinality(visited, universe);
      }
    }
    path := [];
    ExhaustedIsUnreachable(b, start, target, dist);
  }

  /** Taking the head off the queue: every cell of a shallower layer is
      fully explored, and the search facts hold one layer on with the head as
      the only visited cell off the queue that may still be unexplored. */
  lemma Dequeue(b: Board, start: Position, target: Position, queue: seq<Position>,
                visited: set<Position>, parent: map<Position, Position>, dist: map<Position, nat>, level: nat)
    requires b.Valid() && |queue| > 0
    requires Frontier(b, start, target, queue, visited, parent, dist, level)
    requires forall v :: v in visited && v !in queue ==> Closed(b, dist, v)
    ensures queue[0] in visited
    ensures forall u :: u in dist && dist[u] < dist[queue[0]] ==> Closed(b, dist, u)
    ensures queue[0] != target ==> Frontier(b, start, target, queue[1..], visited, parent, dist, dist[queue[0]])
    ensures forall v :: v in visited && v !in queue[1..] && v != queue[0] ==> Closed(b, dist, v)
  {
    var rest := queue[1..];
    assert forall i :: 0 <= i < |rest| ==> rest[i] == queue[i + 1];
  }

  /** When the queue runs dry every discovered cell is fully explored, so a
      target never discovered cannot be reached. */
  lemma ExhaustedIsUnreachable(b: Board, start: Position, target: Position, dist: map<Position, nat>)
    requires b.Valid()
    requires start in dist && dist[start] == 0 && target !in dist
    requires forall v :: v in dist ==> Closed(b, dist, v)
    ensures Unreachable(b, start, target)
  {
    forall q
      ensures !IsPath(b, q, start, target)
    {
      if IsPath(b, q, start, target) {
        ReachedWithin(b, start, dist, |q|, q);
      }
    }
  }

  /** Once every cell shallower than the target's layer is closed, a path of
      one more cell than that layer is a shortest one. */
  lemma FoundIsShortest(b: Board, start: Position, target: Position, dist: map<Position, nat>, path: seq<Position>)
    requires b.Valid()
    requires start in dist && dist[start] == 0 && target in dist
    requires forall u :: u in dist && dist[u] < dist[target] ==> Closed(b, dist, u)
    requires IsPath(b, path, start, target) && |path| == dist[target] + 1
    ensures IsShortestPath(b, path, start, target)
    ensures start == target ==> path == [start]
  {
    forall q | IsPath(b, q, start, target)
      ensures |path| <= |q|
    {
      if |q| - 1 <= dist[target] {
        ReachedWithin(b, start, dist, dist[target], q);
      }
    }
    if start == target {
      assert IsPath(b, [start], start, target);
    }
  }

  /** The queue facts survive appending a cell one layer further. */
  lemma AppendKeepsLayers(queue: seq<Position>, dist: map<Position, nat>, level: nat, n: Position)
    requires n !in dist
    requires forall i :: 0 <= i < |queue| ==> queue[i] in dist && level <= dist[queue[i]] <= level + 1
    requires forall i, j :: 0 <= i < j < |queue| ==> dist[queue[i]] <= dist[queue[j]]
    ensures forall i :: 0 <= i < |queue + [n]| ==>
      (queue + [n])[i] in dist[n := level + 1] && level <= dist[n := level + 1][(queue + [n])[i]] <= level + 1
    ensures forall i, j :: 0 <= i < j < |queue + [n]| ==>
      dist[n := level + 1][(queue + [n])[i]] <= dist[n := level + 1][(queue + [n])[j]]
  {
    var queue', dist' := queue + [n], dist[n := level + 1];
    forall i | 0 <= i < |queue'|
      ensures queue'[i] in dist' && level <= dist'[queue'[i]] <= level + 1
    {
      if i < |queue| {
        assert queue'[i] == queue[i];
      }
    }
    forall i, j | 0 <= i < j < |queue'|
      ensures dist'[queue'[i]] <= dist'[queue'[j]]
    {
      assert queue'[i] == queue[i];
      if j < |queue| {
        assert queue'[j] == queue[j];
      }
    }
  }

  /** A newly discovered neighbour of a discovered cell may take it as parent. */
  lemma ParentsAfterDiscovery(b: Board, start: Position, parent: map<Position, Position>,
                              dist: map<Position, nat>, current: Position, n: Position)
    requires b.Valid() && ParentsOk(b, start, parent, dist)
    requires start in dist && current in dist && n !in dist && n in GetNeighbors(b, current)
    ensures ParentsOk(b, start, parent[n := current], dist[n := dist[current] + 1])
  {
    var parent', dist' := parent[n := current], dist[n := dist[current] + 1];
    assert n != start;
    forall v | v in parent'
      ensures parent'[v] in dist' && dist'[v] == dist'[parent'[v]] + 1 && v in GetNeighbors(b, parent'[v])
    {
      if v != n {
        assert v in parent && parent'[v] == parent[v] && parent[v] in dist && parent[v] != n;
      }
    }
  }

  /** Discovering a neighbour `n` of the cell being expanded one layer
      further keeps the search facts. */
  lemma Discover(b: Board, start: Position, target: Position, current: Position,
                 queue: seq<Position>, visited: set<Position>, parent: map<Position, Position>,
                 dist: map<Position, nat>, level: nat, n: Position)
    requires b.Valid()
    requires Frontier(b, start, target, queue, visited, parent, dist, level)
    requires current in visited && dist[current] == level
    requires n !in visited && n in GetNeighbors(b, current)
    ensures Frontier(b, start, target, queue + [n], visited + {n}, parent[n := current], dist[n := level + 1], level)
  {
    AppendKeepsLayers(queue, dist, level, n);
    ParentsAfterDiscovery(b, start, parent, dist, current, n);
  }

  /** One round of the search: discover the unvisited neighbours of
      `current`, in order, giving each `current` as parent and appending it to
      the queue. Afterwards `current` is closed. */
  method Expand(b: Board, start: Position, target: Position, current: Position,
                queue: seq<Position>, visited: set<Position>, parent: map<Position, Position>,
                ghost dist: map<Position, nat>, ghost level: nat, ghost universe: set<Position>)
    returns (queue': seq<Position>, visited': set<Position>, parent': map<Position, Position>,
             ghost dist': map<Position, nat>)
    requires b.Valid() && Cells(b) <= universe && visited <= universe
    requires Frontier(b, start, target, queue, visited, parent, dist, level)
    requires current in visited && dist[current] == level && current != target
    requires forall v :: v in visited && v !in queue && v != current ==> Closed(b, dist, v)
    ensures Frontier(b, start, target, queue', visited', parent', dist', level)
    ensures visited <= visited' <= universe
    ensures visited' == visited ==> queue' == queue
    ensures forall v :: v in visited' && v !in queue' ==> Closed(b, dist', v)
  {
    queue', visited', parent', dist' := queue, visited, parent, dist;
    var ns := GetNeighbors(b, current);
    var k := 0;
    while k < |ns|
      invariant 0 <= k <= |ns|
      invariant Frontier(b, start, target, queue', visited', parent', dist', level)
      invariant visited <= visited' <= universe
      invariant visited' == visited ==> queue' == queue
      invariant current in visited' && dist'[current] == level
      invariant forall v :: v in visited' && v !in queue' && v != current ==> Closed(b, dist', v)
      invariant forall j :: 0 <= j < k ==> ns[j] in visited' && dist'[ns[j]] <= level + 1
    {
      var n := ns[k];
      if n !in visited' {
        assert n in Cells(b) by {
          assert n in ns && b.InBounds(n);
          assert n == Position(n.x, n.y);
        }
        Discover(b, start, target, current, queue', visited', parent', dist', level, n);
        forall v | v in visited' && v !in queue' && v != current
          ensures Closed(b, dist'[n := level + 1], v)
        {
          ClosedAfterDiscovery(b, dist', n, level + 1, v);
        }
        visited' := visited' + {n};
        parent' := parent'[n := current];
        dist' := dist'[n := level + 1];
        queue' := queue' + [n];
      }
      k := k + 1;
    }
    assert Closed(b, dist', current);
  }

  /** Follows parent pointers back from `target` to `start`. */
  method ReconstructPath(b: Board, start: Position, target: Position,
                         parent: map<Position, Position>, ghost dist: map<Position, nat>)
    returns (path: seq<Position>)
    requires b.Valid()
    requires start in dist && dist[start] == 0 && target in dist
    requires ParentsOk(b, start, parent, dist)
    ensures IsPath(b, path, start, target)
    ensures |path| == dist[target] + 1
  {
    var node := target;
    path := [target];
    while node in parent
      invariant node in dist
      invariant |path| >= 1 && path[0] == node && path[|path| - 1] == target
      invariant Walk(b, path)
      invariant |path| - 1 + dist[node] == dist[target]
      decreases dist[node]
    {
      var prev := parent[node];
      assert Walk(b, [prev] + path) by {
        var p' := [prev] + path;
        forall i | 0 <= i < |p'| - 1
          ensures p'[i + 1] in GetNeighbors(b, p'[i])
        {
          if i > 0 {
            assert p'[i] == path[i - 1] && p'[i + 1] == path[i];
          }
        }
      }
      path := [prev] + path;
      node := prev;
    }
  }

  // ------------------------------------------------------- first step of it

  /** Direction of the step from `from` to `to`, horizontal offsets first. */
  function GetDirection(from: Position, to: Position): (d: Direction)
    ensures d == None <==> from == to
    ensures Adjacent(from, to) ==> CalculateNewPosition(from, d) == to
  {
    if to.x > from.x then Right
    else if to.x < from.x then Left
    else if to.y > from.y then Down
    else if to.y < from.y then Up
    else None
  }

  /** Reading back the direction of a step recovers it. */
  lemma GetDirectionInvertsStep(p: Position, d: Direction)
    ensures GetDirection(p, CalculateNewPosition(p, d)) == d
  {
  }

  /** `d` is the move a ghost at `from` heading for `target` should make: `None`
      when it is already there or cannot get there, otherwise the first hop of
      a shortest path. */
  ghost predicate StepsToward(b: Board, from: Position, target: Position, d: Direction)
    requires b.Valid()
  {
    if d == None then from == target || Unreachable(b, from, target)
    else exists p :: IsShortestPath(b, p, from, target) && |p| >= 2 && p[1] == CalculateNewPosition(from, d)
  }

  /** A step toward a target is a valid move, and it is never taken once the
      ghost stands on the target. */
  lemma StepTowardIsValid(b: Board, from: Position, target: Position, d: Direction)
    requires b.Valid() && StepsToward(b, from, target, d) && d != None
    ensures IsValidMove(b, CalculateNewPosition(from, d))
    ensures from != target
  {
    var p :| IsShortestPath(b, p, from, target) && |p| >= 2 && p[1] == CalculateNewPosition(from, d);
    assert p[1] in GetNeighbors(b, p[0]);
    if from == target {
      assert IsPath(b, [from], from, target);
    }
  }

  /** The direction of the first hop of the path the search returns. */
  method FirstStep(b: Board, from: Position, target: Position) returns (d: Direction, next: Position)
    requires b.Valid()
    ensures StepsToward(b, from, target, d)
    ensures next == CalculateNewPosition(from, d)
  {
    var path := FindShortestPath(b, from, target);
    if |path| > 1 {
      next := path[1];
      assert next in GetNeighbors(b, path[0]);
      d := GetDirection(from, next);
    } else {
      d := None;
      next := from;
    }
  }

  // ----------------------------------------------------- scatter and chase

  datatype Mode = Scatter | Chase

  /** The corner table is filled on the strategy's first call. */
  datatype Corners = Uncomputed | Computed(cells: seq<Position>)

  datatype ClassicState = ClassicState(modes: seq<Mode>, corners: Corners)

  const GhostCount: nat := 4

  /** Every ghost starts in Scatter; no corners yet. */
  function InitialClassicState(): (s: ClassicState)
    ensures |s.modes| == GhostCount && forall i :: 0 <= i < |s.modes| ==> s.modes[i] == Scatter
    ensures s.corners == Uncomputed
  {
    ClassicState([Scatter, Scatter, Scatter, Scatter], Uncomputed)
  }

  predicate ClassicStateOk(s: ClassicState) {
    |s.modes| == GhostCount && (s.corners.Computed? ==> |s.corners.cells| == GhostCount)
  }

  /** The cell mirrored left-to-right across the board. */
  function MirrorX(b: Board, p: Position): Position {
    Position(b.width - 1 - p.x, p.y)
  }

  /** The cell mirrored top-to-bottom across the board. */
  function MirrorY(b: Board, p: Position): Position {
    Position(p.x, b.Height() - 1 - p.y)
  }

  /** The four target corners, one cell in from the edges: top-left, then its
      mirror images top-right, bottom-left and bottom-right. */
  function GetTargetCorners(b: Board): (cs: seq<Position>)
    ensures |cs| == GhostCount
    ensures cs[0] == Position(1, 1)
    ensures cs[1] == MirrorX(b, cs[0]) && cs[2] == MirrorY(b, cs[0]) && cs[3] == MirrorX(b, cs[2])
    ensures b.width >= 3 && b.Height() >= 3 ==> forall i :: 0 <= i < |cs| ==> b.InBounds(cs[i])
  {
    [Position(1, 1), Position(b.width - 2, 1), Position(1, b.Height() - 2), Position(b.width - 2, b.Height() - 2)]
  }

  /** Where ghost `i` is heading: its corner in Scatter, the player in Chase. */
  function ModeTarget(g: GameState, s: ClassicState, corners: seq<Position>, i: nat): Position
    requires i < |s.modes| && i < |corners|
  {
    if s.modes[i] == Scatter then corners[i] else g.pacman
  }

  /** What the strategy promises about one ghost at `position`, in mode
      `mode` before the call and `mode'` after, heading for `target`: `d` steps
      toward the target, Chase is kept, Scatter turns to Chase exactly when
      the step lands on the corner, and a ghost on its target gets `None` and
      keeps its mode. */
  ghost predicate Planned(b: Board, position: Position, target: Position, corner: Position,
                          mode: Mode, mode': Mode, d: Direction)
    requires b.Valid()
  {
    && StepsToward(b, position, target, d)
    && (mode == Chase ==> mode' == Chase)
    && (mode == Scatter ==> (mode' == Chase <==> d != None && CalculateNewPosition(position, d) == corner))
    && (position == target ==> d == None && mode' == mode)
  }

  /** The plan for one ghost at `position` in mode `mode`: head for `corner`
      in Scatter, for the player in Chase; a Scatter ghost turns to Chase when
      its step lands on the corner. */
  method PlanGhost(b: Board, position: Position, mode: Mode, corner: Position, pacman: Position)
    returns (d: Direction, mode': Mode)
    requires b.Valid()
    ensures StepsToward(b, position, if mode == Scatter then corner else pacman, d)
    ensures d != None ==> IsValidMove(b, CalculateNewPosition(position, d))
    ensures mode == Chase ==> mode' == Chase
    ensures mode == Scatter ==> (mode' == Chase <==> d != None && CalculateNewPosition(position, d) == corner)
    ensures position == (if mode == Scatter then corner else pacman) ==> d == None && mode' == mode
  {
    var next;
    if mode == Scatter {
      d, next := FirstStep(b, position, corner);
      mode' := if d != None && next == corner then Chase else Scatter;
    } else {
      d, next := FirstStep(b, position, pacman);
      mode' := Chase;
    }
    if d != None {
      StepTowardIsValid(b, position, if mode == Scatter then corner else pacman, d);
    }
  }

  /** One direction per ghost. A Scatter ghost heads for its corner and turns
      to Chase on the call whose step lands on that corner; a Chase ghost heads
      for the player and stays in Chase. The corners are computed on the first
      call only. A ghost already standing on its target gets `None` and keeps
      its mode. */
  method GetNextMove(g: GameState, s: ClassicState) returns (moves: seq<Direction>, s': ClassicState)
    requires g.board.Valid()
    requires ClassicStateOk(s) && |g.ghosts| <= GhostCount
    ensures ClassicStateOk(s') && s'.corners.Computed?
    ensures s'.corners == (if s.corners.Computed? then s.corners else Computed(GetTargetCorners(g.board)))
    ensures |moves| == |g.ghosts|
    ensures forall i :: 0 <= i < |g.ghosts| ==>
      StepsToward(g.board, g.ghosts[i].position, ModeTarget(g, s, s'.corners.cells, i), moves[i])
    ensures forall i :: 0 <= i < GhostCount && s.modes[i] == Chase ==> s'.modes[i] == Chase
    ensures forall i :: |g.ghosts| <= i < GhostCount ==> s'.modes[i] == s.modes[i]
    ensures forall i :: 0 <= i < |g.ghosts| && s.modes[i] == Scatter ==>
      (s'.modes[i] == Chase <==> moves[i] != None && CalculateNewPosition(g.ghosts[i].position, moves[i]) == s'.corners.cells[i])
    ensures forall i :: 0 <= i < |g.ghosts| && g.ghosts[i].position == ModeTarget(g, s, s'.corners.cells, i) ==>
      moves[i] == None && s'.modes[i] == s.modes[i]
  {
    var corners := if s.corners.Computed? then s.corners.cells else GetTargetCorners(g.board);
    var modes := s.modes;
    moves := [];
    var i := 0;
    while i < |g.ghosts|
      invariant 0 <= i <= |g.ghosts|
      invariant |moves| == i && |modes| == GhostCount
      invariant forall j :: 0 <= j < i ==>
        Planned(g.board, g.ghosts[j].position, ModeTarget(g, s, corners, j), corners[j], s.modes[j], modes[j], moves[j])
      invariant forall j :: i <= j < GhostCount ==> modes[j] == s.modes[j]
    {
      var d, mode := PlanGhost(g.board, g.ghosts[i].position, modes[i], corners[i], g.pacman);
      moves := moves + [d];
      modes := modes[i := mode];
      i := i + 1;
    }
    s' := ClassicState(modes, Computed(corners));
  }

  /** One tick of the game loop with this strategy: the player steps, the
      strategy plans on the state after the player's step, the ghosts follow
      the plan, then the game-over check runs. */
  method ClassicTick(g: GameState, s: ClassicState) returns (r: GameState, moves: seq<Direction>, s': ClassicState)
    requires WellFormed(g)
    requires ClassicStateOk(s) && |g.ghosts| <= GhostCount
    ensures |moves| == |g.ghosts|
    ensures r == Tick(g, moves)
    ensures ClassicStateOk(s') && s'.corners.Computed?
    ensures forall i :: 0 <= i < |g.ghosts| ==>
      StepsToward(NextMove(g).board, NextMove(g).ghosts[i].position, ModeTarget(NextMove(g), s, s'.corners.cells, i), moves[i])
  {
    var afterPlayer := NextMove(g);
    moves, s' := GetNextMove(afterPlayer, s);
    r := CheckGameOver(NextGhostMove(afterPlayer, moves));
  }
}
