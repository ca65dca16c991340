/** The invariant the engine keeps between ticks, and its consequences:
    walls look the same on the visible board and in the food layer, every dot
    or pellet the board shows is still in the food layer, the food layer holds
    terrain only, and `remainingDots` is the number of dots left in it. */
module EngineInvariants {
  import opened Grid
  import opened Engine

  // ---------------------------------------------------------------- counting

  function DotValue(t: TileType): nat {
    if t == Dot then 1 else 0
  }

  /** Overwriting one tile of a row changes its dot count by the difference. */
  lemma {:induction false} RowCountAfterUpdate(row: seq<TileType>, x: nat, t: TileType)
    requires x < |row|
    ensures CountDotsInRow(row[x := t]) == CountDotsInRow(row) - DotValue(row[x]) + DotValue(t)
    decreases x
  {
    if x == 0 {
      assert row[x := t][1..] == row[1..];
    } else {
      assert row[x := t][1..] == row[1..][x - 1 := t];
      RowCountAfterUpdate(row[1..], x - 1, t);
    }
  }

  /** Replacing one row changes the grid's dot count by the difference. */
  lemma {:induction false} GridCountAfterUpdate(rows: seq<seq<TileType>>, y: nat, newRow: seq<TileType>)
    requires y < |rows|
    ensures CountDots(rows[y := newRow]) == CountDots(rows) - CountDotsInRow(rows[y]) + CountDotsInRow(newRow)
    decreases y
  {
    if y == 0 {
      assert rows[y := newRow][1..] == rows[1..];
    } else {
      assert rows[y := newRow][1..] == rows[1..][y - 1 := newRow];
      GridCountAfterUpdate(rows[1..], y - 1, newRow);
    }
  }

  /** Writing `t` into one cell of a board changes its dot count by the difference. */
  lemma CountAfterSet(b: Board, p: Position, t: TileType)
    requires b.Valid() && b.InBounds(p)
    ensures CountDots(b.Set(p, t).tiles) == CountDots(b.tiles) - DotValue(b.At(p)) + DotValue(t)
  {
    RowCountAfterUpdate(b.tiles[p.y], p.x, t);
    GridCountAfterUpdate(b.tiles, p.y, b.tiles[p.y][p.x := t]);
  }

  lemma {:induction false} RowCountZero(row: seq<TileType>)
    ensures CountDotsInRow(row) == 0 <==> Dot !in row
  {
    if row != [] {
      RowCountZero(row[1..]);
      assert row == [row[0]] + row[1..];
    }
  }

  lemma {:induction false} GridCountZero(rows: seq<seq<TileType>>)
    ensures CountDots(rows) == 0 <==> forall r :: 0 <= r < |rows| ==> Dot !in rows[r]
  {
    if rows != [] {
      RowCountZero(rows[0]);
      GridCountZero(rows[1..]);
      assert forall r :: 1 <= r < |rows| ==> rows[r] == rows[1..][r - 1];
    }
  }

  /** A board has no dot exactly when its dot count is zero. */
  lemma NoDotsIffCountZero(b: Board)
    requires b.Valid()
    ensures CountDots(b.tiles) == 0 <==> forall q :: b.InBounds(q) ==> b.At(q) != Dot
  {
    GridCountZero(b.tiles);
    if CountDots(b.tiles) != 0 {
      var r :| 0 <= r < |b.tiles| && Dot in b.tiles[r];
      var c :| 0 <= c < |b.tiles[r]| && b.tiles[r][c] == Dot;
      assert b.At(Position(c, r)) == Dot;
    }
  }

  // --------------------------------------------------------------- invariant

  /** A cell is a wall on the board exactly when it is one in the food layer. */
  ghost predicate WallsAgree(g: GameState)
    requires WellFormed(g)
  {
    forall q :: g.board.InBounds(q) ==> (g.board.At(q) == Wall <==> g.foodMap.At(q) == Wall)
  }

  /** A dot or pellet shown on the board is still in the food layer. */
  ghost predicate CollectiblesBacked(g: GameState)
    requires WellFormed(g)
  {
    forall q :: g.board.InBounds(q) ==>
      (g.board.At(q) == Dot ==> g.foodMap.At(q) == Dot) &&
      (g.board.At(q) == PowerPellet ==> g.foodMap.At(q) == PowerPellet)
  }

  /** The food layer is never overlaid by an entity. */
  ghost predicate FoodIsTerrain(g: GameState)
    requires WellFormed(g)
  {
    forall q :: g.foodMap.InBounds(q) ==> IsTerrain(g.foodMap.At(q))
  }

  predicate QueueOk(q: seq<Direction>) {
    |q| <= QueueCapacity && None !in q
  }

  ghost predicate Inv(g: GameState) {
    && WellFormed(g)
    && WallsAgree(g)
    && CollectiblesBacked(g)
    && FoodIsTerrain(g)
    && g.foodMap.At(g.pacman) != Wall
    && g.remainingDots == CountDots(g.foodMap.tiles)
    && QueueOk(g.queue)
    && forall i :: 0 <= i < |g.ghosts| ==> IsEntity(g.ghosts[i].name)
  }

  // ------------------------------------------------------------ establishing

  /** Drawing entities that stand on non-wall cells over a terrain board
      keeps walls and collectibles in agreement with the terrain. */
  lemma InitialBoardAgrees(food: Board, pacStart: Position, ghosts: seq<Ghost>)
    requires food.Valid() && food.InBounds(pacStart) && food.At(pacStart) != Wall
    requires forall i :: 0 <= i < |ghosts| ==> food.InBounds(ghosts[i].position)
    requires forall i :: 0 <= i < |ghosts| ==> food.At(ghosts[i].position) != Wall && IsEntity(ghosts[i].name)
    ensures forall q :: food.InBounds(q) ==>
      && (InitialBoard(food, pacStart, ghosts).At(q) == Wall <==> food.At(q) == Wall)
      && (InitialBoard(food, pacStart, ghosts).At(q) == Dot ==> food.At(q) == Dot)
      && (InitialBoard(food, pacStart, ghosts).At(q) == PowerPellet ==> food.At(q) == PowerPellet)
  {
    var b := InitialBoard(food, pacStart, ghosts);
    forall q | food.InBounds(q)
      ensures (b.At(q) == Wall <==> food.At(q) == Wall)
      ensures b.At(q) == Dot ==> food.At(q) == Dot
      ensures b.At(q) == PowerPellet ==> food.At(q) == PowerPellet
    {
      if b.At(q) != food.At(q) && q != pacStart {
        var i :| 0 <= i < |ghosts| && ghosts[i].position == q && b.At(q) == ghosts[i].name;
      }
    }
  }

  /** The terrain of a layout holds terrain tiles only. */
  lemma LayoutIsTerrain(layout: seq<string>)
    ensures forall q :: LayoutTiles(layout).InBounds(q) ==> IsTerrain(LayoutTiles(layout).At(q))
  {
    var food := LayoutTiles(layout);
    forall q | food.InBounds(q)
      ensures IsTerrain(food.At(q))
    {
      assert food.At(q) == food.tiles[q.y][q.x];
    }
  }

  /** Loading a layout whose start cells are not walls establishes the invariant. */
  lemma InitializeGameEstablishesInv(layout: seq<string>, pacStart: Position, ghostStarts: seq<Position>)
    requires |ghostStarts| == |GhostNames|
    requires LayoutTiles(layout).InBounds(pacStart)
    requires forall i :: 0 <= i < |ghostStarts| ==> LayoutTiles(layout).InBounds(ghostStarts[i])
    requires LayoutTiles(layout).At(pacStart) != Wall
    requires forall i :: 0 <= i < |ghostStarts| ==> LayoutTiles(layout).At(ghostStarts[i]) != Wall
    ensures Inv(InitializeGame(layout, pacStart, ghostStarts))
  {
    var g := InitializeGame(layout, pacStart, ghostStarts);
    InitialBoardAgrees(g.foodMap, pacStart, g.ghosts);
    LayoutIsTerrain(layout);
    LayoutDotCount(layout);
  }

  // -------------------------------------------------------------- preserving

  /** Pushing an intent keeps the invariant. */
  lemma PushMovePreservesInv(g: GameState, d: Direction)
    requires Inv(g)
    ensures Inv(PushMove(g, d))
  {
  }

  /** The player step keeps the invariant; in particular `remainingDots` drops
      exactly when a dot leaves the food layer. */
  lemma UpdatePositionPreservesInv(g: GameState, p: Position)
    requires Inv(g) && IsValidPacmanMove(g, p)
    ensures Inv(UpdatePosition(g, p))
  {
    var r := UpdatePosition(g, p);
    var cleared := g.board.Set(g.pacman, Empty);
    assert cleared.At(p) == g.board.At(p);
    if g.board.At(p) == Dot || g.board.At(p) == PowerPellet {
      CountAfterSet(g.foodMap, p, Empty);
      assert r.foodMap == g.foodMap.Set(p, Empty);
    }
    forall q | r.board.InBounds(q)
      ensures (r.board.At(q) == Wall <==> r.foodMap.At(q) == Wall)
      ensures r.board.At(q) == Dot ==> r.foodMap.At(q) == Dot
      ensures r.board.At(q) == PowerPellet ==> r.foodMap.At(q) == PowerPellet
    {
      if q != p && q != g.pacman {
        assert r.board.At(q) == g.board.At(q);
      }
    }
  }

  lemma NextMovePreservesInv(g: GameState)
    requires Inv(g)
    ensures Inv(NextMove(g))
  {
    if !g.isGameOver {
      var next := if |g.queue| > 0 then g.queue[0] else None;
      var candidate := CalculateNewPosition(g.pacman, next);
      if IsValidPacmanMove(g, candidate) {
        var g1 := g.(currentDirection := next, queue := g.queue[1..]);
        assert Inv(g1);
        UpdatePositionPreservesInv(g1, candidate);
      } else {
        var fallback := CalculateNewPosition(g.pacman, g.currentDirection);
        if IsValidPacmanMove(g, fallback) {
          UpdatePositionPreservesInv(g, fallback);
        }
      }
    }
  }

  /** A ghost step keeps the invariant and leaves the walls of the board as
      they were, so later ghosts of the same tick judge validity on the same walls. */
  lemma MoveGhostPreservesInv(g: GameState, i: nat, d: Direction)
    requires Inv(g) && i < |g.ghosts|
    ensures Inv(MoveGhost(g, i, d))
    ensures forall q :: g.board.InBounds(q) ==> (MoveGhost(g, i, d).board.At(q) == Wall <==> g.board.At(q) == Wall)
  {
    var r := MoveGhost(g, i, d);
    var gh := g.ghosts[i];
    var target := CalculateNewPosition(gh.position, d);
    if IsValidMove(g.board, target) {
      assert r.foodMap == g.foodMap;
      assert g.foodMap.At(target) != Wall;
      forall q | g.board.InBounds(q)
        ensures (r.board.At(q) == Wall <==> r.foodMap.At(q) == Wall)
        ensures r.board.At(q) == Dot ==> r.foodMap.At(q) == Dot
        ensures r.board.At(q) == PowerPellet ==> r.foodMap.At(q) == PowerPellet
        ensures (r.board.At(q) == Wall <==> g.board.At(q) == Wall)
      {
        if q == target {
          assert r.board.At(q) == gh.name;
        } else if q == gh.position {
          assert r.board.At(q) == g.foodMap.At(q);
        } else {
          assert r.board.At(q) == g.board.At(q);
        }
      }
    }
  }

  lemma {:induction false} MoveGhostsFromPreservesInv(g: GameState, moves: seq<Direction>, i: nat)
    requires Inv(g) && |moves| == |g.ghosts| && i <= |g.ghosts|
    ensures Inv(MoveGhostsFrom(g, moves, i))
    ensures forall q :: g.board.InBounds(q) ==> (MoveGhostsFrom(g, moves, i).board.At(q) == Wall <==> g.board.At(q) == Wall)
    decreases |g.ghosts| - i
  {
    if i < |g.ghosts| {
      var g1 := MoveGhost(g, i, moves[i]);
      MoveGhostPreservesInv(g, i, moves[i]);
      MoveGhostsFromPreservesInv(g1, moves, i + 1);
      var r := MoveGhostsFrom(g, moves, i);
      assert r == MoveGhostsFrom(g1, moves, i + 1);
      forall q | g.board.InBounds(q)
        ensures r.board.At(q) == Wall <==> g.board.At(q) == Wall
      {
        assert g1.board.InBounds(q);
      }
    }
  }

  /** Boards with the same shape and the same walls move every ghost alike. */
  lemma GhostAfterDependsOnWalls(b1: Board, b2: Board, gh: Ghost, d: Direction)
    requires b1.Valid() && b2.Valid() && b1.SameShape(b2)
    requires forall q :: b1.InBounds(q) ==> (b1.At(q) == Wall <==> b2.At(q) == Wall)
    ensures GhostAfter(b1, gh, d) == GhostAfter(b2, gh, d)
  {
    var target := CalculateNewPosition(gh.position, d);
    assert IsValidMove(b1, target) <==> IsValidMove(b2, target);
  }

  /** Under the invariant, each ghost's fate in a tick depends only on its own
      move and the walls: a valid target is taken with the requested direction,
      an invalid one leaves the ghost exactly as it was. */
  lemma {:induction false} MoveGhostsFromEffect(g: GameState, moves: seq<Direction>, i: nat)
    requires Inv(g) && |moves| == |g.ghosts| && i <= |g.ghosts|
    ensures forall j :: i <= j < |g.ghosts| ==>
      MoveGhostsFrom(g, moves, i).ghosts[j] == GhostAfter(g.board, g.ghosts[j], moves[j])
    decreases |g.ghosts| - i
  {
    if i < |g.ghosts| {
      var g1 := MoveGhost(g, i, moves[i]);
      MoveGhostPreservesInv(g, i, moves[i]);
      MoveGhostsFromEffect(g1, moves, i + 1);
      GhostAfterDependsOnWalls(g1.board, g.board, g.ghosts[i], moves[i]);
      forall j | i < j < |g.ghosts|
        ensures GhostAfter(g1.board, g1.ghosts[j], moves[j]) == GhostAfter(g.board, g.ghosts[j], moves[j])
      {
        GhostAfterDependsOnWalls(g1.board, g.board, g.ghosts[j], moves[j]);
      }
    }
  }

  /** The ghost tick, ghost by ghost: every ghost is moved as `GhostAfter`
      says on the board at the start of the ghost step, and the invariant holds after. */
  lemma NextGhostMoveEffect(g: GameState, moves: seq<Direction>)
    requires Inv(g) && |moves| == |g.ghosts|
    ensures Inv(NextGhostMove(g, moves))
    ensures forall j :: 0 <= j < |g.ghosts| ==>
      NextGhostMove(g, moves).ghosts[j] == GhostAfter(g.board, g.ghosts[j], moves[j])
  {
    MoveGhostsFromPreservesInv(g, moves, 0);
    MoveGhostsFromEffect(g, moves, 0);
  }

  /** A whole tick keeps the invariant. */
  lemma TickPreservesInv(g: GameState, moves: seq<Direction>)
    requires Inv(g) && |moves| == |g.ghosts|
    ensures Inv(Tick(g, moves))
  {
    NextMovePreservesInv(g);
    MoveGhostsFromPreservesInv(NextMove(g), moves, 0);
  }

  // ------------------------------------------------------------ consequences

  /** With the invariant, `remainingDots` is never negative and reaches zero
      exactly when no dot is left in the food layer; power pellets may remain. */
  lemma RemainingDotsMeansDotsLeft(g: GameState)
    requires Inv(g)
    ensures g.remainingDots >= 0
    ensures g.remainingDots == 0 <==> forall q :: g.foodMap.InBounds(q) ==> g.foodMap.At(q) != Dot
  {
    NoDotsIffCountZero(g.foodMap);
  }

  /** A collision while powered up does not end the game by itself. */
  lemma PoweredCollisionHarmless(g: GameState)
    requires g.isPoweredUp && g.remainingDots != 0
    ensures CheckGameOver(g) == g
  {
  }
}
