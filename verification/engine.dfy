/** The per-tick rules of the game engine: one-step movement, move validity,
    the bounded intent queue, the player step with scoring, the ghost step,
    the game-over check and board loading. The engine state is an immutable
    record; every operation returns the successor state. */
module Engine {
  import opened Grid

  /** Capacity of the intent queue; pushes beyond it are dropped. */
  const QueueCapacity: nat := 50
  const DotScore: int := 10
  const PelletScore: int := 50

  datatype GameState = GameState(
    board: Board,              // visible tiles: terrain plus entity overlays
    foodMap: Board,            // terrain beneath the entities
    pacman: Position,
    ghosts: seq<Ghost>,
    score: int,
    isGameOver: bool,
    isPoweredUp: bool,
    remainingDots: int,
    queue: seq<Direction>,     // pending intents, head first
    currentDirection: Direction)

  /** Shape facts every index into the state relies on: both layers are
      rectangular grids of one shape and every entity stands inside it. */
  predicate WellFormed(g: GameState) {
    && g.board.Valid()
    && g.foodMap.Valid()
    && g.foodMap.SameShape(g.board)
    && g.board.InBounds(g.pacman)
    && forall i :: 0 <= i < |g.ghosts| ==> g.board.InBounds(g.ghosts[i].position)
  }

  // ---------------------------------------------------------------- movement

  /** One step from `p` in direction `d`; `None` stays put. */
  function CalculateNewPosition(p: Position, d: Direction): (q: Position)
    ensures q == p <==> d == None
    ensures d != None ==> Adjacent(p, q)
    ensures (d == Up || d == Down) ==> q.x == p.x
    ensures (d == Left || d == Right) ==> q.y == p.y
    ensures d == Up ==> q.y < p.y
    ensures d == Down ==> q.y > p.y
    ensures d == Left ==> q.x < p.x
    ensures d == Right ==> q.x > p.x
  {
    match d
    case Up => Position(p.x, p.y - 1)
    case Down => Position(p.x, p.y + 1)
    case Left => Position(p.x - 1, p.y)
    case Right => Position(p.x + 1, p.y)
    case None => p
  }

  /** Distinct directions lead to distinct cells. */
  lemma CalculateNewPositionInjective(p: Position, d1: Direction, d2: Direction)
    ensures CalculateNewPosition(p, d1) == CalculateNewPosition(p, d2) ==> d1 == d2
  {
  }

  /** Every neighbouring cell is reached by some direction other than `None`;
      by CalculateNewPositionInjective that direction is unique. */
  lemma AdjacentHasDirection(p: Position, q: Position)
    requires Adjacent(p, q)
    ensures exists d :: d != None && CalculateNewPosition(p, d) == q
  {
    if q.y == p.y - 1 && q.x == p.x {
      assert CalculateNewPosition(p, Up) == q;
    } else if q.y == p.y + 1 && q.x == p.x {
      assert CalculateNewPosition(p, Down) == q;
    } else if q.x == p.x - 1 {
      assert CalculateNewPosition(p, Left) == q;
    } else {
      assert CalculateNewPosition(p, Right) == q;
    }
  }

  /** In bounds and not a wall: a cell outside the grid is never a valid
      move, and one inside it is exactly when it holds no wall. Entities
      (the player, a ghost) do not block. */
  predicate IsValidMove(b: Board, p: Position)
    requires b.Valid()
    ensures !b.InBounds(p) ==> !IsValidMove(b, p)
    ensures b.InBounds(p) ==> (IsValidMove(b, p) <==> b.At(p) != Wall)
  {
    b.InBounds(p) && b.At(p) != Wall
  }

  /** A player move must also leave the current cell: staying put never
      validates, and any other cell validates exactly when it is a valid move. */
  predicate IsValidPacmanMove(g: GameState, p: Position)
    requires g.board.Valid()
    ensures p == g.pacman ==> !IsValidPacmanMove(g, p)
    ensures p != g.pacman ==> (IsValidPacmanMove(g, p) <==> IsValidMove(g.board, p))
  {
    IsValidMove(g.board, p) && p != g.pacman
  }

  /** A `None` move never validates for the player, and every other direction
      validates exactly when its target is a valid move. */
  lemma PacmanMoveNeedsDirection(g: GameState, d: Direction)
    requires g.board.Valid()
    ensures IsValidPacmanMove(g, CalculateNewPosition(g.pacman, d))
        <==> d != None && IsValidMove(g.board, CalculateNewPosition(g.pacman, d))
  {
  }

  // ------------------------------------------------------------ intent queue

  /** Enqueue an intent unless it is `None`, equals the committed direction,
      or the queue is full. Only the queue can change. */
  function PushMove(g: GameState, d: Direction): (r: GameState)
    ensures r == g.(queue := r.queue)
    ensures d == None || d == g.currentDirection || |g.queue| >= QueueCapacity ==> r == g
    ensures d != None && d != g.currentDirection && |g.queue| < QueueCapacity ==> r.queue == g.queue + [d]
    ensures |g.queue| <= QueueCapacity ==> |r.queue| <= QueueCapacity
    ensures None !in g.queue ==> None !in r.queue
  {
    if d != None && d != g.currentDirection && |g.queue| < QueueCapacity then
      g.(queue := g.queue + [d])
    else
      g
  }

  /** Pushing a whole sequence of intents, in order. */
  function PushMoves(g: GameState, ds: seq<Direction>): GameState
    decreases |ds|
  {
    if ds == [] then g else PushMoves(PushMove(g, ds[0]), ds[1..])
  }

  /** However many intents are pushed, the queue stays within capacity, never
      holds `None`, and nothing but the queue changes. */
  lemma {:induction false} PushMovesBounded(g: GameState, ds: seq<Direction>)
    requires |g.queue| <= QueueCapacity && None !in g.queue
    ensures |PushMoves(g, ds).queue| <= QueueCapacity
    ensures None !in PushMoves(g, ds).queue
    ensures PushMoves(g, ds) == g.(queue := PushMoves(g, ds).queue)
    decreases |ds|
  {
    if ds != [] {
      PushMovesBounded(PushMove(g, ds[0]), ds[1..]);
    }
  }

  // ------------------------------------------------------------- player step

  /** Move the player to `p`: clear the old cell, score a dot or a pellet
      found at `p` (read after the clear), then draw the player at `p`. */
  function UpdatePosition(g: GameState, p: Position): (r: GameState)
    requires WellFormed(g) && g.board.InBounds(p)
    ensures WellFormed(r) && r.board.SameShape(g.board)
    ensures r.pacman == p
    ensures r.board.At(p) == PacMan
    ensures p != g.pacman ==> r.board.At(g.pacman) == Empty
    ensures forall q :: g.board.InBounds(q) && q != p && q != g.pacman ==> r.board.At(q) == g.board.At(q)
    ensures p != g.pacman && g.board.At(p) == Dot ==>
      && r.score == g.score + DotScore
      && r.remainingDots == g.remainingDots - 1
      && r.foodMap == g.foodMap.Set(p, Empty)
      && r.isPoweredUp == g.isPoweredUp
    ensures p != g.pacman && g.board.At(p) == PowerPellet ==>
      && r.score == g.score + PelletScore
      && r.remainingDots == g.remainingDots
      && r.foodMap == g.foodMap.Set(p, Empty)
      && r.isPoweredUp
    ensures (p == g.pacman || (g.board.At(p) != Dot && g.board.At(p) != PowerPellet)) ==>
      && r.score == g.score
      && r.remainingDots == g.remainingDots
      && r.foodMap == g.foodMap
      && r.isPoweredUp == g.isPoweredUp
    ensures r.score >= g.score
    ensures r.ghosts == g.ghosts && r.queue == g.queue && r.currentDirection == g.currentDirection
    ensures r.isGameOver == g.isGameOver
  {
    var cleared := g.board.Set(g.pacman, Empty);
    var found := cleared.At(p);
    var g1 := g.(board := cleared.Set(p, PacMan), pacman := p);
    if found == Dot then
      g1.(score := g.score + DotScore,
          remainingDots := g.remainingDots - 1,
          foodMap := g.foodMap.Set(p, Empty))
    else if found == PowerPellet then
      g1.(score := g.score + PelletScore,
          foodMap := g.foodMap.Set(p, Empty),
          isPoweredUp := true)
    else
      g1
  }

  /** The player's tick: take the queued intent if it gives a valid move,
      otherwise keep going in the committed direction, otherwise drop every
      pending intent. Nothing happens once the game is over. */
  function NextMove(g: GameState): (r: GameState)
    requires WellFormed(g)
    ensures WellFormed(r)
    ensures g.isGameOver ==> r == g
    ensures r.score >= g.score
    ensures r.pacman == g.pacman || (Adjacent(g.pacman, r.pacman) && IsValidMove(g.board, r.pacman))
    ensures r.ghosts == g.ghosts && r.isGameOver == g.isGameOver
    ensures !g.isGameOver && g.queue != [] && IsValidPacmanMove(g, CalculateNewPosition(g.pacman, g.queue[0])) ==>
      && r.queue == g.queue[1..]
      && r.currentDirection == g.queue[0]
      && r == UpdatePosition(g.(queue := r.queue, currentDirection := r.currentDirection), r.pacman)
      && r.pacman == CalculateNewPosition(g.pacman, g.queue[0])
    ensures !g.isGameOver && (g.queue == [] || !IsValidPacmanMove(g, CalculateNewPosition(g.pacman, g.queue[0]))) ==>
      if IsValidPacmanMove(g, CalculateNewPosition(g.pacman, g.currentDirection)) then
        && r.queue == g.queue
        && r.currentDirection == g.currentDirection
        && r.pacman == CalculateNewPosition(g.pacman, g.currentDirection)
        && r == UpdatePosition(g, r.pacman)
      else
        r == g.(queue := [])
  {
    if g.isGameOver then
      g
    else
      var next := if |g.queue| > 0 then g.queue[0] else None;
      var candidate := CalculateNewPosition(g.pacman, next);
      if IsValidPacmanMove(g, candidate) then
        UpdatePosition(g.(currentDirection := next, queue := g.queue[1..]), candidate)
      else
        var fallback := CalculateNewPosition(g.pacman, g.currentDirection);
        if IsValidPacmanMove(g, fallback) then
          UpdatePosition(g, fallback)
        else
          g.(queue := [])
  }

  // -------------------------------------------------------------- ghost step

  /** Where ghost `gh` ends up when asked to move `d` on board `b`: one step
      if the target is a valid move (taking `d` as its direction), otherwise
      exactly where and as it was. */
  function GhostAfter(b: Board, gh: Ghost, d: Direction): (r: Ghost)
    requires b.Valid()
    ensures r.name == gh.name
    ensures r == gh || (r.position == CalculateNewPosition(gh.position, d) && r.direction == d)
    ensures r.position != gh.position ==> IsValidMove(b, r.position) && Adjacent(gh.position, r.position)
  {
    var target := CalculateNewPosition(gh.position, d);
    if IsValidMove(b, target) then Ghost(gh.name, target, d) else gh
  }

  /** One iteration of the ghost loop: ghost `i` tries direction `d`. A valid
      target gets the ghost's name, and the vacated cell is restored from the
      food layer; an invalid target leaves the state untouched. */
  function MoveGhost(g: GameState, i: nat, d: Direction): (r: GameState)
    requires WellFormed(g) && i < |g.ghosts|
    ensures WellFormed(r) && r.board.SameShape(g.board)
    ensures r == g.(board := r.board, ghosts := r.ghosts)
    ensures r.ghosts == g.ghosts[i := GhostAfter(g.board, g.ghosts[i], d)]
    ensures var gh := g.ghosts[i];
            var target := CalculateNewPosition(gh.position, d);
            if IsValidMove(g.board, target) then
              && r.board.At(target) == gh.name
              && (target != gh.position ==> r.board.At(gh.position) == g.foodMap.At(gh.position))
              && (forall q :: g.board.InBounds(q) && q != target && q != gh.position ==> r.board.At(q) == g.board.At(q))
            else
              r == g
  {
    var gh := g.ghosts[i];
    var target := CalculateNewPosition(gh.position, d);
    if IsValidMove(g.board, target) then
      var restored := g.board.Set(gh.position, g.foodMap.At(gh.position));
      g.(board := restored.Set(target, gh.name),
         ghosts := g.ghosts[i := Ghost(gh.name, target, d)])
    else
      g
  }

  /** The ghost loop from index `i` on. Each ghost either stays exactly as it
      was or takes one step in its requested direction. */
  function MoveGhostsFrom(g: GameState, moves: seq<Direction>, i: nat): (r: GameState)
    requires WellFormed(g) && |moves| == |g.ghosts| && i <= |g.ghosts|
    ensures WellFormed(r)
    ensures |r.ghosts| == |g.ghosts|
    ensures r == g.(board := r.board, ghosts := r.ghosts)
    ensures forall j :: 0 <= j < i ==> r.ghosts[j] == g.ghosts[j]
    ensures forall j :: i <= j < |g.ghosts| ==>
      || r.ghosts[j] == g.ghosts[j]
      || r.ghosts[j] == Ghost(g.ghosts[j].name, CalculateNewPosition(g.ghosts[j].position, moves[j]), moves[j])
    decreases |g.ghosts| - i
  {
    if i == |g.ghosts| then g else MoveGhostsFrom(MoveGhost(g, i, moves[i]), moves, i + 1)
  }

  /** The ghost tick: apply the strategy's moves, one per ghost, in order.
      Only the board and the ghosts change; every ghost keeps its name and
      either stays as it was or takes one step in its own move. */
  function NextGhostMove(g: GameState, moves: seq<Direction>): (r: GameState)
    requires WellFormed(g) && |moves| == |g.ghosts|
    ensures WellFormed(r) && |r.ghosts| == |g.ghosts|
    ensures r == g.(board := r.board, ghosts := r.ghosts)
    ensures forall j :: 0 <= j < |g.ghosts| ==>
      || r.ghosts[j] == g.ghosts[j]
      || r.ghosts[j] == Ghost(g.ghosts[j].name, CalculateNewPosition(g.ghosts[j].position, moves[j]), moves[j])
  {
    MoveGhostsFrom(g, moves, 0)
  }

  // --------------------------------------------------------------- game over

  /** Some ghost stands on the player's cell. */
  predicate CollidesWithGhost(g: GameState) {
    exists i :: 0 <= i < |g.ghosts| && g.ghosts[i].position == g.pacman
  }

  /** Ends the game on an unpowered collision or when no dots remain; it never
      clears the flag and touches nothing else. */
  function CheckGameOver(g: GameState): (r: GameState)
    ensures r == g.(isGameOver := r.isGameOver)
    ensures r.isGameOver <==> g.isGameOver || (CollidesWithGhost(g) && !g.isPoweredUp) || g.remainingDots == 0
  {
    if CollidesWithGhost(g) && !g.isPoweredUp then
      g.(isGameOver := true)
    else if g.remainingDots == 0 then
      g.(isGameOver := true)
    else
      g
  }

  /** One tick of the game loop, given the strategy's moves for this tick:
      the player moves, then the ghosts, then the end of the game is checked.
      Score, position and intent queue are the player step's; the score never
      drops, and a finished game stays finished with the player in place. */
  function Tick(g: GameState, moves: seq<Direction>): (r: GameState)
    requires WellFormed(g) && |moves| == |g.ghosts|
    ensures WellFormed(r) && |r.ghosts| == |g.ghosts|
    ensures r == NextMove(g).(board := r.board, ghosts := r.ghosts, isGameOver := r.isGameOver)
    ensures r.score >= g.score
    ensures g.isGameOver ==> r.isGameOver && r.pacman == g.pacman && r.score == g.score
    ensures r.isGameOver <==> g.isGameOver || (CollidesWithGhost(r) && !r.isPoweredUp) || r.remainingDots == 0
  {
    CheckGameOver(NextGhostMove(NextMove(g), moves))
  }

  // ----------------------------------------------------------- board loading

  /** The layout character mapping: `w` wall, `.` dot, `o` power pellet,
      anything else empty. */
  function AsTile(c: char): (t: TileType)
    ensures IsTerrain(t)
    ensures t == Wall <==> c == 'w'
    ensures t == Dot <==> c == '.'
    ensures t == PowerPellet <==> c == 'o'
  {
    match c
    case 'w' => Wall
    case '.' => Dot
    case 'o' => PowerPellet
    case _ => Empty
  }

  /** Length of the longest row. */
  function MaxLength(layout: seq<string>): (m: nat)
    ensures forall r :: 0 <= r < |layout| ==> |layout[r]| <= m
    ensures layout != [] ==> exists r :: 0 <= r < |layout| && |layout[r]| == m
  {
    if layout == [] then 0
    else
      var rest := MaxLength(layout[1..]);
      if |layout[0]| >= rest then |layout[0]| else rest
  }

  /** One layout row as tiles, padded with `Empty` up to `width` columns. */
  function PadRow(s: string, width: nat): (row: seq<TileType>)
    requires |s| <= width
    ensures |row| == width
    ensures forall c :: 0 <= c < |s| ==> row[c] == AsTile(s[c])
    ensures forall c :: |s| <= c < width ==> row[c] == Empty
  {
    seq(width, c requires 0 <= c < width => if c < |s| then AsTile(s[c]) else Empty)
  }

  /** The terrain grid of a layout: as many rows as the layout, as many
      columns as its longest row. The loader writes through the two-index
      indexer, so its cells are stated through `Cell`. */
  function LayoutTiles(layout: seq<string>): (b: Board)
    ensures b.Valid() && b.Height() == |layout| && b.width == MaxLength(layout)
    ensures forall r, c :: 0 <= r < |layout| && 0 <= c < |layout[r]| ==> b.Cell(r, c) == AsTile(layout[r][c])
    ensures forall r, c :: 0 <= r < |layout| && |layout[r]| <= c < b.width ==> b.Cell(r, c) == Empty
  {
    var w := MaxLength(layout);
    Board(seq(|layout|, r requires 0 <= r < |layout| => PadRow(layout[r], w)), w)
  }

  /** What the engine reads through the position indexer after loading is
      what the loader wrote through the two-index one: the tile of character
      `X` of line `Y`, or `Empty` past the end of a short line. */
  lemma LoadedTileAtPosition(layout: seq<string>, p: Position)
    requires LayoutTiles(layout).InBounds(p)
    ensures p.x < |layout[p.y]| ==> LayoutTiles(layout).At(p) == AsTile(layout[p.y][p.x])
    ensures p.x >= |layout[p.y]| ==> LayoutTiles(layout).At(p) == Empty
  {
  }

  /** Number of occurrences of `ch` in the whole layout. */
  function CountChar(layout: seq<string>, ch: char): nat
  {
    if layout == [] then 0 else CountCharInRow(layout[0], ch) + CountChar(layout[1..], ch)
  }

  function CountCharInRow(s: string, ch: char): nat
  {
    if s == [] then 0 else (if s[0] == ch then 1 else 0) + CountCharInRow(s[1..], ch)
  }

  /** Number of `Dot` tiles in a grid, row by row. */
  function CountDots(rows: seq<seq<TileType>>): nat
  {
    if rows == [] then 0 else CountDotsInRow(rows[0]) + CountDots(rows[1..])
  }

  function CountDotsInRow(row: seq<TileType>): nat
  {
    if row == [] then 0 else (if row[0] == Dot then 1 else 0) + CountDotsInRow(row[1..])
  }

  /** The names of the four ghosts, in the order they are created. */
  const GhostNames: seq<TileType> := [Pinky, Blinky, Inky, Clyde]

  /** Loads a layout: both layers get its tiles, the dots are counted, and
      the player and then the four ghosts are drawn at their start cells on
      the visible board only. Score, flags, queue and direction start fresh. */
  function InitializeGame(layout: seq<string>, pacStart: Position, ghostStarts: seq<Position>): (g: GameState)
    requires |ghostStarts| == |GhostNames|
    requires LayoutTiles(layout).InBounds(pacStart)
    requires forall i :: 0 <= i < |ghostStarts| ==> LayoutTiles(layout).InBounds(ghostStarts[i])
    ensures WellFormed(g)
    ensures g.foodMap == LayoutTiles(layout)
    ensures g.board.SameShape(g.foodMap)
    ensures g.remainingDots == CountChar(layout, '.')
    ensures g.score == 0 && !g.isGameOver && !g.isPoweredUp
    ensures g.queue == [] && g.currentDirection == None
    ensures g.pacman == pacStart
    ensures g.ghosts == InitialGhosts(ghostStarts)
    ensures g.board == InitialBoard(g.foodMap, pacStart, g.ghosts)
  {
    var food := LayoutTiles(layout);
    LayoutDotCount(layout);
    var ghosts := InitialGhosts(ghostStarts);
    GameState(InitialBoard(food, pacStart, ghosts), food, pacStart, ghosts, 0, false, false, CountDots(food.tiles), [], None)
  }

  /** The four ghosts, named in creation order, at their start cells, with no direction. */
  function InitialGhosts(ghostStarts: seq<Position>): (ghosts: seq<Ghost>)
    requires |ghostStarts| == |GhostNames|
    ensures |ghosts| == |GhostNames|
    ensures forall i :: 0 <= i < |ghosts| ==> ghosts[i] == Ghost(GhostNames[i], ghostStarts[i], None)
    ensures forall i :: 0 <= i < |ghosts| ==> IsEntity(ghosts[i].name)
  {
    seq(|GhostNames|, i requires 0 <= i < |GhostNames| => Ghost(GhostNames[i], ghostStarts[i], None))
  }

  /** The visible board at load time: the terrain with the player and then
      each ghost drawn over it. A cell differs from the terrain only under an
      entity, and then shows that entity's tile. */
  function InitialBoard(food: Board, pacStart: Position, ghosts: seq<Ghost>): (b: Board)
    requires food.Valid() && food.InBounds(pacStart)
    requires forall i :: 0 <= i < |ghosts| ==> food.InBounds(ghosts[i].position)
    ensures b.Valid() && b.SameShape(food)
    ensures forall i :: 0 <= i < |ghosts| ==> b.InBounds(ghosts[i].position)
    ensures (forall i :: 0 <= i < |ghosts| ==> ghosts[i].position != pacStart) ==> b.At(pacStart) == PacMan
    ensures forall i :: 0 <= i < |ghosts| && LastAt(ghosts, i) ==> b.At(ghosts[i].position) == ghosts[i].name
    ensures forall q :: food.InBounds(q) && q != pacStart && (forall i :: 0 <= i < |ghosts| ==> ghosts[i].position != q) ==>
      b.At(q) == food.At(q)
    ensures forall q :: food.InBounds(q) && b.At(q) != food.At(q) ==>
      || (q == pacStart && b.At(q) == PacMan)
      || exists i :: 0 <= i < |ghosts| && ghosts[i].position == q && b.At(q) == ghosts[i].name
  {
    var drawn := food.Set(pacStart, PacMan);
    DrawGhostsShowsLast(drawn, ghosts);
    DrawGhostsKeepsOthers(drawn, ghosts);
    DrawGhostsChangesOnlyUnderGhosts(drawn, ghosts);
    DrawGhosts(drawn, ghosts)
  }

  /** No ghost after index `i` stands on ghost `i`'s cell. */
  predicate LastAt(ghosts: seq<Ghost>, i: nat)
    requires i < |ghosts|
  {
    forall j :: i < j < |ghosts| ==> ghosts[j].position != ghosts[i].position
  }

  /** Draws each ghost's name at its position, in order, so that on a shared
      cell the later ghost's name is the one left visible. */
  function DrawGhosts(b: Board, ghosts: seq<Ghost>): (r: Board)
    requires b.Valid()
    requires forall i :: 0 <= i < |ghosts| ==> b.InBounds(ghosts[i].position)
    ensures r.Valid() && r.SameShape(b)
    decreases |ghosts|
  {
    if ghosts == [] then b
    else
      var last := ghosts[|ghosts| - 1];
      assert b.InBounds(last.position);
      DrawGhosts(b, ghosts[..|ghosts| - 1]).Set(last.position, last.name)
  }

  /** After drawing, a ghost that no later ghost covers shows its name. */
  lemma {:induction false} DrawGhostsShowsLast(b: Board, ghosts: seq<Ghost>)
    requires b.Valid()
    requires forall i :: 0 <= i < |ghosts| ==> b.InBounds(ghosts[i].position)
    ensures forall i :: 0 <= i < |ghosts| && LastAt(ghosts, i) ==>
      DrawGhosts(b, ghosts).InBounds(ghosts[i].position) && DrawGhosts(b, ghosts).At(ghosts[i].position) == ghosts[i].name
    decreases |ghosts|
  {
    if ghosts != [] {
      var last := ghosts[|ghosts| - 1];
      var init := ghosts[..|ghosts| - 1];
      DrawGhostsShowsLast(b, init);
      forall i | 0 <= i < |ghosts| && LastAt(ghosts, i)
        ensures DrawGhosts(b, ghosts).At(ghosts[i].position) == ghosts[i].name
      {
        if i < |init| {
          assert init[i] == ghosts[i];
          assert LastAt(init, i) by {
            forall j | i < j < |init|
              ensures init[j].position != init[i].position
            {
              assert init[j] == ghosts[j];
            }
          }
          assert ghosts[i].position != last.position;
        }
      }
    }
  }

  /** After drawing, a cell no ghost stands on is as it was. */
  lemma {:induction false} DrawGhostsKeepsOthers(b: Board, ghosts: seq<Ghost>)
    requires b.Valid()
    requires forall i :: 0 <= i < |ghosts| ==> b.InBounds(ghosts[i].position)
    ensures forall q :: b.InBounds(q) && (forall i :: 0 <= i < |ghosts| ==> ghosts[i].position != q) ==>
      DrawGhosts(b, ghosts).At(q) == b.At(q)
    decreases |ghosts|
  {
    if ghosts != [] {
      var last := ghosts[|ghosts| - 1];
      var init := ghosts[..|ghosts| - 1];
      DrawGhostsKeepsOthers(b, init);
      forall q | b.InBounds(q) && (forall i :: 0 <= i < |ghosts| ==> ghosts[i].position != q)
        ensures DrawGhosts(b, ghosts).At(q) == b.At(q)
      {
        assert forall i :: 0 <= i < |init| ==> init[i] == ghosts[i];
        assert q != last.position;
      }
    }
  }

  /** After drawing, a cell that changed shows the name of a ghost standing on it. */
  lemma {:induction false} DrawGhostsChangesOnlyUnderGhosts(b: Board, ghosts: seq<Ghost>)
    requires b.Valid()
    requires forall i :: 0 <= i < |ghosts| ==> b.InBounds(ghosts[i].position)
    ensures forall q :: b.InBounds(q) && DrawGhosts(b, ghosts).At(q) != b.At(q) ==>
      exists i :: 0 <= i < |ghosts| && ghosts[i].position == q && DrawGhosts(b, ghosts).At(q) == ghosts[i].name
    decreases |ghosts|
  {
    if ghosts != [] {
      var last := ghosts[|ghosts| - 1];
      var init := ghosts[..|ghosts| - 1];
      DrawGhostsChangesOnlyUnderGhosts(b, init);
      forall q | b.InBounds(q) && DrawGhosts(b, ghosts).At(q) != b.At(q)
        ensures exists i :: 0 <= i < |ghosts| && ghosts[i].position == q && DrawGhosts(b, ghosts).At(q) == ghosts[i].name
      {
        if q == last.position {
          assert ghosts[|ghosts| - 1].position == q;
        } else {
          var i :| 0 <= i < |init| && init[i].position == q && DrawGhosts(b, init).At(q) == init[i].name;
          assert ghosts[i] == init[i];
        }
      }
    }
  }

  /** The dots of a loaded layout are exactly its `.` characters. */
  lemma {:induction false} LayoutDotCount(layout: seq<string>)
    ensures CountDots(LayoutTiles(layout).tiles) == CountChar(layout, '.')
  {
    var w := MaxLength(layout);
    PaddedRowsDotCount(layout, w);
  }

  lemma {:induction false} PaddedRowsDotCount(layout: seq<string>, w: nat)
    requires forall r :: 0 <= r < |layout| ==> |layout[r]| <= w
    ensures CountDots(seq(|layout|, r requires 0 <= r < |layout| => PadRow(layout[r], w))) == CountChar(layout, '.')
    decreases |layout|
  {
    var rows := seq(|layout|, r requires 0 <= r < |layout| => PadRow(layout[r], w));
    if layout != [] {
      var tail := seq(|layout| - 1, r requires 0 <= r < |layout| - 1 => PadRow(layout[1..][r], w));
      assert rows[1..] == tail;
      PaddedRowsDotCount(layout[1..], w);
      PaddedRowDotCount(layout[0], w);
    }
  }

  lemma {:induction false} PaddedRowDotCount(s: string, w: nat)
    requires |s| <= w
    ensures CountDotsInRow(PadRow(s, w)) == CountCharInRow(s, '.')
    decreases w
  {
    var row := PadRow(s, w);
    if w > 0 {
      if s == [] {
        assert row[1..] == PadRow(s, w - 1);
      } else {
        assert row[1..] == PadRow(s[1..], w - 1);
      }
      PaddedRowDotCount(if s == [] then s else s[1..], w - 1);
    }
  }
}
