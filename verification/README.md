# Grid chase game: a verified model of the engine and the ghost strategies

This project models the core of a Pac-Man-style browser game as pure Dafny
functions and methods over an immutable state, and proves what the game's
rules promise.

The **engine** (`Models/GameState.cs`) keeps two boards of the same shape:
- the visible `Board`, which shows terrain with the player and ghosts drawn over it;
- the `FoodMap`, the terrain beneath the entities.

On each tick the engine does four things in order:
1. It moves the player one cell. It takes the head of a bounded intent queue
   when that gives a valid move, falls back to the committed direction
   otherwise, and clears the queue when neither works.
2. It scores a dot (10) or a power pellet (50).
3. It moves each ghost one step in the direction a strategy chose for it. The
   vacated cell is restored from the food layer.
4. It ends the game on an unpowered collision, or once no dots remain.

A layout of strings is loaded into both boards, and the dots are counted.

The **classic strategy** (`Models/ClassicStrategy.cs`) sends each ghost one
step along a breadth-first shortest path. It explores the four-connected
non-wall cells in the order Left, Right, Up, Down. The path leads to the
ghost's inset corner while the ghost is in Scatter, and to the player in
Chase. A ghost switches to Chase, permanently, on the step that lands on its
corner.

The **random-walk strategy** (`Models/IGhostStrategy.cs`) contributes these
weight rules:
- the four candidate directions;
- the reverse of a heading;
- the integer weights 8 (straight), 5 (sideways) and 2 (reverse), or 1 for
  every direction when the ghost cannot keep going straight;
- the order by descending weight in which its sampler scans the candidates.

Modules:
- `Grid` (grid.dfy): directions, tiles, positions, the rectangular board with
  its position indexer, and the ghost record.
- `Engine` (engine.dfy): the engine state record and every engine operation.
  Operations require only what the code needs: rectangular boards and
  in-bounds entities.
- `EngineInvariants` (invariants.dfy): the invariant the engine keeps between
  ticks, with proofs that loading establishes it and every step preserves it.
  Under it, walls agree between the two boards, every dot or pellet shown is
  backed by the food layer, and `RemainingDots` equals the number of dots left
  in the food layer.
- `Classic` (classic.dfy): the search, path reconstruction, `GetDirection`,
  the corners and the Scatter/Chase machine.
- `RandomWalk` (random_walk.dfy): `possible_directions`, `opposite`,
  `directionScore`, and the order in which the sampler scans the candidates.

Behaviours of the code the model keeps:
- the search caches nothing;
- there is no victory flag, and running out of dots merely sets `IsGameOver`;
- `IsPoweredUp` is never cleared, because there is no power timer;
- eating a ghost earns nothing and nothing respawns;
- `RemainingDots` counts dots only, never pellets;
- the collision test comes before the dots test, though both only set
  `IsGameOver`.

## Model

| member | source | states |
|---|---|---|
| Grid.Board.At | Models/GameState.cs:44-53 | the position indexer reads what the two-index indexer holds at row `pos.Y`, column `pos.X`; the loader's contract is stated through the two-index indexer, and Engine.LoadedTileAtPosition joins the two |
| Grid.Board.Set | Models/GameState.cs:49-53 | writing through the position indexer keeps the grid rectangular with the same dimensions, stores the tile at that cell and leaves every other cell as it was |
| Engine.CalculateNewPosition | Models/GameState.cs:230-238 | `None` leaves the position unchanged and every other direction moves to an adjacent cell. Up and Down change only Y (Up decreases it, Down increases it); Left and Right change only X (Left decreases it, Right increases it) |
| Engine.CalculateNewPositionInjective | Models/GameState.cs:230-238 | two directions that lead from one cell to the same cell are the same direction |
| Engine.AdjacentHasDirection | Models/GameState.cs:230-238 | every cell sharing an edge with `p` is reached from `p` by some direction other than `None` |
| Engine.IsValidMove | Models/GameState.cs:241-248 | a cell outside the grid is never a valid move; a cell inside it is valid exactly when it holds no wall, so the player and ghosts do not block |
| Engine.IsValidPacmanMove | Models/GameState.cs:251 | the player's own cell never validates; any other cell validates exactly when it is a valid move |
| Engine.PacmanMoveNeedsDirection | Models/GameState.cs:241-251 | a player move validates exactly when its direction is not `None` and its target is in bounds and not a wall, so `None` never validates |
| Engine.PushMove | Models/GameState.cs:91-95 | `None`, the current direction or a full queue of 50 leaves the state unchanged; otherwise the direction is appended at the tail. Only the queue changes, the queue never exceeds 50 and never holds `None` |
| Engine.PushMovesBounded | Models/GameState.cs:91-95 | after any sequence of pushes the queue still holds at most 50 intents, none of them `None`, and nothing else in the state has changed |
| Engine.UpdatePosition | Models/GameState.cs:254-277 | the player is drawn at the new cell and the old cell becomes `Empty`. A dot adds 10, decrements `RemainingDots` and clears the food cell; a pellet adds 50, clears the food cell and sets `IsPoweredUp`; anything else scores nothing. Score never decreases and nothing else changes |
| Engine.NextMove | Models/GameState.cs:208-228 | once the game is over nothing changes. A valid queue head is dequeued, becomes the current direction and is taken. Otherwise the queue is untouched and a valid current direction is taken, or else the queue is cleared and the player stays. The player moves at most one cell, onto a valid one, and score never decreases |
| Engine.GhostAfter | Models/GameState.cs:194-203 | a ghost whose target is a valid move steps there and takes the requested direction; otherwise it keeps its position and direction. Its name never changes |
| Engine.MoveGhost | Models/GameState.cs:191-204 | with a valid target the ghost's name is drawn there, the vacated cell is restored from the food layer and no other cell changes; with an invalid target the state is unchanged. Only the board and that ghost change |
| Engine.MoveGhostsFrom | Models/GameState.cs:189-206 | the ghost loop keeps ghosts before the start index and moves each later one either not at all or exactly one step in its own requested direction; only the board and the ghosts change |
| Engine.NextGhostMove | Models/GameState.cs:189-206 | the ghost step keeps the state well formed and the number of ghosts; only the board and the ghosts change, and each ghost keeps its name and either stays as it was or takes one step in its own move |
| Engine.CheckGameOver | Models/GameState.cs:279-293 | `IsGameOver` is set exactly when it was already set, some ghost shares the player's cell while not powered up, or no dots remain; nothing else changes |
| Engine.Tick | Models/GameState.cs:182-184 | the player moves, then the ghosts, then the end check: score, position, queue and food layer are the player step's, the score never drops, a finished game stays finished with the player in place, and afterwards the game is over exactly when it already was, a ghost shares the player's cell while not powered up, or no dots remain |
| Engine.AsTile | Models/GameState.cs:112-120 | `w` maps to Wall, `.` to Dot and `o` to PowerPellet, and every other character to Empty; the result is always terrain |
| Engine.MaxLength | Models/GameState.cs:126 | the result is at least every row's length and equal to some row's length when there are rows |
| Engine.PadRow | Models/GameState.cs:127-135 | a loaded row has exactly `width` tiles: the line's characters through `AsTile`, then `Empty` for the columns the line does not reach |
| Engine.LayoutTiles | Models/GameState.cs:122-139 | the loaded grid has one row per layout line and as many columns as the longest line. Every character maps through `AsTile`, and the missing columns of short lines are `Empty` |
| Engine.LoadedTileAtPosition | Models/GameState.cs:122-139 | after loading, the tile read through the position indexer at (X, Y) is character X of line Y through `AsTile`, or `Empty` past the end of a short line |
| Engine.InitializeGame | Models/GameState.cs:102-155 | the food layer is the loaded layout, `RemainingDots` is the number of `.` characters, and score, flags, queue and direction start fresh. The player and the four ghosts stand at their start cells, and the board is the layout with them drawn over it |
| Engine.InitialGhosts | Models/GameState.cs:145-150 | four ghosts, named Pinky, Blinky, Inky and Clyde in that order, stand at their start cells with direction `None` |
| Engine.InitialBoard | Models/GameState.cs:140-155 | the board differs from the terrain only under the player or a ghost, and shows that entity there; a ghost drawn last on its cell is the one visible |
| Engine.DrawGhosts | Models/GameState.cs:153-156 | drawing the ghosts keeps the board rectangular and of the same shape; what it shows is stated by the three lemmas below |
| Engine.DrawGhostsShowsLast | Models/GameState.cs:152-155 | after the ghosts are drawn in order, each ghost not followed by another on its cell shows its name there |
| Engine.DrawGhostsKeepsOthers | Models/GameState.cs:152-155 | drawing the ghosts leaves every cell no ghost stands on as it was |
| Engine.DrawGhostsChangesOnlyUnderGhosts | Models/GameState.cs:152-155 | a cell changed by drawing the ghosts shows the name of a ghost standing on it |
| Engine.LayoutDotCount | Models/GameState.cs:129-139 | the dots in the loaded grid are exactly the `.` characters of the layout, padding included |
| Engine.PaddedRowsDotCount | Models/GameState.cs:129-139 | padding the rows to a common width keeps the dot count equal to the `.` count |
| Engine.PaddedRowDotCount | Models/GameState.cs:131-137 | a row padded with `Empty` has as many dots as its line has `.` characters |
| EngineInvariants.RowCountAfterUpdate | Models/GameState.cs:263-264 | overwriting one tile changes a row's dot count by the tile's dot value difference |
| EngineInvariants.GridCountAfterUpdate | Models/GameState.cs:263-264 | replacing one row changes the grid's dot count by the rows' difference |
| EngineInvariants.CountAfterSet | Models/GameState.cs:263-264 | writing one cell changes the board's dot count by the cell's dot value difference, so clearing a dot lowers it by exactly one |
| EngineInvariants.RowCountZero | Models/GameState.cs:289 | a row's dot count is zero exactly when the row holds no dot |
| EngineInvariants.GridCountZero | Models/GameState.cs:289 | a grid's dot count is zero exactly when no row holds a dot |
| EngineInvariants.NoDotsIffCountZero | Models/GameState.cs:289 | a board's dot count is zero exactly when no cell is a dot |
| EngineInvariants.InitialBoardAgrees | Models/GameState.cs:140-155 | drawing entities on non-wall start cells keeps walls, dots and pellets of the board backed by the terrain |
| EngineInvariants.LayoutIsTerrain | Models/GameState.cs:112-133 | a loaded layout holds terrain tiles only |
| EngineInvariants.InitializeGameEstablishesInv | Models/GameState.cs:102-155 | a loaded game whose start cells are not walls satisfies the engine invariant |
| EngineInvariants.PushMovePreservesInv | Models/GameState.cs:91-95 | pushing an intent keeps the engine invariant |
| EngineInvariants.UpdatePositionPreservesInv | Models/GameState.cs:254-277 | a valid player move keeps the engine invariant; in particular `RemainingDots` stays equal to the dots left in the food layer |
| EngineInvariants.NextMovePreservesInv | Models/GameState.cs:208-228 | the player step keeps the engine invariant |
| EngineInvariants.MoveGhostPreservesInv | Models/GameState.cs:191-204 | one ghost step keeps the engine invariant and leaves every wall of the board where it was |
| EngineInvariants.MoveGhostsFromPreservesInv | Models/GameState.cs:189-206 | the ghost loop keeps the engine invariant and the walls |
| EngineInvariants.GhostAfterDependsOnWalls | Models/GameState.cs:196-197 | two boards of one shape with the same walls move every ghost alike |
| EngineInvariants.MoveGhostsFromEffect | Models/GameState.cs:189-206 | under the invariant, each ghost's fate in the loop depends only on its own move and the walls at the start of the ghost step, not on the ghosts moved before it |
| EngineInvariants.NextGhostMoveEffect | Models/GameState.cs:189-206 | the ghost step keeps the invariant, and every ghost ends up where `GhostAfter` puts it on the board from before the step |
| EngineInvariants.TickPreservesInv | Models/GameState.cs:176-185 | a whole tick (player, ghosts, game-over check) keeps the engine invariant |
| EngineInvariants.RemainingDotsMeansDotsLeft | Models/GameState.cs:134-136 | under the invariant `RemainingDots` is never negative, and it is zero exactly when the food layer has no dot left, whatever pellets remain |
| EngineInvariants.PoweredCollisionHarmless | Models/GameState.cs:285-292 | a collision while powered up, with dots remaining, leaves the state unchanged |
| Classic.WithinBoundsIsInBounds | Models/ClassicStrategy.cs:8-11 | on a board's own row and column counts the search's bounds test is the board's, so the cells the search may enter are exactly the engine's valid moves |
| Classic.NeighborsUnrolled | Models/ClassicStrategy.cs:15-23 | the neighbour list is the valid steps Left, Right, Up, Down, in that order |
| Classic.NeighborsMembers | Models/ClassicStrategy.cs:15-23 | a cell is listed exactly when it is adjacent, in bounds and not a wall |
| Classic.NeighborsOrdered | Models/ClassicStrategy.cs:13-23 | the listed cells follow the order Left, Right, Up, Down |
| Classic.GetNeighbors | Models/ClassicStrategy.cs:8-23 | the neighbours are exactly the adjacent in-bounds non-wall cells, listed in the order Left, Right, Up, Down |
| Classic.ClosedAfterDiscovery | Models/ClassicStrategy.cs:54-58 | discovering a new cell leaves every fully explored cell fully explored |
| Classic.ReachedWithin | Models/ClassicStrategy.cs:35-60 | when every cell of the layers below `level` is fully explored, a walk of at most `level` steps ends on a discovered cell no deeper than the walk's length |
| Classic.FoundIsShortest | Models/ClassicStrategy.cs:39-50 | when the target is dequeued, the reconstructed path is a shortest path, and it is `[start]` when start is the target |
| Classic.Dequeue | Models/ClassicStrategy.cs:35-39 | when the head is taken off the queue, every cell of a shallower layer is fully explored, and the search facts hold one layer on |
| Classic.ExhaustedIsUnreachable | Models/ClassicStrategy.cs:35-63 | when the queue runs dry with the target never discovered, no path leads from start to target, so the empty result is correct |
| Classic.AppendKeepsLayers | Models/ClassicStrategy.cs:56-58 | enqueuing a newly discovered cell one layer deeper keeps the queue sorted by layer and within two adjacent layers |
| Classic.ParentsAfterDiscovery | Models/ClassicStrategy.cs:56-57 | a newly discovered neighbour may take the expanded cell as parent: every non-start discovered cell still has a parent one layer closer from which it is a search step |
| Classic.Discover | Models/ClassicStrategy.cs:54-59 | discovering a neighbour and enqueuing it keeps the search's queue, parent and layer facts |
| Classic.Expand | Models/ClassicStrategy.cs:52-60 | after scanning the neighbours of the dequeued cell it is fully explored, the search facts still hold, and an unchanged visited set means an unchanged queue |
| Classic.FindShortestPath | Models/ClassicStrategy.cs:26-64 | the result is empty exactly when no path to the target exists. Otherwise it starts at the start cell, ends at the target, steps between neighbours and no path is shorter; it is `[start]` when start is the target |
| Classic.ReconstructPath | Models/ClassicStrategy.cs:41-49 | following parents back from the target yields a path from start to target with one more cell than the target's layer |
| Classic.GetDirection | Models/ClassicStrategy.cs:83-90 | `None` exactly when both cells are equal; for adjacent cells the direction whose step leads from one to the other |
| Classic.GetDirectionInvertsStep | Models/ClassicStrategy.cs:83-90 | reading back the direction of a step recovers the direction |
| Classic.StepTowardIsValid | Models/ClassicStrategy.cs:106-111 | a non-`None` step toward a target lands on a valid cell and is never taken by a ghost standing on its target |
| Classic.FirstStep | Models/ClassicStrategy.cs:107-119 | the direction is `None` when the ghost is on its target or the target is unreachable, and otherwise the first hop of a shortest path |
| Classic.InitialClassicState | Models/ClassicStrategy.cs:73-74 | all four ghosts start in Scatter and no corners are computed yet |
| Classic.GetTargetCorners | Models/ClassicStrategy.cs:75-81 | the corners are (1,1), (W-2,1), (1,H-2) and (W-2,H-2) in ghost order, mirror images of one another, and in bounds on boards of at least 3 by 3 |
| Classic.PlanGhost | Models/ClassicStrategy.cs:103-135 | a ghost heads one shortest-path step toward its corner in Scatter or the player in Chase, and the step is a valid move. Scatter turns to Chase exactly when the step lands on the corner, Chase stays Chase, and a ghost on its target gets `None` and keeps its mode |
| Classic.GetNextMove | Models/ClassicStrategy.cs:93-138 | one shortest-path step per ghost toward its mode's target. The corners are computed on the first call only; Scatter turns to Chase exactly on the step that lands on the corner, and no ghost leaves Chase |
| Classic.ClassicTick | Models/GameState.cs:176-185 | the game loop's tick with this strategy: the strategy plans on the state after the player's step, gives one move per ghost, and the result is that tick's engine transition |
| RandomWalk.PossibleDirectionsAreCardinal | Models/IGhostStrategy.cs:11 | the candidates are exactly the four cardinal directions, each once, never `None` |
| RandomWalk.Opposite | Models/IGhostStrategy.cs:13-23 | the reverse of a cardinal direction is another cardinal direction and steps back onto the starting cell; `None` has no reverse |
| RandomWalk.OppositeInvolution | Models/IGhostStrategy.cs:13-23 | reversing twice gives back the direction, and distinct directions have distinct reverses |
| RandomWalk.OppositeSameAxis | Models/IGhostStrategy.cs:13-23 | a direction and its reverse move along the same axis by opposite amounts |
| RandomWalk.DirectionScore | Models/IGhostStrategy.cs:25-33 | every weight is positive |
| RandomWalk.StuckIsUniform | Models/IGhostStrategy.cs:27-31 | a ghost without a heading, or whose straight step is invalid, weighs every direction 1 |
| RandomWalk.MovingWeights | Models/IGhostStrategy.cs:32 | a ghost that can continue weighs straight 8, reverse 2 and each side 5 |
| RandomWalk.ScoreTotals | Models/IGhostStrategy.cs:25-42 | the four weights sum to 20 when the ghost can continue and to 4 otherwise; when it can continue, straight on is the unique heaviest and reverse the unique lightest |
| RandomWalk.RankedOrder | Models/IGhostStrategy.cs:48-51 | the candidates by descending weight: a ghost that cannot continue keeps the order Up, Down, Left, Right; one that can lists straight on, then the two sides in candidate order, then the reverse |
| RandomWalk.RankedIsStableSort | Models/IGhostStrategy.cs:48-51 | the ranked order holds each candidate exactly once, its weights never increase, and candidates of equal weight keep their candidate order, as the stable `OrderByDescending` does |
| RandomWalk.GetNextMove | Models/IGhostStrategy.cs:36-65 | one move per ghost, always one of the candidates. Where the cumulative scan stopped selects that entry of the ghost's ranked order, so stopping at the first entry keeps a ghost that can continue going straight; a scan that never stopped leaves the array default `Up` |

## Left out

- The game loop's timer, task, start, stop and dispose, and the `Updated`
  event (`Models/GameState.cs:160-187`, `295-298`) are asynchronous plumbing.
  A single tick is modelled as `Engine.Tick` and `Classic.ClassicTick`.
- Concurrency: the game loop runs on a thread-pool task
  (`Models/GameState.cs:165`), while the public `PushMove`
  (`Models/GameState.cs:91-95`) is called from outside it. Both read or write
  the unsynchronised intent queue and current direction
  (`Models/GameState.cs:79-80`). The model treats each push and each tick as
  one atomic step, interleaved in some order, and does not model a push that
  overlaps part of a tick.
- `Components/Pages/PacmanGame.razor.js` is browser audio with no game logic.
- The built-in layout `KnownBoards.layout1` is not part of this model. The
  layout and the start cells (player at (14,23), ghosts at (13..16,14)) are
  parameters. They must be in bounds, as the code would otherwise throw. An
  empty layout is excluded by the same requirement.
- RandomWalk.GetNextMove: the `NextDouble` draw and the floating-point
  normalisation and cumulative sum are left out. Where the scan stopped in
  the ranked order is a parameter, so the contract does not state how likely
  each move is. The ranked order itself is exact, because it sorts integer
  weights and normalising by their sum keeps that order.
- Engine.UpdatePosition: the score is an unbounded integer, while the code's
  `int` would wrap after about 2^31 points.
- EngineInvariants.InitializeGameEstablishesInv: it additionally requires that
  no start cell is a wall. The code does not check this, and a ghost or the
  player drawn over a wall would hide it from `IsValidMove`.
- Classic.GetNextMove: with more than four ghosts the code indexes past its
  four-entry state array and throws; the model requires at most four ghosts.
- Classic.FindShortestPath: when several shortest paths tie, the contract
  promises one of them, not the one the code returns. The code's fixed
  neighbour order Left, Right, Up, Down and first-discovery-wins parents
  (`Models/ClassicStrategy.cs:13-17`, `52-58`) pick a single path; the model's
  body does the same, but that tie-break is not stated or proved.
- Classic.FirstStep: for the same reason it promises the first hop of some
  shortest path, not the earliest of Left, Right, Up, Down that starts one,
  which is the hop the code takes.
- Classic.PlanGhost: inherits FirstStep's open tie-break; the Scatter/Chase
  rules are stated in full.
- Classic.GetNextMove: inherits the same open tie-break, so where shortest
  paths tie each ghost's move is one of the tied first hops rather than the
  single one the code chooses.
- Classic.ClassicTick: the strategy moves it passes to `Engine.Tick` are
  constrained only up to that tie-break.
- Layouts are taken to be ASCII. The code measures and indexes layout lines in
  UTF-16 code units (`Models/GameState.cs:126-133`), while the model's strings
  are sequences of Unicode scalar values, so a character outside the Basic
  Multilingual Plane would be two `Empty` columns there and one column here.
- The strategy objects' mutable fields (`currentState`, `targetCorners`)
  become an explicit `ClassicState` value passed in and returned.
