/** Board primitives of the chase game: directions, tile kinds, positions, the
    rectangular tile grid with its position indexer, and the ghost record. */
module Grid {

  /** The four cardinal directions plus `None`, "no movement". */
  datatype Direction = Up | Down | Left | Right | None

  /** What a cell shows: terrain (Empty, Wall, Dot, PowerPellet) or the entity
      standing on it (PacMan or one of the four ghost names). */
  datatype TileType = Empty | Wall | Dot | PowerPellet | PacMan | Blinky | Pinky | Inky | Clyde

  /** A cell coordinate: `x` is the column, `y` the row. No inherent bounds. */
  datatype Position = Position(x: int, y: int)

  /** Terrain tiles, the only kinds the food layer ever holds. */
  predicate IsTerrain(t: TileType) {
    t == Empty || t == Wall || t == Dot || t == PowerPellet
  }

  /** Entity overlays: the player or a ghost name. */
  predicate IsEntity(t: TileType) {
    t == PacMan || t == Blinky || t == Pinky || t == Inky || t == Clyde
  }

  /** `q` is one of the four cells sharing an edge with `p`. */
  predicate Adjacent(p: Position, q: Position) {
    || (q.x == p.x && (q.y == p.y - 1 || q.y == p.y + 1))
    || (q.y == p.y && (q.x == p.x - 1 || q.x == p.x + 1))
  }

  /** A grid of tiles stored row-major, `tiles[row][col]`, i.e. `tiles[y][x]`.
      `width` is kept explicitly, like the column extent of a 2D array. */
  datatype Board = Board(tiles: seq<seq<TileType>>, width: nat) {

    function Height(): nat {
      |tiles|
    }

    /** Every row has exactly `width` columns. */
    predicate Valid() {
      forall r :: 0 <= r < |tiles| ==> |tiles[r]| == width
    }

    predicate InBounds(p: Position) {
      0 <= p.x < width && 0 <= p.y < |tiles|
    }

    /** The two-index indexer `board[row, col]`. */
    function Cell(row: nat, col: nat): TileType
      requires Valid() && row < |tiles| && col < width
    {
      tiles[row][col]
    }

    /** The position indexer `board[pos]`: the Y coordinate picks the row and
        the X coordinate the column. */
    function At(p: Position): (t: TileType)
      requires Valid() && InBounds(p)
      ensures t == Cell(p.y, p.x)
    {
      tiles[p.y][p.x]
    }

    /** Writing through the position indexer: one cell changes, the shape and
        every other cell stay. */
    function Set(p: Position, t: TileType): (b: Board)
      requires Valid() && InBounds(p)
      ensures b.Valid() && b.width == width && b.Height() == Height()
      ensures b.At(p) == t
      ensures forall q :: InBounds(q) && q != p ==> b.At(q) == At(q)
    {
      Board(tiles[p.y := tiles[p.y][p.x := t]], width)
    }

    /** Same shape as `other`. */
    predicate SameShape(other: Board) {
      width == other.width && |tiles| == |other.tiles|
    }
  }

  /** A ghost: its name (the tile drawn where it stands), position and last direction. */
  datatype Ghost = Ghost(name: TileType, position: Position, direction: Direction)
}
