/** Values shared by the search and the game: an optional value (Java's
    nullable references), cells, directions, tiles and the board. */
module Optional {

  /** A Java reference that may be `null`. */
  datatype Option<+T> = None | Some(value: T)
}

module Grid {
  import opened Optional

  /** A board position; x grows eastwards (columns), y grows southwards (rows). */
  datatype Cell = Cell(x: int, y: int)

  datatype Direction = North | South | East | West

  datatype Axis = Horizontal | Vertical

  /** The tile kinds a board cell can hold; an empty cell holds no tile (Java `null`). */
  datatype Tile = SnakeBody | SnakeHead | Fruit

  /** A snake never becomes empty: every operation reads its head. Head first. */
  type Snake = s: seq<Cell> | |s| > 0 witness [Cell(0, 0)]

  function AxisOf(d: Direction): Axis
  {
    if d == East || d == West then Horizontal else Vertical
  }

  function Opposite(d: Direction): (r: Direction)
    ensures AxisOf(r) == AxisOf(d) && r != d
  {
    match d
    case North => South
    case South => North
    case East => West
    case West => East
  }

  /** The cell one step from `c` in direction `d`: East is x+1, West is x-1,
      South is y+1, North is y-1. */
  function Move(c: Cell, d: Direction): (r: Cell)
    ensures AxisOf(d) == Horizontal ==> r.y == c.y && (r.x == c.x + 1 || r.x == c.x - 1)
    ensures AxisOf(d) == Vertical ==> r.x == c.x && (r.y == c.y + 1 || r.y == c.y - 1)
  {
    match d
    case East => Cell(c.x + 1, c.y)
    case West => Cell(c.x - 1, c.y)
    case South => Cell(c.x, c.y + 1)
    case North => Cell(c.x, c.y - 1)
  }

  /** `to` is one orthogonal step away from `from`. */
  predicate Adjacent(from: Cell, to: Cell)
  {
    (from.y == to.y && (to.x == from.x + 1 || to.x == from.x - 1)) ||
    (from.x == to.x && (to.y == from.y + 1 || to.y == from.y - 1))
  }

  /** The direction comparison shared by the plan extraction: the x axis is
      tested before the y axis, East before West, South before North, and a
      cell that differs by one on neither axis gives `null`. */
  function DirectionBetween(from: Cell, to: Cell): (r: Option<Direction>)
    ensures Adjacent(from, to) ==> r.Some? && Move(from, r.value) == to
    ensures r.None? <==> (to.x != from.x + 1 && to.x != from.x - 1 &&
                          to.y != from.y + 1 && to.y != from.y - 1)
    // a column one away decides it, whatever the rows ...
    ensures to.x == from.x + 1 ==> r == Some(East)
    ensures to.x == from.x - 1 ==> r == Some(West)
    // ... and only otherwise does a row one away
    ensures to.x != from.x + 1 && to.x != from.x - 1 ==>
              (to.y == from.y + 1 ==> r == Some(South)) && (to.y == from.y - 1 ==> r == Some(North))
  {
    if to.x == from.x + 1 then Some(East)
    else if to.x == from.x - 1 then Some(West)
    else if to.y == from.y + 1 then Some(South)
    else if to.y == from.y - 1 then Some(North)
    else None
  }

  lemma DirectionBetweenMove(c: Cell, d: Direction)
    ensures DirectionBetween(c, Move(c, d)) == Some(d)
  {
  }

  /** The shared board: `cols` by `rows` cells (BoardPanel's COL_COUNT and
      ROW_COUNT) and the tiles placed on it; a cell without an entry is empty. */
  datatype Board = Board(cols: int, rows: int, tiles: map<Cell, Tile>)
  {
    predicate Valid()
    {
      cols > 0 && rows > 0
    }

    predicate InBounds(c: Cell)
    {
      0 <= c.x < cols && 0 <= c.y < rows
    }

    /** All cells of the board. */
    function Cells(): (r: set<Cell>)
      ensures forall c :: c in r <==> InBounds(c)
    {
      set x, y | 0 <= x < cols && 0 <= y < rows :: Cell(x, y)
    }

    function TileAt(c: Cell): Option<Tile>
    {
      if c in tiles then Some(tiles[c]) else None
    }

    /** BoardPanel.setTile: `None` clears the cell. */
    function SetTile(c: Cell, t: Option<Tile>): (r: Board)
      ensures r.cols == cols && r.rows == rows
      ensures r.TileAt(c) == t
      ensures forall c' :: c' != c ==> r.TileAt(c') == TileAt(c')
    {
      match t
      case None => this.(tiles := tiles - {c})
      case Some(k) => this.(tiles := tiles[c := k])
    }

    /** The integer key `x + COL_COUNT * y` under which plans store a cell. */
    function Key(c: Cell): int
    {
      c.x + cols * c.y
    }
  }

  /** Distinct in-bounds cells have distinct keys, so a plan keyed by cell
      never confuses two cells of the board. */
  lemma KeyInjective(b: Board, c1: Cell, c2: Cell)
    requires b.InBounds(c1) && b.InBounds(c2)
    requires b.Key(c1) == b.Key(c2)
    ensures c1 == c2
  {
    if c1.y < c2.y {
      RowStride(b.cols, c1.y, c2.y);
    } else if c2.y < c1.y {
      RowStride(b.cols, c2.y, c1.y);
    }
  }

  /** Two rows apart by at least one start at least `cols` keys apart. */
  lemma {:induction false} RowStride(cols: int, y1: int, y2: int)
    requires cols > 0 && y1 < y2
    ensures cols * y2 - cols * y1 >= cols
    decreases y2 - y1
  {
    if y2 - 1 > y1 {
      RowStride(cols, y1, y2 - 1);
      assert cols * y2 == cols * (y2 - 1) + cols;
    } else {
      assert cols * y2 == cols * y1 + cols;
    }
  }

  /** No cell occurs twice. */
  predicate Distinct(s: seq<Cell>)
  {
    forall i, j :: 0 <= i < j < |s| ==> s[i] != s[j]
  }

  /** The board shows exactly the snake: its cells are distinct and on the
      board, the head cell holds the head tile, every other snake cell a
      body tile, and no other cell holds either. */
  predicate OnBoard(b: Board, snake: Snake)
  {
    && b.Valid()
    && Distinct(snake)
    && (forall i :: 0 <= i < |snake| ==> b.InBounds(snake[i]))
    && b.TileAt(snake[0]) == Some(SnakeHead)
    && (forall i :: 0 < i < |snake| ==> b.TileAt(snake[i]) == Some(SnakeBody))
    && (forall c :: c in b.tiles && b.tiles[c] != Fruit ==> c in snake)
  }
}
