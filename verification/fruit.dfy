/** The fruit placement of SnakeGame.spawnFruit (SnakeGame.java:793-827):
    the fruit goes on the `index`-th free cell, counting column by column
    (x outer, y inner), where a free cell is empty or holds a fruit. */
module Fruit {
  import opened Optional
  import opened Grid

  /** A cell the placement counts: no tile, or a fruit tile. */
  predicate Free(b: Board, c: Cell)
  {
    b.TileAt(c) == None || b.TileAt(c) == Some(Fruit)
  }

  /** The cells (x, 0) .. (x, y - 1) whose freeness is `free`, in scan order. */
  function ColumnScan(b: Board, x: int, y: int, free: bool): seq<Cell>
    decreases y
  {
    if y <= 0 then []
    else ColumnScan(b, x, y - 1, free) + (if Free(b, Cell(x, y - 1)) == free then [Cell(x, y - 1)] else [])
  }

  /** The cells of columns 0 .. x - 1 whose freeness is `free`, in scan order. */
  function BoardScan(b: Board, x: int, free: bool): seq<Cell>
    decreases x
  {
    if x <= 0 then []
    else BoardScan(b, x - 1, free) + ColumnScan(b, x - 1, b.rows, free)
  }

  /** The free cells in the order the placement counts them. */
  function FreeCells(b: Board): seq<Cell>
  {
    BoardScan(b, b.cols, true)
  }

  /** The occupied (snake) cells in the same order. */
  function OccupiedCells(b: Board): seq<Cell>
  {
    BoardScan(b, b.cols, false)
  }

  /** A column scan holds exactly the matching cells of its column prefix,
      each once. */
  lemma {:induction false} ColumnScanMembers(b: Board, x: int, y: int, free: bool)
    ensures forall c :: c in ColumnScan(b, x, y, free) <==> c.x == x && 0 <= c.y < y && Free(b, c) == free
    ensures Distinct(ColumnScan(b, x, y, free))
    decreases y
  {
    if y > 0 {
      ColumnScanMembers(b, x, y - 1, free);
    }
  }

  /** A board scan holds exactly the matching cells of its columns, each once. */
  lemma {:induction false} BoardScanMembers(b: Board, x: int, free: bool)
    ensures forall c :: c in BoardScan(b, x, free) <==> 0 <= c.x < x && 0 <= c.y < b.rows && Free(b, c) == free
    ensures Distinct(BoardScan(b, x, free))
    decreases x
  {
    if x > 0 {
      BoardScanMembers(b, x - 1, free);
      ColumnScanMembers(b, x - 1, b.rows, free);
      var s, t := BoardScan(b, x - 1, free), ColumnScan(b, x - 1, b.rows, free);
      forall i, j | 0 <= i < j < |s + t|
        ensures (s + t)[i] != (s + t)[j]
      {
        if j < |s| {
        } else if i >= |s| {
          assert (s + t)[i] == t[i - |s|] && (s + t)[j] == t[j - |s|];
        } else {
          assert (s + t)[i] in s && (s + t)[j] == t[j - |s|];
        }
      }
    }
  }

  /** `FreeCells` lists every free cell of the board exactly once. */
  lemma FreeCellsMembers(b: Board)
    ensures forall c :: c in FreeCells(b) <==> b.InBounds(c) && Free(b, c)
    ensures Distinct(FreeCells(b))
  {
    BoardScanMembers(b, b.cols, true);
  }

  /** Every cell scanned is counted as free or as occupied. */
  lemma {:induction false} ColumnScanCount(b: Board, x: int, y: int)
    requires y >= 0
    ensures |ColumnScan(b, x, y, true)| + |ColumnScan(b, x, y, false)| == y
    decreases y
  {
    if y > 0 {
      ColumnScanCount(b, x, y - 1);
    }
  }

  lemma {:induction false} BoardScanCount(b: Board, x: int)
    requires x >= 0 && b.rows >= 0
    ensures |BoardScan(b, x, true)| + |BoardScan(b, x, false)| == x * b.rows
    decreases x
  {
    if x > 0 {
      BoardScanCount(b, x - 1);
      ColumnScanCount(b, x - 1, b.rows);
      assert x * b.rows == (x - 1) * b.rows + b.rows;
    }
  }

  /** A sequence without repeats has as many elements as its set. */
  lemma {:induction false} DistinctCard(s: seq<Cell>)
    requires Distinct(s)
    ensures |set c | c in s| == |s|
  {
    if |s| > 0 {
      var t := s[..|s| - 1];
      assert Distinct(t);
      DistinctCard(t);
      assert (set c | c in s) == (set c | c in t) + {s[|s| - 1]};
      assert s[|s| - 1] !in t;
    }
  }

  /** On a board that shows exactly the snake, the free cells number the
      board's cells minus the snake's length, the bound spawnFruit draws
      the index below. */
  lemma FreeCellCount(b: Board, snake: Snake)
    requires OnBoard(b, snake)
    ensures |FreeCells(b)| == b.cols * b.rows - |snake|
  {
    BoardScanCount(b, b.cols);
    BoardScanMembers(b, b.cols, false);
    var occ := OccupiedCells(b);
    assert (set c | c in occ) == (set c | c in snake) by {
      forall c | c in snake
        ensures c in occ
      {
        var i :| 0 <= i < |snake| && snake[i] == c;
        assert b.InBounds(snake[i]);
      }
      forall c | c in occ
        ensures c in snake
      {
        assert c in b.tiles && b.tiles[c] != Fruit;
      }
    }
    DistinctCard(occ);
    DistinctCard(snake);
  }

  /** A column's scan up to and including a free cell ends with that cell. */
  lemma {:induction false} ColumnScanPrefix(b: Board, x: int, y: int, y': int, free: bool)
    requires y <= y'
    ensures ColumnScan(b, x, y, free) <= ColumnScan(b, x, y', free)
    decreases y' - y
  {
    if y < y' {
      ColumnScanPrefix(b, x, y, y' - 1, free);
    }
  }

  lemma {:induction false} BoardScanPrefix(b: Board, x: int, x': int, free: bool)
    requires x <= x'
    ensures BoardScan(b, x, free) <= BoardScan(b, x', free)
    decreases x' - x
  {
    if x < x' {
      BoardScanPrefix(b, x, x' - 1, free);
    }
  }

  /** The free cell (x, y) sits in `FreeCells` right after the free cells
      scanned before it. */
  lemma FreeCellPosition(b: Board, x: int, y: int)
    requires 0 <= x < b.cols && 0 <= y < b.rows && Free(b, Cell(x, y))
    ensures var k := |BoardScan(b, x, true)| + |ColumnScan(b, x, y, true)|;
            k < |FreeCells(b)| && FreeCells(b)[k] == Cell(x, y)
  {
    var p := BoardScan(b, x, true) + ColumnScan(b, x, y + 1, true);
    ColumnScanPrefix(b, x, y + 1, b.rows, true);
    BoardScanPrefix(b, x + 1, b.cols, true);
    assert p <= BoardScan(b, x + 1, true);
    assert p[|p| - 1] == Cell(x, y);
  }

  /** The placement loop of spawnFruit: count free cells column by column
      and put the fruit on the one numbered `index` (from zero). The `break`
      leaves only the inner loop; the counter has passed `index` by then,
      so no later cell matches. */
  method PlaceFruit(b: Board, fruit: Cell, index: int) returns (b': Board, fruit': Cell)
    requires b.Valid() && index >= 0
    ensures index < |FreeCells(b)| ==>
              b' == b.SetTile(FreeCells(b)[index], Some(Fruit)) && fruit' == FreeCells(b)[index]
    ensures index >= |FreeCells(b)| ==> b' == b && fruit' == fruit
  {
    b', fruit' := b, fruit;
    var freeFound := -1;
    var x := 0;
    while x < b.cols
      invariant 0 <= x <= b.cols
      invariant freeFound < index ==> b' == b && fruit' == fruit && freeFound == |BoardScan(b, x, true)| - 1
      invariant freeFound >= index ==> index < |FreeCells(b)| && fruit' == FreeCells(b)[index] &&
                                       b' == b.SetTile(FreeCells(b)[index], Some(Fruit))
    {
      var y := 0;
      while y < b.rows
        invariant 0 <= y <= b.rows
        invariant freeFound < index ==>
                    b' == b && fruit' == fruit &&
                    freeFound == |BoardScan(b, x, true)| + |ColumnScan(b, x, y, true)| - 1
        invariant freeFound >= index ==> index < |FreeCells(b)| && fruit' == FreeCells(b)[index] &&
                                         b' == b.SetTile(FreeCells(b)[index], Some(Fruit))
      {
        var t := b'.TileAt(Cell(x, y));
        if t == None || t == Some(Fruit) {
          freeFound := freeFound + 1;
          if freeFound == index {
            FreeCellPosition(b, x, y);
            b' := b'.SetTile(Cell(x, y), Some(Fruit));
            fruit' := Cell(x, y);
            break;
          }
        }
        y := y + 1;
      }
      x := x + 1;
    }
  }

  /** The placed fruit lands on a free cell of the board, and the board
      still shows exactly the snake. */
  lemma PlacedFruitIsFree(b: Board, snake: Snake, index: int)
    requires OnBoard(b, snake) && 0 <= index < |FreeCells(b)|
    ensures var c := FreeCells(b)[index];
            b.InBounds(c) && Free(b, c) && c !in snake &&
            OnBoard(b.SetTile(c, Some(Fruit)), snake)
  {
    FreeCellsMembers(b);
    var c := FreeCells(b)[index];
    assert c in FreeCells(b);
    forall i | 0 <= i < |snake|
      ensures snake[i] != c
    {
      if i > 0 {
        assert b.TileAt(snake[i]) == Some(SnakeBody);
      }
    }
  }
}
