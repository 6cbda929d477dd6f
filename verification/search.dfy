/** The search state of SnakeGame's A* planner (the nested `GameState`
    record) and the search primitives: successor generation, the Manhattan
    heuristic, the goal test, the priority comparison and the recovery of the
    move that produced a state. */
module Search {
  import opened Optional
  import opened Grid

  /** One node of the A* search: the state it was generated from (`null` for
      the start), the simulated snake, the number of moves from the start and
      the queue priority. Java's `x`/`y` fields always equal the snake's head. */
  datatype SearchState = SearchState(parent: Option<SearchState>, snake: Snake, moves: int, priority: int)
  {
    function Head(): Cell
    {
      snake[0]
    }
  }

  /** Directions in the order `neighbors` generates successors. */
  const NeighborOrder: seq<Direction> := [East, West, North, South]

  function Abs(n: int): (r: int)
    ensures r >= 0 && (r == n || r == -n)
  {
    if n < 0 then -n else n
  }

  /** getHeuristic: Manhattan distance from the head to the fruit. */
  function Heuristic(head: Cell, fruit: Cell): (r: int)
    ensures r >= 0
    ensures r == 0 <==> head == fruit
  {
    Abs(head.x - fruit.x) + Abs(head.y - fruit.y)
  }

  /** isGoal: the head is on the fruit, that is, nothing of the Manhattan
      distance is left to cover. */
  function IsGoal(s: SearchState, fruit: Cell): (r: bool)
    ensures r <==> Heuristic(s.Head(), fruit) == 0
  {
    s.Head() == fruit
  }

  /** The state A* starts from: no parent, zero moves, priority the heuristic. */
  function StartState(snake: Snake, fruit: Cell): (r: SearchState)
    ensures r.parent.None? && r.snake == snake && r.moves == 0
    ensures r.priority == Heuristic(snake[0], fruit)
  {
    SearchState(None, snake, 0, Heuristic(snake[0], fruit))
  }

  /** The priority invariant every generated state keeps. */
  predicate PriorityIsCostPlusHeuristic(s: SearchState, fruit: Cell)
  {
    s.priority == s.moves + Heuristic(s.Head(), fruit)
  }

  /** compareTo: orders states by priority only. */
  function CompareTo(a: SearchState, b: SearchState): (r: int)
    ensures -1 <= r <= 1
    ensures r < 0 <==> a.priority < b.priority
    ensures r > 0 <==> a.priority > b.priority
  {
    if a.priority < b.priority then -1
    else if a.priority > b.priority then 1
    else 0
  }

  lemma CompareToAntisymmetric(a: SearchState, b: SearchState)
    ensures CompareTo(a, b) == -CompareTo(b, a)
    ensures CompareTo(a, b) == 0 <==> a.priority == b.priority
  {
  }

  /** generateNeighbor: the successor of `s` in direction `d`. The new head is
      pushed at the front and the tail is dropped, so the length is kept; the
      successor has one more move than `s` and `s` as its parent. */
  function GenerateNeighbor(s: SearchState, d: Direction, fruit: Cell): (r: SearchState)
    ensures r.parent == Some(s) && r.moves == s.moves + 1
    ensures r.Head() == Move(s.Head(), d)
    ensures |r.snake| == |s.snake|
    ensures r.snake[1..] == s.snake[..|s.snake| - 1]
    ensures PriorityIsCostPlusHeuristic(r, fruit)
  {
    var head := Move(s.Head(), d);
    SearchState(Some(s), [head] + s.snake[..|s.snake| - 1], s.moves + 1, s.moves + 1 + Heuristic(head, fruit))
  }

  /** neighbors: exactly four successors, East, West, North, South. */
  function Neighbors(s: SearchState, fruit: Cell): (r: seq<SearchState>)
    ensures |r| == 4
    ensures forall i :: 0 <= i < 4 ==> r[i] == GenerateNeighbor(s, NeighborOrder[i], fruit)
  {
    seq(4, i requires 0 <= i < 4 => GenerateNeighbor(s, NeighborOrder[i], fruit))
  }

  /** Every direction's successor is among the neighbours. */
  lemma NeighborsCoverAllDirections(s: SearchState, fruit: Cell, d: Direction)
    ensures GenerateNeighbor(s, d, fruit) in Neighbors(s, fruit)
  {
    var ns := Neighbors(s, fruit);
    match d
    case East => assert ns[0] == GenerateNeighbor(s, d, fruit);
    case West => assert ns[1] == GenerateNeighbor(s, d, fruit);
    case North => assert ns[2] == GenerateNeighbor(s, d, fruit);
    case South => assert ns[3] == GenerateNeighbor(s, d, fruit);
  }

  /** getStateDirection: the move from the parent's head to this head, `null`
      for the start state or when the two heads are not one step apart. */
  function StateDirection(s: SearchState): (r: Option<Direction>)
    ensures s.parent.None? ==> r.None?
    ensures s.parent.Some? && Adjacent(s.parent.value.Head(), s.Head()) ==>
              r.Some? && Move(s.parent.value.Head(), r.value) == s.Head()
  {
    if s.parent.None? then None
    else DirectionBetween(s.parent.value.Head(), s.Head())
  }

  /** Generating a neighbour and asking for its direction gives the direction
      back, and the neighbours come out in the fixed order. */
  lemma StateDirectionOfNeighbor(s: SearchState, d: Direction, fruit: Cell)
    ensures StateDirection(GenerateNeighbor(s, d, fruit)) == Some(d)
  {
    DirectionBetweenMove(s.Head(), d);
  }

  lemma NeighborsInOrder(s: SearchState, fruit: Cell)
    ensures forall i :: 0 <= i < 4 ==>
              Neighbors(s, fruit)[i].parent == Some(s) &&
              StateDirection(Neighbors(s, fruit)[i]) == Some(NeighborOrder[i])
  {
    forall i | 0 <= i < 4
      ensures StateDirection(Neighbors(s, fruit)[i]) == Some(NeighborOrder[i])
    {
      StateDirectionOfNeighbor(s, NeighborOrder[i], fruit);
    }
  }

  /** A successor's priority is its parent's or its parent's plus two: one
      move more, and a heuristic one lower or one higher. Hence the heuristic
      is consistent and priorities never drop along a path. */
  lemma PriorityStep(s: SearchState, d: Direction, fruit: Cell)
    requires PriorityIsCostPlusHeuristic(s, fruit)
    ensures var r := GenerateNeighbor(s, d, fruit);
            r.priority == s.priority || r.priority == s.priority + 2
  {
  }

  /** getInitialStateDirection: the direction from the board's centre cell
      (COL_COUNT / 2, ROW_COUNT / 2) to the second cell of the path. The
      actual start cell plays no part. */
  function InitialStateDirection(b: Board, second: Cell): (r: Option<Direction>)
    requires b.Valid()
    ensures Adjacent(Centre(b), second) ==> r.Some? && Move(Centre(b), r.value) == second
    ensures second.x == Centre(b).x + 1 ==> r == Some(East)
    ensures second.x == Centre(b).x - 1 ==> r == Some(West)
    ensures second.x != Centre(b).x + 1 && second.x != Centre(b).x - 1 ==>
              && (second.y == Centre(b).y + 1 ==> r == Some(South))
              && (second.y == Centre(b).y - 1 ==> r == Some(North))
              && (second.y != Centre(b).y + 1 && second.y != Centre(b).y - 1 ==> r == None)
  {
    DirectionBetween(Centre(b), second)
  }

  /** The cell a new game puts the head on. */
  function Centre(b: Board): (r: Cell)
    requires b.Valid()
    ensures b.InBounds(r)
  {
    Cell(b.cols / 2, b.rows / 2)
  }

  /** When the search starts from the centre, the initial direction is the
      first move of the path. */
  lemma InitialDirectionFromCentre(b: Board, start: SearchState, d: Direction, fruit: Cell)
    requires b.Valid() && start.Head() == Centre(b)
    ensures InitialStateDirection(b, GenerateNeighbor(start, d, fruit).Head()) == Some(d)
  {
    DirectionBetweenMove(start.Head(), d);
  }

  /** On every board, a search that starts two columns west of the centre
      and moves East reports West: the second cell is one column west of
      the centre, which is all the comparison looks at. */
  lemma InitialDirectionFromWestOfCentre(b: Board, fruit: Cell)
    requires b.Valid()
    ensures var start := StartState([Cell(Centre(b).x - 2, Centre(b).y)], fruit);
            InitialStateDirection(b, GenerateNeighbor(start, East, fruit).Head()) == Some(West)
  {
  }

  /** Away from the centre it is not: a 10 by 10 board, start (0, 0), first
      move East to (1, 0) yields `null`, since neither coordinate of (1, 0)
      is one away from the centre (5, 5). */
  lemma InitialDirectionIgnoresStart(fruit: Cell)
    ensures var b := Board(10, 10, map[]);
            var start := StartState([Cell(0, 0)], fruit);
            InitialStateDirection(b, GenerateNeighbor(start, East, fruit).Head()) == None
  {
  }
}
