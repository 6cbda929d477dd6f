/** The game step of SnakeGame: the bounded queue of requested directions,
    the planned-direction lookup, the snake update, the game update and the
    "n-th free cell" fruit placement followed by a fresh A* plan. */
module Game {
  import opened Optional
  import opened Grid
  import opened Search
  import opened AStar
  import opened Plan
  import opened Fruit

  /** MIN_SNAKE_LENGTH: the tail is kept, so the snake grows, on every step
      until the snake is longer than this. */
  const MinSnakeLength: int := 5

  /** MAX_DIRECTIONS: the most directions a key press may leave queued. */
  const MaxDirections: int := 3

  /** The fields of SnakeGame that the game logic reads and writes. Queued
      and planned directions may be `null` (`None`). */
  datatype Game = Game(
    board: Board,
    snake: Snake,
    directions: seq<Option<Direction>>,
    paused: bool,
    gameOver: bool,
    score: int,
    fruitsEaten: int,
    nextFruitScore: int,
    fruit: Cell,
    directionMap: map<int, Option<Direction>>)

  /** Why a step throws instead of returning. */
  datatype Crash =
      /** `switch` on a `null` queued direction in updateSnake. */
    | NullDirectionSwitch
      /** A* polled an empty queue after a skip and dereferenced the `null`. */
    | SearchNullPoll
      /** `Random.nextInt` with a bound that is not positive. */
    | NoFreeCellBound

  datatype Result = Running(game: Game) | Crashed(crash: Crash)

  /** The last queued direction lies on the other axis from `d`, or there is
      none, or it is `null`. */
  predicate TurnsFrom(q: seq<Option<Direction>>, d: Direction)
  {
    |q| == 0 || q[|q| - 1].None? || AxisOf(q[|q| - 1].value) != AxisOf(d)
  }

  /** goNorth, goSouth, goEast and goWest (SnakeGame.java:271-313): queue `d`
      when the game runs, the queue is not full and the last queued
      direction is neither `d` nor its opposite. */
  function Go(g: Game, d: Direction): (r: Game)
    ensures r == g || r == g.(directions := g.directions + [Some(d)])
    ensures r != g <==> !g.paused && !g.gameOver && |g.directions| < MaxDirections && TurnsFrom(g.directions, d)
  {
    if !g.paused && !g.gameOver && |g.directions| < MaxDirections then
      var last := if |g.directions| == 0 then None else g.directions[|g.directions| - 1];
      if last != Some(Opposite(d)) && last != Some(d) then
        g.(directions := g.directions + [Some(d)])
      else g
    else g
  }

  /** The same key twice queues its direction at most once. */
  lemma GoTwice(g: Game, d: Direction)
    ensures Go(Go(g, d), d) == Go(g, d)
  {
  }

  /** Key presses never push the queue past MAX_DIRECTIONS. */
  lemma GoKeepsQueueBound(g: Game, d: Direction)
    requires |g.directions| <= MaxDirections
    ensures |Go(g, d).directions| <= MaxDirections
  {
  }

  /** checkActionList (SnakeGame.java:320-343): when the plan has a non-null
      direction for the head's cell, queue it and consume the entry; a
      `null` entry returns early and stays in the table. */
  function CheckActionList(g: Game): (r: Game)
    requires g.board.Valid()
    ensures var key := g.board.Key(g.snake[0]);
            && (r != g <==> key in g.directionMap && g.directionMap[key].Some?)
            && (r != g ==> r == g.(directions := g.directions + [g.directionMap[key]],
                                   directionMap := g.directionMap - {key}))
  {
    var key := g.board.Key(g.snake[0]);
    if key in g.directionMap then
      match g.directionMap[key]
      case None => g
      case Some(d) => g.(directions := g.directions + [Some(d)], directionMap := g.directionMap - {key})
    else g
  }

  /** Looking a cell up twice consumes at most one entry. */
  lemma CheckActionListTwice(g: Game)
    requires g.board.Valid()
    ensures CheckActionList(CheckActionList(g)) == CheckActionList(g)
  {
  }

  /** A `null` entry for the head's cell is never consumed, so the lookup
      sees it again on every later step from that cell. */
  lemma NullEntryPersists(g: Game)
    requires g.board.Valid()
    requires g.board.Key(g.snake[0]) in g.directionMap && g.directionMap[g.board.Key(g.snake[0])].None?
    ensures CheckActionList(g) == g
  {
  }

  /** Unlike a key press, the lookup queues without checking the bound. */
  lemma CheckActionListIgnoresQueueBound(g: Game)
    requires g.board.Valid() && |g.directions| == MaxDirections
    requires g.board.Key(g.snake[0]) in g.directionMap && g.directionMap[g.board.Key(g.snake[0])].Some?
    ensures |CheckActionList(g).directions| == MaxDirections + 1
  {
  }

  /** What updateSnake returns: the tile the head moved into (`None` when
      nothing was queued), or the `NullPointerException` of a `null` direction. */
  datatype SnakeStep = Moved(game: Game, collision: Option<Tile>) | NullDirection

  /** updateSnake (SnakeGame.java:625-709). */
  function UpdateSnake(g: Game): (r: SnakeStep)
    // an empty queue changes nothing and reports no tile
    ensures |g.directions| == 0 ==> r == Moved(g, None)
    // a null direction at the front throws
    ensures r.NullDirection? <==> |g.directions| > 0 && g.directions[0].None?
    // a move off the board changes nothing and reports SnakeBody
    ensures |g.directions| > 0 && g.directions[0].Some? && !g.board.InBounds(Move(g.snake[0], g.directions[0].value)) ==>
              r == Moved(g, Some(SnakeBody))
    // only the board, the snake and the queue ever change
    ensures r.Moved? ==> r.game == g.(board := r.game.board, snake := r.game.snake, directions := r.game.directions)
    ensures r.Moved? ==> r.game.board.cols == g.board.cols && r.game.board.rows == g.board.rows
    ensures r.Moved? && g.board.InBounds(g.snake[0]) ==> g.board.InBounds(r.game.snake[0])
    ensures r.Moved? && |g.directions| > 0 && g.board.InBounds(Move(g.snake[0], g.directions[0].value)) ==>
              var head := Move(g.snake[0], g.directions[0].value);
              var cut := g.board.TileAt(head) != Some(Fruit) && |g.snake| > MinSnakeLength;
              var body := if cut then g.snake[..|g.snake| - 1] else g.snake;
              var board1 := if cut then g.board.SetTile(g.snake[|g.snake| - 1], None) else g.board;
              // the tail goes only when the target is not a fruit and the snake is
              // long enough; the tile reported is the target's once the tail is gone
              && r.collision == board1.TileAt(head)
              // unless that tile is SnakeBody, the old head becomes body and the
              // target the new head, on the board and in the snake
              && r.game.board == (if r.collision != Some(SnakeBody)
                                  then board1.SetTile(g.snake[0], Some(SnakeBody)).SetTile(head, Some(SnakeHead))
                                  else board1)
              && (r.collision != Some(SnakeBody) <==> r.game.snake == [head] + body)
              && (r.collision == Some(SnakeBody) <==> r.game.snake == body)
              // the queue is polled exactly when the head moved and more than one direction waits
              && r.game.directions == (if r.collision != Some(SnakeBody) && |g.directions| > 1
                                       then g.directions[1..] else g.directions)
  {
    if |g.directions| == 0 then Moved(g, None)
    else
      match g.directions[0]
      case None => NullDirection
      case Some(d) =>
        var head := Move(g.snake[0], d);
        if !g.board.InBounds(head) then Moved(g, Some(SnakeBody))
        else
          var cut := g.board.TileAt(head) != Some(Fruit) && |g.snake| > MinSnakeLength;
          var board1 := if cut then g.board.SetTile(g.snake[|g.snake| - 1], None) else g.board;
          var snake1: Snake := if cut then g.snake[..|g.snake| - 1] else g.snake;
          var hit := board1.TileAt(head);
          if hit != Some(SnakeBody) then
            var board2 := board1.SetTile(snake1[0], Some(SnakeBody)).SetTile(head, Some(SnakeHead));
            var queue := if |g.directions| > 1 then g.directions[1..] else g.directions;
            Moved(g.(board := board2, snake := [head] + snake1, directions := queue), hit)
          else
            Moved(g.(board := board1, snake := snake1), hit)
  }

  /** A step that moves the snake keeps the board showing exactly the snake. */
  lemma UpdateSnakeKeepsOnBoard(g: Game)
    requires OnBoard(g.board, g.snake) && UpdateSnake(g).Moved?
    ensures OnBoard(UpdateSnake(g).game.board, UpdateSnake(g).game.snake)
  {
    if |g.directions| > 0 && g.board.InBounds(Move(g.snake[0], g.directions[0].value)) {
      var head := Move(g.snake[0], g.directions[0].value);
      StepInBounds(g, head);
    }
  }

  /** The in-bounds step as a cut followed, unless the head hits the body,
      by a push. */
  lemma StepInBounds(g: Game, head: Cell)
    requires OnBoard(g.board, g.snake) && |g.directions| > 0 && g.directions[0].Some?
    requires head == Move(g.snake[0], g.directions[0].value) && g.board.InBounds(head)
    ensures OnBoard(UpdateSnake(g).game.board, UpdateSnake(g).game.snake)
  {
    var n := |g.snake|;
    var cut := g.board.TileAt(head) != Some(Fruit) && n > MinSnakeLength;
    OnBoardAfterCut(g.board, g.snake, cut);
    var board1 := if cut then g.board.SetTile(g.snake[n - 1], None) else g.board;
    var snake1: Snake := if cut then g.snake[..n - 1] else g.snake;
    var r := UpdateSnake(g);
    if board1.TileAt(head) != Some(SnakeBody) {
      OnBoardAfterPush(board1, snake1, head);
      assert r.game.board == board1.SetTile(snake1[0], Some(SnakeBody)).SetTile(head, Some(SnakeHead));
      assert r.game.snake == [head] + snake1;
    } else {
      assert r.game.board == board1 && r.game.snake == snake1;
    }
  }

  /** Removing the tail from the snake and from the board. */
  lemma OnBoardAfterCut(b: Board, snake: Snake, cut: bool)
    requires OnBoard(b, snake) && (cut ==> |snake| > 1)
    ensures var n := |snake|;
            OnBoard(if cut then b.SetTile(snake[n - 1], None) else b,
                    if cut then snake[..n - 1] else snake)
  {
    if cut {
      var n := |snake|;
      var b1 := b.SetTile(snake[n - 1], None);
      var s1: Snake := snake[..n - 1];
      forall c | c in b1.tiles && b1.tiles[c] != Fruit
        ensures c in s1
      {
        var i :| 0 <= i < n && snake[i] == c;
        assert i != n - 1;
        assert s1[i] == c;
      }
    }
  }

  /** Pushing a new head onto a cell that is next to the old head and holds
      no body tile. */
  lemma OnBoardAfterPush(b: Board, snake: Snake, head: Cell)
    requires OnBoard(b, snake) && b.InBounds(head) && Adjacent(snake[0], head)
    requires b.TileAt(head) != Some(SnakeBody)
    ensures OnBoard(b.SetTile(snake[0], Some(SnakeBody)).SetTile(head, Some(SnakeHead)), [head] + snake)
  {
    var b2 := b.SetTile(snake[0], Some(SnakeBody)).SetTile(head, Some(SnakeHead));
    var s2: Snake := [head] + snake;
    assert head != snake[0];
    forall i | 0 <= i < |snake|
      ensures snake[i] != head
    {
      if i > 0 {
        assert b.TileAt(snake[i]) == Some(SnakeBody);
      }
    }
    forall i | 0 < i < |s2|
      ensures b2.TileAt(s2[i]) == Some(SnakeBody)
    {
      assert s2[i] == snake[i - 1];
    }
    forall c | c in b2.tiles && b2.tiles[c] != Fruit
      ensures c in s2
    {
      if c != head && c != snake[0] {
        assert c in snake;
      }
    }
  }

  /** The snake only gets shorter on the step that ends the game: the tail
      is removed and the head then runs into the body. */
  lemma ShrinksOnlyWhenDying(g: Game)
    requires UpdateSnake(g).Moved? && |UpdateSnake(g).game.snake| < |g.snake|
    ensures UpdateSnake(g).collision == Some(SnakeBody)
    ensures |UpdateSnake(g).game.snake| == |g.snake| - 1 && |g.snake| > MinSnakeLength
  {
  }

  /** What holds between steps of a running game: the board shows exactly
      the snake, and the next fruit's score lies between its floor of 10
      and its reset value of 100. */
  predicate GameInv(g: Game)
  {
    OnBoard(g.board, g.snake) && 10 <= g.nextFruitScore <= 100
  }

  /** How SnakeGame.AStar (SnakeGame.java:405-489) leaves the game once its
      search has ended with `out`: a null poll throws, and otherwise the plan
      read off the final state replaces the queued directions and the
      direction table. */
  predicate Replanned(g: Game, out: Outcome, r: Result)
    requires g.board.Valid()
  {
    if out.NullPoll? then r == Crashed(SearchNullPoll)
    else r == Running(g.(directions := PlanOf(out.state, g.board).directions,
                         directionMap := PlanOf(out.state, g.board).directionMap))
  }

  /** SnakeGame.AStar (SnakeGame.java:405-489): search from the snake to the
      fruit and install the plan read off the state the search stopped on.
      `out` is how the search ended, `run` the loop states it went through
      and `expanded` the cells it expanded. */
  method Replan(g: Game) returns (r: Result, out: Outcome, ghost run: seq<Config>, ghost expanded: seq<Cell>)
    requires g.board.Valid() && g.board.InBounds(g.snake[0])
    // the search ran from the snake to `out`, and `out` alone decides the result
    ensures Searched(g.board, g.snake, g.fruit, run, out) && Replanned(g, out, r)
    // the only crash is the dereference of a null poll, after a closed search
    ensures r.Crashed? ==> r.crash == SearchNullPoll && |expanded| > 0 && expanded[0] == g.snake[0] && Closed(g.board, expanded)
    // the plan follows a derived path of distinct cells, to the fruit when the search reached it
    ensures out.ReachedGoal? ==> IsGoal(out.state, g.fruit)
    ensures r.Running? ==> Derived(out.state, StartState(g.snake, g.fruit), g.board, g.fruit) && DistinctPath(out.state)
    // only the plan changes: one queued direction, also stored under the head's cell
    ensures r.Running? ==> r.game == g.(directions := r.game.directions, directionMap := r.game.directionMap)
    ensures r.Running? ==>
              && |r.game.directions| == 1
              && g.board.Key(g.snake[0]) in r.game.directionMap
              && r.game.directionMap[g.board.Key(g.snake[0])] == r.game.directions[0]
  {
    out, run, expanded := AStar.AStar(g.board, g.snake, g.fruit);
    if out.NullPoll? {
      return Crashed(SearchNullPoll), out, run, expanded;
    }
    var plan := ExtractPlan(out.state, g.board);
    RootOfDerived(out.state, StartState(g.snake, g.fruit), g.board, g.fruit);
    r := Running(g.(directions := plan.directions, directionMap := plan.directionMap));
  }

  /** The game spawnFruit (SnakeGame.java:796-826) hands to the search: the
      next fruit's score reset, and the fruit on the `index`-th free cell,
      counted column by column, or left where it was when fewer cells are
      free. */
  function Placed(g: Game, index: nat): Game
    requires g.board.Valid()
  {
    var free := FreeCells(g.board);
    if index < |free| then
      g.(nextFruitScore := 100, board := g.board.SetTile(free[index], Some(Fruit)), fruit := free[index])
    else g.(nextFruitScore := 100)
  }

  /** What spawnFruit (SnakeGame.java:793-832) does with `draw`, given the
      search `run` that ends with `out`: a bound that is not positive throws;
      otherwise the search runs on the placed game and its end decides the
      result. */
  ghost predicate Spawned(g: Game, draw: nat, run: seq<Config>, out: Outcome, r: Result)
    requires g.board.Valid()
  {
    var bound := g.board.cols * g.board.rows - |g.snake|;
    if bound <= 0 then r == Crashed(NoFreeCellBound)
    else
      var p := Placed(g, draw % bound);
      Searched(p.board, p.snake, p.fruit, run, out) && Replanned(p, out, r)
  }

  /** A search on the placed game finishes a spawn. */
  lemma SpawnedBySearch(g: Game, draw: nat, p: Game, run: seq<Config>, out: Outcome, r: Result)
    requires g.board.Valid() && g.board.cols * g.board.rows - |g.snake| > 0
    requires p == Placed(g, draw % (g.board.cols * g.board.rows - |g.snake|))
    requires Searched(p.board, p.snake, p.fruit, run, out) && Replanned(p, out, r)
    ensures Spawned(g, draw, run, out, r)
  {
  }

  /** What a spawn that keeps the game running leaves as `n`: only the
      fruit, the board, the next fruit's score (100) and the plan change; the
      plan is fresh, one queued direction also stored under the head's cell;
      and on a consistent board the fruit is on a free cell off the snake and
      the board stays consistent. */
  predicate Respawned(g: Game, n: Game)
    requires g.board.Valid()
  {
    && n == g.(board := n.board, fruit := n.fruit, nextFruitScore := 100,
               directions := n.directions, directionMap := n.directionMap)
    && |n.directions| == 1
    && g.board.Key(g.snake[0]) in n.directionMap
    && n.directionMap[g.board.Key(g.snake[0])] == n.directions[0]
    && (OnBoard(g.board, g.snake) ==>
          && n.fruit in FreeCells(g.board) && n.fruit !in g.snake
          && n.board == g.board.SetTile(n.fruit, Some(Fruit))
          && n.board.TileAt(n.fruit) == Some(Fruit)
          && OnBoard(n.board, n.snake))
  }

  /** spawnFruit (SnakeGame.java:793-832). `Random.nextInt(bound)` becomes
      the remainder of the caller's `draw` by the bound, so every index below
      the bound is possible. */
  method SpawnFruit(g: Game, draw: nat) returns (r: Result, ghost run: seq<Config>, ghost out: Outcome)
    requires g.board.Valid() && g.board.InBounds(g.snake[0])
    ensures Spawned(g, draw, run, out, r)
    // nextInt throws when the bound is not positive
    ensures r == Crashed(NoFreeCellBound) <==> g.board.cols * g.board.rows - |g.snake| <= 0
    // on a consistent board the bound counts the free cells
    ensures OnBoard(g.board, g.snake) ==> (r == Crashed(NoFreeCellBound) <==> |FreeCells(g.board)| == 0)
    ensures r.Running? ==> Respawned(g, r.game)
  {
    var bound := g.board.cols * g.board.rows - |g.snake|;
    if OnBoard(g.board, g.snake) {
      FreeCellCount(g.board, g.snake);
    }
    if bound <= 0 {
      return Crashed(NoFreeCellBound), [], NullPoll;
    }
    var index := draw % bound;
    var b, f := PlaceFruit(g.board, g.fruit, index);
    if OnBoard(g.board, g.snake) {
      PlacedFruitIsFree(g.board, g.snake, index);
    }
    var placed := g.(nextFruitScore := 100, board := b, fruit := f);
    assert placed == Placed(g, index);
    assert placed.board.Valid() && placed.snake == g.snake && placed.board.Key(g.snake[0]) == g.board.Key(g.snake[0]);
    assert OnBoard(g.board, g.snake) ==>
             && placed.fruit in FreeCells(g.board) && placed.fruit !in g.snake
             && placed.board == g.board.SetTile(placed.fruit, Some(Fruit))
             && placed.board.TileAt(placed.fruit) == Some(Fruit)
             && OnBoard(placed.board, placed.snake);
    ghost var expanded;
    r, out, run, expanded := Replan(placed);
    SpawnedBySearch(g, draw, placed, run, out, r);
  }

  /** The fruit is counted and its score added (SnakeGame.java:610-611). */
  function Eaten(m: Game): Game
  {
    m.(fruitsEaten := m.fruitsEaten + 1, score := m.score + m.nextFruitScore)
  }

  /** How updateGame (SnakeGame.java:587-619) acts on the tile updateSnake
      reports: a fruit is scored and a new one spawned, a body or wall hit
      ends the game, and otherwise the next fruit's score drops by one down
      to its floor of 10. `run` and `out` are the search of a spawn. */
  ghost predicate GameStepped(g: Game, draw: nat, run: seq<Config>, out: Outcome, r: Result)
    requires g.board.Valid()
  {
    && (r == Crashed(NullDirectionSwitch) <==> UpdateSnake(g).NullDirection?)
    && (UpdateSnake(g).Moved? ==>
          var m := UpdateSnake(g).game;
          match UpdateSnake(g).collision
          case Some(Fruit) => Spawned(Eaten(m), draw, run, out, r)
          case Some(SnakeBody) => r == Running(m.(gameOver := true))
          case _ => r == Running(m.(nextFruitScore := if m.nextFruitScore > 10 then m.nextFruitScore - 1 else m.nextFruitScore)))
  }

  /** A spawn after a move onto a fruit is a game step. */
  lemma SteppedOnFruit(g: Game, draw: nat, run: seq<Config>, out: Outcome, r: Result)
    requires g.board.Valid() && UpdateSnake(g).Moved? && UpdateSnake(g).collision == Some(Fruit)
    requires Spawned(Eaten(UpdateSnake(g).game), draw, run, out, r)
    ensures GameStepped(g, draw, run, out, r)
  {
  }

  /** The fruit branch of updateGame (SnakeGame.java:609-612): count the
      fruit, add its score and spawn a new one. */
  method EatFruit(g: Game, draw: nat) returns (r: Result, ghost run: seq<Config>, ghost out: Outcome)
    requires g.board.Valid() && g.board.InBounds(g.snake[0])
    requires UpdateSnake(g).Moved? && UpdateSnake(g).collision == Some(Fruit)
    ensures GameStepped(g, draw, run, out, r)
    ensures GameInv(g) && r.Running? ==>
              && GameInv(r.game) && r.game.score >= g.score && r.game.fruitsEaten >= g.fruitsEaten
              && r.game.board.TileAt(r.game.fruit) == Some(Fruit) && r.game.fruit !in r.game.snake
  {
    var m := UpdateSnake(g).game;
    if GameInv(g) {
      UpdateSnakeKeepsOnBoard(g);
    }
    r, run, out := SpawnFruit(Eaten(m), draw);
    SteppedOnFruit(g, draw, run, out, r);
  }

  /** updateGame (SnakeGame.java:587-619): move the snake, then act on the
      tile it moved into. */
  method UpdateGame(g: Game, draw: nat) returns (r: Result, ghost run: seq<Config>, ghost out: Outcome)
    requires g.board.Valid() && g.board.InBounds(g.snake[0])
    ensures GameStepped(g, draw, run, out, r)
    // a running game stays consistent and its score never falls
    ensures GameInv(g) && r.Running? ==>
              GameInv(r.game) && r.game.score >= g.score && r.game.fruitsEaten >= g.fruitsEaten
    // a fruit eaten is replaced by one on a cell off the snake
    ensures GameInv(g) && r.Running? && UpdateSnake(g).collision == Some(Fruit) ==>
              r.game.board.TileAt(r.game.fruit) == Some(Fruit) && r.game.fruit !in r.game.snake
  {
    run, out := [], NullPoll;
    var step := UpdateSnake(g);
    if step.NullDirection? {
      return Crashed(NullDirectionSwitch), run, out;
    }
    var m := step.game;
    if GameInv(g) {
      UpdateSnakeKeepsOnBoard(g);
    }
    if step.collision == Some(Fruit) {
      r, run, out := EatFruit(g, draw);
    } else if step.collision == Some(SnakeBody) {
      r := Running(m.(gameOver := true));
    } else if m.nextFruitScore > 10 {
      r := Running(m.(nextFruitScore := m.nextFruitScore - 1));
    } else {
      r := Running(m);
    }
  }

  /** One cycle of the logic timer (SnakeGame.java:376-379): follow the
      plan at the head's cell, then update the game from there. */
  method Tick(g: Game, draw: nat) returns (r: Result, ghost run: seq<Config>, ghost out: Outcome)
    requires g.board.Valid() && g.board.InBounds(g.snake[0])
    ensures GameStepped(CheckActionList(g), draw, run, out, r)
    ensures GameInv(g) && r.Running? ==>
              GameInv(r.game) && r.game.score >= g.score && r.game.fruitsEaten >= g.fruitsEaten
  {
    r, run, out := UpdateGame(CheckActionList(g), draw);
  }

  /** The game resetGame (SnakeGame.java:714-752) hands to spawnFruit: score,
      fruit count and game-over flag cleared, and a one-cell snake at the
      centre of a board that holds only its head. */
  function Cleared(g: Game): Game
    requires g.board.Valid()
  {
    var head := Centre(g.board);
    g.(score := 0, fruitsEaten := 0, gameOver := false, snake := [head],
       board := Board(g.board.cols, g.board.rows, map[]).SetTile(head, Some(SnakeHead)))
  }

  /** A new game after resetGame: scores and flags reset, the pause flag and
      the other fields left alone; a cleared board holding only the centre
      head and the new fruit on another cell; a fresh plan from the centre;
      and the invariant. */
  predicate NewGame(g: Game, n: Game)
    requires g.board.Valid()
  {
    var head := Centre(g.board);
    && n == g.(score := 0, fruitsEaten := 0, gameOver := false, snake := [head],
               nextFruitScore := 100, board := n.board, fruit := n.fruit,
               directions := n.directions, directionMap := n.directionMap)
    && n.fruit != head
    && n.board == Board(g.board.cols, g.board.rows, map[])
                    .SetTile(head, Some(SnakeHead)).SetTile(n.fruit, Some(Fruit))
    && n.board.TileAt(n.fruit) == Some(Fruit)
    && |n.directions| == 1
    && g.board.Key(head) in n.directionMap
    && n.directionMap[g.board.Key(head)] == n.directions[0]
    && GameInv(n)
  }

  /** The cleared board shows exactly the one-cell snake. */
  lemma ClearedOnBoard(g: Game)
    requires g.board.Valid()
    ensures OnBoard(Cleared(g).board, Cleared(g).snake)
  {
  }

  /** After a spawn on the cleared game the board holds the centre head and
      the fruit on another cell, and the invariant holds. */
  lemma ClearedRespawnedBoard(g: Game, n: Game)
    requires g.board.Valid() && Respawned(Cleared(g), n)
    ensures n.fruit != Centre(g.board)
    ensures n.board == Board(g.board.cols, g.board.rows, map[])
                         .SetTile(Centre(g.board), Some(SnakeHead)).SetTile(n.fruit, Some(Fruit))
    ensures n.board.TileAt(n.fruit) == Some(Fruit)
    ensures GameInv(n)
  {
    ClearedOnBoard(g);
  }

  /** A running spawn on the cleared game is a new game. */
  lemma ClearedRespawned(g: Game, n: Game)
    requires g.board.Valid() && Respawned(Cleared(g), n)
    ensures NewGame(g, n)
  {
    ClearedRespawnedBoard(g, n);
  }

  /** resetGame (SnakeGame.java:714-756): a new game with a one-cell snake
      at the centre of a cleared board, then a fresh fruit and plan. */
  method Reset(g: Game, draw: nat) returns (r: Result, ghost run: seq<Config>, ghost out: Outcome)
    requires g.board.Valid()
    // the spawn after clearing decides the result
    ensures Spawned(Cleared(g), draw, run, out, r)
    ensures r.Running? ==> NewGame(g, r.game)
    // nextInt throws exactly when the board has a single cell
    ensures r == Crashed(NoFreeCellBound) <==> g.board.cols * g.board.rows <= 1
  {
    var g1 := Cleared(g);
    assert OnBoard(g1.board, g1.snake);
    r, run, out := SpawnFruit(g1, draw);
    if r.Running? {
      ClearedRespawned(g, r.game);
    }
  }
}
