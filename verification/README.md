# Snake planner core in Dafny

This project models the planning core of a Snake game with an automatic player, in two parts.

- **SnakeGame.** The snake plays itself using an A* search. Each time a fruit appears, the game:
  1. searches from the snake's head to the fruit over a priority queue of `GameState` records, marking cells in a visited grid;
  2. turns the parent chain of the state where the search stopped into a plan: a table from the cell key `x + COL_COUNT * y` to the direction to take at that cell;
  3. queues one initial direction.

  On every tick, `checkActionList` queues the plan's direction for the head's cell, if any. Then `updateSnake` and `updateGame` move the snake, score fruit, end the game on a wall or body hit, and spawn the next fruit on the `index`-th free cell.
- **MCTS bookkeeping.** This is the `State`, `Node` and `UCB` classes of a Monte Carlo tree search:
  - visit and score counters, with an `Integer.MIN_VALUE` score that freezes a node;
  - toggling which side moves;
  - the tree copy constructor;
  - robust-child selection by visit count;
  - the head-to-direction derivation;
  - UCB child selection, which maximises for the AI and minimises for the opponent.

Files and modules:

| file | module | contents |
|---|---|---|
| `grid.dfy` | `Optional`, `Grid` | Java `null` as `Option`; cells, directions, tiles and the board; `OnBoard`, which says the board shows exactly the snake |
| `search.dfy` | `Search` | `GameState`, successors, heuristic, goal test, `compareTo`, the two direction recoveries |
| `astar.dfy` | `AStar` | the search loop, with a multiset priority queue and its loop invariant |
| `plan.dfy` | `Plan` | the parent-chain walk that builds the direction table |
| `fruit.dfy` | `Fruit` | the column-major "n-th free cell" placement and the free-cell count |
| `game.dfy` | `Game` | the direction queue, `checkActionList`, `updateSnake`, `updateGame`, `spawnFruit`, `resetGame`, one tick |
| `extremum.dfy` | `Extremum` | the element `Collections.max`/`min` return (the first extremum) |
| `state.dfy` | `MctsState` | `State` and its counters |
| `node.dfy` | `MctsNode` | `Node`, the tree copy, child selection, the direction from a child |
| `ucb.dfy` | `Ucb` | `ucbValue` and `findBestNodeWithUCB` |

Modelling choices:

- **Values instead of objects.** Mutable Java objects become immutable values, and a mutating method becomes a function from old to new value.
- **Search states.** A search state holds its parent as a value. `x`/`y` are always the snake's head, so they are not stored separately.
- **Node identity.** Tree nodes carry an explicit `id` for object identity, and `parent` holds the parent's id.
- **Board.** The board is a map from cell to tile plus its column and row counts; a cell without an entry is empty. BoardPanel is not part of this model.
- **Priority queue.** The queue is a multiset. A poll returns *some* minimum-priority element, since `PriorityQueue` does not fix the order among equal priorities.
- **Search runs.** The A* loop is described by a relation on its loop states: the state in hand, the queue and the marked cells. `AStar.Step` is one iteration that goes round again and `AStar.Stop` is the one that leaves the loop, with its outcome. The search returns the run it went through, and everything that consumes a search result (`Game.Replan`, and through it spawning, stepping and resetting) is stated in terms of that run.
- **Exceptions.** An operation that throws in Java returns an error value:
  - `NullPoll`: A* polls an empty queue after skipping a visited state, and then dereferences the `null`;
  - `NullDirectionSwitch`: `updateSnake` runs a `switch` on a `null` queued direction;
  - `NoFreeCellBound`: `nextInt` receives a bound that is not positive;
  - `None`: `Collections.max`/`min` or `get` is called on an empty child list.
- **Randomness.** The random numbers are parameters. `nextInt(bound)` becomes `draw % bound` for a caller-supplied `draw`, so every index below the bound is possible. `Math.random()` in `getRandomChildNode` is handled the same way.
- **UCB formula.** The floating-point UCB formula is a function-valued parameter. Scores are exact reals.

The code's quirks are kept as written:

- **A* search:**
  - a state polled after a skipped, already-visited state is not goal-tested;
  - the search can end with an empty queue, and a plan is still extracted from the state expanded last;
  - `SnakeBody` successors are marked visited.
- **Plan:** the initial direction is computed from the board's centre, not from the start cell.
- **`checkActionList`:**
  - a `null` plan entry is never consumed;
  - the lookup queues without checking `MAX_DIRECTIONS`.
- **Game step:**
  - the snake grows until it is *longer* than `MIN_SNAKE_LENGTH`;
  - the tail is cut before the body test, so the snake loses its tail on the step that ends the game.
- **MCTS:**
  - `visitCount++` wraps at `Integer.MAX_VALUE` to a negative value;
  - the frozen score can be reached by adding;
  - the tree copy keeps the original parent references (`MctsNode.CopyKeepsOriginalParent`);
  - the zero-visit UCB score is `Integer.MAX_VALUE`, and the minimising branch avoids unvisited children (`Ucb.OpponentAvoidsUnvisited`);
  - `getDirectionfromChild` reports a child one column to the west as East.

## Model

| member | source | states |
|---|---|---|
| Grid.DirectionBetween | src/SnakeGame.java:500-511 | a column one away decides East (x+1) or West (x-1) whatever the rows; only otherwise does a row one away give South (y+1) or North (y-1); `null` exactly when neither coordinate differs by one; for cells one step apart the result is that step |
| Grid.KeyInjective | src/SnakeGame.java:321 | the key `x + COL_COUNT * y` of a board cell determines the cell, so plan entries of different cells never collide |
| Search.Heuristic | src/SnakeGame.java:786-788 | the Manhattan distance is never negative and is zero exactly on the fruit |
| Search.StartState | src/SnakeGame.java:24-34 | the search starts from the game's snake with no parent, zero moves and the heuristic as priority |
| Search.CompareTo | src/SnakeGame.java:59-65 | the comparison is negative, zero or positive exactly as the first priority is below, equal to or above the second |
| Search.IsGoal | src/SnakeGame.java:782-784 | a state is a goal exactly when the Manhattan distance from its head to the fruit is zero |
| Search.CompareToAntisymmetric | src/SnakeGame.java:59-65 | swapping the arguments negates the comparison |
| Search.GenerateNeighbor | src/SnakeGame.java:550-582 | the successor has `s` as parent and one more move; its head moves one cell (East x+1, West x-1, South y+1, North y-1); the new head is pushed and the tail dropped, so the length is kept; priority is moves plus heuristic |
| Search.Neighbors | src/SnakeGame.java:533-542 | exactly four successors, East, West, North, South in that order |
| Search.NeighborsCoverAllDirections | src/SnakeGame.java:533-542 | every direction's successor is among the neighbours |
| Search.StateDirection | src/SnakeGame.java:491-513 | `null` for the start state; for a parent one step away, the direction that leads from the parent to the state |
| Search.StateDirectionOfNeighbor | src/SnakeGame.java:491-513 | round trip: the direction recovered from `generateNeighbor(s, d)` is `d` for every `d` |
| Search.NeighborsInOrder | src/SnakeGame.java:533-542 | the i-th neighbour has the expanded state as parent and records the i-th direction of East, West, North, South |
| Search.PriorityStep | src/SnakeGame.java:579 | a successor's priority is its parent's or its parent's plus 2, so the heuristic is consistent |
| Search.InitialStateDirection | src/SnakeGame.java:515-531 | the second cell is compared with the board's centre only: a column one away gives East or West, otherwise a row one away gives South or North, otherwise `null`; for a cell adjacent to the centre the result is the step to it |
| Search.InitialDirectionFromCentre | src/SnakeGame.java:515-531 | from a start at the centre, the initial direction is the first move of the path |
| Search.InitialDirectionFromWestOfCentre | src/SnakeGame.java:515-531 | on every board, a search that starts two columns west of the centre and first moves East is given West as its initial direction |
| Search.InitialDirectionIgnoresStart | src/SnakeGame.java:515-531 | away from the centre it is not: on a 10 by 10 board a first move East from (0, 0) yields `null` |
| AStar.MinimalExists | src/SnakeGame.java:441 | a non-empty queue always holds a minimum-priority state to poll |
| AStar.Poll | src/SnakeGame.java:441 | a poll returns a minimum-priority state and removes exactly one copy of it |
| AStar.MinimalByCompareTo | src/SnakeGame.java:59-65 | a state the queue may poll is exactly one that `compareTo` ranks at or below every waiting state |
| AStar.ExpandAll | src/SnakeGame.java:426-439 | successors are handled in order: off-board ones ignored, SnakeBody ones marked, the others enqueued only when unvisited; nothing is unmarked or dequeued, only SnakeBody cells are newly marked, and only admissible unvisited successors are enqueued |
| AStar.SearchInvInit | src/SnakeGame.java:407-417 | the loop invariant holds for the start state, an empty visited grid and no expansions |
| AStar.ExpandKeepsQueueInv | src/SnakeGame.java:426-439 | every state an expansion enqueues derives from the start along a path of distinct, admissible cells whose strict ancestors are all marked |
| AStar.ExpandKeepsCoverInv | src/SnakeGame.java:426-439 | after an expansion every on-board neighbour of the expanded cell is marked or waiting |
| AStar.ExpandKeepsInv | src/SnakeGame.java:425-439 | expanding an unvisited state keeps the invariant and strictly shrinks the set of unmarked cells |
| AStar.PollKeepsInv | src/SnakeGame.java:420-424 | polling a minimum-priority state after the state in hand is marked keeps the invariant |
| AStar.ExpandKeepsOrder | src/SnakeGame.java:426-439 | an expansion enqueues only successors, whose priority is at least the expanded state's, so every waiting priority stays at or above the state in hand |
| AStar.PollKeepsOrder | src/SnakeGame.java:420-424 | a poll never returns a priority below the previous state in hand, and leaves only priorities at or above its own waiting |
| AStar.StepKeepsOrder | src/SnakeGame.java:418-449 | one iteration never lowers the in-hand priority and keeps every waiting priority at or above it |
| AStar.GoalKeepsOrder | src/SnakeGame.java:438-447 | the state a search stops on at the fruit has a priority at least that of the state expanded before it |
| AStar.RunKeepsOrder | src/SnakeGame.java:418-449 | along every run the in-hand priorities never decrease and the order holds at the last loop state |
| AStar.RunIsBestFirst | src/SnakeGame.java:418-449 | in every finished search states come into hand best first, and a goal outcome has a priority at least that of every state in hand before it |
| AStar.ExhaustedIsClosed | src/SnakeGame.java:440-445 | an empty queue after an expansion means every admissible neighbour of an expanded cell was expanded |
| AStar.ExpandAndPoll | src/SnakeGame.java:425-449 | one expanding pass is exactly one `Stop` or one `Step` of the loop relation. On an empty queue it stops with the state just expanded, untested. Otherwise it polls a minimum and goal-tests it: on the fruit that state ends the search; off it, the search goes on with it in hand, one more cell marked and the invariant kept |
| AStar.SkipAndPoll | src/SnakeGame.java:420-424 | a pass on a marked cell is exactly one `Stop` (the `null` poll of an empty queue, after a closed expansion) or one `Step` (a minimum polled without a goal test, the queue one shorter) |
| AStar.Iterate | src/SnakeGame.java:418-449 | one loop iteration either finishes the run with the outcome it stops on, or extends the run by exactly the next loop state, which shrinks the unmarked cells or the queue |
| AStar.RunExtend | src/SnakeGame.java:418-449 | a run followed by one more iteration is a run ending in the new loop state |
| AStar.AStar | src/SnakeGame.java:405-450 | the search terminates, and the loop states it passed through form a run from the start in which every iteration is a `Step` (skip and poll untested, or expand, poll a minimum, not on the fruit) and the last one a `Stop` with the outcome. A goal outcome is on the fruit. Any non-crash outcome derives from the start along distinct admissible cells. The start is expanded first and no cell twice. An empty queue or a null poll leaves the expansion closed |
| AStar.ClosedContainsFreePath | src/SnakeGame.java:440-445 | a closed expansion contains every free path from the start, so an exhausted search has expanded a reachable fruit without reporting it |
| Plan.ExtractPlan | src/SnakeGame.java:453-485 | the parent-chain walk yields the table of the chain's entries with the start cell set to the initial direction; the queue holds exactly that one direction |
| Plan.ChainMapKeys | src/SnakeGame.java:455-463 | the walk writes an entry for exactly the keys of the final state's strict ancestors |
| Plan.ChainMapEntries | src/SnakeGame.java:455-463 | along a chain of distinct keys, each cell before the last maps to the direction of the next state |
| Plan.PlanFollowsPath | src/SnakeGame.java:455-485 | at every cell strictly between the start and the final state, the plan names a direction whose move reaches the next cell of the path |
| Plan.PlanKeys | src/SnakeGame.java:455-485 | the start cell maps to the queued initial direction, the table has exactly the ancestors' keys plus the start's, and the final cell has no entry |
| Plan.DerivedKeysDistinct | src/SnakeGame.java:456 | the cells of a searched path have pairwise distinct keys |
| Fruit.FreeCellsMembers | src/SnakeGame.java:815-818 | the scan counts each board cell that is empty or holds a fruit exactly once, and no other cell |
| Fruit.FreeCellCount | src/SnakeGame.java:802 | on a board that shows exactly the snake, the `nextInt` bound equals the number of free cells |
| Fruit.PlaceFruit | src/SnakeGame.java:814-829 | the loop puts the fruit on the `index`-th free cell in column-major order; with no such cell, nothing changes; the inner `break` does not disturb later columns |
| Fruit.PlacedFruitIsFree | src/SnakeGame.java:818-823 | the chosen cell is on the board, free and off the snake, and placing the fruit keeps the board showing exactly the snake |
| Game.Go | src/SnakeGame.java:271-313 | a key appends its direction exactly when the game is running, the queue is below `MAX_DIRECTIONS`, and the last queued direction is absent, `null` or on the other axis; otherwise nothing changes |
| Game.GoTwice | src/SnakeGame.java:271-313 | the same key twice appends at most once |
| Game.GoKeepsQueueBound | src/SnakeGame.java:273 | key presses never push the queue past `MAX_DIRECTIONS` |
| Game.CheckActionList | src/SnakeGame.java:320-343 | the game changes exactly when the head's cell has a non-null entry, which is then queued and removed |
| Game.CheckActionListTwice | src/SnakeGame.java:320-343 | a second lookup from the same cell changes nothing |
| Game.NullEntryPersists | src/SnakeGame.java:324-325 | a `null` entry is returned on before removal, so it stays in the table |
| Game.CheckActionListIgnoresQueueBound | src/SnakeGame.java:326-339 | the lookup appends to a full queue, taking it past `MAX_DIRECTIONS` |
| Game.UpdateSnake | src/SnakeGame.java:625-709 | an empty queue changes nothing and gives `null`; a `null` direction throws; an off-board head changes nothing and gives SnakeBody. Otherwise the tail goes only when the target is not a fruit and the snake is longer than `MIN_SNAKE_LENGTH`; the reported tile is the target's once the tail is gone; unless it is SnakeBody, the old head becomes body and the target the head, on the board and in the snake, and otherwise the board and snake are the cut ones; the queue is polled exactly when the head moved and more than one direction waits; nothing else changes |
| Game.UpdateSnakeKeepsOnBoard | src/SnakeGame.java:670-706 | a move keeps the board showing exactly the snake: distinct on-board cells, head tile on the head, body tiles on the rest, no stray snake tiles |
| Game.OnBoardAfterCut | src/SnakeGame.java:671-675 | removing the tail from snake and board keeps them consistent |
| Game.OnBoardAfterPush | src/SnakeGame.java:690-698 | pushing a head onto an adjacent cell without a body tile keeps snake and board consistent |
| Game.ShrinksOnlyWhenDying | src/SnakeGame.java:671-706 | the snake gets shorter only by one cell, only when it was longer than `MIN_SNAKE_LENGTH`, and only on a body or wall hit |
| Game.Replan | src/SnakeGame.java:405-489 | the search is a finished run from the snake, and its outcome alone decides the result: a null poll throws, after a closed search; otherwise only the plan changes, to exactly the one read off the searched path, a derived path of distinct cells that ends on the fruit when the search reached it. One direction is queued, also stored under the head's cell |
| Game.SpawnFruit | src/SnakeGame.java:793-832 | a bound that is not positive throws. Otherwise the fruit goes on the `draw % bound`-th free cell, the next fruit's score is reset to 100, and the search on that game, a finished run, decides the result: a null poll throws, anything else installs the plan read off it. On a consistent board the bound crash happens exactly when no cell is free, and a running result has the fruit on a free cell off the snake, a one-direction plan and the board still consistent |
| Game.UpdateGame | src/SnakeGame.java:587-619 | for every game and draw the result is fixed by the tile the move reports: a `null` direction throws; a fruit is counted, scores `nextFruitScore` and is followed by exactly the spawn of `Game.SpawnFruit`, search included; a body or wall hit ends the game; otherwise the next fruit's score drops by one down to 10. A running game keeps the invariant, its score never falls, and a fruit eaten is replaced by one off the snake |
| Game.EatFruit | src/SnakeGame.java:609-612 | the fruit branch: counting the fruit, adding its score and spawning is a game step, keeps the invariant and puts the new fruit off the snake |
| Game.Tick | src/SnakeGame.java:376-379 | one cycle is the plan lookup followed by exactly the game step of `Game.UpdateGame` from there, spawn search included; it keeps the invariant and never lowers the score |
| Game.Reset | src/SnakeGame.java:714-756 | the cleared game, a one-cell snake at the centre of an otherwise empty board with zero score and fruits and not over, is handed to exactly the spawn of `Game.SpawnFruit`. A running result is a new game: the other fields are left alone, the board holds the head plus the fruit on another cell, the next fruit is worth 100, the plan queues one direction, also stored under the centre's key, and the invariant holds. The bound crash happens exactly when the board has one cell |
| Game.ClearedRespawned | src/SnakeGame.java:714-756 | a running spawn on the cleared game leaves a new game as described for `Game.Reset` |
| MctsState.Copy | src/State.java:17-23 | the copy has an equal snake, mover, visit count, score and board |
| MctsState.Opponent | src/State.java:30 | `getOpponent` is the other side |
| MctsState.AllPossibleStates | src/State.java:32-43 | the stub has no successor states |
| MctsState.IncrementVisit | src/State.java:45-47 | only the visit count changes: up by one, or from `Integer.MAX_VALUE` to `Integer.MIN_VALUE` |
| MctsState.IncrementVisitCounts | src/State.java:45-47 | n increments from zero count n, up to `Integer.MAX_VALUE` |
| MctsState.AddScore | src/State.java:49-52 | only the score changes: it grows by exactly the amount, unless it is `Integer.MIN_VALUE`, when nothing changes |
| MctsState.FrozenIsAbsorbing | src/State.java:49-52 | once frozen, any sequence of additions leaves the state unchanged |
| MctsState.FrozenReachableByAdding | src/State.java:49-52 | an ordinary addition can reach the sentinel, after which later additions are ignored |
| MctsState.RandomPlay | src/State.java:54-60 | the stub plays no move |
| MctsState.TogglePlayer | src/State.java:62-64 | only the mover changes, to the other side |
| MctsState.TogglePlayerTwice | src/State.java:62-64 | toggling twice restores the state, and the toggled mover is the reported opponent |
| MctsNode.CopyTree | src/Node.java:27-36 | the copy has the same number of children, a copied state, a new id and the original parent reference |
| MctsNode.CopyTreeIsCopy | src/Node.java:27-36 | node by node the copy has the original's shape, states and parent references, with shifted ids |
| MctsNode.CopyIsFresh | src/Node.java:27-36 | every node of the copy is a new object, distinct from every original node |
| MctsNode.CopyKeepsOriginalParent | src/Node.java:30-31 | each copied child still names the original node as parent, so the copy of a linked tree with children is not linked |
| MctsNode.RandomChild | src/Node.java:38-43 | the drawn node is a child; an empty child list throws |
| MctsNode.RandomChildReachesAll | src/Node.java:38-43 | every child can be drawn |
| MctsNode.ChildWithMinMaxScore | src/Node.java:51-61 | the result is a child with the most visits for the AI and the fewest otherwise, the first such child on ties; an empty list throws |
| MctsNode.DirectionFromChild | src/Node.java:62-81 | an empty snake throws; otherwise, in the same column North exactly when the node is below the child (larger y) and South otherwise, and in another column West exactly when the child is more than one column west and East otherwise |
| MctsNode.DirectionFromChildAgrees | src/Node.java:68-80 | a child one step North, South or East yields that direction |
| MctsNode.DirectionFromSameCell | src/Node.java:68-73 | a child on the node's own cell yields South |
| MctsNode.DirectionFromAdjacentWestChild | src/Node.java:76 | a child one step West yields East |
| MctsNode.IntendedDirectionFromChildInvertsMove | src/Node.java:76 | with `thisX > childX` the derivation recovers every one-step move, and it differs from the code exactly for a West step |
| Extremum.Scan | src/Node.java:52-60 | the library scan, which replaces the candidate only by a strictly better element, ends on the first extremum |
| Extremum.FirstBest | src/Node.java:52-60 | for a non-empty list the result is a best position with every earlier value strictly worse; an empty list throws |
| Extremum.FirstBestUnique | src/Node.java:52-60 | at most one position is the first extremum, so the selection is determined |
| Ucb.UcbValue | src/UCB.java:6-10 | zero visits give `Integer.MAX_VALUE` whatever the other arguments; otherwise the formula's value |
| Ucb.Scores | src/UCB.java:12-22 | every child is scored with the parent's own visit count as the total |
| Ucb.FindBestNodeWithUcb | src/UCB.java:12-25 | the result is a child whose score is at least every sibling's for the AI and at most every sibling's otherwise, the first such on ties; an empty list throws |
| Ucb.AiPrefersUnvisited | src/UCB.java:14-17 | with an unvisited child and no visited child scoring the sentinel, the AI picks an unvisited child |
| Ucb.OpponentAvoidsUnvisited | src/UCB.java:19-23 | the minimising branch picks an unvisited child only when every child scores at least the sentinel |
| Ucb.ChoiceUsesParentVisits | src/UCB.java:13-22 | the choice depends on the parent only through its visit count and its children |

## Left out

- Swing, the key listener, repainting, frame pacing, `Clock`, the pause and Enter keys, `isNewGame`, and all logging. They are user interface and timing, not game logic. `Game.Tick` is one cycle in which the timer has elapsed.
- `src/Main.java` and `MCTS.java`. The first selects a UI mode. The second does not compile, and no select/expand/simulate/backpropagate loop appears in the code.
- BoardPanel, TileType, Direction, SidePanel and SolverMode are not part of this model. The board is a map with positive column and row counts, and BoardPanel's copy in `State`'s copy constructor is taken to copy the tiles.
- The visited grid's dimensions. The source sizes it from the panel's pixel height and width; the model uses the set of board cells, so no index goes out of range.
- Java `int` overflow of `score`, `fruitsEaten`, `moves`, `priority` and the cell key. These are unbounded integers; only `visitCount` wraps.
- The unused no-argument `GameState` constructor, the other `Node` and `State` constructors, and `Node.toString`.
- Game.UpdateGame, Game.Tick, Game.EatFruit, Game.SpawnFruit, Game.Replan: these require a board with positive dimensions and the head on the board. `resetGame` establishes both (`Game.Reset`), and every step keeps them.
- AStar.AStar: the run fixes the search up to the choice among equal-priority minima at each poll, which `PriorityQueue` leaves to its heap layout. The layout is not modelled, so every such choice is allowed.
- Game.Reset: does not say whether a search on the cleared board can end in a null poll. A search crash is allowed exactly when the search run of the spawn ends in one. The code's untested poll after a skip can expand the fruit without reporting it, so the model does not rule that out.
- MctsState.AddScore: exact real addition, without `double` rounding.
- Ucb.FindBestNodeWithUcb: scores are compared as reals. The formula is a parameter standing for `log`/`sqrt` in floating point, and `Double` comparison of NaN and signed zeros is not modelled.

## Findings

| source | as written | input that shows it | evidently intended | confidence | as-written member | corrected member |
|---|---|---|---|---|---|---|
| src/Node.java:76 | `thisX > childX + 1` selects West | a child whose head is one column west of the node's (`childX == thisX - 1`, same y) is reported as East | `thisX > childX`, so that a step West is reported as West | high; not executed | MctsNode.DirectionFromAdjacentWestChild | MctsNode.IntendedDirectionFromChildInvertsMove |

No other part of the model consumes the derived direction.
