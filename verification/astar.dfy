/** SnakeGame.AStar: best-first search over the priority queue with a
    visited grid, from the snake's current position to the fruit, as the
    source writes it (including the states it polls without a goal test). */
module AStar {
  import opened Optional
  import opened Grid
  import opened Search

  /** java.util.PriorityQueue<GameState>; equal priorities leave the poll order open. */
  type Queue = multiset<SearchState>

  /** How the loop at SnakeGame.java:418-450 ends. */
  datatype Outcome =
      /** A state polled after an expansion is on the fruit. */
    | ReachedGoal(state: SearchState)
      /** The queue is empty after an expansion; the plan is still built, from the state just expanded. */
    | QueueEmpty(state: SearchState)
      /** A skipped state was followed by a poll of an empty queue, which
          yields `null`; the next iteration dereferences it. */
    | NullPoll

  /** A cell A* may enqueue: on the board and not a SnakeBody tile. */
  predicate Admissible(b: Board, c: Cell)
  {
    b.InBounds(c) && b.TileAt(c) != Some(SnakeBody)
  }

  /** `s` is a minimum-priority element of `q`: one `poll` may return. */
  predicate IsMinimal(s: SearchState, q: Queue)
  {
    s in q && forall t :: t in q ==> s.priority <= t.priority
  }

  lemma {:induction false} MinimalExists(q: Queue)
    requires |q| > 0
    ensures exists s :: IsMinimal(s, q)
    decreases |q|
  {
    var x :| x in q;
    var rest := q - multiset{x};
    assert forall t :: t in q ==> t in rest || t == x by {
      forall t | t in q ensures t in rest || t == x {
        if t != x {
          assert rest[t] == q[t];
        }
      }
    }
    if |rest| == 0 {
      assert IsMinimal(x, q);
    } else {
      MinimalExists(rest);
      var m :| IsMinimal(m, rest);
      assert m in q;
      if m.priority <= x.priority {
        assert IsMinimal(m, q);
      } else {
        assert IsMinimal(x, q);
      }
    }
  }

  /** The queue orders by compareTo: a minimal state compares at most equal
      to every waiting state. */
  lemma MinimalByCompareTo(s: SearchState, q: Queue)
    ensures IsMinimal(s, q) <==> s in q && forall t :: t in q ==> CompareTo(s, t) <= 0
  {
  }

  /** PriorityQueue.poll on a non-empty queue: some minimum-priority state
      comes out, and exactly one copy of it leaves the queue. */
  method Poll(q: Queue) returns (s: SearchState, rest: Queue)
    requires |q| > 0
    ensures IsMinimal(s, q)
    ensures rest == q - multiset{s} && |rest| == |q| - 1
    ensures Heads(q) <= Heads(rest) + {s.Head()}
  {
    MinimalExists(q);
    s :| IsMinimal(s, q);
    rest := q - multiset{s};
    forall t | t in q && t != s
      ensures t in rest
    {
      assert rest[t] == q[t];
    }
  }

  /** The heads of the states waiting in the queue. */
  function Heads(q: Queue): set<Cell>
  {
    set s | s in q :: s.Head()
  }

  /** The heads of the strict ancestors of `s`. */
  function AncestorHeads(s: SearchState): set<Cell>
    decreases s
  {
    match s.parent
    case None => {}
    case Some(p) => AncestorHeads(p) + {p.Head()}
  }

  /** No cell occurs twice on the path from the start to `s`. */
  predicate DistinctPath(s: SearchState)
    decreases s
  {
    match s.parent
    case None => true
    case Some(p) => s.Head() !in AncestorHeads(s) && DistinctPath(p)
  }

  /** `s` lies at the end of a chain of neighbour generations from `start`:
      each state is its parent's successor in the direction recorded between
      them, and every head after the start is admissible. */
  predicate Derived(s: SearchState, start: SearchState, b: Board, fruit: Cell)
    decreases s
  {
    match s.parent
    case None => s == start
    case Some(p) =>
      && Derived(p, start, b, fruit)
      && Admissible(b, s.Head())
      && StateDirection(s).Some?
      && s == GenerateNeighbor(p, StateDirection(s).value, fruit)
  }

  /** The inner loop at SnakeGame.java:426-439 over the successors `ns` in
      order: an off-board successor is ignored, a SnakeBody successor's cell
      is marked visited, and any other successor is enqueued when its cell is
      not yet visited. */
  function ExpandAll(ns: seq<SearchState>, b: Board, visited: set<Cell>, q: Queue): (r: (set<Cell>, Queue))
    // nothing is unmarked or dequeued
    ensures visited <= r.0 && q <= r.1
    // only SnakeBody cells of the board are newly marked
    ensures forall c :: c in r.0 && c !in visited ==> b.InBounds(c) && b.TileAt(c) == Some(SnakeBody)
    // only admissible, unvisited successors are enqueued
    ensures forall s :: r.1[s] > q[s] ==> s in ns && Admissible(b, s.Head()) && s.Head() !in visited
    // every SnakeBody successor is marked, every unvisited admissible one enqueued
    ensures forall s :: s in ns && b.InBounds(s.Head()) ==>
              (b.TileAt(s.Head()) == Some(SnakeBody) ==> s.Head() in r.0) &&
              (b.TileAt(s.Head()) != Some(SnakeBody) && s.Head() !in visited ==> s in r.1)
    decreases |ns|
  {
    if |ns| == 0 then (visited, q)
    else
      var n := ns[0];
      var h := n.Head();
      assert forall s :: s in ns ==> s == n || s in ns[1..];
      if !b.InBounds(h) then ExpandAll(ns[1..], b, visited, q)
      else if b.TileAt(h) == Some(SnakeBody) then ExpandAll(ns[1..], b, visited + {h}, q)
      else if h !in visited then ExpandAll(ns[1..], b, visited, q + multiset{n})
      else ExpandAll(ns[1..], b, visited, q)
  }

  /** Every admissible cell one move from an expanded cell was expanded too. */
  predicate Closed(b: Board, expanded: seq<Cell>)
  {
    forall e, d :: e in expanded && Admissible(b, Move(e, d)) ==> Move(e, d) in expanded
  }

  /** The successors of `cur` are its children, each recording its direction. */
  lemma NeighborsAreChildren(cur: SearchState, fruit: Cell)
    ensures forall s :: s in Neighbors(cur, fruit) ==>
              s.parent == Some(cur) && StateDirection(s).Some? &&
              s == GenerateNeighbor(cur, StateDirection(s).value, fruit)
  {
    NeighborsInOrder(cur, fruit);
  }

  /** The state in hand was derived from the start along a path of distinct
      cells, all of whose strict ancestors are marked. */
  ghost predicate InHandInv(b: Board, start: SearchState, fruit: Cell, cur: SearchState, visited: set<Cell>)
  {
    && b.InBounds(cur.Head())
    && Derived(cur, start, b, fruit) && DistinctPath(cur)
    && AncestorHeads(cur) <= visited
  }

  /** Every waiting state is such a derived state too (and not the start). */
  ghost predicate QueueInv(b: Board, start: SearchState, fruit: Cell, queue: Queue, visited: set<Cell>)
  {
    forall s :: s in queue ==>
      s.parent.Some? && Derived(s, start, b, fruit) && DistinctPath(s) && AncestorHeads(s) <= visited
  }

  /** The marked cells are the expanded cells plus SnakeBody cells; the
      start is expanded first and nothing twice. */
  ghost predicate MarkInv(b: Board, snake: Snake, visited: set<Cell>, expanded: seq<Cell>)
  {
    && visited <= b.Cells()
    && Distinct(expanded)
    && (forall c :: c in expanded ==> c in visited)
    && (forall c :: c in visited ==> c in expanded || b.TileAt(c) == Some(SnakeBody))
    && (forall c :: c in expanded ==> c == snake[0] || b.TileAt(c) != Some(SnakeBody))
    && (expanded != [] ==> expanded[0] == snake[0])
  }

  /** Each on-board neighbour of an expanded cell is marked, waiting, or in hand. */
  ghost predicate CoverInv(b: Board, expanded: seq<Cell>, visited: set<Cell>, queue: Queue, inHand: Cell)
  {
    forall e, d :: e in expanded && b.InBounds(Move(e, d)) ==>
      Move(e, d) in visited || Move(e, d) in Heads(queue) || Move(e, d) == inHand
  }

  /** The loop invariant of AStar: `cur` is the state in hand, `queue` the
      waiting states, `visited` the marked cells and `expanded` the cells
      expanded so far, in order. */
  ghost predicate SearchInv(b: Board, snake: Snake, fruit: Cell, cur: SearchState,
                            queue: Queue, visited: set<Cell>, expanded: seq<Cell>)
  {
    var start := StartState(snake, fruit);
    && b.Valid()
    && InHandInv(b, start, fruit, cur, visited)
    && QueueInv(b, start, fruit, queue, visited)
    && MarkInv(b, snake, visited, expanded)
    && CoverInv(b, expanded, visited, queue, cur.Head())
    && (expanded == [] ==> cur == start && visited == {})
  }

  lemma SearchInvInit(b: Board, snake: Snake, fruit: Cell)
    requires b.Valid() && b.InBounds(snake[0])
    ensures SearchInv(b, snake, fruit, StartState(snake, fruit), multiset{}, {}, [])
  {
  }

  /** The states an expansion enqueues are children of the state in hand. */
  lemma ExpandKeepsQueueInv(b: Board, start: SearchState, fruit: Cell, cur: SearchState,
                            queue: Queue, visited: set<Cell>)
    requires InHandInv(b, start, fruit, cur, visited) && QueueInv(b, start, fruit, queue, visited)
    ensures var r := ExpandAll(Neighbors(cur, fruit), b, visited + {cur.Head()}, queue);
            QueueInv(b, start, fruit, r.1, r.0)
  {
    var h := cur.Head();
    NeighborsAreChildren(cur, fruit);
    var r := ExpandAll(Neighbors(cur, fruit), b, visited + {h}, queue);
    forall s | s in r.1
      ensures s.parent.Some? && Derived(s, start, b, fruit) && DistinctPath(s) && AncestorHeads(s) <= r.0
    {
      if r.1[s] > queue[s] {
        assert AncestorHeads(s) == AncestorHeads(cur) + {h};
      }
    }
  }

  /** After an expansion every neighbour of the expanded cell is marked or waiting. */
  lemma ExpandKeepsCoverInv(b: Board, fruit: Cell, cur: SearchState,
                            queue: Queue, visited: set<Cell>, expanded: seq<Cell>)
    requires CoverInv(b, expanded, visited, queue, cur.Head())
    ensures var r := ExpandAll(Neighbors(cur, fruit), b, visited + {cur.Head()}, queue);
            CoverInv(b, expanded + [cur.Head()], r.0, r.1, cur.Head())
  {
    var h := cur.Head();
    var r := ExpandAll(Neighbors(cur, fruit), b, visited + {h}, queue);
    var v, q := r.0, r.1;
    forall d | b.InBounds(Move(h, d))
      ensures Move(h, d) in v || Move(h, d) in Heads(q)
    {
      NeighborsCoverAllDirections(cur, fruit, d);
      var n := GenerateNeighbor(cur, d, fruit);
      if n in q {
        assert n.Head() in Heads(q);
      }
    }
    assert Heads(queue) <= Heads(q) by {
      forall c | c in Heads(queue) ensures c in Heads(q) {
        var s :| s in queue && s.Head() == c;
        assert s in q;
      }
    }
  }

  /** Expanding the state in hand (SnakeGame.java:425-439) keeps the invariant. */
  lemma ExpandKeepsInv(b: Board, snake: Snake, fruit: Cell, cur: SearchState,
                       queue: Queue, visited: set<Cell>, expanded: seq<Cell>)
    requires SearchInv(b, snake, fruit, cur, queue, visited, expanded)
    requires cur.Head() !in visited
    ensures var r := ExpandAll(Neighbors(cur, fruit), b, visited + {cur.Head()}, queue);
            && SearchInv(b, snake, fruit, cur, r.1, r.0, expanded + [cur.Head()])
            && b.Cells() - r.0 < b.Cells() - visited
  {
    var start := StartState(snake, fruit);
    var h := cur.Head();
    var r := ExpandAll(Neighbors(cur, fruit), b, visited + {h}, queue);
    ExpandKeepsQueueInv(b, start, fruit, cur, queue, visited);
    ExpandKeepsCoverInv(b, fruit, cur, queue, visited, expanded);
    var ex := expanded + [h];
    assert Distinct(ex);
    if cur.parent.Some? {
      assert Admissible(b, h);
    }
    assert MarkInv(b, snake, r.0, ex);
    assert h in b.Cells() - visited;
  }

  /** Polling a minimum-priority state once the state in hand is marked keeps the invariant. */
  lemma PollKeepsInv(b: Board, snake: Snake, fruit: Cell, cur: SearchState,
                     queue: Queue, visited: set<Cell>, expanded: seq<Cell>, next: SearchState)
    requires SearchInv(b, snake, fruit, cur, queue, visited, expanded)
    requires cur.Head() in visited && IsMinimal(next, queue)
    requires Heads(queue) <= Heads(queue - multiset{next}) + {next.Head()}
    ensures SearchInv(b, snake, fruit, next, queue - multiset{next}, visited, expanded)
  {
    var rest := queue - multiset{next};
    forall s | s in rest ensures s in queue {
      assert rest[s] <= queue[s];
    }
  }

  /** What the invariant gives the caller once the start has been expanded. */
  lemma InvFacts(b: Board, snake: Snake, fruit: Cell, cur: SearchState,
                 queue: Queue, visited: set<Cell>, expanded: seq<Cell>)
    requires SearchInv(b, snake, fruit, cur, queue, visited, expanded)
    requires cur.Head() in visited || expanded != []
    ensures Derived(cur, StartState(snake, fruit), b, fruit) && DistinctPath(cur)
    ensures |expanded| > 0 && expanded[0] == snake[0] && Distinct(expanded)
    ensures forall c :: c in expanded ==> b.InBounds(c) && (c == snake[0] || b.TileAt(c) != Some(SnakeBody))
  {
  }

  /** An empty queue after an expansion leaves the expanded cells closed. */
  lemma ExhaustedIsClosed(b: Board, snake: Snake, fruit: Cell, cur: SearchState,
                          visited: set<Cell>, expanded: seq<Cell>)
    requires SearchInv(b, snake, fruit, cur, multiset{}, visited, expanded)
    requires cur.Head() in visited
    ensures Closed(b, expanded)
  {
  }

  /** Priorities never fall below the state in hand: every state carries
      moves plus heuristic as its priority, and every waiting state's
      priority is at least the in-hand state's. */
  ghost predicate OrderInv(fruit: Cell, cur: SearchState, queue: Queue)
  {
    && PriorityIsCostPlusHeuristic(cur, fruit)
    && forall t :: t in queue ==> PriorityIsCostPlusHeuristic(t, fruit) && cur.priority <= t.priority
  }

  /** An expansion only enqueues successors of the state in hand, whose
      priority is its own or two more, so the order is kept. */
  lemma ExpandKeepsOrder(b: Board, fruit: Cell, cur: SearchState, queue: Queue, visited: set<Cell>)
    requires OrderInv(fruit, cur, queue)
    ensures OrderInv(fruit, cur, ExpandAll(Neighbors(cur, fruit), b, visited, queue).1)
  {
    var ns := Neighbors(cur, fruit);
    var q := ExpandAll(ns, b, visited, queue).1;
    forall t | t in q
      ensures PriorityIsCostPlusHeuristic(t, fruit) && cur.priority <= t.priority
    {
      if q[t] > queue[t] {
        var i :| 0 <= i < 4 && ns[i] == t;
        PriorityStep(cur, NeighborOrder[i], fruit);
      } else {
        assert t in queue;
      }
    }
  }

  /** A poll takes a minimum, so the polled state's priority is at least
      the previous in-hand state's and at most every state left waiting. */
  lemma PollKeepsOrder(fruit: Cell, cur: SearchState, queue: Queue, next: SearchState)
    requires OrderInv(fruit, cur, queue) && IsMinimal(next, queue)
    ensures cur.priority <= next.priority
    ensures OrderInv(fruit, next, queue - multiset{next})
  {
    var rest := queue - multiset{next};
    forall t | t in rest
      ensures t in queue
    {
      assert rest[t] <= queue[t];
    }
  }

  /** The loop's state at the top of an iteration (SnakeGame.java:418): the
      state in hand, the states waiting in the queue and the marked cells. */
  datatype Config = Config(cur: SearchState, queue: Queue, visited: set<Cell>)

  /** Before the first iteration the start state has been added and polled
      again, and no cell is marked (SnakeGame.java:406-416). */
  function InitialConfig(snake: Snake, fruit: Cell): Config
  {
    Config(StartState(snake, fruit), multiset{}, {})
  }

  /** The marks and the queue after marking the cell in hand and expanding
      its state (SnakeGame.java:425-439). */
  function Expansion(b: Board, fruit: Cell, c: Config): (set<Cell>, Queue)
  {
    ExpandAll(Neighbors(c.cur, fruit), b, c.visited + {c.cur.Head()}, c.queue)
  }

  /** One iteration after which the loop goes round again. A state on a
      marked cell is dropped and a minimum is polled without a goal test
      (SnakeGame.java:419-423); otherwise the state is expanded, a minimum is
      polled from the grown queue and it is not on the fruit
      (SnakeGame.java:425-449). */
  ghost predicate Step(b: Board, fruit: Cell, c: Config, d: Config)
  {
    if c.cur.Head() in c.visited then
      && IsMinimal(d.cur, c.queue) && d.queue == c.queue - multiset{d.cur}
      && d.visited == c.visited
    else
      var e := Expansion(b, fruit, c);
      && IsMinimal(d.cur, e.1) && d.queue == e.1 - multiset{d.cur}
      && d.visited == e.0 && !IsGoal(d.cur, fruit)
  }

  /** The iteration that leaves the loop, and how: a skip that finds the
      queue empty polls `null`; an expansion that leaves the queue empty
      breaks with the expanded state; an expansion followed by a poll of a
      state on the fruit breaks with that state. */
  ghost predicate Stop(b: Board, fruit: Cell, c: Config, out: Outcome)
  {
    if c.cur.Head() in c.visited then
      |c.queue| == 0 && out == NullPoll
    else
      var e := Expansion(b, fruit, c);
      if |e.1| == 0 then out == QueueEmpty(c.cur)
      else out.ReachedGoal? && IsMinimal(out.state, e.1) && IsGoal(out.state, fruit)
  }

  /** A sequence of loop states that the search can pass through from its
      start, one iteration apart; equal priorities leave the polls open. */
  ghost predicate IsRun(b: Board, snake: Snake, fruit: Cell, run: seq<Config>)
  {
    && |run| > 0 && run[0] == InitialConfig(snake, fruit)
    && forall i :: 0 <= i < |run| - 1 ==> Step(b, fruit, run[i], run[i + 1])
  }

  /** `out` is how a search from `snake` to `fruit` can end: a run whose
      last iteration leaves the loop with it. */
  ghost predicate Searched(b: Board, snake: Snake, fruit: Cell, run: seq<Config>, out: Outcome)
  {
    IsRun(b, snake, fruit, run) && Stop(b, fruit, run[|run| - 1], out)
  }

  /** The iterations of SnakeGame.java:419-449 as steps and stops. */
  lemma SkipIsStep(b: Board, fruit: Cell, c: Config, next: SearchState, rest: Queue)
    requires c.cur.Head() in c.visited && IsMinimal(next, c.queue) && rest == c.queue - multiset{next}
    ensures Step(b, fruit, c, Config(next, rest, c.visited))
  {
  }

  lemma ExpandIsStep(b: Board, fruit: Cell, c: Config, next: SearchState, rest: Queue)
    requires c.cur.Head() !in c.visited && !IsGoal(next, fruit)
    requires IsMinimal(next, Expansion(b, fruit, c).1) && rest == Expansion(b, fruit, c).1 - multiset{next}
    ensures Step(b, fruit, c, Config(next, rest, Expansion(b, fruit, c).0))
  {
  }

  lemma NullPollIsStop(b: Board, fruit: Cell, c: Config)
    requires c.cur.Head() in c.visited && |c.queue| == 0
    ensures Stop(b, fruit, c, NullPoll)
  {
  }

  lemma EmptyIsStop(b: Board, fruit: Cell, c: Config)
    requires c.cur.Head() !in c.visited && |Expansion(b, fruit, c).1| == 0
    ensures Stop(b, fruit, c, QueueEmpty(c.cur))
  {
  }

  lemma GoalIsStop(b: Board, fruit: Cell, c: Config, next: SearchState)
    requires c.cur.Head() !in c.visited && IsMinimal(next, Expansion(b, fruit, c).1) && IsGoal(next, fruit)
    ensures Stop(b, fruit, c, ReachedGoal(next))
  {
  }

  /** One more iteration extends a run. */
  lemma RunExtend(b: Board, snake: Snake, fruit: Cell, run: seq<Config>, d: Config)
    requires IsRun(b, snake, fruit, run) && Step(b, fruit, run[|run| - 1], d)
    ensures IsRun(b, snake, fruit, run + [d]) && (run + [d])[|run|] == d
  {
    var r := run + [d];
    forall i | 0 <= i < |r| - 1
      ensures Step(b, fruit, r[i], r[i + 1])
    {
      assert r[i] == run[i];
      if i < |run| - 1 {
        assert r[i + 1] == run[i + 1];
      }
    }
  }

  /** A run whose last loop state leaves the loop is a finished search. */
  lemma RunStops(b: Board, snake: Snake, fruit: Cell, run: seq<Config>, c: Config, out: Outcome)
    requires IsRun(b, snake, fruit, run) && run[|run| - 1] == c && Stop(b, fruit, c, out)
    ensures Searched(b, snake, fruit, run, out)
  {
  }

  /** One iteration keeps the priority order and does not lower the
      in-hand priority. */
  lemma StepKeepsOrder(b: Board, fruit: Cell, c: Config, d: Config)
    requires OrderInv(fruit, c.cur, c.queue) && Step(b, fruit, c, d)
    ensures c.cur.priority <= d.cur.priority && OrderInv(fruit, d.cur, d.queue)
  {
    if c.cur.Head() in c.visited {
      PollKeepsOrder(fruit, c.cur, c.queue, d.cur);
    } else {
      ExpandKeepsOrder(b, fruit, c.cur, c.queue, c.visited + {c.cur.Head()});
      PollKeepsOrder(fruit, c.cur, Expansion(b, fruit, c).1, d.cur);
    }
  }

  /** The state a search stops on at the fruit is polled after the state
      in hand, so its priority is at least as large. */
  lemma GoalKeepsOrder(b: Board, fruit: Cell, c: Config, out: Outcome)
    requires OrderInv(fruit, c.cur, c.queue) && Stop(b, fruit, c, out) && out.ReachedGoal?
    ensures c.cur.priority <= out.state.priority
  {
    ExpandKeepsOrder(b, fruit, c.cur, c.queue, c.visited + {c.cur.Head()});
    PollKeepsOrder(fruit, c.cur, Expansion(b, fruit, c).1, out.state);
  }

  /** Along a run the order holds at every loop state and the in-hand
      priority never drops from one iteration to the next. */
  lemma {:induction false} RunKeepsOrder(b: Board, snake: Snake, fruit: Cell, run: seq<Config>)
    requires IsRun(b, snake, fruit, run)
    ensures OrderInv(fruit, run[|run| - 1].cur, run[|run| - 1].queue)
    ensures forall i, j :: 0 <= i < j < |run| ==> run[i].cur.priority <= run[j].cur.priority
  {
    if |run| == 1 {
      assert run[0] == InitialConfig(snake, fruit);
    } else {
      var p := run[..|run| - 1];
      assert IsRun(b, snake, fruit, p) by {
        forall i | 0 <= i < |p| - 1
          ensures Step(b, fruit, p[i], p[i + 1])
        {
          assert p[i] == run[i] && p[i + 1] == run[i + 1];
        }
      }
      RunKeepsOrder(b, snake, fruit, p);
      assert Step(b, fruit, run[|run| - 2], run[|run| - 1]);
      StepKeepsOrder(b, fruit, run[|run| - 2], run[|run| - 1]);
      forall i, j | 0 <= i < j < |run|
        ensures run[i].cur.priority <= run[j].cur.priority
      {
        if j < |run| - 1 {
          assert run[i] == p[i] && run[j] == p[j];
        } else if i < |run| - 2 {
          assert run[i] == p[i] && run[|run| - 2] == p[|p| - 1];
        }
      }
    }
  }

  /** In-hand priorities that never decrease along a run are all bounded by
      any bound on the last one. */
  lemma BoundedByLast(run: seq<Config>, bound: int)
    requires |run| > 0 && run[|run| - 1].cur.priority <= bound
    requires forall i, j :: 0 <= i < j < |run| ==> run[i].cur.priority <= run[j].cur.priority
    ensures forall i :: 0 <= i < |run| ==> run[i].cur.priority <= bound
  {
    forall i | 0 <= i < |run|
      ensures run[i].cur.priority <= bound
    {
      if i < |run| - 1 {
        assert run[i].cur.priority <= run[|run| - 1].cur.priority;
      }
    }
  }

  /** States come into hand best first: the in-hand priorities of a run
      never decrease, and a search that reaches the fruit ends with a state
      whose priority is at least every one before it. */
  lemma RunIsBestFirst(b: Board, snake: Snake, fruit: Cell, run: seq<Config>, out: Outcome)
    requires Searched(b, snake, fruit, run, out)
    ensures forall i, j :: 0 <= i < j < |run| ==> run[i].cur.priority <= run[j].cur.priority
    ensures out.ReachedGoal? ==> forall i :: 0 <= i < |run| ==> run[i].cur.priority <= out.state.priority
  {
    RunKeepsOrder(b, snake, fruit, run);
    var c := run[|run| - 1];
    if out.ReachedGoal? {
      GoalKeepsOrder(b, fruit, c, out);
      BoundedByLast(run, out.state.priority);
    }
  }

  /** What AStar promises about how it ends; see AStar. */
  ghost predicate AStarPost(b: Board, snake: Snake, fruit: Cell, out: Outcome, expanded: seq<Cell>)
  {
    && (out.ReachedGoal? ==> IsGoal(out.state, fruit))
    && (!out.NullPoll? ==> Derived(out.state, StartState(snake, fruit), b, fruit))
    && (!out.NullPoll? ==> DistinctPath(out.state))
    && |expanded| > 0 && expanded[0] == snake[0] && Distinct(expanded)
    && (forall c :: c in expanded ==> b.InBounds(c) && (c == snake[0] || b.TileAt(c) != Some(SnakeBody)))
    && (out.QueueEmpty? ==> out.state.Head() == expanded[|expanded| - 1] && Closed(b, expanded))
  }

  /** One pass of the loop body that expands the state in hand
      (SnakeGame.java:425-449): mark and expand it, then either stop on an
      empty queue, or poll and stop when the polled state is on the fruit,
      or go round with the polled state in hand. */
  method ExpandAndPoll(b: Board, snake: Snake, fruit: Cell, cur: SearchState,
                       queue: Queue, visited: set<Cell>, ghost expanded: seq<Cell>)
    returns (done: Option<Outcome>, cur': SearchState, queue': Queue, visited': set<Cell>,
             ghost expanded': seq<Cell>)
    requires SearchInv(b, snake, fruit, cur, queue, visited, expanded)
    requires cur.Head() !in visited
    ensures expanded' == expanded + [cur.Head()]
    // the iteration either leaves the loop ...
    ensures done.Some? ==> Stop(b, fruit, Config(cur, queue, visited), done.value)
    ensures done.Some? ==> !done.value.NullPoll? && AStarPost(b, snake, fruit, done.value, expanded')
    // ... or goes round with the polled state, off the fruit, in hand
    ensures done.None? ==> Step(b, fruit, Config(cur, queue, visited), Config(cur', queue', visited'))
    ensures done.None? ==> SearchInv(b, snake, fruit, cur', queue', visited', expanded')
    ensures done.None? ==> b.Cells() - visited' < b.Cells() - visited
  {
    var h := cur.Head();
    ExpandKeepsInv(b, snake, fruit, cur, queue, visited, expanded);
    var r := ExpandAll(Neighbors(cur, fruit), b, visited + {h}, queue);
    visited', queue', expanded' := r.0, r.1, expanded + [h];
    if |queue'| == 0 {
      // SnakeGame.java:440-445
      InvFacts(b, snake, fruit, cur, queue', visited', expanded');
      ExhaustedIsClosed(b, snake, fruit, cur, visited', expanded');
      EmptyIsStop(b, fruit, Config(cur, queue, visited));
      done, cur' := Some(QueueEmpty(cur)), cur;
      return;
    }
    var next, rest := Poll(queue');
    PollKeepsInv(b, snake, fruit, cur, queue', visited', expanded', next);
    cur', queue' := next, rest;
    if IsGoal(cur', fruit) {
      // SnakeGame.java:446-449
      InvFacts(b, snake, fruit, cur', queue', visited', expanded');
      GoalIsStop(b, fruit, Config(cur, queue, visited), next);
      done := Some(ReachedGoal(cur'));
    } else {
      ExpandIsStep(b, fruit, Config(cur, queue, visited), next, rest);
      done := None;
    }
  }

  /** One pass of the loop body on a marked cell (SnakeGame.java:419-423):
      poll the next state without a goal test, or stop on the `null` that
      an empty queue gives. */
  method SkipAndPoll(b: Board, snake: Snake, fruit: Cell, cur: SearchState,
                     queue: Queue, visited: set<Cell>, ghost expanded: seq<Cell>)
    returns (done: Option<Outcome>, cur': SearchState, queue': Queue)
    requires SearchInv(b, snake, fruit, cur, queue, visited, expanded)
    requires cur.Head() in visited
    ensures done.Some? ==> done == Some(NullPoll) && Stop(b, fruit, Config(cur, queue, visited), NullPoll)
    ensures done.Some? ==> AStarPost(b, snake, fruit, NullPoll, expanded) && Closed(b, expanded)
    ensures done.None? ==> Step(b, fruit, Config(cur, queue, visited), Config(cur', queue', visited))
    ensures done.None? ==> SearchInv(b, snake, fruit, cur', queue', visited, expanded) && |queue'| < |queue|
  {
    if |queue| == 0 {
      InvFacts(b, snake, fruit, cur, queue, visited, expanded);
      ExhaustedIsClosed(b, snake, fruit, cur, visited, expanded);
      NullPollIsStop(b, fruit, Config(cur, queue, visited));
      return Some(NullPoll), cur, queue;
    }
    var next, rest := Poll(queue);
    PollKeepsInv(b, snake, fruit, cur, queue, visited, expanded, next);
    SkipIsStep(b, fruit, Config(cur, queue, visited), next, rest);
    done, cur', queue' := None, next, rest;
  }

  /** One iteration of the search loop (SnakeGame.java:418-449), which
      either leaves the loop, finishing the run, or extends the run by one
      loop state. */
  method Iterate(b: Board, snake: Snake, fruit: Cell, cur: SearchState, queue: Queue, visited: set<Cell>,
                 ghost expanded: seq<Cell>, ghost run: seq<Config>)
    returns (done: Option<Outcome>, cur': SearchState, queue': Queue, visited': set<Cell>,
             ghost expanded': seq<Cell>, ghost run': seq<Config>)
    requires SearchInv(b, snake, fruit, cur, queue, visited, expanded)
    requires IsRun(b, snake, fruit, run) && run[|run| - 1] == Config(cur, queue, visited)
    ensures done.Some? ==> Searched(b, snake, fruit, run', done.value) && AStarPost(b, snake, fruit, done.value, expanded')
    ensures done.Some? && done.value.NullPoll? ==> Closed(b, expanded')
    ensures done.None? ==> SearchInv(b, snake, fruit, cur', queue', visited', expanded')
    ensures done.None? ==> IsRun(b, snake, fruit, run') && run'[|run'| - 1] == Config(cur', queue', visited')
    ensures done.None? ==> b.Cells() - visited' < b.Cells() - visited || (visited' == visited && |queue'| < |queue|)
  {
    ghost var c := Config(cur, queue, visited);
    visited', expanded' := visited, expanded;
    if cur.Head() in visited {
      done, cur', queue' := SkipAndPoll(b, snake, fruit, cur, queue, visited, expanded);
    } else {
      done, cur', queue', visited', expanded' := ExpandAndPoll(b, snake, fruit, cur, queue, visited, expanded);
    }
    if done.Some? {
      RunStops(b, snake, fruit, run, c, done.value);
      run' := run;
    } else {
      RunExtend(b, snake, fruit, run, Config(cur', queue', visited'));
      run' := run + [Config(cur', queue', visited')];
    }
  }

  /** SnakeGame.AStar's search loop (SnakeGame.java:407-450). `run` lists the
      loop states the search passed through, `expanded` the cells in the
      order they were marked and expanded. */
  method AStar(b: Board, snake: Snake, fruit: Cell)
    returns (out: Outcome, ghost run: seq<Config>, ghost expanded: seq<Cell>)
    requires b.Valid() && b.InBounds(snake[0])
    // the search went iteration by iteration from the start to `out`
    ensures Searched(b, snake, fruit, run, out)
    ensures out.ReachedGoal? ==> IsGoal(out.state, fruit)
    ensures !out.NullPoll? ==> Derived(out.state, StartState(snake, fruit), b, fruit)
    ensures !out.NullPoll? ==> DistinctPath(out.state)
    // the start cell is expanded first, and no cell is expanded twice
    ensures |expanded| > 0 && expanded[0] == snake[0] && Distinct(expanded)
    ensures forall c :: c in expanded ==> b.InBounds(c) && (c == snake[0] || b.TileAt(c) != Some(SnakeBody))
    // an exhausted search, whether it ends on an empty queue or on a null poll,
    // has expanded every admissible neighbour of an expanded cell
    ensures out.QueueEmpty? ==> out.state.Head() == expanded[|expanded| - 1] && Closed(b, expanded)
    ensures out.NullPoll? ==> Closed(b, expanded)
  {
    var cur := StartState(snake, fruit);
    var queue: Queue := multiset{};
    var visited: set<Cell> := {};
    expanded := [];
    run := [InitialConfig(snake, fruit)];
    SearchInvInit(b, snake, fruit);
    while true
      invariant SearchInv(b, snake, fruit, cur, queue, visited, expanded)
      invariant IsRun(b, snake, fruit, run) && run[|run| - 1] == Config(cur, queue, visited)
      decreases b.Cells() - visited, |queue|
    {
      var done;
      done, cur, queue, visited, expanded, run := Iterate(b, snake, fruit, cur, queue, visited, expanded, run);
      if done.Some? {
        return done.value, run, expanded;
      }
    }
  }

  /** A path of free cells: consecutive cells one move apart and every cell
      after the first admissible. */
  predicate FreePath(b: Board, p: seq<Cell>)
  {
    forall i :: 0 < i < |p| ==> Adjacent(p[i - 1], p[i]) && Admissible(b, p[i])
  }

  /** A closed expansion that contains a path's first cell contains the
      whole path. With the exhausted-queue outcome this means: whenever a
      free path leads from the head to the fruit, an exhausted search has
      expanded the fruit's cell without reporting it as the goal. */
  lemma {:induction false} ClosedContainsFreePath(b: Board, expanded: seq<Cell>, p: seq<Cell>)
    requires Closed(b, expanded) && FreePath(b, p)
    requires |p| > 0 && p[0] in expanded
    ensures forall c :: c in p ==> c in expanded
    decreases |p|
  {
    if |p| > 1 {
      var q := p[..|p| - 1];
      assert FreePath(b, q) by {
        forall i | 0 < i < |q| ensures Adjacent(q[i - 1], q[i]) && Admissible(b, q[i]) {
          assert q[i] == p[i] && q[i - 1] == p[i - 1];
        }
      }
      ClosedContainsFreePath(b, expanded, q);
      var last := p[|p| - 1];
      var prev := p[|p| - 2];
      assert prev in q;
      var d := DirectionBetween(prev, last).value;
      assert Move(prev, d) == last;
      forall c | c in p ensures c in expanded {
        if c != last {
          var k :| 0 <= k < |p| && p[k] == c;
          assert q[k] == c;
        }
      }
    }
  }
}
