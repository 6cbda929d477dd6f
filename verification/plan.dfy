/** The end of SnakeGame.AStar (SnakeGame.java:451-489): the parent chain of
    the state the search stopped on becomes a table from cell key
    `x + COL_COUNT * y` to the direction to take there, and the direction
    queue is reset to the single initial direction. */
module Plan {
  import opened Optional
  import opened Grid
  import opened Search
  import opened AStar

  /** The new `directionMap` and `directions` after a search. A value of
      `None` is a `null` direction. */
  datatype Plan = Plan(directionMap: map<int, Option<Direction>>, directions: seq<Option<Direction>>)

  /** The states from the start (no parent) to `s`, in that order. */
  function Chain(s: SearchState): (r: seq<SearchState>)
    ensures |r| > 0 && r[|r| - 1] == s && r[0].parent.None?
    ensures forall i :: 0 < i < |r| ==> r[i].parent == Some(r[i - 1])
    decreases s
  {
    match s.parent
    case None => [s]
    case Some(p) => Chain(p) + [s]
  }

  /** The state at the top of the parent chain. */
  function Root(s: SearchState): (r: SearchState)
    ensures r.parent.None?
    decreases s
  {
    match s.parent
    case None => s
    case Some(p) => Root(p)
  }

  /** The head of the state whose parent is the root, read while walking up
      (`secondLastX`/`secondLastY`); (0, 0) when `s` is itself the root. */
  function SecondCell(s: SearchState): Cell
    decreases s
  {
    match s.parent
    case None => Cell(0, 0)
    case Some(p) => if p.parent.None? then s.Head() else SecondCell(p)
  }

  /** The entries `directionMap.put(parentKey, getStateDirection(state))`
      written while walking up from `s`; an entry written later (nearer the
      root) replaces an earlier one with the same key. */
  function ChainMap(s: SearchState, b: Board): map<int, Option<Direction>>
    decreases s
  {
    match s.parent
    case None => map[]
    case Some(p) => map[b.Key(p.Head()) := StateDirection(s)] + ChainMap(p, b)
  }

  /** The table and queue the source leaves behind: the chain's entries,
      then the start cell overwritten with the initial direction, which is
      also the one direction queued. */
  function PlanOf(s: SearchState, b: Board): Plan
    requires b.Valid()
  {
    var init := InitialStateDirection(b, SecondCell(s));
    Plan(ChainMap(s, b)[b.Key(Root(s).Head()) := init], [init])
  }

  /** SnakeGame.java:455-485: walk the parent chain from the final state,
      recording directions, then record and queue the initial direction. */
  method ExtractPlan(final: SearchState, b: Board) returns (plan: Plan)
    requires b.Valid()
    ensures plan == PlanOf(final, b)
    ensures |plan.directions| == 1
    ensures b.Key(Root(final).Head()) in plan.directionMap
    ensures plan.directionMap[b.Key(Root(final).Head())] == plan.directions[0]
  {
    var cur := final;
    var m: map<int, Option<Direction>> := map[];
    var second := Cell(0, 0);
    while cur.parent.Some?
      invariant m + ChainMap(cur, b) == ChainMap(final, b)
      invariant Root(cur) == Root(final)
      invariant cur.parent.Some? ==> second == Cell(0, 0) && SecondCell(cur) == SecondCell(final)
      invariant cur.parent.None? ==> second == SecondCell(final)
      decreases cur
    {
      var p := cur.parent.value;
      var k := b.Key(p.Head());
      assert ChainMap(cur, b) == map[k := StateDirection(cur)] + ChainMap(p, b);
      assert m + ChainMap(cur, b) == m[k := StateDirection(cur)] + ChainMap(p, b);
      m := m[k := StateDirection(cur)];
      if p.parent.None? {
        second := cur.Head();
      }
      cur := p;
    }
    var init := InitialStateDirection(b, second);
    m := m[b.Key(cur.Head()) := init];
    plan := Plan(m, [init]);
  }

  /** The keys of the strict ancestors of `s`: the keys the walk writes. */
  function AncestorKeys(s: SearchState, b: Board): set<int>
    decreases s
  {
    match s.parent
    case None => {}
    case Some(p) => AncestorKeys(p, b) + {b.Key(p.Head())}
  }

  /** No state's key repeats the key of one of its ancestors. */
  predicate KeysDistinct(s: SearchState, b: Board)
    decreases s
  {
    match s.parent
    case None => true
    case Some(p) => b.Key(s.Head()) !in AncestorKeys(s, b) && KeysDistinct(p, b)
  }

  /** The walk writes exactly the ancestors' keys. */
  lemma {:induction false} ChainMapKeys(s: SearchState, b: Board)
    ensures ChainMap(s, b).Keys == AncestorKeys(s, b)
    decreases s
  {
    match s.parent
    case None =>
    case Some(p) => ChainMapKeys(p, b);
  }

  /** The start's key is among the keys of every state below it. */
  lemma {:induction false} RootKeyIsAncestorKey(s: SearchState, b: Board)
    requires s.parent.Some?
    ensures b.Key(Root(s).Head()) in AncestorKeys(s, b)
    decreases s
  {
    var p := s.parent.value;
    if p.parent.Some? {
      RootKeyIsAncestorKey(p, b);
    }
  }

  /** Distinct in-bounds cells on a derived path give distinct keys. */
  lemma {:induction false} DerivedKeysDistinct(s: SearchState, start: SearchState, b: Board, fruit: Cell)
    requires Derived(s, start, b, fruit) && DistinctPath(s) && b.InBounds(start.Head())
    ensures KeysDistinct(s, b) && b.InBounds(s.Head())
    decreases s
  {
    match s.parent
    case None =>
    case Some(p) =>
      DerivedKeysDistinct(p, start, b, fruit);
      if b.Key(s.Head()) in AncestorKeys(s, b) {
        KeyOfAncestor(p, start, b, fruit, s.Head());
        assert false;
      }
  }

  /** An in-bounds cell whose key is an ancestor key of `s` or the key of
      `s`'s own head is that ancestor's or that head's cell. */
  lemma {:induction false} KeyOfAncestor(s: SearchState, start: SearchState, b: Board, fruit: Cell, c: Cell)
    requires Derived(s, start, b, fruit) && b.InBounds(start.Head()) && b.InBounds(c)
    requires b.Key(c) in AncestorKeys(s, b) + {b.Key(s.Head())}
    ensures c in AncestorHeads(s) + {s.Head()}
    decreases s
  {
    match s.parent
    case None =>
      KeyInjective(b, c, s.Head());
    case Some(p) =>
      if b.Key(c) == b.Key(s.Head()) {
        KeyInjective(b, c, s.Head());
      } else {
        KeyOfAncestor(p, start, b, fruit, c);
      }
  }

  /** Along a chain with distinct keys, the table maps every cell before the
      last to the direction of the step that leaves it. */
  lemma {:induction false} ChainMapEntries(s: SearchState, b: Board)
    requires KeysDistinct(s, b)
    ensures forall i :: 0 <= i < |Chain(s)| - 1 ==>
              b.Key(Chain(s)[i].Head()) in ChainMap(s, b) &&
              ChainMap(s, b)[b.Key(Chain(s)[i].Head())] == StateDirection(Chain(s)[i + 1])
    decreases s
  {
    match s.parent
    case None =>
    case Some(p) =>
      var cp, cs := Chain(p), Chain(s);
      assert cs == cp + [s];
      ChainMapEntries(p, b);
      ChainMapKeys(p, b);
      forall i | 0 <= i < |cs| - 1
        ensures b.Key(cs[i].Head()) in ChainMap(s, b)
        ensures ChainMap(s, b)[b.Key(cs[i].Head())] == StateDirection(cs[i + 1])
      {
        assert cs[i] == cp[i];
        if i < |cp| - 1 {
          assert cs[i + 1] == cp[i + 1];
        }
      }
  }

  /** Every state after the start has a key other than the start's. */
  lemma {:induction false} RootKeyUnique(s: SearchState, b: Board)
    requires KeysDistinct(s, b)
    ensures forall i :: 0 < i < |Chain(s)| ==> b.Key(Chain(s)[i].Head()) != b.Key(Root(s).Head())
    decreases s
  {
    match s.parent
    case None =>
    case Some(p) =>
      RootKeyUnique(p, b);
      RootKeyIsAncestorKey(s, b);
      assert Chain(s) == Chain(p) + [s];
  }

  /** The plan after a search that did not crash: at every cell of the path
      strictly between the start and the final state, the table says which
      way the path continues. */
  lemma PlanFollowsPath(final: SearchState, b: Board, snake: Snake, fruit: Cell)
    requires b.Valid() && b.InBounds(snake[0])
    requires Derived(final, StartState(snake, fruit), b, fruit) && DistinctPath(final)
    ensures Chain(final)[0] == StartState(snake, fruit)
    ensures forall i :: 0 < i < |Chain(final)| - 1 ==>
              b.Key(Chain(final)[i].Head()) in PlanOf(final, b).directionMap &&
              var e := PlanOf(final, b).directionMap[b.Key(Chain(final)[i].Head())];
              e.Some? && Move(Chain(final)[i].Head(), e.value) == Chain(final)[i + 1].Head()
  {
    var start := StartState(snake, fruit);
    DerivedKeysDistinct(final, start, b, fruit);
    ChainMapEntries(final, b);
    RootOfDerived(final, start, b, fruit);
    RootKeyUnique(final, b);
    var ch := Chain(final);
    var m := ChainMap(final, b);
    forall i | 0 < i < |ch| - 1
      ensures b.Key(ch[i].Head()) in m
      ensures m[b.Key(ch[i].Head())].Some? && Move(ch[i].Head(), m[b.Key(ch[i].Head())].value) == ch[i + 1].Head()
    {
      ChainIsDerived(final, start, b, fruit, i + 1);
    }
  }

  /** The rest of the plan: the start's entry is the initial direction, the
      table holds the keys of the start and of the final state's ancestors,
      and the final cell has no entry of its own. */
  lemma PlanKeys(final: SearchState, b: Board, snake: Snake, fruit: Cell)
    requires b.Valid() && b.InBounds(snake[0])
    requires Derived(final, StartState(snake, fruit), b, fruit) && DistinctPath(final)
    ensures b.Key(snake[0]) in PlanOf(final, b).directionMap
    ensures PlanOf(final, b).directionMap[b.Key(snake[0])] == PlanOf(final, b).directions[0]
    ensures PlanOf(final, b).directionMap.Keys == AncestorKeys(final, b) + {b.Key(snake[0])}
    ensures final.parent.Some? ==> b.Key(final.Head()) !in PlanOf(final, b).directionMap
  {
    var start := StartState(snake, fruit);
    DerivedKeysDistinct(final, start, b, fruit);
    ChainMapKeys(final, b);
    RootOfDerived(final, start, b, fruit);
    if final.parent.Some? {
      RootKeyIsAncestorKey(final, b);
    }
  }

  lemma {:induction false} RootOfDerived(s: SearchState, start: SearchState, b: Board, fruit: Cell)
    requires Derived(s, start, b, fruit)
    ensures Chain(s)[0] == start && Root(s) == start
    decreases s
  {
    match s.parent
    case None =>
    case Some(p) => RootOfDerived(p, start, b, fruit);
  }

  /** Every state on a derived chain steps from its predecessor by the
      direction it records. */
  lemma {:induction false} ChainIsDerived(s: SearchState, start: SearchState, b: Board, fruit: Cell, i: int)
    requires Derived(s, start, b, fruit) && 0 < i < |Chain(s)|
    ensures var ch := Chain(s);
            StateDirection(ch[i]).Some? && Move(ch[i - 1].Head(), StateDirection(ch[i]).value) == ch[i].Head()
    decreases s
  {
    match s.parent
    case None =>
    case Some(p) =>
      if i < |Chain(p)| {
        ChainIsDerived(p, start, b, fruit, i);
        assert Chain(s)[i] == Chain(p)[i] && Chain(s)[i - 1] == Chain(p)[i - 1];
      }
  }
}
