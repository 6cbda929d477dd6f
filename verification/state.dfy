/** The MCTS node payload (State.java): a board, a snake, whose move it is,
    and the visit and score counters of the tree search. */
module MctsState {
  import opened Grid

  /** Java `int`: 32-bit two's complement. */
  const IntMin: int := -0x8000_0000
  const IntMax: int := 0x7fff_ffff

  type Int32 = x: int | IntMin <= x <= IntMax

  /** `Integer.MIN_VALUE` widened to `double`: the winScore that marks a
      node whose score is frozen. */
  const Frozen: real := IntMin as real

  /** The fields of State. The snake may be empty (the no-argument
      constructor leaves it so); `winScore` is a `double`, kept exact. */
  datatype State = State(board: Board, snake: seq<Cell>, isAI: bool, visitCount: Int32, winScore: real)

  /** The copy constructor (State.java:17-23): every field carries over. */
  function Copy(s: State): (r: State)
    ensures r.snake == s.snake && r.isAI == s.isAI
    ensures r.visitCount == s.visitCount && r.winScore == s.winScore
    ensures r.board == s.board
  {
    State(s.board, s.snake, s.isAI, s.visitCount, s.winScore)
  }

  /** getOpponent (State.java:30): the side that is not to move. */
  function Opponent(s: State): (r: bool)
    ensures r != s.isAI
  {
    !s.isAI
  }

  /** getAllPossibleStates (State.java:32-43) is a stub: no successors. */
  function AllPossibleStates(s: State): (r: seq<State>)
    ensures |r| == 0
  {
    []
  }

  /** incrementVisit (State.java:45-47): `visitCount++` on a Java `int`,
      which wraps from Integer.MAX_VALUE to Integer.MIN_VALUE. */
  function IncrementVisit(s: State): (r: State)
    ensures r == s.(visitCount := r.visitCount)
    ensures s.visitCount < IntMax ==> r.visitCount == s.visitCount + 1
    ensures s.visitCount == IntMax ==> r.visitCount == IntMin
  {
    s.(visitCount := if s.visitCount == IntMax then IntMin else s.visitCount + 1)
  }

  /** addScore (State.java:49-52): add unless the score is frozen. */
  function AddScore(s: State, score: real): (r: State)
    ensures r == s.(winScore := r.winScore)
    ensures s.winScore == Frozen ==> r == s
    ensures s.winScore != Frozen ==> r.winScore - s.winScore == score
  {
    if s.winScore != Frozen then s.(winScore := s.winScore + score) else s
  }

  /** randomPlay (State.java:54-60) is a stub that plays no move. */
  function RandomPlay(s: State): (r: State)
    ensures r == Copy(s)
  {
    s
  }

  /** togglePlayer (State.java:62-64): hand the move to the other side. */
  function TogglePlayer(s: State): (r: State)
    ensures r == s.(isAI := r.isAI) && r.isAI != s.isAI
  {
    s.(isAI := !s.isAI)
  }

  /** Toggling twice gives the mover back, and the toggled state's mover is
      the opponent the original reports. */
  lemma TogglePlayerTwice(s: State)
    ensures TogglePlayer(TogglePlayer(s)) == s
    ensures TogglePlayer(s).isAI == Opponent(s)
    ensures Opponent(TogglePlayer(s)) == s.isAI
  {
  }

  /** Once frozen, a score stays frozen whatever is added. */
  lemma {:induction false} FrozenIsAbsorbing(s: State, scores: seq<real>)
    requires s.winScore == Frozen
    ensures AddScores(s, scores) == s
    decreases |scores|
  {
    if |scores| > 0 {
      FrozenIsAbsorbing(s, scores[1..]);
    }
  }

  /** The scores of one back-propagation path, added in turn. */
  function AddScores(s: State, scores: seq<real>): State
    decreases |scores|
  {
    if |scores| == 0 then s else AddScores(AddScore(s, scores[0]), scores[1..])
  }

  /** Unlike a sentinel set aside from ordinary values, the frozen score can
      be reached by adding: a node at -2^31 + 1 that is charged 1 is frozen
      from then on. */
  lemma FrozenReachableByAdding(s: State)
    requires s.winScore == Frozen + 1.0
    ensures AddScore(s, -1.0).winScore == Frozen
    ensures AddScores(s, [-1.0, 5.0]).winScore == Frozen
  {
    var t := AddScore(s, -1.0);
    assert AddScores(s, [-1.0, 5.0]) == AddScores(t, [5.0]);
    assert AddScores(t, [5.0]) == AddScores(AddScore(t, 5.0), []);
  }

  /** Visits counted from zero: n increments give n, until the counter wraps. */
  lemma {:induction false} IncrementVisitCounts(s: State, n: nat)
    requires s.visitCount == 0 && n <= IntMax
    ensures Increments(s, n).visitCount == n
    ensures Increments(s, n) == s.(visitCount := n)
  {
    if n > 0 {
      IncrementVisitCounts(s, n - 1);
    }
  }

  /** `incrementVisit` applied `n` times. */
  function Increments(s: State, n: nat): State
    decreases n
  {
    if n == 0 then s else IncrementVisit(Increments(s, n - 1))
  }
}
