/** UCB selection (UCB.java): score every child with the upper confidence
    bound and take the highest for the AI, the lowest otherwise. */
module Ucb {
  import opened Optional
  import opened Extremum
  import opened MctsState
  import opened MctsNode

  /** The score of a child never visited: `Integer.MAX_VALUE` as a double. */
  const Unvisited: real := IntMax as real

  /** The non-sentinel branch `winScore / visits + 1.41 * sqrt(log(total) /
      visits)` in floating point, given as a parameter: total visits, win
      score, visits. */
  type Formula = (int, real, int) -> real

  /** ucbValue (UCB.java:6-10). */
  function UcbValue(formula: Formula, totalVisit: int, winScore: real, nodeVisit: int): (r: real)
    ensures nodeVisit == 0 ==> r == Unvisited
    ensures nodeVisit != 0 ==> r == formula(totalVisit, winScore, nodeVisit)
  {
    if nodeVisit == 0 then Unvisited else formula(totalVisit, winScore, nodeVisit)
  }

  /** The children's scores, each taken with the parent's own visit count
      as the total. */
  function Scores(n: Node, formula: Formula): (r: seq<real>)
    ensures |r| == |n.children|
    ensures forall i :: 0 <= i < |r| ==>
              r[i] == UcbValue(formula, n.state.visitCount, n.children[i].state.winScore, n.children[i].state.visitCount)
  {
    seq(|n.children|, i requires 0 <= i < |n.children| =>
      UcbValue(formula, n.state.visitCount, n.children[i].state.winScore, n.children[i].state.visitCount))
  }

  /** The score of child `c` under parent `n`. */
  function ScoreOf(n: Node, c: Node, formula: Formula): real
  {
    UcbValue(formula, n.state.visitCount, c.state.winScore, c.state.visitCount)
  }

  /** findBestNodeWithUCB (UCB.java:12-25): the first child with the highest
      score when `isAI`, the lowest otherwise; `None` for no children (the
      library call throws). The node itself is a value and is not changed. */
  function FindBestNodeWithUcb(n: Node, isAI: bool, formula: Formula): (r: Option<Node>)
    ensures r.None? <==> |n.children| == 0
    ensures r.Some? ==> r.value in n.children
    ensures r.Some? ==> forall c :: c in n.children ==>
              if isAI then ScoreOf(n, c, formula) <= ScoreOf(n, r.value, formula)
              else ScoreOf(n, c, formula) >= ScoreOf(n, r.value, formula)
    ensures r.Some? ==> exists i :: IsFirstBest(Scores(n, formula), isAI, i) && r.value == n.children[i]
  {
    match FirstBest(Scores(n, formula), isAI)
    case None => None
    case Some(i) => Some(n.children[i])
  }

  /** The AI explores first: when some child is unvisited and no visited
      child scores as high as the sentinel, an unvisited child is chosen. */
  lemma AiPrefersUnvisited(n: Node, formula: Formula, k: nat)
    requires k < |n.children| && n.children[k].state.visitCount == 0
    requires forall c :: c in n.children && c.state.visitCount != 0 ==>
               formula(n.state.visitCount, c.state.winScore, c.state.visitCount) < Unvisited
    ensures FindBestNodeWithUcb(n, true, formula).value.state.visitCount == 0
  {
    var r := FindBestNodeWithUcb(n, true, formula).value;
    assert ScoreOf(n, n.children[k], formula) == Unvisited;
    assert ScoreOf(n, n.children[k], formula) <= ScoreOf(n, r, formula);
  }

  /** The opponent avoids them: the minimising branch picks an unvisited
      child only when every child scores at least the sentinel. */
  lemma OpponentAvoidsUnvisited(n: Node, formula: Formula)
    requires |n.children| > 0
    requires FindBestNodeWithUcb(n, false, formula).value.state.visitCount == 0
    ensures forall c :: c in n.children ==> ScoreOf(n, c, formula) >= Unvisited
  {
  }

  /** The choice depends on the parent only through its visit count and its
      children: the total passed to every score is the parent's own count. */
  lemma ChoiceUsesParentVisits(n: Node, m: Node, isAI: bool, formula: Formula)
    requires n.children == m.children && n.state.visitCount == m.state.visitCount
    ensures FindBestNodeWithUcb(n, isAI, formula) == FindBestNodeWithUcb(m, isAI, formula)
  {
    assert Scores(n, formula) == Scores(m, formula);
  }
}
