/** The MCTS tree node (Node.java): a state, a reference to the parent and
    the list of children. Object identity is an explicit `id`, and the
    parent reference is the parent's id. */
module MctsNode {
  import opened Optional
  import opened Grid
  import opened Extremum
  import opened MctsState

  datatype Node = Node(id: nat, state: State, parent: Option<nat>, children: seq<Node>)

  /** Every child's parent reference names the node that holds it. */
  predicate Linked(n: Node)
    decreases n
  {
    forall i :: 0 <= i < |n.children| ==> n.children[i].parent == Some(n.id) && Linked(n.children[i])
  }

  /** Every id in the tree is below `bound`. */
  predicate IdsBelow(n: Node, bound: int)
    decreases n
  {
    n.id < bound && forall i :: 0 <= i < |n.children| ==> IdsBelow(n.children[i], bound)
  }

  /** Every id in the tree is at least `bound`. */
  predicate IdsAtLeast(n: Node, bound: int)
    decreases n
  {
    n.id >= bound && forall i :: 0 <= i < |n.children| ==> IdsAtLeast(n.children[i], bound)
  }

  /** The copy constructor `Node(Node)` (Node.java:27-36): new node objects,
      here the ids shifted by `offset`, with copied states and recursively
      copied children, but the ORIGINAL parent reference. */
  function CopyTree(n: Node, offset: nat): (r: Node)
    ensures r.id == n.id + offset && r.parent == n.parent
    ensures r.state == Copy(n.state) && |r.children| == |n.children|
    decreases n
  {
    Node(n.id + offset, Copy(n.state), n.parent,
         seq(|n.children|, i requires 0 <= i < |n.children| => CopyTree(n.children[i], offset)))
  }

  /** `b` copies `a` node by node: same shape, equal states, the same
      parent references, and ids shifted by `offset`. */
  predicate CopyOf(a: Node, b: Node, offset: nat)
    decreases a
  {
    && b.id == a.id + offset
    && b.state == a.state
    && b.parent == a.parent
    && |a.children| == |b.children|
    && forall i :: 0 <= i < |a.children| ==> CopyOf(a.children[i], b.children[i], offset)
  }

  /** The copy has the original's shape, and each copied state has the
      original's snake, mover, visit count and score. */
  lemma {:induction false} CopyTreeIsCopy(n: Node, offset: nat)
    ensures CopyOf(n, CopyTree(n, offset), offset)
    decreases n
  {
    var r := CopyTree(n, offset);
    forall i | 0 <= i < |n.children|
      ensures CopyOf(n.children[i], r.children[i], offset)
    {
      CopyTreeIsCopy(n.children[i], offset);
    }
  }

  /** With an offset beyond every original id, every node of the copy is a
      new object, distinct from every original node: a deep copy. */
  lemma {:induction false} CopyIsFresh(n: Node, offset: nat)
    requires IdsBelow(n, offset)
    ensures IdsAtLeast(CopyTree(n, offset), offset)
    decreases n
  {
    var r := CopyTree(n, offset);
    forall i | 0 <= i < |r.children|
      ensures IdsAtLeast(r.children[i], offset)
    {
      CopyIsFresh(n.children[i], offset);
    }
  }

  /** The parent references are not redirected: each copied child still
      names the original node as its parent, so the copy of a linked tree
      with children is not linked. */
  lemma CopyKeepsOriginalParent(n: Node, offset: nat)
    requires Linked(n) && offset > 0 && |n.children| > 0
    ensures forall i :: 0 <= i < |n.children| ==> CopyTree(n, offset).children[i].parent == Some(n.id)
    ensures !Linked(CopyTree(n, offset))
  {
    var r := CopyTree(n, offset);
    assert r.children[0] == CopyTree(n.children[0], offset);
    assert r.children[0].parent != Some(r.id);
  }

  /** getRandomChildNode (Node.java:38-42): `Math.random()` becomes the
      caller's `draw`; an empty child list throws (`None`). */
  function RandomChild(n: Node, draw: nat): (r: Option<Node>)
    ensures r.None? <==> |n.children| == 0
    ensures r.Some? ==> r.value in n.children
  {
    if |n.children| == 0 then None else Some(n.children[draw % |n.children|])
  }

  /** Every child can be drawn. */
  lemma RandomChildReachesAll(n: Node, i: nat)
    requires i < |n.children|
    ensures RandomChild(n, i) == Some(n.children[i])
  {
  }

  /** The children's visit counts, in list order. */
  function Visits(n: Node): (r: seq<real>)
    ensures |r| == |n.children|
    ensures forall i :: 0 <= i < |r| ==> r[i] == n.children[i].state.visitCount as real
  {
    seq(|n.children|, i requires 0 <= i < |n.children| => n.children[i].state.visitCount as real)
  }

  /** getChildWithMinMaxScore (Node.java:51-61): the child with the most
      visits when the AI moves, the fewest otherwise; the first such child
      on ties; `None` for an empty child list (the library call throws). */
  function ChildWithMinMaxScore(n: Node): (r: Option<Node>)
    ensures r.None? <==> |n.children| == 0
    ensures r.Some? ==> r.value in n.children
    ensures r.Some? ==> forall c :: c in n.children ==>
              if n.state.isAI then c.state.visitCount <= r.value.state.visitCount
              else c.state.visitCount >= r.value.state.visitCount
    // ties go to the earliest child
    ensures r.Some? ==> exists i :: IsFirstBest(Visits(n), n.state.isAI, i) && r.value == n.children[i]
  {
    match FirstBest(Visits(n), n.state.isAI)
    case None => None
    case Some(i) => Some(n.children[i])
  }

  /** getDirectionfromChild (Node.java:62-81), as written: equal x gives
      North or South by y, otherwise West only when the child is MORE than
      one column to the west. An empty snake throws (`None`). */
  function DirectionFromChild(n: Node, child: Node): (r: Option<Direction>)
    ensures r.None? <==> |n.state.snake| == 0 || |child.state.snake| == 0
    // the same column: North exactly when the child is higher up
    ensures r.Some? && n.state.snake[0].x == child.state.snake[0].x ==>
              && (r.value == North <==> n.state.snake[0].y > child.state.snake[0].y)
              && (r.value == South <==> n.state.snake[0].y <= child.state.snake[0].y)
    // another column: West exactly when the child is more than one column west
    ensures r.Some? && n.state.snake[0].x != child.state.snake[0].x ==>
              && (r.value == West <==> n.state.snake[0].x > child.state.snake[0].x + 1)
              && (r.value == East <==> n.state.snake[0].x <= child.state.snake[0].x + 1)
  {
    if |n.state.snake| == 0 || |child.state.snake| == 0 then None
    else
      var here, there := n.state.snake[0], child.state.snake[0];
      if here.x == there.x then
        if here.y > there.y then Some(North) else Some(South)
      else if here.x > there.x + 1 then Some(West)
      else Some(East)
  }

  /** The direction recovered from a child one step North, South or East of
      the node is that step. */
  lemma DirectionFromChildAgrees(n: Node, child: Node, d: Direction)
    requires |n.state.snake| > 0 && |child.state.snake| > 0 && d != West
    requires child.state.snake[0] == Move(n.state.snake[0], d)
    ensures DirectionFromChild(n, child) == Some(d)
  {
  }

  /** A child one step West is reported as East. */
  lemma DirectionFromAdjacentWestChild(n: Node, child: Node)
    requires |n.state.snake| > 0 && |child.state.snake| > 0
    requires child.state.snake[0] == Move(n.state.snake[0], West)
    ensures DirectionFromChild(n, child) == Some(East)
  {
  }

  /** A child on the node's own cell is reported as South. */
  lemma DirectionFromSameCell(n: Node, child: Node)
    requires |n.state.snake| > 0 && |child.state.snake| > 0
    requires child.state.snake[0] == n.state.snake[0]
    ensures DirectionFromChild(n, child) == Some(South)
  {
  }

  /** The comparison the "same Y" branch evidently intends: West when the
      child lies to the west at all. */
  function IntendedDirectionFromChild(n: Node, child: Node): (r: Option<Direction>)
    ensures r.None? <==> |n.state.snake| == 0 || |child.state.snake| == 0
    ensures r.Some? && n.state.snake[0].x != child.state.snake[0].x ==>
              (r.value == West <==> n.state.snake[0].x > child.state.snake[0].x)
  {
    if |n.state.snake| == 0 || |child.state.snake| == 0 then None
    else
      var here, there := n.state.snake[0], child.state.snake[0];
      if here.x == there.x then
        if here.y > there.y then Some(North) else Some(South)
      else if here.x > there.x then Some(West)
      else Some(East)
  }

  /** The intended comparison recovers every one-step move, and differs from
      the written one exactly on children one column to the west. */
  lemma IntendedDirectionFromChildInvertsMove(n: Node, child: Node, d: Direction)
    requires |n.state.snake| > 0 && |child.state.snake| > 0
    requires child.state.snake[0] == Move(n.state.snake[0], d)
    ensures IntendedDirectionFromChild(n, child) == Some(d)
    ensures DirectionFromChild(n, child) != IntendedDirectionFromChild(n, child) <==> d == West
  {
  }
}
