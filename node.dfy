/**
 * A node of the search tree. Nodes live in an arena (a sequence owned by the
 * planner) and refer to their parent and children by index, so the parent
 * link is a plain back-reference and not a cycle of objects.
 */
module SearchNode {
  import opened Quarto

  /**
   * state:   the game state the node stands for
   * action:  the action that produced it (None for the root)
   * parent:  the arena index of the parent (None for the root)
   * actions: the state's available actions, cached at construction
   * final:   whether the state is finished, cached at construction
   */
  datatype Node = Node(
    state: State,
    action: Option<Action>,
    parent: Option<nat>,
    children: seq<nat>,
    actions: seq<Action>,
    final: bool,
    score: nat,
    visits: nat)

  /** Node.__init__: no statistics and no children yet. */
  function NewNode(state: State, action: Option<Action>, parent: Option<nat>): (n: Node)
    ensures n.state == state && n.action == action && n.parent == parent
    ensures n.score == 0 && n.visits == 0 && n.children == []
    ensures n.final <==> HasFinished(state)
    ensures forall a :: a in n.actions <==> Legal(state, a)
  {
    Node(state, action, parent, [], AvailableActions(state), HasFinished(state), 0, 0)
  }

  /** The ratio of wins to visits, or the sentinel -1 for an unvisited node. */
  function Average(n: Node): (r: real)
    ensures n.visits == 0 ==> r == -1.0
    ensures n.visits > 0 ==> r * n.visits as real == n.score as real
    ensures n.visits > 0 && n.score <= n.visits ==> 0.0 <= r <= 1.0
  {
    if n.visits == 0 then -1.0 else n.score as real / n.visits as real
  }

  predicate IsLeaf(n: Node) {
    |n.children| == 0
  }

  /** __hash__: a node is keyed by its state's board only. */
  function NodeHash(n: Node): seq<Piece> {
    Hash(n.state)
  }

  lemma NodeHashIsBoard(m: Node, n: Node)
    ensures NodeHash(m) == NodeHash(n) <==> m.state.board == n.state.board
  {
  }

  /** Every index in cs names a node of the arena. */
  predicate InArena(nodes: seq<Node>, cs: seq<nat>) {
    forall j :: 0 <= j < |cs| ==> cs[j] < |nodes|
  }

  /** x beats y: a strictly larger average when maximizing, strictly smaller otherwise. */
  predicate Beats(x: real, y: real, maximize: bool) {
    if maximize then x > y else x < y
  }

  /**
   * The position that sorted(cs, key=average, reverse=maximize)[0] picks:
   * an extreme average, and the earliest one among equals, because Python's
   * sort is stable also when reversed.
   */
  function BestPos(nodes: seq<Node>, cs: seq<nat>, maximize: bool): (k: nat)
    requires |cs| > 0 && InArena(nodes, cs)
    ensures k < |cs|
    ensures forall j :: 0 <= j < |cs| ==> !Beats(Average(nodes[cs[j]]), Average(nodes[cs[k]]), maximize)
    ensures forall j :: 0 <= j < k ==> Beats(Average(nodes[cs[k]]), Average(nodes[cs[j]]), maximize)
    decreases |cs|
  {
    if |cs| == 1 then 0
    else
      var k := BestPos(nodes, cs[..|cs| - 1], maximize);
      var last := |cs| - 1;
      if Beats(Average(nodes[cs[last]]), Average(nodes[cs[k]]), maximize) then last else k
  }

  /**
   * best_child: maximize the average when the first child has the AI to
   * move, minimize it otherwise.
   */
  function BestChild(nodes: seq<Node>, n: nat): (c: nat)
    requires n < |nodes| && |nodes[n].children| > 0 && InArena(nodes, nodes[n].children)
    ensures c in nodes[n].children
    ensures var cs := nodes[n].children;
      TurnAi(nodes[cs[0]].state) ==>
        forall j :: 0 <= j < |cs| ==> Average(nodes[cs[j]]) <= Average(nodes[c])
    ensures var cs := nodes[n].children;
      !TurnAi(nodes[cs[0]].state) ==>
        forall j :: 0 <= j < |cs| ==> Average(nodes[c]) <= Average(nodes[cs[j]])
  {
    var cs := nodes[n].children;
    cs[BestPos(nodes, cs, TurnAi(nodes[cs[0]].state))]
  }
}
