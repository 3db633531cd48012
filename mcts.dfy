/**
 * Monte Carlo tree search for the AI player. The planner owns a node arena
 * (index 0 is the root) and a transposition map from (board, action) to the
 * node an earlier exploration created. One iteration descends from the root
 * to a finished state, exploiting the best child or exploring a random
 * action, then credits every node on the path with the outcome.
 *
 * Randomness is supplied by the caller: draw(i) is the uniform number drawn
 * at descent step i, and pick(i) selects the explored action, as
 * actions[pick(i) % |actions|].
 */
module MonteCarlo {
  import opened Quarto
  import opened SearchNode

  /** A transposition key: the board of the node explored from, and the action. */
  type Key = (seq<Piece>, Action)

  /** The planner's data: the node arena and the transposition map. */
  datatype Tree = Tree(nodes: seq<Node>, visited: map<Key, nat>)

  /** A result, or the IndexError that best_child raises on a childless node. */
  datatype Outcome<T> = Ok(value: T) | IndexError

  // ---------------------------------------------------------------------
  // Well-formed trees
  // ---------------------------------------------------------------------

  /**
   * Where a transposition entry can lead: a piece choice keeps the board
   * and enters ChooseSpace; a placement puts one more piece on the board.
   */
  ghost predicate Lands(key: Key, t: State) {
    match key.1
    case PieceAction(_) => t.board == key.0 && t.phase == ChooseSpace
    case CellAction(_) => Filled(t.board) == Filled(key.0) + 1
  }

  /** c is a child of n: it was made by a legal action from n's state. */
  ghost predicate ChildOk(nodes: seq<Node>, n: nat, c: nat)
    requires n < |nodes|
  {
    && c < |nodes|
    && nodes[c].parent == Some(n)
    && nodes[c].action.Some?
    && nodes[c].action.value in nodes[n].actions
    && WellShaped(nodes[n].state)
    && nodes[c].state == DoAction(nodes[n].state, nodes[c].action.value)
  }

  ghost predicate NodeOk(nodes: seq<Node>, n: nat)
    requires n < |nodes|
  {
    var x := nodes[n];
    && Inv(x.state)
    && x.actions == AvailableActions(x.state)
    && x.final == HasFinished(x.state)
    && x.score <= x.visits
    && (forall j :: 0 <= j < |x.children| ==> ChildOk(nodes, n, x.children[j]))
  }

  ghost predicate WellFormed(t: Tree) {
    && |t.nodes| > 0
    && t.nodes[0].parent == None
    && (forall n :: 0 <= n < |t.nodes| ==> NodeOk(t.nodes, n))
    && (forall k :: k in t.visited ==>
          t.visited[k] < |t.nodes| && Lands(k, t.nodes[t.visited[k]].state))
  }

  /** u extends t: nodes only appended, child lists only extended, no key rebound. */
  ghost predicate Grows(t: Tree, u: Tree) {
    && |t.nodes| <= |u.nodes|
    && (forall n :: 0 <= n < |t.nodes| ==>
          u.nodes[n] == t.nodes[n].(children := u.nodes[n].children)
          && t.nodes[n].children <= u.nodes[n].children)
    && (forall k :: k in t.visited ==> k in u.visited && u.visited[k] == t.visited[k])
  }

  lemma GrowsReflexive(t: Tree)
    ensures Grows(t, t)
  {
    forall n | 0 <= n < |t.nodes|
      ensures t.nodes[n] == t.nodes[n].(children := t.nodes[n].children)
    {
    }
  }

  lemma GrowsTransitive(a: Tree, b: Tree, c: Tree)
    requires Grows(a, b) && Grows(b, c)
    ensures Grows(a, c)
  {
    forall n | 0 <= n < |a.nodes|
      ensures c.nodes[n] == a.nodes[n].(children := c.nodes[n].children)
      ensures a.nodes[n].children <= c.nodes[n].children
    {
      assert b.nodes[n] == a.nodes[n].(children := b.nodes[n].children);
    }
  }

  /** A node with a child is not finished: the child's action was available in it. */
  lemma ParentUnfinished(t: Tree, n: nat)
    requires WellFormed(t) && n < |t.nodes| && |t.nodes[n].children| > 0
    ensures !t.nodes[n].final
  {
    assert NodeOk(t.nodes, n);
    assert ChildOk(t.nodes, n, t.nodes[n].children[0]);
  }

  /** What ChildOk reads of a node: everything except its children and statistics. */
  predicate SameCore(x: Node, y: Node) {
    && x.state == y.state && x.action == y.action && x.parent == y.parent
    && x.actions == y.actions && x.final == y.final
  }

  lemma ChildOkTransfer(a: seq<Node>, b: seq<Node>, n: nat, c: nat)
    requires n < |a| && n < |b| && ChildOk(a, n, c) && c < |b|
    requires SameCore(a[n], b[n]) && SameCore(a[c], b[c])
    ensures ChildOk(b, n, c)
  {
  }

  // ---------------------------------------------------------------------
  // One descent step
  // ---------------------------------------------------------------------

  /** The arena after child is appended and listed as the last child of node cur. */
  function Attach(nodes: seq<Node>, cur: nat, child: Node): seq<Node>
    requires cur < |nodes|
  {
    var x := nodes[cur];
    nodes[cur := x.(children := x.children + [|nodes|])] + [child]
  }

  /** The tree after a new child for action a is attached to node cur. */
  ghost function Grafted(t: Tree, cur: nat, a: Action): Tree
    requires cur < |t.nodes| && WellShaped(t.nodes[cur].state)
  {
    var x := t.nodes[cur];
    var child := NewNode(DoAction(x.state, a), Some(a), Some(cur));
    Tree(Attach(t.nodes, cur, child), t.visited[(NodeHash(x), a) := |t.nodes|])
  }

  /** Explore action a from node cur, reusing the transposition entry if any. */
  ghost function Explore(t: Tree, cur: nat, a: Action): (Tree, nat)
    requires cur < |t.nodes| && WellShaped(t.nodes[cur].state)
  {
    var key := (NodeHash(t.nodes[cur]), a);
    if key in t.visited then (t, t.visited[key])
    else (Grafted(t, cur, a), |t.nodes|)
  }

  /** One step of the descent from the non-final node cur. */
  ghost function Step(t: Tree, cur: nat, r: real, pick: nat, exploitation: real): (Tree, nat)
    requires WellFormed(t) && cur < |t.nodes| && !t.nodes[cur].final
  {
    var x := t.nodes[cur];
    assert NodeOk(t.nodes, cur);
    NonFinalHasActions(x.state);
    var explore := r > exploitation;
    if |x.children| > 0 && !explore then (t, BestChild(t.nodes, cur))
    else Explore(t, cur, x.actions[pick % |x.actions|])
  }

  /**
   * The transposition key leaves out the piece in hand: after two different
   * piece choices from the same state, placing either piece on the same cell
   * gives the same key, yet the two successor states differ on that cell.
   * A descent can therefore continue from a node holding the other piece.
   */
  lemma KeyIgnoresChosenPiece(s: State, p: Piece, q: Piece, c: Cell)
    requires Inv(s) && s.phase == ChoosePiece && p in s.pieces && q in s.pieces && p != q
    requires c in s.spaces
    ensures var s1, s2 := DoAction(s, PieceAction(p)), DoAction(s, PieceAction(q));
      && Hash(s1) == Hash(s2)
      && CellAction(c) in AvailableActions(s1) && CellAction(c) in AvailableActions(s2)
      && DoAction(s1, CellAction(c)).board[Index(c)] == p
      && DoAction(s2, CellAction(c)).board[Index(c)] == q
  {
    var s1, s2 := DoAction(s, PieceAction(p)), DoAction(s, PieceAction(q));
    PieceChoiceEffect(s, p);
    PieceChoiceEffect(s, q);
    DoActionInv(s, PieceAction(p));
    DoActionInv(s, PieceAction(q));
    PlacementEffect(s1, c);
    PlacementEffect(s2, c);
  }

  /** The effect of an exploration on the tree. */
  lemma ExploreEffect(t: Tree, cur: nat, a: Action)
    requires WellFormed(t) && cur < |t.nodes| && a in t.nodes[cur].actions
    ensures NodeOk(t.nodes, cur)
    ensures var (u, m) := Explore(t, cur, a);
      var key := (t.nodes[cur].state.board, a);
      && key in u.visited && u.visited[key] == m
      && (key in t.visited ==> u == t)
      && (key !in t.visited ==>
            && m == |t.nodes| && |u.nodes| == |t.nodes| + 1
            && u.nodes[cur].children == t.nodes[cur].children + [m]
            && u.nodes[m] == NewNode(DoAction(t.nodes[cur].state, a), Some(a), Some(cur))
            && (forall n :: 0 <= n < |t.nodes| && n != cur ==> u.nodes[n] == t.nodes[n])
            && u.visited == t.visited[key := m])
  {
    assert NodeOk(t.nodes, cur);
  }

  /** Attaching a child changes nothing ChildOk reads of an old parent and child. */
  lemma AttachChildOk(nodes: seq<Node>, cur: nat, child: Node, n: nat, c: nat)
    requires cur < |nodes| && n < |nodes| && ChildOk(nodes, n, c)
    ensures ChildOk(Attach(nodes, cur, child), n, c)
  {
    var nodes' := Attach(nodes, cur, child);
    assert SameCore(nodes[n], nodes'[n]) && SameCore(nodes[c], nodes'[c]);
    ChildOkTransfer(nodes, nodes', n, c);
  }

  /** Attaching a well-formed child keeps every old node well formed. */
  lemma AttachNodeOk(nodes: seq<Node>, cur: nat, child: Node, n: nat)
    requires cur < |nodes| && n < |nodes| && NodeOk(nodes, n)
    requires ChildOk(Attach(nodes, cur, child), cur, |nodes|)
    ensures NodeOk(Attach(nodes, cur, child), n)
  {
    var nodes' := Attach(nodes, cur, child);
    var old_children := nodes[n].children;
    assert nodes'[n].children == if n == cur then old_children + [|nodes|] else old_children;
    forall j | 0 <= j < |nodes'[n].children|
      ensures ChildOk(nodes', n, nodes'[n].children[j])
    {
      if j < |old_children| {
        AttachChildOk(nodes, cur, child, n, old_children[j]);
      }
    }
  }

  /** The new node of a grafted tree is a proper child of cur. */
  lemma GraftedChildOk(t: Tree, cur: nat, a: Action)
    requires cur < |t.nodes| && WellShaped(t.nodes[cur].state) && a in t.nodes[cur].actions
    ensures ChildOk(Grafted(t, cur, a).nodes, cur, |t.nodes|)
  {
  }

  /** The new node of a grafted tree is well formed. */
  lemma GraftedNewNodeOk(t: Tree, cur: nat, a: Action)
    requires cur < |t.nodes| && Inv(t.nodes[cur].state) && a in AvailableActions(t.nodes[cur].state)
    ensures NodeOk(Grafted(t, cur, a).nodes, |t.nodes|)
  {
    var s := DoAction(t.nodes[cur].state, a);
    DoActionInv(t.nodes[cur].state, a);
    FreshNodeOk(Grafted(t, cur, a).nodes, |t.nodes|, s);
  }

  /** A node just built from a reachable state, with no children yet, is well formed. */
  lemma FreshNodeOk(nodes: seq<Node>, m: nat, s: State)
    requires m < |nodes| && Inv(s)
    requires nodes[m] == NewNode(s, nodes[m].action, nodes[m].parent)
    ensures NodeOk(nodes, m)
  {
  }

  /**
   * Attaching a child that is well formed where it lands, under a fresh
   * transposition key that leads to it, keeps the tree well formed and only
   * grows it.
   */
  lemma AttachWellFormed(t: Tree, cur: nat, child: Node, key: Key)
    requires WellFormed(t) && cur < |t.nodes| && key !in t.visited
    requires ChildOk(Attach(t.nodes, cur, child), cur, |t.nodes|)
    requires NodeOk(Attach(t.nodes, cur, child), |t.nodes|)
    requires Lands(key, child.state)
    ensures var u := Tree(Attach(t.nodes, cur, child), t.visited[key := |t.nodes|]);
      WellFormed(u) && Grows(t, u)
  {
    AttachNodesOk(t, cur, child);
    AttachVisitedOk(t, cur, child, key);
  }

  lemma AttachNodesOk(t: Tree, cur: nat, child: Node)
    requires WellFormed(t) && cur < |t.nodes|
    requires ChildOk(Attach(t.nodes, cur, child), cur, |t.nodes|)
    requires NodeOk(Attach(t.nodes, cur, child), |t.nodes|)
    ensures forall n :: 0 <= n < |t.nodes| + 1 ==> NodeOk(Attach(t.nodes, cur, child), n)
  {
    forall n | 0 <= n < |t.nodes| + 1
      ensures NodeOk(Attach(t.nodes, cur, child), n)
    {
      if n < |t.nodes| {
        assert NodeOk(t.nodes, n);
        AttachNodeOk(t.nodes, cur, child, n);
      }
    }
  }

  lemma AttachVisitedOk(t: Tree, cur: nat, child: Node, key: Key)
    requires WellFormed(t) && cur < |t.nodes| && key !in t.visited && Lands(key, child.state)
    ensures var u := Tree(Attach(t.nodes, cur, child), t.visited[key := |t.nodes|]);
      forall k :: k in u.visited ==> u.visited[k] < |u.nodes| && Lands(k, u.nodes[u.visited[k]].state)
  {
    var u := Tree(Attach(t.nodes, cur, child), t.visited[key := |t.nodes|]);
    forall k | k in u.visited
      ensures u.visited[k] < |u.nodes| && Lands(k, u.nodes[u.visited[k]].state)
    {
      if k != key {
        assert Lands(k, t.nodes[t.visited[k]].state);
      }
    }
  }

  /** Attaching a new child for a legal action keeps the tree well formed. */
  lemma GraftedWellFormed(t: Tree, cur: nat, a: Action)
    requires WellFormed(t) && cur < |t.nodes| && a in t.nodes[cur].actions
    requires NodeOk(t.nodes, cur) && (NodeHash(t.nodes[cur]), a) !in t.visited
    ensures WellFormed(Grafted(t, cur, a)) && Grows(t, Grafted(t, cur, a))
  {
    var s := t.nodes[cur].state;
    var child := NewNode(DoAction(s, a), Some(a), Some(cur));
    GraftedChildOk(t, cur, a);
    GraftedNewNodeOk(t, cur, a);
    LegalActionAdvances(s, a);
    AttachWellFormed(t, cur, child, (NodeHash(t.nodes[cur]), a));
  }

  /** An exploration keeps the tree well formed and reaches a later state. */
  lemma ExploreFacts(t: Tree, cur: nat, a: Action)
    requires WellFormed(t) && cur < |t.nodes| && a in t.nodes[cur].actions
    ensures NodeOk(t.nodes, cur)
    ensures var (u, m) := Explore(t, cur, a);
      && WellFormed(u) && Grows(t, u) && m < |u.nodes|
      && Measure(u.nodes[m].state) > Measure(t.nodes[cur].state)
  {
    assert NodeOk(t.nodes, cur);
    var s := t.nodes[cur].state;
    var key := (NodeHash(t.nodes[cur]), a);
    LegalActionAdvances(s, a);
    if key in t.visited {
      var m := t.visited[key];
      assert Lands(key, t.nodes[m].state);
    } else {
      GraftedWellFormed(t, cur, a);
    }
  }

  /**
   * A step exploits (follows best_child) exactly when the node has children
   * and the draw does not exceed the exploitation factor; otherwise it
   * explores. Either way the tree stays well formed, only grows, and the
   * next node's state is strictly later in the game.
   */
  lemma StepFacts(t: Tree, cur: nat, r: real, pick: nat, exploitation: real)
    requires WellFormed(t) && cur < |t.nodes| && !t.nodes[cur].final
    ensures NodeOk(t.nodes, cur)
    ensures var (u, next) := Step(t, cur, r, pick, exploitation);
      && WellFormed(u) && Grows(t, u) && next < |u.nodes|
      && Measure(u.nodes[next].state) > Measure(t.nodes[cur].state)
      && (|t.nodes[cur].children| > 0 && r <= exploitation ==>
            u == t && next == BestChild(t.nodes, cur) && next in t.nodes[cur].children)
      && (|t.nodes[cur].children| == 0 || r > exploitation ==>
            exists a :: a in t.nodes[cur].actions && (u, next) == Explore(t, cur, a))
  {
    assert NodeOk(t.nodes, cur);
    var x := t.nodes[cur];
    NonFinalHasActions(x.state);
    if |x.children| > 0 && r <= exploitation {
      ExploitFacts(t, cur);
      GrowsReflexive(t);
    } else {
      var a := x.actions[pick % |x.actions|];
      ExploreFacts(t, cur, a);
    }
  }

  /** best_child leads to a child whose state is strictly later in the game. */
  lemma ExploitFacts(t: Tree, cur: nat)
    requires WellFormed(t) && cur < |t.nodes| && NodeOk(t.nodes, cur) && |t.nodes[cur].children| > 0
    ensures var c := BestChild(t.nodes, cur);
      c < |t.nodes| && Measure(t.nodes[c].state) > Measure(t.nodes[cur].state)
  {
    var x := t.nodes[cur];
    var c := BestChild(t.nodes, cur);
    assert ChildOk(t.nodes, cur, c);
    LegalActionAdvances(x.state, t.nodes[c].action.value);
  }

  // ---------------------------------------------------------------------
  // A whole descent
  // ---------------------------------------------------------------------

  /** The step from the non-final node cur of t, with draw r and pick, yields u and next. */
  ghost predicate StepsTo(t: Tree, cur: nat, r: real, pick: nat, exploitation: real, u: Tree, next: nat) {
    && WellFormed(t) && cur < |t.nodes| && !t.nodes[cur].final
    && Step(t, cur, r, pick, exploitation) == (u, next)
  }

  lemma StepsToFacts(t: Tree, cur: nat, r: real, pick: nat, exploitation: real, u: Tree, next: nat)
    requires StepsTo(t, cur, r, pick, exploitation, u, next)
    ensures WellFormed(u) && Grows(t, u) && next < |u.nodes|
    ensures Measure(u.nodes[next].state) > Measure(t.nodes[cur].state)
  {
    StepFacts(t, cur, r, pick, exploitation);
  }

  /**
   * path[i] is the node reached after i steps and trace[i] the tree at that
   * moment; each step is Step with the i-th random draws.
   */
  ghost predicate IsWalk(trace: seq<Tree>, path: seq<nat>, exploitation: real,
                         draw: nat -> real, pick: nat -> nat)
  {
    && |trace| == |path| > 0
    && path[0] == 0
    && (forall i :: 0 <= i < |path| ==> WellFormed(trace[i]) && path[i] < |trace[i].nodes|)
    && (forall i :: 0 <= i < |path| - 1 ==>
          StepsTo(trace[i], path[i], draw(i), pick(i), exploitation, trace[i + 1], path[i + 1]))
  }

  /** A walk followed by one more step is a walk. */
  lemma WalkExtend(trace: seq<Tree>, path: seq<nat>, t: Tree, cur: nat, n: nat, u: Tree, next: nat,
                   exploitation: real, draw: nat -> real, pick: nat -> nat)
    requires IsWalk(trace, path, exploitation, draw, pick)
    requires n == |path| - 1 && t == trace[n] && cur == path[n]
    requires StepsTo(t, cur, draw(n), pick(n), exploitation, u, next)
    ensures IsWalk(trace + [u], path + [next], exploitation, draw, pick)
  {
    StepsToFacts(t, cur, draw(n), pick(n), exploitation, u, next);
    WalkExtendTrees(trace, path, u, next, exploitation, draw, pick);
    WalkExtendSteps(trace, path, t, cur, n, u, next, exploitation, draw, pick);
  }

  lemma WalkExtendTrees(trace: seq<Tree>, path: seq<nat>, u: Tree, next: nat,
                        exploitation: real, draw: nat -> real, pick: nat -> nat)
    requires IsWalk(trace, path, exploitation, draw, pick)
    requires WellFormed(u) && next < |u.nodes|
    ensures var longer, further := trace + [u], path + [next];
      forall i :: 0 <= i < |further| ==> WellFormed(longer[i]) && further[i] < |longer[i].nodes|
  {
    var longer, further := trace + [u], path + [next];
    forall i | 0 <= i < |further|
      ensures WellFormed(longer[i]) && further[i] < |longer[i].nodes|
    {
      if i < |path| {
        assert longer[i] == trace[i] && further[i] == path[i];
      }
    }
  }

  lemma WalkExtendSteps(trace: seq<Tree>, path: seq<nat>, t: Tree, cur: nat, n: nat, u: Tree, next: nat,
                        exploitation: real, draw: nat -> real, pick: nat -> nat)
    requires IsWalk(trace, path, exploitation, draw, pick)
    requires n == |path| - 1 && t == trace[n] && cur == path[n]
    requires StepsTo(t, cur, draw(n), pick(n), exploitation, u, next)
    ensures var longer, further := trace + [u], path + [next];
      forall i :: 0 <= i < |further| - 1 ==>
        StepsTo(longer[i], further[i], draw(i), pick(i), exploitation, longer[i + 1], further[i + 1])
  {
    var longer, further := trace + [u], path + [next];
    forall i | 0 <= i < |further| - 1
      ensures StepsTo(longer[i], further[i], draw(i), pick(i), exploitation, longer[i + 1], further[i + 1])
    {
      assert longer[i] == trace[i] && further[i] == path[i];
      if i < n {
        assert longer[i + 1] == trace[i + 1] && further[i + 1] == path[i + 1];
      } else {
        assert longer[i + 1] == u && further[i + 1] == next;
      }
    }
  }

  /** A strictly increasing step by step sequence is strictly increasing. */
  lemma {:induction false} Ascending(ms: seq<int>)
    requires forall i :: 0 <= i < |ms| - 1 ==> ms[i] < ms[i + 1]
    ensures forall i, j :: 0 <= i < j < |ms| ==> ms[i] < ms[j]
    decreases |ms|
  {
    if |ms| > 1 {
      var front := ms[..|ms| - 1];
      Ascending(front);
      forall i, j | 0 <= i < j < |ms|
        ensures ms[i] < ms[j]
      {
        if j == |ms| - 1 && i < j - 1 {
          assert front[i] < front[j - 1];
        }
      }
    }
  }

  /** A sequence of trees each growing into the next grows into the last one. */
  lemma {:induction false} GrowsChain(ts: seq<Tree>)
    requires |ts| > 0
    requires forall i :: 0 <= i < |ts| - 1 ==> Grows(ts[i], ts[i + 1])
    ensures forall i :: 0 <= i < |ts| ==> Grows(ts[i], ts[|ts| - 1])
    decreases |ts|
  {
    var n := |ts|;
    if n == 1 {
      assert Grows(ts[0], ts[0]);
    } else {
      var front := ts[..n - 1];
      GrowsChain(front);
      forall i | 0 <= i < n
        ensures Grows(ts[i], ts[n - 1])
      {
        if i < n - 1 {
          assert Grows(front[i], front[n - 2]);
          GrowsTransitive(ts[i], ts[n - 2], ts[n - 1]);
        } else {
          assert Grows(ts[i], ts[i]);
        }
      }
    }
  }

  /** Along a descent the tree only grows. */
  lemma WalkGrows(trace: seq<Tree>, path: seq<nat>, exploitation: real,
                  draw: nat -> real, pick: nat -> nat)
    requires IsWalk(trace, path, exploitation, draw, pick)
    ensures forall i :: 0 <= i < |trace| ==> Grows(trace[i], trace[|trace| - 1])
    ensures InArena(trace[|trace| - 1].nodes, path)
  {
    forall i | 0 <= i < |trace| - 1
      ensures Grows(trace[i], trace[i + 1])
    {
      StepsToFacts(trace[i], path[i], draw(i), pick(i), exploitation, trace[i + 1], path[i + 1]);
    }
    GrowsChain(trace);
  }

  /**
   * Along a descent the states of the path's nodes are strictly later in the
   * game, so no node occurs twice on the path.
   */
  lemma WalkAscends(trace: seq<Tree>, path: seq<nat>, exploitation: real,
                    draw: nat -> real, pick: nat -> nat)
    requires IsWalk(trace, path, exploitation, draw, pick)
    ensures InArena(trace[|trace| - 1].nodes, path)
    ensures forall i, j :: 0 <= i < j < |path| ==>
      Measure(trace[|trace| - 1].nodes[path[i]].state) < Measure(trace[|trace| - 1].nodes[path[j]].state)
    ensures forall i, j :: 0 <= i < j < |path| ==> path[i] != path[j]
  {
    var last := trace[|trace| - 1];
    WalkGrows(trace, path, exploitation, draw, pick);
    var ms := seq(|path|, i requires 0 <= i < |path| => Measure(last.nodes[path[i]].state));
    forall i | 0 <= i < |path| - 1
      ensures ms[i] < ms[i + 1]
    {
      StepsToFacts(trace[i], path[i], draw(i), pick(i), exploitation, trace[i + 1], path[i + 1]);
      assert Grows(trace[i], last);
      assert Grows(trace[i + 1], last);
    }
    Ascending(ms);
    forall i, j | 0 <= i < j < |path|
      ensures Measure(last.nodes[path[i]].state) < Measure(last.nodes[path[j]].state)
    {
      assert ms[i] < ms[j];
    }
  }

  /** Starting from an empty map, or from a root with children, the root ends with a child. */
  lemma RootGainsChild(trace: seq<Tree>, path: seq<nat>, exploitation: real,
                       draw: nat -> real, pick: nat -> nat)
    requires IsWalk(trace, path, exploitation, draw, pick) && |path| > 1
    requires trace[0].visited == map[] || |trace[0].nodes[0].children| > 0
    ensures |trace[|trace| - 1].nodes[0].children| > 0
  {
    var t := trace[0];
    StepFacts(t, 0, draw(0), pick(0), exploitation);
    assert StepsTo(t, 0, draw(0), pick(0), exploitation, trace[1], path[1]);
    assert |trace[1].nodes[0].children| > 0 by {
      if |t.nodes[0].children| == 0 {
        var a :| a in t.nodes[0].actions && (trace[1], path[1]) == Explore(t, 0, a);
        ExploreEffect(t, 0, a);
      }
    }
    WalkGrows(trace, path, exploitation, draw, pick);
    assert Grows(trace[1], trace[|trace| - 1]);
  }

  // ---------------------------------------------------------------------
  // Backpropagation
  // ---------------------------------------------------------------------

  /** A node earns a point when the player to move in it is the winner. */
  predicate Credit(s: State, winner: int) {
    (TurnAi(s) && winner == 1) || (TurnPlayer(s) && winner == 0)
  }

  /** One visit of a node by the backpropagation loop. */
  function Bump(x: Node, winner: int): Node {
    x.(visits := x.visits + 1, score := if Credit(x.state, winner) then x.score + 1 else x.score)
  }

  /** The arena after the backpropagation loop has visited every entry of path in turn. */
  function Backprop(nodes: seq<Node>, path: seq<nat>, winner: int): (r: seq<Node>)
    requires InArena(nodes, path)
    ensures |r| == |nodes|
  {
    if path == [] then nodes
    else
      var prev := Backprop(nodes, path[..|path| - 1], winner);
      var n := path[|path| - 1];
      prev[n := Bump(prev[n], winner)]
  }

  /** Backpropagating one more entry of the path bumps that entry's node. */
  lemma BackpropSnoc(nodes: seq<Node>, path: seq<nat>, k: nat, winner: int)
    requires InArena(nodes, path) && k < |path|
    ensures InArena(nodes, path[..k]) && InArena(nodes, path[..k + 1])
    ensures var prev := Backprop(nodes, path[..k], winner);
      Backprop(nodes, path[..k + 1], winner) == prev[path[k] := Bump(prev[path[k]], winner)]
  {
    assert path[..k + 1][..k] == path[..k];
  }

  /**
   * Every occurrence of a node on the path adds one visit, and one point
   * when the node's player to move won; nothing else changes.
   */
  lemma {:induction false} BackpropCounts(nodes: seq<Node>, path: seq<nat>, winner: int, n: nat)
    requires InArena(nodes, path) && n < |nodes|
    ensures var r := Backprop(nodes, path, winner);
      && r[n] == nodes[n].(visits := r[n].visits, score := r[n].score)
      && r[n].visits == nodes[n].visits + multiset(path)[n]
      && r[n].score == nodes[n].score + (if Credit(nodes[n].state, winner) then multiset(path)[n] else 0)
  {
    if path != [] {
      var prefix := path[..|path| - 1];
      BackpropCounts(nodes, prefix, winner, n);
      assert path == prefix + [path[|path| - 1]];
    }
  }

  /** A draw (winner -1) adds no score anywhere. */
  lemma DrawScoresNothing(nodes: seq<Node>, path: seq<nat>, n: nat)
    requires InArena(nodes, path) && n < |nodes|
    ensures Backprop(nodes, path, -1)[n].score == nodes[n].score
  {
    BackpropCounts(nodes, path, -1, n);
  }

  /** Backpropagation keeps the tree well formed, in particular score <= visits. */
  lemma BackpropWellFormed(t: Tree, path: seq<nat>, winner: int)
    requires WellFormed(t) && InArena(t.nodes, path)
    ensures WellFormed(Tree(Backprop(t.nodes, path, winner), t.visited))
  {
    var r := Backprop(t.nodes, path, winner);
    forall n | 0 <= n < |r|
      ensures NodeOk(r, n)
    {
      BackpropCounts(t.nodes, path, winner, n);
      assert NodeOk(t.nodes, n);
      forall j | 0 <= j < |r[n].children|
        ensures ChildOk(r, n, r[n].children[j])
      {
        var c := r[n].children[j];
        assert ChildOk(t.nodes, n, c);
        BackpropCounts(t.nodes, path, winner, c);
      }
    }
    forall k | k in t.visited
      ensures t.visited[k] < |r| && Lands(k, r[t.visited[k]].state)
    {
      BackpropCounts(t.nodes, path, winner, t.visited[k]);
    }
    BackpropCounts(t.nodes, path, winner, 0);
  }

  // ---------------------------------------------------------------------
  // Whole iterations
  // ---------------------------------------------------------------------

  /**
   * One iteration turns t into u: trace and path are a descent of Steps
   * from the root of t to a finished node, and u is the tree at the end of
   * the descent once that node's winner is backpropagated along the path.
   */
  ghost predicate IterationOf(t: Tree, u: Tree, trace: seq<Tree>, path: seq<nat>,
                              exploitation: real, draw: nat -> real, pick: nat -> nat)
  {
    && IsWalk(trace, path, exploitation, draw, pick)
    && trace[0] == t
    && var last := trace[|trace| - 1];
       && InArena(last.nodes, path)
       && last.nodes[path[|path| - 1]].final
       && u == Tree(Backprop(last.nodes, path, last.nodes[path[|path| - 1]].state.winner), last.visited)
  }

  /**
   * An iteration keeps the root's state, and leaves an unfinished root with
   * a child when it starts from an empty map or a root that has children.
   */
  lemma IterationKeepsRoot(t: Tree, u: Tree, trace: seq<Tree>, path: seq<nat>,
                           exploitation: real, draw: nat -> real, pick: nat -> nat)
    requires WellFormed(t) && IterationOf(t, u, trace, path, exploitation, draw, pick)
    ensures |u.nodes| > 0 && u.nodes[0].state == t.nodes[0].state && u.nodes[0].final == t.nodes[0].final
    ensures !t.nodes[0].final && (t.visited == map[] || |t.nodes[0].children| > 0) ==>
              |u.nodes[0].children| > 0
  {
    var last := trace[|trace| - 1];
    WalkGrows(trace, path, exploitation, draw, pick);
    BackpropCounts(last.nodes, path, last.nodes[path[|path| - 1]].state.winner, 0);
    assert Grows(trace[0], last);
    if !t.nodes[0].final && (t.visited == map[] || |t.nodes[0].children| > 0) {
      assert |path| > 1;
      RootGainsChild(trace, path, exploitation, draw, pick);
    }
  }

  /** Some descent with these random streams makes one iteration from t to u. */
  ghost predicate Iterated(t: Tree, u: Tree, exploitation: real, draw: nat -> real, pick: nat -> nat) {
    exists trace: seq<Tree>, path: seq<nat> :: IterationOf(t, u, trace, path, exploitation, draw, pick)
  }

  /** trees[i + 1] is trees[i] after iteration i, run with the random streams draw(i) and pick(i). */
  ghost predicate RunOf(trees: seq<Tree>, iterations: nat, exploitation: real,
                        draw: nat -> nat -> real, pick: nat -> nat -> nat)
  {
    && |trees| == iterations + 1
    && forall i :: 0 <= i < iterations ==> Iterated(trees[i], trees[i + 1], exploitation, draw(i), pick(i))
  }

  /** A run of i iterations followed by one more iteration is a run of i + 1. */
  lemma RunOfExtend(trees: seq<Tree>, i: nat, u: Tree, trace: seq<Tree>, path: seq<nat>,
                    exploitation: real, draw: nat -> nat -> real, pick: nat -> nat -> nat)
    requires RunOf(trees, i, exploitation, draw, pick)
    requires IterationOf(trees[i], u, trace, path, exploitation, draw(i), pick(i))
    ensures RunOf(trees + [u], i + 1, exploitation, draw, pick)
  {
    var longer := trees + [u];
    forall j | 0 <= j < i + 1
      ensures Iterated(longer[j], longer[j + 1], exploitation, draw(j), pick(j))
    {
      if j < i {
        assert longer[j] == trees[j] && longer[j + 1] == trees[j + 1];
      } else {
        assert longer[j] == trees[i] && longer[j + 1] == u;
      }
    }
  }

  // ---------------------------------------------------------------------
  // The planner object
  // ---------------------------------------------------------------------

  class Mcts {
    var childNumber: int
    var nodes: seq<Node>
    var visited: map<Key, nat>

    ghost predicate Valid()
      reads this
    {
      WellFormed(Tree(nodes, visited)) && NodeOk(nodes, 0)
    }

    /** MCTS.__init__: an empty transposition map and a fresh root. */
    constructor(root: State)
      ensures nodes == [NewNode(root, None, None)] && visited == map[] && childNumber == 0
      ensures Inv(root) ==> Valid()
    {
      childNumber := 0;
      visited := map[];
      nodes := [NewNode(root, None, None)];
    }

    /**
     * One pass of the descent loop of MCTS.iteration: exploit the best child
     * when the node has children and the draw r does not exceed the
     * exploitation factor, otherwise explore the action that pick selects.
     */
    method Advance(current: nat, r: real, pick: nat, exploitation: real) returns (next: nat)
      requires WellFormed(Tree(nodes, visited)) && current < |nodes| && !nodes[current].final
      modifies this
      ensures (Tree(nodes, visited), next) == Step(old(Tree(nodes, visited)), current, r, pick, exploitation)
      ensures childNumber == old(childNumber)
    {
      ghost var before := Tree(nodes, visited);
      assert NodeOk(nodes, current);
      NonFinalHasActions(nodes[current].state);
      var explore := r > exploitation;
      if |nodes[current].children| > 0 && !explore {
        next := BestChild(nodes, current);
      } else {
        var actions := nodes[current].actions;
        var action := actions[pick % |actions|];
        var key := (NodeHash(nodes[current]), action);
        var newState := DoAction(nodes[current].state, action);
        var newNode := NewNode(newState, Some(action), Some(current));
        assert Step(before, current, r, pick, exploitation) == Explore(before, current, action);
        if key in visited {
          next := visited[key];
        } else {
          var m := |nodes|;
          visited := visited[key := m];
          nodes := Attach(nodes, current, newNode);
          next := m;
          assert Tree(nodes, visited) == Grafted(before, current, action);
        }
      }
    }

    /**
     * The backpropagation loop of MCTS.iteration: every node on the route
     * gets one more visit, and one more point when its player to move is
     * the winner.
     */
    method Backpropagate(route: seq<nat>, winner: int)
      requires InArena(nodes, route)
      modifies this
      ensures nodes == Backprop(old(nodes), route, winner)
      ensures visited == old(visited) && childNumber == old(childNumber)
    {
      for k := 0 to |route|
        invariant nodes == Backprop(old(nodes), route[..k], winner)
        invariant visited == old(visited) && childNumber == old(childNumber)
      {
        var n := route[k];
        var x := nodes[n].(visits := nodes[n].visits + 1);
        if TurnAi(x.state) && winner == 1 {
          x := x.(score := x.score + 1);
        } else if TurnPlayer(x.state) && winner == 0 {
          x := x.(score := x.score + 1);
        }
        BackpropSnoc(old(nodes), route, k, winner);
        nodes := nodes[n := x];
      }
      assert route[..|route|] == route;
    }

    /**
     * The descent loop of MCTS.iteration: step from the root until a
     * finished node is reached. The ghost trace holds the tree after each
     * step; draw(i) and pick(i) are the random numbers of step i.
     */
    method Descend(exploitation: real, draw: nat -> real, pick: nat -> nat)
      returns (current: nat, route: seq<nat>, ghost trace: seq<Tree>)
      requires Valid()
      modifies this
      ensures WellFormed(Tree(nodes, visited)) && childNumber == old(childNumber)
      ensures IsWalk(trace, route, exploitation, draw, pick)
      ensures trace[0] == old(Tree(nodes, visited)) && trace[|trace| - 1] == Tree(nodes, visited)
      ensures route[|route| - 1] == current && current < |nodes| && nodes[current].final
    {
      current := 0;
      route := [current];
      trace := [Tree(nodes, visited)];
      var step := 0;
      while !nodes[current].final
        invariant WellFormed(Tree(nodes, visited)) && current < |nodes|
        invariant IsWalk(trace, route, exploitation, draw, pick)
        invariant trace[0] == old(Tree(nodes, visited))
        invariant trace[|trace| - 1] == Tree(nodes, visited) && route[|route| - 1] == current
        invariant step == |route| - 1
        invariant childNumber == old(childNumber)
        decreases 32 - Measure(nodes[current].state)
      {
        assert NodeOk(nodes, current);
        MeasureBound(nodes[current].state);
        ghost var before, from := Tree(nodes, visited), current;
        current := Advance(current, draw(step), pick(step), exploitation);
        assert StepsTo(before, from, draw(step), pick(step), exploitation, Tree(nodes, visited), current);
        StepsToFacts(before, from, draw(step), pick(step), exploitation, Tree(nodes, visited), current);
        WalkExtend(trace, route, before, from, step, Tree(nodes, visited), current, exploitation, draw, pick);
        route := route + [current];
        trace := trace + [Tree(nodes, visited)];
        step := step + 1;
      }
    }

    /**
     * MCTS.iteration: descend from the root to a finished node, then
     * backpropagate its winner along the path. The ghost results give the
     * path and the tree after each descent step.
     */
    method Iteration(exploitation: real, draw: nat -> real, pick: nat -> nat)
      returns (ghost path: seq<nat>, ghost trace: seq<Tree>)
      requires Valid()
      modifies this
      ensures Valid() && childNumber == old(childNumber)
      ensures IsWalk(trace, path, exploitation, draw, pick)
      ensures trace[0] == old(Tree(nodes, visited))
      ensures trace[|trace| - 1].nodes[path[|path| - 1]].final
      ensures InArena(trace[|trace| - 1].nodes, path)
      ensures visited == trace[|trace| - 1].visited
      ensures nodes == Backprop(trace[|trace| - 1].nodes, path,
                                trace[|trace| - 1].nodes[path[|path| - 1]].state.winner)
      ensures IterationOf(old(Tree(nodes, visited)), Tree(nodes, visited), trace, path, exploitation, draw, pick)
    {
      var current, route;
      current, route, trace := Descend(exploitation, draw, pick);
      path := route;
      WalkGrows(trace, path, exploitation, draw, pick);
      ghost var descended := Tree(nodes, visited);
      var score := GetWinner(nodes[current].state);
      Backpropagate(route, score);
      BackpropWellFormed(descended, path, score);
      assert NodeOk(nodes, 0);
    }

    /** best_action with its missing return restored: the best root child's action. */
    method BestAction() returns (r: Outcome<Action>)
      requires Valid()
      ensures r == IndexError <==> |nodes[0].children| == 0
      ensures r.Ok? ==> r.value in AvailableActions(nodes[0].state)
      ensures |nodes[0].children| > 0 ==> r == Ok(nodes[BestChild(nodes, 0)].action.value)
    {
      if |nodes[0].children| == 0 {
        r := IndexError;
      } else {
        var best := BestChild(nodes, 0);
        assert ChildOk(nodes, 0, best);
        r := Ok(nodes[best].action.value);
      }
    }

    /** best_action as written: it evaluates best_child() but returns nothing. */
    method BestActionAsWritten() returns (r: Outcome<Option<Action>>)
      requires Valid()
      ensures |nodes[0].children| == 0 ==> r == IndexError
      ensures |nodes[0].children| > 0 ==> r == Ok(None)
    {
      if |nodes[0].children| == 0 {
        r := IndexError;
      } else {
        var best := BestChild(nodes, 0);
        r := Ok(None);
      }
    }

    /**
     * The loop of MCTS.search, with a number of iterations instead of a time
     * budget; draw(i) and pick(i) are the random streams of iteration i.
     * Starting from a fresh planner, or one whose root already has children,
     * an unfinished root has a child afterwards.
     */
    method Run(iterations: nat, exploitation: real,
               draw: nat -> nat -> real, pick: nat -> nat -> nat)
      returns (ghost trees: seq<Tree>)
      requires Valid()
      modifies this
      ensures Valid() && childNumber == old(childNumber)
      ensures RunOf(trees, iterations, exploitation, draw, pick)
      ensures trees[0] == old(Tree(nodes, visited)) && trees[iterations] == Tree(nodes, visited)
      ensures nodes[0].state == old(nodes[0].state) && nodes[0].final == old(nodes[0].final)
      ensures (iterations > 0 && !nodes[0].final
               && (old(visited) == map[] || |old(nodes[0].children)| > 0)) ==> |nodes[0].children| > 0
    {
      ghost var primed := old(visited) == map[] || |old(nodes[0].children)| > 0;
      trees := [Tree(nodes, visited)];
      for i := 0 to iterations
        invariant Valid() && childNumber == old(childNumber)
        invariant RunOf(trees, i, exploitation, draw, pick)
        invariant trees[0] == old(Tree(nodes, visited)) && trees[i] == Tree(nodes, visited)
        invariant nodes[0].state == old(nodes[0].state) && nodes[0].final == old(nodes[0].final)
        invariant i == 0 ==> visited == old(visited) && nodes[0].children == old(nodes[0].children)
        invariant i > 0 && !nodes[0].final && primed ==> |nodes[0].children| > 0
      {
        ghost var before := Tree(nodes, visited);
        ghost var path, trace := Iteration(exploitation, draw(i), pick(i));
        IterationKeepsRoot(before, Tree(nodes, visited), trace, path, exploitation, draw(i), pick(i));
        RunOfExtend(trees, i, Tree(nodes, visited), trace, path, exploitation, draw, pick);
        trees := trees + [Tree(nodes, visited)];
      }
    }

    /** MCTS.search with best_action's missing return restored. */
    method Search(iterations: nat, exploitation: real,
                  draw: nat -> nat -> real, pick: nat -> nat -> nat)
      returns (r: Outcome<Action>, ghost trees: seq<Tree>)
      requires Valid()
      modifies this
      ensures Valid() && childNumber == old(childNumber)
      ensures RunOf(trees, iterations, exploitation, draw, pick)
      ensures trees[0] == old(Tree(nodes, visited)) && trees[iterations] == Tree(nodes, visited)
      ensures r == IndexError <==> |nodes[0].children| == 0
      ensures |nodes[0].children| > 0 ==> r == Ok(nodes[BestChild(nodes, 0)].action.value)
      ensures nodes[0].state == old(nodes[0].state)
      ensures r.Ok? ==> r.value in AvailableActions(nodes[0].state)
      ensures nodes[0].final ==> r == IndexError
      ensures (iterations > 0 && !nodes[0].final
               && (old(visited) == map[] || |old(nodes[0].children)| > 0)) ==> r.Ok?
    {
      trees := Run(iterations, exploitation, draw, pick);
      if |nodes[0].children| > 0 {
        ParentUnfinished(Tree(nodes, visited), 0);
      }
      r := BestAction();
    }

    /** MCTS.search as written: its result is never an action. */
    method SearchAsWritten(iterations: nat, exploitation: real,
                           draw: nat -> nat -> real, pick: nat -> nat -> nat)
      returns (r: Outcome<Option<Action>>, ghost trees: seq<Tree>)
      requires Valid()
      modifies this
      ensures Valid() && childNumber == old(childNumber)
      ensures RunOf(trees, iterations, exploitation, draw, pick)
      ensures trees[0] == old(Tree(nodes, visited)) && trees[iterations] == Tree(nodes, visited)
      ensures r == IndexError <==> |nodes[0].children| == 0
      ensures |nodes[0].children| > 0 ==> r == Ok(None)
      ensures nodes[0].state == old(nodes[0].state)
      ensures nodes[0].final ==> r == IndexError
      ensures (iterations > 0 && !nodes[0].final
               && (old(visited) == map[] || |old(nodes[0].children)| > 0)) ==> r == Ok(None)
    {
      trees := Run(iterations, exploitation, draw, pick);
      if |nodes[0].children| > 0 {
        ParentUnfinished(Tree(nodes, visited), 0);
      }
      r := BestActionAsWritten();
    }
  }

  /**
   * The module-level mcts(): plan one move for the AI from the given state.
   * A finished state yields IndexError; otherwise, after at least one
   * iteration, the planned action is one of the state's available actions.
   */
  method Plan(root: State, iterations: nat, exploitation: real,
              draw: nat -> nat -> real, pick: nat -> nat -> nat)
    returns (r: Outcome<Action>, ghost searched: Tree, ghost trees: seq<Tree>)
    requires Inv(root)
    ensures RunOf(trees, iterations, exploitation, draw, pick)
    ensures trees[0] == Tree([NewNode(root, None, None)], map[]) && trees[iterations] == searched
    ensures WellFormed(searched) && NodeOk(searched.nodes, 0) && searched.nodes[0].state == root
    ensures r == IndexError <==> |searched.nodes[0].children| == 0
    ensures iterations == 0 ==> r == IndexError
    ensures |searched.nodes[0].children| > 0 ==>
              r == Ok(searched.nodes[BestChild(searched.nodes, 0)].action.value)
    ensures r.Ok? ==> r.value in AvailableActions(root)
    ensures HasFinished(root) ==> r == IndexError
    ensures !HasFinished(root) && iterations > 0 ==> r.Ok?
  {
    var tree := new Mcts(root);
    r, trees := tree.Search(iterations, exploitation, draw, pick);
    searched := Tree(tree.nodes, tree.visited);
    assert NodeOk(searched.nodes, 0);
  }

  /**
   * The module-level mcts() as written: it returns None for every
   * unfinished state, so the AI is never given a move.
   */
  method PlanAsWritten(root: State, iterations: nat, exploitation: real,
                       draw: nat -> nat -> real, pick: nat -> nat -> nat)
    returns (r: Outcome<Option<Action>>, ghost searched: Tree, ghost trees: seq<Tree>)
    requires Inv(root)
    ensures RunOf(trees, iterations, exploitation, draw, pick)
    ensures trees[0] == Tree([NewNode(root, None, None)], map[]) && trees[iterations] == searched
    ensures WellFormed(searched) && searched.nodes[0].state == root
    ensures r == IndexError <==> |searched.nodes[0].children| == 0
    ensures |searched.nodes[0].children| > 0 ==> r == Ok(None)
    ensures iterations == 0 ==> r == IndexError
    ensures HasFinished(root) ==> r == IndexError
    ensures !HasFinished(root) && iterations > 0 ==> r == Ok(None)
  {
    var tree := new Mcts(root);
    r, trees := tree.SearchAsWritten(iterations, exploitation, draw, pick);
    searched := Tree(tree.nodes, tree.visited);
  }
}
