# Quarto with a Monte Carlo tree search player, in Dafny

This project models the core of MontecarloQuarto. That is a Python program where a human plays Quarto against an AI that plans its moves with Monte Carlo tree search (MCTS). The model has three modules:

- `Quarto` (`quarto.dfy`) is the game engine of `src/game/quarto.py`.
  - The sixteen pieces are bytes. Each holds one bit of each of four attribute pairs.
  - The board is 16 bytes, row-major, with 0 for an empty cell.
  - A game moves through the phases ChoosePiece, ChooseSpace and Finished.
  - `DoAction` hands a piece over or places the piece in hand, then runs the victory check.
  - A state is a value, because the source copies the state before every change.
  - The module proves a conservation invariant `Inv` that every state reachable from `reset` keeps:
    - each piece is held exactly once: left, in hand or on the board;
    - the spaces are exactly the empty cells;
    - phase, piece in hand and winner agree.
  - It also proves that every legal action strictly increases a progress measure.
- `SearchNode` (`node.dfy`) is the tree node of `src/simulation/node.py`.
  - It provides the cached actions and finality, the average score and `best_child`.
  - `best_child` takes the first element of a stable sort, so ties go to the earliest child.
- `MonteCarlo` (`mcts.dfy`) is the planner of `src/simulation/mcts.py`.
  - The nodes live in an arena: a sequence indexed by node number, with the root at 0. Parent and child links are indices.
  - The transposition dictionary maps (board, action) to a node index.
  - The class `Mcts` holds the fields `child_number`, the arena and the map.
  - One descent step is specified by the ghost function `Step`. `Iteration` returns the path and the tree after each step as ghost results, and proves that:
    - the path is a walk of `Step`s from the root to a finished node;
    - the arena afterwards is the backpropagation of that node's winner along the path.
  - `WellFormed` is the tree invariant that every iteration keeps:
    - every child was produced from its parent by a legal action;
    - every node state satisfies `Inv`;
    - `score <= visits`;
    - every transposition entry leads to a later state.
  - The tree only grows, and the states along a path are strictly later in the game, so a descent ends and never visits a node twice.
  - The planned move is always one of the root state's available actions.

The transposition key is the board plus the action. For a placement, it therefore leaves out which piece is in hand. After two different piece choices from the same state, placing at the same cell gives the same key but different successors. The lemma `KeyIgnoresChosenPiece` proves this. The model keeps the source's key: a hit continues from the cached node. `Lands` only promises that this node is later in the game, not that it is the exact successor.

Two behaviours of the code that the model keeps:

- The player flips only on a piece choice (`src/game/quarto.py:78`), so the player who receives a piece places it.
- Planning from a finished state still runs the whole time budget, then raises IndexError in `best_child` (`src/simulation/node.py:29`, `src/simulation/mcts.py:16-22`).

`Run` returns the tree after each iteration as a ghost sequence. `RunOf` states that each tree follows from the one before by exactly one iteration: a walk of `Step`s to a finished node, then the backpropagation of its winner. `Search` and `Plan` return the action of the best root child of the last of these trees.

## Model

| member | source | states |
|---|---|---|
| Quarto.PieceOf | src/game/quarto.py:41-44 | each piece built by reset holds exactly one bit of each attribute pair and is not the empty byte |
| Quarto.PieceOfDecodes | src/game/quarto.py:40-45 | the index a piece was built from can be read back from its bits, so the sixteen pieces differ |
| Quarto.ValidPieceIsBuilt | src/game/quarto.py:9-17 | every byte with one bit of each attribute pair is one of the sixteen pieces |
| Quarto.InitialPiecesFacts | src/game/quarto.py:38-45 | reset's pieces are valid, non-empty, pairwise distinct, and include every valid piece |
| Quarto.AllCellsFacts | src/game/quarto.py:39 | reset's space list holds exactly the cells on the board, each once |
| Quarto.Without | src/game/quarto.py:76 | the filtering comprehension keeps exactly the elements other than the removed one, removes every occurrence of it, and shortens the list by its multiplicity |
| Quarto.WithoutCount | src/game/quarto.py:76 | filtering a piece out leaves no copy of it and keeps the count of every other piece |
| Quarto.EmptyCellBlocksLine | src/game/quarto.py:92-95 | a row, column or diagonal containing an empty cell has a zero AND and never wins |
| Quarto.EmptyBoardHasNoLine | src/game/quarto.py:46 | reset's all-zero board has no winning line |
| Quarto.Reset | src/game/quarto.py:37-50 | the loop builds the state NewGame(floor(2 * draw)): the sixteen pieces in order, all cells, empty board, ChoosePiece, no piece in hand, winner -1, and player 0 or 1 |
| Quarto.NewGameInv | src/game/quarto.py:37-50 | the state reset builds satisfies the conservation invariant Inv |
| Quarto.AvailableActions | src/game/quarto.py:64-69 | an action is offered exactly when it is legal: a remaining piece while choosing a piece, an empty cell while choosing a space, nothing once finished; the list is as long as the pieces or spaces list |
| Quarto.DoAction | src/game/quarto.py:71-89 | an action that is not available returns the state unchanged |
| Quarto.PieceChoiceEffect | src/game/quarto.py:73-79 | a legal piece choice removes that piece from the pool, puts it in hand, enters ChooseSpace, flips the player, and leaves board, spaces and winner alone |
| Quarto.CheckVictory | src/game/quarto.py:91-100 | a completed line ends the game won by the player who placed; with no line, no piece left and none in hand the game ends drawn with the winner unchanged; otherwise the state is unchanged; board, pool, spaces, player and hand are never touched |
| Quarto.PlacementEffect | src/game/quarto.py:80-100 | a legal placement puts the piece in hand on the cell, removes the cell from the spaces, empties the hand, keeps the player and pool, and either finishes with the placing player as winner (a line formed), finishes as a draw (no pieces left), or returns to ChoosePiece |
| Quarto.PlacementKeepsOtherCells | src/game/quarto.py:83-86 | a placement changes no other cell of the board |
| Quarto.HashIsBoard | src/game/quarto.py:102-103 | two states hash alike exactly when their boards are equal |
| Quarto.CountedPieceIsReal | src/game/quarto.py:40-45 | in a reachable state, any byte held anywhere is a real piece held exactly once |
| Quarto.PieceChoiceInv | src/game/quarto.py:73-79 | a legal piece choice keeps Inv |
| Quarto.PlacementKeepsCounts | src/game/quarto.py:80-87 | after a placement and before the victory check, every piece is still held once and the spaces are still exactly the empty cells |
| Quarto.CheckVictoryInv | src/game/quarto.py:91-100 | run on a freshly placed state that holds every piece once, the victory check ends in a state satisfying Inv: won by the mover on a line, drawn when no piece is left, otherwise still choosing a piece |
| Quarto.PlacementInv | src/game/quarto.py:80-100 | a legal placement followed by the victory check keeps Inv |
| Quarto.DoActionInv | src/game/quarto.py:71-89 | every action, legal or not, applied to a state satisfying Inv yields a state satisfying Inv |
| Quarto.PlayInv | src/game/quarto.py:71-89 | any sequence of actions keeps Inv |
| Quarto.ReachableInv | src/game/quarto.py:37-89 | every state reachable from reset satisfies Inv |
| Quarto.NonFinalHasActions | src/game/quarto.py:64-69 | a reachable state that is not finished offers at least one action |
| Quarto.TurnsExclusive | src/game/quarto.py:52-56 | in a reachable state exactly one of turn_ai and turn_player holds |
| Quarto.MeasureBound | src/game/quarto.py:71-100 | the progress measure of a reachable state lies between 0 and 32: at most 16 pieces on the board, and at most 15 while a piece is in hand |
| Quarto.LegalActionAdvances | src/game/quarto.py:71-89 | a legal piece choice keeps the board and enters ChooseSpace; a legal placement adds one piece to the board; either way the progress measure strictly grows |
| SearchNode.NewNode | src/simulation/node.py:6-14 | a new node keeps its state, action and parent, has no children or statistics, is final exactly when its state is finished, and caches exactly the legal actions |
| SearchNode.Average | src/simulation/node.py:16-19 | -1 for an unvisited node; otherwise the score over the visits, which lies in [0, 1] when the score does not exceed the visits |
| SearchNode.NodeHashIsBoard | src/simulation/node.py:34-35 | two nodes hash alike exactly when their states' boards are equal |
| SearchNode.BestPos | src/simulation/node.py:29-32 | the position a stable sort puts first: no child has a better average, and every earlier child has a strictly worse one |
| SearchNode.BestChild | src/simulation/node.py:27-32 | the chosen node is a child; when the first child has the AI to move its average is the maximum, otherwise the minimum |
| MonteCarlo.ParentUnfinished | src/simulation/mcts.py:29-54 | in a well-formed tree a node with a child is not finished |
| MonteCarlo.KeyIgnoresChosenPiece | src/simulation/mcts.py:44-50 | two different piece choices from one state, each followed by a placement on the same cell, share a transposition key but put different pieces on that cell |
| MonteCarlo.ExploreEffect | src/simulation/mcts.py:38-54 | exploring an action leaves its key mapped to the next node; on a hit the tree is unchanged; on a miss exactly one node is appended, with the successor state, the action and the current node as parent; it is added to the current node's children and to the map, and every other node stays as it was |
| MonteCarlo.AttachWellFormed | src/simulation/mcts.py:45-54 | appending a well-formed child, listing it under its parent and mapping a fresh key that lands on it keeps the tree well formed and only grows it |
| MonteCarlo.GraftedWellFormed | src/simulation/mcts.py:45-54 | attaching a new child for a legal action keeps the tree well formed and only grows it |
| MonteCarlo.ExploreFacts | src/simulation/mcts.py:38-54 | an exploration, hit or miss, keeps the tree well formed, only grows it, and reaches a strictly later state |
| MonteCarlo.StepFacts | src/simulation/mcts.py:29-56 | one descent step exploits (leaves the tree unchanged and moves to the best child that best_child picks) exactly when the node has children and the draw does not exceed the exploitation factor, and otherwise explores an available action; the tree stays well formed and only grows, and the next state is strictly later |
| MonteCarlo.WalkExtend | src/simulation/mcts.py:29-56 | a descent followed by one more step is a descent |
| MonteCarlo.WalkGrows | src/simulation/mcts.py:29-56 | during a descent the tree only grows: nodes are appended, child lists extended, map entries never rebound; every path entry names a node of the final tree |
| MonteCarlo.WalkAscends | src/simulation/mcts.py:29-56 | the states along a descent path are strictly later in the game, so no node occurs twice on the path |
| MonteCarlo.RootGainsChild | src/simulation/mcts.py:34-54 | a descent that leaves the root, starting from an empty map or a root with children, leaves the root with a child |
| MonteCarlo.BackpropCounts | src/simulation/mcts.py:58-67 | backpropagation gives each node one visit per occurrence on the path, and one point per occurrence when the winner is the node's player to move; nothing else about the node changes |
| MonteCarlo.DrawScoresNothing | src/simulation/mcts.py:62-67 | a drawn game adds no score to any node |
| MonteCarlo.BackpropWellFormed | src/simulation/mcts.py:58-67 | backpropagation keeps the tree well formed, including score <= visits |
| MonteCarlo.Mcts.constructor | src/simulation/mcts.py:8-11 | a planner starts with child_number 0, an empty map and the root as its only node, and is well formed when the root state is reachable |
| MonteCarlo.Mcts.Advance | src/simulation/mcts.py:31-54 | the descent loop's body updates the arena, the map and the current node exactly as Step prescribes (StepFacts then gives well-formedness and progress) and leaves child_number alone |
| MonteCarlo.Mcts.Descend | src/simulation/mcts.py:25-56 | the descent loop walks Steps from the root to a finished node, keeping the tree well formed |
| MonteCarlo.Mcts.Backpropagate | src/simulation/mcts.py:58-67 | the backpropagation loop turns the arena into Backprop of the path and the winner, and leaves the map alone |
| MonteCarlo.Mcts.Iteration | src/simulation/mcts.py:24-67 | one iteration is a descent of Steps from the root to a finished node, followed by the backpropagation of that node's winner along the path; the planner stays well formed |
| MonteCarlo.IterationKeepsRoot | src/simulation/mcts.py:24-67 | an iteration keeps the root's state, and gives an unfinished root a child when it starts from an empty map or a root with children |
| MonteCarlo.Mcts.Run | src/simulation/mcts.py:13-17 | the search loop runs exactly `iterations` iterations: the ghost trees start at the old tree, end at the new one, and each follows from the one before by one iteration with that iteration's random streams (RunOf); the planner stays well formed and keeps its root state; from a fresh planner an unfinished root ends with a child after at least one iteration |
| MonteCarlo.Mcts.BestAction | src/simulation/mcts.py:21-22 | corrected best_action: IndexError exactly when the root has no children, otherwise the action of the root's best child, which is available at the root |
| MonteCarlo.Mcts.BestActionAsWritten | src/simulation/mcts.py:21-22 | best_action as written: IndexError without children, otherwise None |
| MonteCarlo.Mcts.Search | src/simulation/mcts.py:13-22 | search with the corrected best_action: the tree is the result of `iterations` iterations (RunOf) and child_number is unchanged; the result is IndexError exactly when the root has no children, otherwise the action of the root's best child, which is available at the root; a finished root gives IndexError, and a fresh planner with an unfinished root and at least one iteration gives an action |
| MonteCarlo.Mcts.SearchAsWritten | src/simulation/mcts.py:13-22 | search as written: the tree is the result of `iterations` iterations (RunOf) and child_number is unchanged; the result is IndexError exactly when the root has no children (so after zero iterations, or from a finished root), otherwise None; for a fresh planner with an unfinished root and at least one iteration it is None |
| MonteCarlo.Plan | src/simulation/mcts.py:70-73 | mcts() with the corrected best_action: the searched tree is `iterations` iterations applied to a fresh planner on the root state (RunOf); the result is IndexError exactly when its root has no children, otherwise the action of its best root child, which is available; zero iterations or a finished state give IndexError and an unfinished one, after at least one iteration, an action |
| MonteCarlo.PlanAsWritten | src/simulation/mcts.py:70-73 | mcts() as written: the searched tree is `iterations` iterations applied to a fresh planner on the root state (RunOf); the result is IndexError exactly when its root has no children, otherwise None; zero iterations or a finished state give IndexError, and every unfinished reachable state with at least one iteration gives None |

## Left out

- `src/game/window.py` (Tk rendering, mouse input, the game thread and its lock) and `src/main.py` are not part of this model.
- The time budget of `search` is replaced by a number of iterations. The model says nothing about how many iterations fit in 1.5 seconds.
- The `random` module is replaced by parameters. `random.random()` becomes `draw(i)` and `random.choice` becomes `actions[pick(i) % |actions|]`. Uniformity of the choices is not modelled, so nothing is proved about the quality of the chosen move.
- Python's `hash` of the board bytes is the board itself, so hash collisions between different boards are not modelled.
- A node's parent object reference is an arena index, and the transposition map holds node indices. Object identity becomes index equality.
- `child_number` is kept as a field but never used, as in the source.
- `average` returns the integer -1 in the source and the real -1 here. The two compare the same way in the sort.
- `is_leaf` and `get_available_actions` are one-line accessors, modelled as `IsLeaf` and the `actions` field without contracts of their own.
- `turn_player`, `turn_ai`, `has_finished`, `get_winner` and both `__hash__` methods are one-line accessors too (`src/game/quarto.py:52-62`, `src/game/quarto.py:102-103`, `src/simulation/node.py:34-35`). They are modelled as `TurnPlayer`, `TurnAi`, `HasFinished`, `GetWinner`, `Hash` and `NodeHash`, without contracts of their own. `TurnsExclusive`, `NonFinalHasActions`, `HashIsBoard` and `NodeHashIsBoard` state what they mean.
- `average` divides two Python floats; the model divides exact reals. The two give the same order and the same ties while visit counts stay far below 2^26, which a search of a few seconds does not reach.
- The default arguments of `mcts()` (`time_limit=1.5`, `exploitation=0.5`, `src/simulation/mcts.py:70`) are not modelled. The number of iterations and the exploitation factor are parameters of `Plan`.
- MonteCarlo.Mcts.Search: promises an action only when the planner starts fresh or its root already has children. Every call through `mcts()` starts fresh.

## Findings

| source | as written | input that shows it | evidently intended | confidence | as-written member | corrected member |
|---|---|---|---|---|---|---|
| src/simulation/mcts.py:21-22 | `best_action` evaluates `self.root.best_child().action` without `return`, so `search` and `mcts()` return None; `window.py` then skips the move (`if action:`) and asks the AI again forever | any unfinished state with at least one iteration, e.g. the AI to move on a fresh game | return the action of the root's best child | high (not executed) | MonteCarlo.PlanAsWritten | MonteCarlo.Plan |
