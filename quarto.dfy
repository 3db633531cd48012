/**
 * The Quarto game engine: the sixteen pieces, the 4x4 board, the three
 * phases of play and the rules of a move. A game state is an immutable
 * value; a move yields a new state (the source copies the object before
 * changing it, so the state it was given is never altered).
 */
module Quarto {

  datatype Option<T> = None | Some(value: T)

  /**
   * A board cell holds a byte (numpy uint8): 0 when empty, otherwise a piece,
   * which holds exactly one bit of each attribute pair.
   */
  type Piece = bv8

  const DARK: Piece := 0x01
  const LIGHT: Piece := 0x02
  const SHORT: Piece := 0x04
  const TALL: Piece := 0x08
  const HOLLOW: Piece := 0x10
  const FLAT: Piece := 0x20
  const CIRCLE: Piece := 0x40
  const SQUARE: Piece := 0x80

  datatype Phase = ChoosePiece | ChooseSpace | Finished

  /** A board position (row, column); the board itself is flat, row-major. */
  datatype Cell = Cell(row: int, col: int)

  /** During ChoosePiece an action is a piece, during ChooseSpace a cell. */
  datatype Action = PieceAction(piece: Piece) | CellAction(cell: Cell)

  /**
   * board:  16 bytes, cell (r, c) at index 4 * r + c, 0 for an empty cell
   * pieces: the pieces nobody has chosen yet
   * spaces: the empty cells
   * player: 0 is the human, 1 the AI
   * chosen: the piece handed to the player who must place it
   * winner: -1 while there is none
   */
  datatype State = State(
    board: seq<Piece>,
    pieces: seq<Piece>,
    spaces: seq<Cell>,
    phase: Phase,
    player: int,
    chosen: Option<Piece>,
    winner: int)

  predicate OnBoard(c: Cell) {
    0 <= c.row < 4 && 0 <= c.col < 4
  }

  function Index(c: Cell): int {
    4 * c.row + c.col
  }

  /** Distinct cells of the board have distinct indices. */
  lemma IndexInjective(c: Cell, d: Cell)
    requires OnBoard(c) && OnBoard(d) && c != d
    ensures Index(c) != Index(d)
  {
  }

  // ---------------------------------------------------------------------
  // Pieces
  // ---------------------------------------------------------------------

  /** Exactly one of the two attribute bits a and b is set in p. */
  predicate OneOf(p: Piece, a: Piece, b: Piece) {
    p & (a | b) == a || p & (a | b) == b
  }

  predicate ValidPiece(p: Piece) {
    && OneOf(p, DARK, LIGHT)
    && OneOf(p, SHORT, TALL)
    && OneOf(p, HOLLOW, FLAT)
    && OneOf(p, CIRCLE, SQUARE)
  }

  /** The i-th piece built by reset: bit k of i picks the second value of pair k. */
  function PieceOf(i: int): (p: Piece)
    requires 0 <= i < 16
    ensures ValidPiece(p)
    ensures p != 0
  {
    var b := i as bv8;
    (if b & 0x1 != 0 then LIGHT else DARK)
    | (if b & 0x2 != 0 then TALL else SHORT)
    | (if b & 0x4 != 0 then FLAT else HOLLOW)
    | (if b & 0x8 != 0 then SQUARE else CIRCLE)
  }

  /** Reads back the index a piece was built from. */
  function Decode(p: Piece): int {
    (if p & LIGHT != 0 then 1 else 0)
    + (if p & TALL != 0 then 2 else 0)
    + (if p & FLAT != 0 then 4 else 0)
    + (if p & SQUARE != 0 then 8 else 0)
  }

  lemma PieceOfDecodes(i: int)
    requires 0 <= i < 16
    ensures Decode(PieceOf(i)) == i
  {
    if i < 8 {
      if i < 4 {
        if i == 0 {} else if i == 1 {} else if i == 2 {} else {}
      } else {
        if i == 4 {} else if i == 5 {} else if i == 6 {} else {}
      }
    } else {
      if i < 12 {
        if i == 8 {} else if i == 9 {} else if i == 10 {} else {}
      } else {
        if i == 12 {} else if i == 13 {} else if i == 14 {} else {}
      }
    }
  }

  /** Every byte with one bit of each pair is one of the sixteen pieces. */
  lemma ValidPieceIsBuilt(p: Piece)
    requires ValidPiece(p)
    ensures 0 <= Decode(p) < 16 && PieceOf(Decode(p)) == p
  {
    var i := Decode(p);
    PieceOfDecodes(i);
  }

  function InitialPieces(): (ps: seq<Piece>)
    ensures |ps| == 16
  {
    seq(16, i requires 0 <= i < 16 => PieceOf(i))
  }

  /** The sixteen pieces are valid and pairwise distinct, and they are all valid bytes. */
  lemma InitialPiecesFacts()
    ensures forall p :: p in InitialPieces() ==> ValidPiece(p) && p != 0
    ensures forall i, j :: 0 <= i < j < 16 ==> InitialPieces()[i] != InitialPieces()[j]
    ensures forall p :: ValidPiece(p) ==> p in InitialPieces()
  {
    forall i, j | 0 <= i < j < 16
      ensures InitialPieces()[i] != InitialPieces()[j]
    {
      PieceOfDecodes(i);
      PieceOfDecodes(j);
    }
    forall p | ValidPiece(p)
      ensures p in InitialPieces()
    {
      ValidPieceIsBuilt(p);
      assert InitialPieces()[Decode(p)] == p;
    }
  }

  /** A sequence with pairwise distinct elements holds each of them once. */
  lemma {:induction false} DistinctOnce<T>(xs: seq<T>, x: T)
    requires forall i, j :: 0 <= i < j < |xs| ==> xs[i] != xs[j]
    ensures multiset(xs)[x] <= 1
    ensures x in xs ==> multiset(xs)[x] == 1
  {
    if xs != [] {
      assert xs == [xs[0]] + xs[1..];
      DistinctOnce(xs[1..], x);
      if x == xs[0] {
        assert x !in xs[1..];
      }
    }
  }

  // ---------------------------------------------------------------------
  // Counting pieces. Bytes are counted with Count rather than multisets.
  // ---------------------------------------------------------------------

  /** The number of times p occurs in xs. */
  function Count(xs: seq<Piece>, p: Piece): (n: nat)
    ensures n <= |xs|
    ensures n == 0 <==> p !in xs
  {
    if xs == [] then 0
    else
      assert xs == [xs[0]] + xs[1..];
      (if xs[0] == p then 1 else 0) + Count(xs[1..], p)
  }

  lemma {:induction false} CountDistinct(xs: seq<Piece>, p: Piece)
    requires forall i, j :: 0 <= i < j < |xs| ==> xs[i] != xs[j]
    ensures Count(xs, p) <= 1
  {
    if xs != [] {
      CountDistinct(xs[1..], p);
      if xs[0] == p {
        assert p !in xs[1..];
      }
    }
  }

  /** Overwriting one entry moves one occurrence. */
  lemma {:induction false} CountUpdate(xs: seq<Piece>, k: int, v: Piece, p: Piece)
    requires 0 <= k < |xs|
    ensures Count(xs[k := v], p)
         == Count(xs, p) - (if xs[k] == p then 1 else 0) + (if v == p then 1 else 0)
  {
    if k == 0 {
      assert xs[k := v][1..] == xs[1..];
    } else {
      assert xs[k := v][1..] == xs[1..][k - 1 := v];
      CountUpdate(xs[1..], k - 1, v, p);
    }
  }

  /** The number of non-empty cells of a board. */
  function Filled(b: seq<Piece>): (n: nat)
    ensures n <= |b|
  {
    if b == [] then 0 else (if b[0] != 0 then 1 else 0) + Filled(b[1..])
  }

  lemma {:induction false} FilledUpdate(b: seq<Piece>, k: int, v: Piece)
    requires 0 <= k < |b| && b[k] == 0 && v != 0
    ensures Filled(b[k := v]) == Filled(b) + 1
  {
    if k == 0 {
      assert b[k := v][1..] == b[1..];
    } else {
      assert b[k := v][1..] == b[1..][k - 1 := v];
      FilledUpdate(b[1..], k - 1, v);
    }
  }

  lemma {:induction false} FilledEmpty(n: nat)
    ensures Filled(seq(n, _ => 0 as Piece)) == 0
  {
    if n > 0 {
      assert seq(n, _ => 0 as Piece)[1..] == seq(n - 1, _ => 0 as Piece);
      FilledEmpty(n - 1);
    }
  }

  // ---------------------------------------------------------------------
  // Cells and the list filter used by do_action
  // ---------------------------------------------------------------------

  /** All cells in the order of the source's comprehension: row-major. */
  function AllCells(): (cs: seq<Cell>)
    ensures |cs| == 16
  {
    seq(16, k requires 0 <= k < 16 => Cell(k / 4, k % 4))
  }

  /** The k-th cell of the list lies on the board and sits at index k. */
  lemma CellOfIndex(k: int)
    requires 0 <= k < 16
    ensures OnBoard(AllCells()[k]) && Index(AllCells()[k]) == k
  {
    if k < 4 {
      assert k / 4 == 0 && k % 4 == k;
    } else if k < 8 {
      assert k / 4 == 1 && k % 4 == k - 4;
    } else if k < 12 {
      assert k / 4 == 2 && k % 4 == k - 8;
    } else {
      assert k / 4 == 3 && k % 4 == k - 12;
    }
  }

  lemma AllCellsFacts()
    ensures forall c :: c in AllCells() <==> OnBoard(c)
    ensures forall c :: c in AllCells() ==> multiset(AllCells())[c] == 1
  {
    var cs := AllCells();
    forall k | 0 <= k < 16
      ensures OnBoard(cs[k]) && Index(cs[k]) == k
    {
      CellOfIndex(k);
    }
    forall c | OnBoard(c)
      ensures c in cs
    {
      var k := Index(c);
      CellOfIndex(k);
      assert cs[k] == c;
    }
    forall c | c in cs
      ensures multiset(cs)[c] == 1
    {
      DistinctOnce(cs, c);
    }
  }

  /** The comprehension [x for x in xs if x != y] of do_action. */
  function Without<T(==,!new)>(xs: seq<T>, y: T): (r: seq<T>)
    ensures forall x :: x in r <==> x in xs && x != y
    ensures multiset(r) == multiset(xs)[y := 0]
    ensures |r| == |xs| - multiset(xs)[y]
  {
    if xs == [] then []
    else
      assert xs == [xs[0]] + xs[1..];
      (if xs[0] == y then [] else [xs[0]]) + Without(xs[1..], y)
  }

  /** Filtering pieces removes every occurrence of y and keeps the others. */
  lemma {:induction false} WithoutCount(xs: seq<Piece>, y: Piece, p: Piece)
    ensures Count(Without(xs, y), p) == if p == y then 0 else Count(xs, p)
    ensures |Without(xs, y)| == |xs| - Count(xs, y)
  {
    if xs != [] {
      var w := Without(xs[1..], y);
      WithoutCount(xs[1..], y, p);
      if xs[0] == y {
        assert Without(xs, y) == w;
      } else {
        assert Without(xs, y) == [xs[0]] + w;
        assert ([xs[0]] + w)[1..] == w;
      }
    }
  }

  // ---------------------------------------------------------------------
  // Victory
  // ---------------------------------------------------------------------

  function LineAnd(b: seq<Piece>, i: int, j: int, k: int, l: int): Piece
    requires |b| == 16 && 0 <= i < 16 && 0 <= j < 16 && 0 <= k < 16 && 0 <= l < 16
  {
    b[i] & b[j] & b[k] & b[l]
  }

  /** The AND over column c (numpy's reduce along axis 0). */
  function ColumnAnd(b: seq<Piece>, c: int): Piece
    requires |b| == 16 && 0 <= c < 4
  {
    LineAnd(b, c, 4 + c, 8 + c, 12 + c)
  }

  /** The AND over row r (numpy's reduce along axis 1). */
  function RowAnd(b: seq<Piece>, r: int): Piece
    requires |b| == 16 && 0 <= r < 4
  {
    LineAnd(b, 4 * r, 4 * r + 1, 4 * r + 2, 4 * r + 3)
  }

  /** Some row, column or diagonal has four pieces sharing an attribute. */
  predicate HasLine(b: seq<Piece>)
    requires |b| == 16
  {
    || (exists c :: 0 <= c < 4 && ColumnAnd(b, c) != 0)
    || (exists r :: 0 <= r < 4 && RowAnd(b, r) != 0)
    || LineAnd(b, 0, 5, 10, 15) != 0
    || LineAnd(b, 12, 9, 6, 3) != 0
  }

  /** A line with an empty cell in it never wins. */
  lemma EmptyCellBlocksLine(b: seq<Piece>, i: int, j: int, k: int, l: int)
    requires |b| == 16 && 0 <= i < 16 && 0 <= j < 16 && 0 <= k < 16 && 0 <= l < 16
    requires b[i] == 0 || b[j] == 0 || b[k] == 0 || b[l] == 0
    ensures LineAnd(b, i, j, k, l) == 0
  {
  }

  /** An empty board has no winning line. */
  lemma EmptyBoardHasNoLine()
    ensures !HasLine(seq(16, _ => 0 as Piece))
  {
    var b := seq(16, _ => 0 as Piece);
    forall c | 0 <= c < 4 ensures ColumnAnd(b, c) == 0 {
      EmptyCellBlocksLine(b, c, 4 + c, 8 + c, 12 + c);
    }
    forall r | 0 <= r < 4 ensures RowAnd(b, r) == 0 {
      EmptyCellBlocksLine(b, 4 * r, 4 * r + 1, 4 * r + 2, 4 * r + 3);
    }
  }

  // ---------------------------------------------------------------------
  // The game state and its operations
  // ---------------------------------------------------------------------

  /** What do_action needs to run without an indexing error. */
  ghost predicate WellShaped(s: State) {
    && |s.board| == 16
    && (forall c :: c in s.spaces ==> OnBoard(c))
    && (s.phase == ChooseSpace ==> s.chosen.Some?)
  }

  predicate TurnPlayer(s: State) {
    s.player == 0
  }

  predicate TurnAi(s: State) {
    s.player == 1
  }

  predicate HasFinished(s: State) {
    s.phase == Finished
  }

  function GetWinner(s: State): int {
    s.winner
  }

  /** The state built by reset once the starting player is drawn. */
  function NewGame(player: int): State {
    State(seq(16, _ => 0 as Piece), InitialPieces(), AllCells(), ChoosePiece, player, None, -1)
  }

  /** Models reset: builds the pieces in a loop and draws the starting player. */
  method Reset(draw: real) returns (s: State)
    requires 0.0 <= draw < 1.0
    ensures s == NewGame((draw * 2.0).Floor)
    ensures s.player == 0 || s.player == 1
  {
    var spaces := AllCells();
    var pieces: seq<Piece> := [];
    for i := 0 to 16
      invariant |pieces| == i
      invariant forall k :: 0 <= k < i ==> pieces[k] == PieceOf(k)
    {
      pieces := pieces + [PieceOf(i)];
    }
    var board := seq(16, _ => 0 as Piece);
    var player := (draw * 2.0).Floor;
    s := State(board, pieces, spaces, ChoosePiece, player, None, -1);
  }

  /** The legality test do_action applies in each phase. */
  predicate Legal(s: State, a: Action) {
    match s.phase
    case ChoosePiece => a.PieceAction? && a.piece in s.pieces
    case ChooseSpace => a.CellAction? && a.cell in s.spaces
    case Finished => false
  }

  /** get_available_actions: the pieces, the spaces, or nothing. */
  function AvailableActions(s: State): (r: seq<Action>)
    ensures forall a :: a in r <==> Legal(s, a)
    ensures |r| == match s.phase
      case ChoosePiece => |s.pieces|
      case ChooseSpace => |s.spaces|
      case Finished => 0
  {
    match s.phase
    case ChoosePiece =>
      var r := seq(|s.pieces|, i requires 0 <= i < |s.pieces| => PieceAction(s.pieces[i]));
      assert forall p :: p in s.pieces ==> PieceAction(p) in r by {
        forall p | p in s.pieces ensures PieceAction(p) in r {
          var i :| 0 <= i < |s.pieces| && s.pieces[i] == p;
          assert r[i] == PieceAction(p);
        }
      }
      r
    case ChooseSpace =>
      var r := seq(|s.spaces|, i requires 0 <= i < |s.spaces| => CellAction(s.spaces[i]));
      assert forall c :: c in s.spaces ==> CellAction(c) in r by {
        forall c | c in s.spaces ensures CellAction(c) in r {
          var i :| 0 <= i < |s.spaces| && s.spaces[i] == c;
          assert r[i] == CellAction(c);
        }
      }
      r
    case Finished => []
  }

  /**
   * _check_victory, run on the fresh state right after a placement: a
   * completed line wins for the player who placed; with no line and no
   * piece left anywhere the game ends drawn; otherwise play goes on.
   */
  function CheckVictory(s: State): (r: State)
    requires |s.board| == 16
    ensures r.board == s.board && r.pieces == s.pieces && r.spaces == s.spaces
    ensures r.player == s.player && r.chosen == s.chosen
    ensures HasLine(s.board) ==> r.phase == Finished && r.winner == s.player
    ensures !HasLine(s.board) ==> r.winner == s.winner
    ensures !HasLine(s.board) && |s.pieces| == 0 && s.chosen == None ==> r.phase == Finished
    ensures !HasLine(s.board) && (|s.pieces| > 0 || s.chosen.Some?) ==> r == s
  {
    if HasLine(s.board) then s.(winner := s.player, phase := Finished)
    else if |s.pieces| == 0 && s.chosen == None then s.(phase := Finished)
    else s
  }

  /** The state a piece choice builds. */
  function PieceChoice(s: State, q: Piece): State {
    s.(pieces := Without(s.pieces, q), phase := ChooseSpace,
       player := (s.player + 1) % 2, chosen := Some(q))
  }

  /** The state a placement builds before _check_victory runs. */
  function Placement(s: State, c: Cell): State
    requires WellShaped(s) && s.phase == ChooseSpace && c in s.spaces
  {
    s.(board := s.board[Index(c) := s.chosen.value], spaces := Without(s.spaces, c),
       phase := ChoosePiece, chosen := None)
  }

  /** do_action: an illegal action, or any action once finished, changes nothing. */
  function DoAction(s: State, a: Action): (r: State)
    requires WellShaped(s)
    ensures a !in AvailableActions(s) ==> r == s
    ensures |r.board| == 16
  {
    match s.phase
    case ChoosePiece =>
      if !(a.PieceAction? && a.piece in s.pieces) then s
      else PieceChoice(s, a.piece)
    case ChooseSpace =>
      if !(a.CellAction? && a.cell in s.spaces) then s
      else
        CheckVictory(Placement(s, a.cell))
    case Finished => s
  }

  /** __hash__: a state is keyed by its board bytes only. */
  function Hash(s: State): seq<Piece> {
    s.board
  }

  lemma HashIsBoard(s: State, t: State)
    ensures Hash(s) == Hash(t) <==> s.board == t.board
  {
  }

  // ---------------------------------------------------------------------
  // Effects of one legal action
  // ---------------------------------------------------------------------

  lemma PieceChoiceEffect(s: State, p: Piece)
    requires WellShaped(s) && s.phase == ChoosePiece && p in s.pieces
    ensures var t := DoAction(s, PieceAction(p));
      && (forall x :: x in t.pieces <==> x in s.pieces && x != p)
      && |t.pieces| == |s.pieces| - Count(s.pieces, p)
      && t.chosen == Some(p) && t.phase == ChooseSpace
      && t.player == (s.player + 1) % 2
      && t.board == s.board && t.spaces == s.spaces && t.winner == s.winner
  {
    WithoutCount(s.pieces, p, p);
  }

  lemma PlacementEffect(s: State, c: Cell)
    requires WellShaped(s) && s.phase == ChooseSpace && c in s.spaces
    ensures var t := DoAction(s, CellAction(c));
      && multiset(t.spaces) == multiset(s.spaces)[c := 0]
      && t.board == s.board[Index(c) := s.chosen.value]
      && t.player == s.player && t.chosen == None && t.pieces == s.pieces
      && (HasLine(t.board) ==> t.phase == Finished && t.winner == s.player)
      && (!HasLine(t.board) && |s.pieces| == 0 ==> t.phase == Finished && t.winner == s.winner)
      && (!HasLine(t.board) && |s.pieces| > 0 ==> t.phase == ChoosePiece && t.winner == s.winner)
  {
  }

  /** Placing a piece leaves every other cell as it was. */
  lemma PlacementKeepsOtherCells(s: State, c: Cell, d: Cell)
    requires WellShaped(s) && s.phase == ChooseSpace && c in s.spaces
    requires OnBoard(d) && d != c
    ensures DoAction(s, CellAction(c)).board[Index(d)] == s.board[Index(d)]
  {
    IndexInjective(c, d);
    PlacementEffect(s, c);
  }

  // ---------------------------------------------------------------------
  // The conservation invariant of every reachable state
  // ---------------------------------------------------------------------

  /** How often p is held among the pieces left, the piece in hand and the board. */
  function Occurrences(s: State, p: Piece): nat {
    Count(s.pieces, p)
    + (if s.chosen == Some(p) then 1 else 0)
    + (if p != 0 then Count(s.board, p) else 0)
  }

  /**
   * The invariant of every state reachable from reset: each of the sixteen
   * pieces is held exactly once (left, in hand or on the board) and no other
   * byte is; the spaces are exactly the empty cells; the phase, the piece in
   * hand and the winner agree.
   */
  ghost predicate Inv(s: State) {
    && WellShaped(s)
    && (s.player == 0 || s.player == 1)
    && (forall p :: Occurrences(s, p) == if p in InitialPieces() then 1 else 0)
    && |s.pieces| + (if s.chosen.Some? then 1 else 0) + Filled(s.board) == 16
    && (forall c :: c in s.spaces ==> multiset(s.spaces)[c] == 1)
    && (forall c :: OnBoard(c) ==> (c in s.spaces <==> s.board[Index(c)] == 0))
    && |s.spaces| + Filled(s.board) == 16
    && (s.phase == ChooseSpace <==> s.chosen.Some?)
    && (s.phase == ChoosePiece ==> |s.pieces| > 0)
    && (HasLine(s.board) <==> s.winner != -1)
    && (s.winner != -1 ==> s.phase == Finished && (s.winner == 0 || s.winner == 1))
    && (s.phase == Finished && s.winner == -1 ==> |s.pieces| == 0)
  }

  lemma NewGameInv(player: int)
    requires player == 0 || player == 1
    ensures Inv(NewGame(player))
  {
    FilledEmpty(16);
    AllCellsFacts();
    EmptyBoardHasNoLine();
    NewGameCounts(player);
    NewGameSpaces(player);
  }

  /** A fresh game holds each of the sixteen pieces once, all of them left to choose. */
  lemma NewGameCounts(player: int)
    ensures forall p :: Occurrences(NewGame(player), p) == if p in InitialPieces() then 1 else 0
  {
    InitialPiecesFacts();
    UnplayedCounts(NewGame(player));
  }

  /** Before any move, each distinct piece left is held once and nothing else is. */
  lemma UnplayedCounts(s: State)
    requires s.chosen == None && forall k :: 0 <= k < |s.board| ==> s.board[k] == 0
    requires forall i, j :: 0 <= i < j < |s.pieces| ==> s.pieces[i] != s.pieces[j]
    ensures forall p :: Occurrences(s, p) == if p in s.pieces then 1 else 0
  {
    forall p
      ensures Occurrences(s, p) == if p in s.pieces then 1 else 0
    {
      CountDistinct(s.pieces, p);
      if p != 0 {
        assert p !in s.board;
      }
    }
  }

  /** On a fresh board every cell is empty and listed as a space. */
  lemma NewGameSpaces(player: int)
    ensures var s := NewGame(player);
      forall c :: OnBoard(c) ==> (c in s.spaces <==> s.board[Index(c)] == 0)
  {
    AllCellsFacts();
  }

  /** A byte the invariant counts is a real piece, held exactly once. */
  lemma CountedPieceIsReal(s: State, p: Piece)
    requires Inv(s) && Occurrences(s, p) > 0
    ensures p != 0 && ValidPiece(p) && Occurrences(s, p) == 1
  {
    InitialPiecesFacts();
    assert p in InitialPieces();
  }

  /** Taking the single copy of q into hand moves it, and every other piece stays put. */
  lemma PieceChoiceKeepsCounts(s: State, t: State, q: Piece)
    requires s.chosen == None && q != 0 && Count(s.pieces, q) == 1
    requires t.pieces == Without(s.pieces, q) && t.chosen == Some(q) && t.board == s.board
    ensures |t.pieces| + 1 == |s.pieces|
    ensures forall p :: Occurrences(t, p) == Occurrences(s, p)
  {
    WithoutCount(s.pieces, q, q);
    forall p
      ensures Occurrences(t, p) == Occurrences(s, p)
    {
      WithoutCount(s.pieces, q, p);
    }
  }

  lemma PieceChoiceKeepsInv(s: State, q: Piece)
    requires Inv(s) && s.phase == ChoosePiece && q in s.pieces
    ensures Inv(PieceChoice(s, q))
  {
    CountedPieceIsReal(s, q);
    assert Count(s.pieces, q) == 1;
    PieceChoiceKeepsCounts(s, PieceChoice(s, q), q);
  }

  lemma PieceChoiceInv(s: State, q: Piece)
    requires Inv(s) && s.phase == ChoosePiece && q in s.pieces
    ensures Inv(DoAction(s, PieceAction(q)))
  {
    assert DoAction(s, PieceAction(q)) == PieceChoice(s, q);
    PieceChoiceKeepsInv(s, q);
  }

  /** After a placement, everything but the phase and the winner is as Inv wants. */
  lemma PlacementKeepsCounts(s: State, c: Cell)
    requires Inv(s) && s.phase == ChooseSpace && c in s.spaces
    ensures var m := Placement(s, c);
      && WellShaped(m)
      && (forall p :: Occurrences(m, p) == if p in InitialPieces() then 1 else 0)
      && |m.pieces| + Filled(m.board) == 16
      && (forall d :: d in m.spaces ==> multiset(m.spaces)[d] == 1)
      && (forall d :: OnBoard(d) ==> (d in m.spaces <==> m.board[Index(d)] == 0))
      && |m.spaces| + Filled(m.board) == 16
  {
    var v := s.chosen.value;
    var k := Index(c);
    var m := Placement(s, c);
    CountedPieceIsReal(s, v);
    assert Count(s.pieces, v) == 0;
    assert s.board[k] == 0;
    FilledUpdate(s.board, k, v);
    forall p
      ensures Occurrences(m, p) == Occurrences(s, p)
    {
      CountUpdate(s.board, k, v, p);
    }
    assert multiset(s.spaces)[c] == 1;
    forall d | d in m.spaces
      ensures multiset(m.spaces)[d] == 1
    {
    }
    forall d | OnBoard(d)
      ensures d in m.spaces <==> m.board[Index(d)] == 0
    {
      if d != c {
        IndexInjective(c, d);
      }
    }
  }

  /**
   * _check_victory on a freshly placed state that holds every piece once
   * ends in a state of the invariant: the game is won, drawn, or goes on.
   */
  lemma CheckVictoryInv(m: State)
    requires WellShaped(m) && (m.player == 0 || m.player == 1)
    requires m.phase == ChoosePiece && m.chosen == None && m.winner == -1
    requires forall p :: Occurrences(m, p) == if p in InitialPieces() then 1 else 0
    requires |m.pieces| + Filled(m.board) == 16
    requires forall d :: d in m.spaces ==> multiset(m.spaces)[d] == 1
    requires forall d :: OnBoard(d) ==> (d in m.spaces <==> m.board[Index(d)] == 0)
    requires |m.spaces| + Filled(m.board) == 16
    ensures Inv(CheckVictory(m))
  {
  }

  lemma PlacementInv(s: State, c: Cell)
    requires Inv(s) && s.phase == ChooseSpace && c in s.spaces
    ensures Inv(DoAction(s, CellAction(c)))
  {
    var m := Placement(s, c);
    PlacementKeepsCounts(s, c);
    assert s.winner == -1;
    CheckVictoryInv(m);
    assert DoAction(s, CellAction(c)) == CheckVictory(m);
  }

  /** A move from a reachable state keeps the invariant. */
  lemma DoActionInv(s: State, a: Action)
    requires Inv(s)
    ensures Inv(DoAction(s, a))
  {
    if a in AvailableActions(s) {
      match s.phase
      case ChoosePiece => PieceChoiceInv(s, a.piece);
      case ChooseSpace => PlacementInv(s, a.cell);
    }
  }

  /** The state after playing a list of actions in order. */
  function Play(s: State, acts: seq<Action>): State
    requires Inv(s)
    decreases |acts|
  {
    if acts == [] then s
    else
      DoActionInv(s, acts[0]);
      Play(DoAction(s, acts[0]), acts[1..])
  }

  lemma {:induction false} PlayInv(s: State, acts: seq<Action>)
    requires Inv(s)
    ensures Inv(Play(s, acts))
    decreases |acts|
  {
    if acts != [] {
      DoActionInv(s, acts[0]);
      PlayInv(DoAction(s, acts[0]), acts[1..]);
    }
  }

  /** Every state reachable from reset satisfies the invariant. */
  lemma {:induction false} ReachableInv(player: int, acts: seq<Action>)
    requires player == 0 || player == 1
    ensures Inv(NewGame(player)) && Inv(Play(NewGame(player), acts))
  {
    NewGameInv(player);
    PlayInv(NewGame(player), acts);
  }

  /** A game that is not over always offers a move. */
  lemma NonFinalHasActions(s: State)
    requires Inv(s) && s.phase != Finished
    ensures |AvailableActions(s)| > 0
  {
  }

  lemma TurnsExclusive(s: State)
    requires Inv(s)
    ensures TurnAi(s) != TurnPlayer(s)
  {
  }

  // ---------------------------------------------------------------------
  // Progress: every legal action moves the game forward
  // ---------------------------------------------------------------------

  /** Twice the pieces on the board, plus one while a piece is in hand. */
  function Measure(s: State): int {
    2 * Filled(s.board) + (if s.phase == ChooseSpace then 1 else 0)
  }

  /** At most sixteen pieces are on the board, and at most fifteen while one is in hand. */
  lemma MeasureBound(s: State)
    requires Inv(s)
    ensures 0 <= Measure(s) <= 32
  {
  }

  /**
   * A legal piece choice keeps the board and enters ChooseSpace; a legal
   * placement puts one more piece on the board. Either way Measure grows.
   */
  lemma LegalActionAdvances(s: State, a: Action)
    requires Inv(s) && a in AvailableActions(s)
    ensures var t := DoAction(s, a);
      && (a.PieceAction? ==> s.phase == ChoosePiece && t.board == s.board && t.phase == ChooseSpace)
      && (a.CellAction? ==> Filled(t.board) == Filled(s.board) + 1)
      && Measure(t) > Measure(s)
  {
    if a.CellAction? {
      var v := s.chosen.value;
      CountedPieceIsReal(s, v);
      FilledUpdate(s.board, Index(a.cell), v);
    }
  }
}
