/**
 * The game's state machine (src/connect4Game.tsx): the state, the actions, the
 * `reducer` transition function, the initial state, the routing of a manual
 * move and the caller-driven automated opponent step.
 */
module Game {
  import opened Wrappers
  import opened Constants
  import opened Utils
  import Minimax

  datatype State = State(
    board: Board,
    turn: Turn,
    endCondition: Option<EndConditionValue>,
    isTwoPlayer: bool)

  datatype Action =
    | ToggleTwoPlayer
    | PlayerMove(colIdx: int)
    | OpponentMove(colIdx: int)
    | Restart

  /**
   * A copy of the board with cell (r, c) set to `disc`: the effect of the draft
   * write inside `produce`. Boards are values, so the input is left as it was.
   */
  function SetCell(b: Board, r: int, c: int, disc: Disc): (b': Board)
    requires 0 <= r < |b| && 0 <= c < |b[r]|
    ensures |b'| == |b| && forall i :: 0 <= i < |b| ==> |b'[i]| == |b[i]|
    ensures forall i, j :: 0 <= i < |b| && 0 <= j < |b[i]| ==>
      b'[i][j] == if i == r && j == c then disc else b[i][j]
  {
    var row: seq<Disc> := b[r][c := disc];
    b[r := row]
  }

  /** The shared body of the two move actions: drop `disc` into column colIdx, then hand the turn to `nextTurn`. */
  function Move(s: State, colIdx: int, disc: Disc, nextTurn: Turn): State
    requires IsRectangular(s.board)
  {
    match LowestEmptyRow(s.board, colIdx)
    case None => s
    case Some(rowIdx) =>
      var newBoard := SetCell(s.board, rowIdx, colIdx, disc);
      s.(board := newBoard, turn := nextTurn, endCondition := EndCondition(newBoard, rowIdx, colIdx))
  }

  /**
   * The transition function. It does not look at `endCondition` or at whose
   * turn it is before applying a move; the screen hides the move buttons once
   * the game has ended.
   */
  function Reducer(s: State, action: Action): (r: State)
    requires IsRectangular(s.board)
    ensures IsRectangular(r.board)
    ensures r.isTwoPlayer == (if action.ToggleTwoPlayer? then !s.isTwoPlayer else s.isTwoPlayer)
  {
    match action
    case ToggleTwoPlayer => s.(isTwoPlayer := !s.isTwoPlayer)
    case PlayerMove(colIdx) => Move(s, colIdx, PLAYER_DISC, OPPONENT_TURN)
    case OpponentMove(colIdx) => Move(s, colIdx, OPPONENT_DISC, PLAYER_TURN)
    case Restart => s.(board := InitialBoard(), turn := PLAYER_TURN, endCondition := None)
  }

  /** `initialGameState`: the empty board, the player to move, no end condition, single-player mode. */
  function InitialGameState(): State {
    State(InitialBoard(), PLAYER_TURN, None, false)
  }

  /** `handleManualMove`: in two-player mode the side to move plays; otherwise a manual move is the player's. */
  function ManualMoveAction(s: State, colIdx: int): (action: Action)
    ensures (action.PlayerMove? || action.OpponentMove?) && action.colIdx == colIdx
    ensures action.OpponentMove? <==> s.isTwoPlayer && s.turn == OPPONENT_TURN
  {
    if s.isTwoPlayer then
      (if CheckPlayerTurn(s.turn) then PlayerMove(colIdx) else OpponentMove(colIdx))
    else
      PlayerMove(colIdx)
  }

  predicate IsMove(action: Action) {
    action.PlayerMove? || action.OpponentMove?
  }

  function MoverDisc(action: Action): Disc
    requires IsMove(action)
  {
    if action.PlayerMove? then PLAYER_DISC else OPPONENT_DISC
  }

  /** The board has the game's six rows of seven cells. */
  ghost predicate IsGameBoard(b: Board) {
    |b| == ROWS && forall r :: 0 <= r < |b| ==> |b[r]| == COLS
  }

  // ----- Properties of the initial state and of each action -----

  /** The game starts on an empty, settled 6 x 7 board where every column is playable, with the player to move. */
  lemma InitialGameStateProperties()
    ensures IsGameBoard(InitialGameState().board) && Settled(InitialGameState().board)
    ensures !exists r, c :: 0 <= r < ROWS && 0 <= c < COLS && InitialGameState().board[r][c] != EMPTY_DISC
    ensures forall c :: 0 <= c < COLS ==> CheckPlayableColumn(InitialGameState().board, c)
    ensures InitialGameState().turn == PLAYER_TURN && InitialGameState().endCondition == None
    ensures !InitialGameState().isTwoPlayer
  {
  }

  /** Toggling two-player mode flips the flag and touches nothing else. */
  lemma ToggleTwoPlayerEffect(s: State)
    requires IsRectangular(s.board)
    ensures var s' := Reducer(s, ToggleTwoPlayer);
      s'.isTwoPlayer == !s.isTwoPlayer &&
      s'.board == s.board && s'.turn == s.turn && s'.endCondition == s.endCondition
  {
  }

  /** Restart empties the board, gives the move to the player and clears the end condition, but keeps the mode. */
  lemma RestartEffect(s: State)
    requires IsRectangular(s.board)
    ensures var s' := Reducer(s, Restart);
      s' == InitialGameState().(isTwoPlayer := s.isTwoPlayer)
  {
  }

  /** A move into a column with no empty cell (also one outside the board) leaves the state as it was. */
  lemma MoveOnFullColumn(s: State, action: Action)
    requires IsRectangular(s.board) && IsMove(action)
    requires forall i :: 0 <= i < |s.board| ==> !IsEmptyAt(s.board, i, action.colIdx)
    ensures Reducer(s, action) == s
  {
  }

  /**
   * A move into a column whose lowest empty cell is row `rowIdx` puts the
   * mover's disc there and changes no other cell, assigns the turn to the other
   * side whatever it was before, keeps the mode, and records a win for the
   * mover exactly when four in a row now pass through the new disc (even on the
   * last empty cell), else null while a cell is empty, else a draw.
   */
  lemma MoveEffect(s: State, action: Action, rowIdx: int)
    requires IsRectangular(s.board) && IsMove(action)
    requires 0 <= rowIdx < |s.board| && IsEmptyAt(s.board, rowIdx, action.colIdx)
    requires forall i :: rowIdx < i < |s.board| ==> !IsEmptyAt(s.board, i, action.colIdx)
    ensures var s' := Reducer(s, action);
      |s'.board| == |s.board| &&
      (forall i :: 0 <= i < |s.board| ==> |s'.board[i]| == |s.board[i]|) &&
      (forall i, j :: 0 <= i < |s.board| && 0 <= j < |s.board[i]| ==>
        s'.board[i][j] == if i == rowIdx && j == action.colIdx then MoverDisc(action) else s.board[i][j])
    ensures var s' := Reducer(s, action);
      s'.turn == (if action.PlayerMove? then OPPONENT_TURN else PLAYER_TURN) &&
      s'.isTwoPlayer == s.isTwoPlayer
    ensures var s' := Reducer(s, action);
      IsRectangular(s'.board) && 0 <= action.colIdx < |s'.board[0]| &&
      s'.endCondition ==
        if FourInARowThrough(s'.board, rowIdx, action.colIdx) then Some(MoverDisc(action))
        else if HasEmptyCell(s'.board) then None
        else Some(DRAW)
  {
    var col := action.colIdx;
    assert LowestEmptyRow(s.board, col) == Some(rowIdx);
    var newBoard := SetCell(s.board, rowIdx, col, MoverDisc(action));
    assert Reducer(s, action).board == newBoard;
    EndConditionMeaning(newBoard, rowIdx, col);
  }

  /** Gravity read downwards: below an occupied cell, every cell of the column is occupied. */
  lemma OccupiedBelowOccupied(b: Board, r1: int, r2: int, c: int)
    requires Settled(b) && 0 <= r1 < r2 < |b| && !IsEmptyAt(b, r1, c)
    ensures !IsEmptyAt(b, r2, c)
  {
  }

  /**
   * A disc dropped onto three discs of its own colour in the same column wins:
   * the detector finds vertical lines whose top end is the new disc.
   */
  lemma VerticalWin(s: State, action: Action, rowIdx: int)
    requires IsRectangular(s.board) && Settled(s.board) && IsMove(action)
    requires 0 <= rowIdx && rowIdx + 3 < |s.board| && IsEmptyAt(s.board, rowIdx, action.colIdx)
    requires forall i :: rowIdx < i <= rowIdx + 3 ==> s.board[i][action.colIdx] == MoverDisc(action)
    ensures Reducer(s, action).endCondition == Some(MoverDisc(action))
  {
    var col := action.colIdx;
    var b' := Reducer(s, action).board;
    assert !IsEmptyAt(s.board, rowIdx + 1, col);
    forall i | rowIdx + 1 < i < |s.board|
      ensures !IsEmptyAt(s.board, i, col)
    {
      OccupiedBelowOccupied(s.board, rowIdx + 1, i, col);
    }
    MoveEffect(s, action, rowIdx);
    var up := ALL_DIRECTIONS[1].0;
    forall i: int | -3 <= i <= 0
      ensures Along(b', rowIdx, col, up, b'[rowIdx][col], i)
    {
      assert rowIdx + i * up.dRow == rowIdx - i;
    }
    assert WindowAt(b', rowIdx, col, up, b'[rowIdx][col], 3);
    assert FourInARowThrough(b', rowIdx, col);
  }

  // ----- Counting discs -----

  function Occupied(row: seq<Disc>): nat {
    if row == [] then 0 else (if row[0] == EMPTY_DISC then 0 else 1) + Occupied(row[1..])
  }

  function OccupiedCells(b: Board): nat {
    if b == [] then 0 else Occupied(b[0]) + OccupiedCells(b[1..])
  }

  lemma {:induction false} OccupiedAfterFill(row: seq<Disc>, c: int, disc: Disc)
    requires 0 <= c < |row| && row[c] == EMPTY_DISC && disc != EMPTY_DISC
    ensures Occupied(row[c := disc]) == Occupied(row) + 1
  {
    if c == 0 {
      assert row[c := disc][1..] == row[1..];
    } else {
      assert row[c := disc][1..] == row[1..][c - 1 := disc];
      OccupiedAfterFill(row[1..], c - 1, disc);
    }
  }

  lemma {:induction false} OccupiedCellsAfterRowChange(b: Board, r: int, row: seq<Disc>)
    requires 0 <= r < |b|
    ensures OccupiedCells(b[r := row]) == OccupiedCells(b) - Occupied(b[r]) + Occupied(row)
  {
    if r == 0 {
      assert b[r := row][1..] == b[1..];
    } else {
      assert b[r := row][1..] == b[1..][r - 1 := row];
      OccupiedCellsAfterRowChange(b[1..], r - 1, row);
    }
  }

  /** A move that lands adds exactly one disc to the board; one that does not land adds none. */
  lemma MoveAddsOneDisc(s: State, action: Action)
    requires IsRectangular(s.board) && IsMove(action)
    ensures LowestEmptyRow(s.board, action.colIdx).Some? ==>
      OccupiedCells(Reducer(s, action).board) == OccupiedCells(s.board) + 1
    ensures LowestEmptyRow(s.board, action.colIdx).None? ==>
      OccupiedCells(Reducer(s, action).board) == OccupiedCells(s.board)
  {
    var col := action.colIdx;
    if LowestEmptyRow(s.board, col).Some? {
      var r := LowestEmptyRow(s.board, col).value;
      OccupiedAfterFill(s.board[r], col, MoverDisc(action));
      OccupiedCellsAfterRowChange(s.board, r, s.board[r][col := MoverDisc(action)]);
    }
  }

  // ----- The board invariant -----

  /** Every action keeps a settled 6 x 7 board settled and 6 x 7: discs only ever land on the lowest empty cell. */
  lemma ReducerPreservesBoard(s: State, action: Action)
    requires IsGameBoard(s.board) && Settled(s.board)
    ensures IsGameBoard(Reducer(s, action).board) && Settled(Reducer(s, action).board)
  {
    if IsMove(action) && LowestEmptyRow(s.board, action.colIdx).Some? {
      var b := s.board;
      var col := action.colIdx;
      var rowIdx := LowestEmptyRow(b, col).value;
      var b' := Reducer(s, action).board;
      assert b' == SetCell(b, rowIdx, col, MoverDisc(action));
      forall r1, r2, c | 0 <= r1 < r2 < |b'| && IsEmptyAt(b', r2, c)
        ensures IsEmptyAt(b', r1, c)
      {
        if c == col {
          assert r2 != rowIdx;
          assert IsEmptyAt(b, r2, c);
          assert r2 < rowIdx;
          assert IsEmptyAt(b, r1, c);
        } else {
          assert IsEmptyAt(b, r2, c);
          assert IsEmptyAt(b, r1, c);
        }
      }
    }
  }

  // ----- Routing of manual moves -----

  /**
   * In single-player mode a manual move is always the player's and hands the
   * turn to the opponent; in two-player mode it is played by the side whose
   * turn it is and hands the turn to the other side. A manual move into a
   * column with no empty cell changes nothing, the turn included.
   */
  lemma ManualMoveRouting(s: State, colIdx: int)
    requires IsRectangular(s.board)
    ensures var s' := Reducer(s, ManualMoveAction(s, colIdx));
      match LowestEmptyRow(s.board, colIdx)
      case None => s' == s
      case Some(r) =>
        s'.board[r][colIdx] == (if s.isTwoPlayer then s.turn else PLAYER_DISC) &&
        (if s.isTwoPlayer then s'.turn != s.turn else s'.turn == OPPONENT_TURN)
  {
    var action := ManualMoveAction(s, colIdx);
    if LowestEmptyRow(s.board, colIdx).Some? {
      var r := LowestEmptyRow(s.board, colIdx).value;
      MoveEffect(s, action, r);
    }
  }

  // ----- The automated opponent's move -----

  /**
   * `handleAutomatedOpponentMove`: ask the column chooser for a column and
   * dispatch an opponent move there. Whether to take this step is up to the
   * caller.
   */
  method AutomatedOpponentMove(s: State) returns (colIdx: int, next: State)
    requires IsRectangular(s.board)
    ensures next == Reducer(s, OpponentMove(colIdx))
    ensures (exists c :: 0 <= c < |s.board[0]| && CheckPlayableColumn(s.board, c)) ==>
      0 <= colIdx < |s.board[0]| && CheckPlayableColumn(s.board, colIdx) &&
      (forall c :: 0 <= c < colIdx ==> !CheckPlayableColumn(s.board, c)) &&
      next.turn == PLAYER_TURN && LowestEmptyRow(s.board, colIdx).Some? &&
      next.board[LowestEmptyRow(s.board, colIdx).value][colIdx] == OPPONENT_DISC &&
      OccupiedCells(next.board) == OccupiedCells(s.board) + 1
    ensures (forall c :: 0 <= c < |s.board[0]| ==> !CheckPlayableColumn(s.board, c)) ==>
      colIdx == 0 && (Settled(s.board) ==> next == s)
  {
    colIdx := Minimax.Minimax(s.board);
    next := Reducer(s, OpponentMove(colIdx));
    PlayableColumnHasLowestRow(s.board, colIdx);
    MoveAddsOneDisc(s, OpponentMove(colIdx));
    if LowestEmptyRow(s.board, colIdx).Some? {
      MoveEffect(s, OpponentMove(colIdx), LowestEmptyRow(s.board, colIdx).value);
    }
  }
}
