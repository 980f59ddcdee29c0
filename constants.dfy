/**
 * The value encodings, the board type and the initial board of the game
 * (src/constants.ts, with the type aliases of src/types.ts folded in).
 */
module Constants {

  /** A cell of the board: `DISCS` encodes empty as 0, the player as 1 and the opponent as -1. */
  type Disc = x: int | -1 <= x <= 1

  const EMPTY_DISC: Disc := 0
  const PLAYER_DISC: Disc := 1
  const OPPONENT_DISC: Disc := -1

  /** Whose move it is: `TURNS` reuses the player's and the opponent's disc values. */
  type Turn = x: int | x == 1 || x == -1 witness 1

  const PLAYER_TURN: Turn := 1
  const OPPONENT_TURN: Turn := -1

  /** How a game ended: `END_CONDITIONS` is a winner's disc value, or 0 for a draw. */
  type EndConditionValue = x: int | -1 <= x <= 1

  const PLAYER_WINS: EndConditionValue := 1
  const OPPONENT_WINS: EndConditionValue := -1
  const DRAW: EndConditionValue := 0

  /** A board is a list of rows, row 0 at the top; each row is a list of cells. */
  type Board = seq<seq<Disc>>

  const ROWS := 6
  const COLS := 7

  /** A unit step on the board, as a (row, column) offset. */
  datatype Direction = Direction(dRow: int, dCol: int)

  function Opposite(d: Direction): Direction {
    Direction(-d.dRow, -d.dCol)
  }

  /**
   * One line orientation as a pair of opposite directions. The four tables are
   * imported by the win detector; their definitions are outside the modelled
   * code, and they are assumed to be these opposite unit vectors.
   */
  type Directions = (Direction, Direction)

  const HORIZONTAL_DIRECTIONS: Directions := (Direction(0, -1), Direction(0, 1))
  const VERTICAL_DIRECTIONS: Directions := (Direction(-1, 0), Direction(1, 0))
  const DIAGONAL_LEFT_DIRECTIONS: Directions := (Direction(-1, -1), Direction(1, 1))
  const DIAGONAL_RIGHT_DIRECTIONS: Directions := (Direction(-1, 1), Direction(1, -1))

  /** The orientations in the order the win detector tries them. */
  const ALL_DIRECTIONS: seq<Directions> :=
    [HORIZONTAL_DIRECTIONS, VERTICAL_DIRECTIONS, DIAGONAL_LEFT_DIRECTIONS, DIAGONAL_RIGHT_DIRECTIONS]

  lemma DirectionsAreOpposite(k: nat)
    requires k < |ALL_DIRECTIONS|
    ensures ALL_DIRECTIONS[k].1 == Opposite(ALL_DIRECTIONS[k].0)
    ensures ALL_DIRECTIONS[k].0 != Direction(0, 0)
  {
  }

  /** The disc, turn and end-condition encodings agree, which lets the win detector report a winner by its disc. */
  lemma EncodingsCoincide()
    ensures EMPTY_DISC != PLAYER_DISC && EMPTY_DISC != OPPONENT_DISC && PLAYER_DISC != OPPONENT_DISC
    ensures PLAYER_TURN == PLAYER_DISC && OPPONENT_TURN == OPPONENT_DISC
    ensures PLAYER_WINS == PLAYER_DISC && OPPONENT_WINS == OPPONENT_DISC && DRAW == EMPTY_DISC
  {
  }

  /** The value `INITIAL_BOARD` holds once built: ROWS rows of COLS empty cells. */
  function InitialBoard(): Board {
    seq(ROWS, _ => seq(COLS, _ => EMPTY_DISC))
  }

  /** Builds `INITIAL_BOARD` as the source does, pushing empty cells into a row and rows into the board. */
  method BuildInitialBoard() returns (board: Board)
    ensures |board| == ROWS
    ensures forall r :: 0 <= r < |board| ==> |board[r]| == COLS
    ensures forall r, c :: 0 <= r < |board| && 0 <= c < |board[r]| ==> board[r][c] == EMPTY_DISC
    ensures board == InitialBoard()
  {
    board := [];
    var r := 0;
    while r < 6
      invariant 0 <= r <= 6 && |board| == r
      invariant forall i :: 0 <= i < r ==> board[i] == seq(COLS, _ => EMPTY_DISC)
    {
      var row: seq<Disc> := [];
      var c := 0;
      while c < 7
        invariant 0 <= c <= 7 && |row| == c
        invariant forall j :: 0 <= j < c ==> row[j] == EMPTY_DISC
      {
        row := row + [EMPTY_DISC];
        c := c + 1;
      }
      board := board + [row];
      r := r + 1;
    }
  }
}
