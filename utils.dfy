/**
 * Board queries and the win/draw detector (src/utils.ts).
 *
 * The detector is modelled twice: `GetEndCondition` and `CheckDirection` follow
 * the source's loops and its shared, capped `count`; `EndCondition`, `LineCount`
 * and `Run` are the functions they are proved against, which the game reducer
 * uses. `FourInARowThrough` is an independent reference notion of a win, and
 * `EndConditionMeaning` ties the two together.
 */
module Utils {
  import opened Wrappers
  import opened Constants

  // ----- Disc, turn and end-condition tests (src/utils.ts:12-54) -----

  predicate CheckPlayerDisc(disc: Disc) { disc == PLAYER_DISC }

  predicate CheckOpponentDisc(disc: Disc) { disc == OPPONENT_DISC }

  predicate CheckEmptyDisc(disc: Disc) { disc == EMPTY_DISC }

  predicate CheckPlayerTurn(turn: Turn) { turn == PLAYER_TURN }

  predicate CheckOpponentTurn(turn: Turn) { turn == OPPONENT_TURN }

  predicate CheckPlayerWinner(endCondition: Option<EndConditionValue>) {
    endCondition.Some? && endCondition.value == PLAYER_WINS
  }

  predicate CheckOpponentWinner(endCondition: Option<EndConditionValue>) {
    endCondition.Some? && endCondition.value == OPPONENT_WINS
  }

  predicate CheckDraw(endCondition: Option<EndConditionValue>) {
    endCondition.Some? && endCondition.value == DRAW
  }

  /** Every cell is exactly one of empty, the player's and the opponent's. */
  lemma DiscTestsPartition(disc: Disc)
    ensures CheckPlayerDisc(disc) || CheckOpponentDisc(disc) || CheckEmptyDisc(disc)
    ensures !(CheckPlayerDisc(disc) && CheckOpponentDisc(disc))
    ensures !(CheckPlayerDisc(disc) && CheckEmptyDisc(disc))
    ensures !(CheckOpponentDisc(disc) && CheckEmptyDisc(disc))
  {
  }

  /** It is always exactly one side's turn, so the "Invalid" turn label cannot show. */
  lemma TurnTestsPartition(turn: Turn)
    ensures CheckPlayerTurn(turn) != CheckOpponentTurn(turn)
  {
  }

  /**
   * A missing end condition passes none of the three tests; a present one passes
   * exactly one, so the "Invalid End Condition" label cannot show.
   */
  lemma EndConditionTestsPartition(endCondition: Option<EndConditionValue>)
    ensures endCondition.None? ==>
      !CheckPlayerWinner(endCondition) && !CheckOpponentWinner(endCondition) && !CheckDraw(endCondition)
    ensures endCondition.Some? ==>
      (CheckPlayerWinner(endCondition) || CheckOpponentWinner(endCondition) || CheckDraw(endCondition))
    ensures !(CheckPlayerWinner(endCondition) && CheckOpponentWinner(endCondition))
    ensures !(CheckPlayerWinner(endCondition) && CheckDraw(endCondition))
    ensures !(CheckOpponentWinner(endCondition) && CheckDraw(endCondition))
  {
  }

  // ----- Board shape -----

  /** Every row is as long as row 0, whose length the detector takes as the board's width. */
  predicate IsRectangular(b: Board) {
    |b| > 0 && forall r :: 0 <= r < |b| ==> |b[r]| == |b[0]|
  }

  /**
   * Cell (r, c) holds the empty disc. A column outside the row reads as no disc
   * at all, which is never the empty one.
   */
  predicate IsEmptyAt(b: Board, r: int, c: int)
    requires 0 <= r < |b|
  {
    0 <= c < |b[r]| && b[r][c] == EMPTY_DISC
  }

  ghost predicate HasEmptyCell(b: Board) {
    exists r, c :: 0 <= r < |b| && IsEmptyAt(b, r, c)
  }

  /** Gravity: within a column, every cell above an empty cell is empty too. */
  ghost predicate Settled(b: Board) {
    forall r1, r2, c :: 0 <= r1 < r2 < |b| && IsEmptyAt(b, r2, c) ==> IsEmptyAt(b, r1, c)
  }

  // ----- Lowest playable row (src/utils.ts:56-69) -----

  /** The lowest empty row of column `col` among rows 0..r, scanning upwards from row r. */
  function LowestEmptyRowFrom(b: Board, col: int, r: int): (res: Option<nat>)
    requires -1 <= r < |b|
    ensures res.None? <==> forall i :: 0 <= i <= r ==> !IsEmptyAt(b, i, col)
    ensures res.Some? ==>
      res.value <= r && IsEmptyAt(b, res.value, col) &&
      forall i :: res.value < i <= r ==> !IsEmptyAt(b, i, col)
    decreases r + 1
  {
    if r < 0 then None
    else if IsEmptyAt(b, r, col) then Some(r)
    else LowestEmptyRowFrom(b, col, r - 1)
  }

  /** The row a disc dropped into column `col` lands on, or None when the column has no empty cell. */
  function LowestEmptyRow(b: Board, col: int): (res: Option<nat>)
    ensures res.None? <==> forall i :: 0 <= i < |b| ==> !IsEmptyAt(b, i, col)
    ensures res.Some? ==>
      res.value < |b| && IsEmptyAt(b, res.value, col) &&
      forall i :: res.value < i < |b| ==> !IsEmptyAt(b, i, col)
  {
    LowestEmptyRowFrom(b, col, |b| - 1)
  }

  /** The source's bottom-up scan with early return. */
  method GetColumnLowestPlayableRowIdx(b: Board, col: int) returns (res: Option<nat>)
    ensures res == LowestEmptyRow(b, col)
  {
    var r := |b| - 1;
    while r >= 0
      invariant -1 <= r < |b|
      invariant LowestEmptyRowFrom(b, col, r) == LowestEmptyRow(b, col)
    {
      if 0 <= col < |b[r]| && b[r][col] == EMPTY_DISC {
        return Some(r);
      }
      r := r - 1;
    }
    return None;
  }

  // ----- Playable column (src/utils.ts:71-79) -----

  predicate CheckPlayableColumn(b: Board, col: int)
    requires |b| > 0
  {
    0 <= col < |b[0]| && b[0][col] == EMPTY_DISC
  }

  /**
   * A playable column always has a lowest empty row; on a settled board the
   * converse holds too, so the cheap top-cell test and the scan agree.
   */
  lemma PlayableColumnHasLowestRow(b: Board, col: int)
    requires |b| > 0
    ensures CheckPlayableColumn(b, col) ==> LowestEmptyRow(b, col).Some?
    ensures Settled(b) ==> (CheckPlayableColumn(b, col) <==> LowestEmptyRow(b, col).Some?)
  {
    if CheckPlayableColumn(b, col) {
      assert IsEmptyAt(b, 0, col);
    }
    if Settled(b) && LowestEmptyRow(b, col).Some? {
      var r := LowestEmptyRow(b, col).value;
      if r > 0 {
        assert IsEmptyAt(b, r, col);
        assert IsEmptyAt(b, 0, col);
      }
    }
  }

  /** On a settled board with no playable column, no cell is empty: the board is full. */
  lemma NoPlayableColumnMeansFull(b: Board)
    requires IsRectangular(b) && Settled(b)
    requires forall c :: 0 <= c < |b[0]| ==> !CheckPlayableColumn(b, c)
    ensures !HasEmptyCell(b)
  {
    if HasEmptyCell(b) {
      var r, c :| 0 <= r < |b| && IsEmptyAt(b, r, c);
      if r > 0 {
        assert IsEmptyAt(b, 0, c);
      }
      assert CheckPlayableColumn(b, c);
      assert false;
    }
  }

  // ----- Win/draw detector (src/utils.ts:81-150) -----

  predicate InBounds(b: Board, r: int, c: int)
    requires |b| > 0
  {
    r >= 0 && r <= |b| - 1 && c >= 0 && c <= |b[0]| - 1
  }

  /** The cell i steps from (row, col) along d is on the board and holds `disc`. */
  predicate Along(b: Board, row: int, col: int, d: Direction, disc: Disc, i: int)
    requires IsRectangular(b)
  {
    var r, c := row + i * d.dRow, col + i * d.dCol;
    InBounds(b, r, c) && b[r][c] == disc
  }

  /** How many of the steps 1..k along d, taken in order, hold `disc` before the first that does not. */
  function Run(b: Board, row: int, col: int, d: Direction, disc: Disc, k: nat): (n: nat)
    requires IsRectangular(b)
    ensures n <= k
  {
    if k == 0 then 0
    else
      var p := Run(b, row, col, d, disc, k - 1);
      if p == k - 1 && Along(b, row, col, d, disc, k) then k else p
  }

  /** The run reaches m steps exactly when each of the first m steps holds `disc`. */
  lemma {:induction false} RunCovers(b: Board, row: int, col: int, d: Direction, disc: Disc, k: nat, m: nat)
    requires IsRectangular(b) && m <= k
    ensures Run(b, row, col, d, disc, k) >= m <==> forall i :: 1 <= i <= m ==> Along(b, row, col, d, disc, i)
  {
    if k > 0 {
      if m < k {
        RunCovers(b, row, col, d, disc, k - 1, m);
      } else {
        RunCovers(b, row, col, d, disc, k - 1, k - 1);
      }
    }
  }

  function Min(x: int, y: int): int {
    if x < y then x else y
  }

  /**
   * One `checkDirection` call: it adds the steps along d that hold `disc` to the
   * shared `count`, up to three steps and stopping once `count` is 4.
   */
  method CheckDirection(b: Board, row: int, col: int, disc: Disc, d: Direction, count0: nat) returns (count: nat)
    requires IsRectangular(b) && 1 <= count0 <= 4
    ensures count == Min(4, count0 + Run(b, row, col, d, disc, 3))
  {
    count := count0;
    var i := 1;
    while i < 4
      invariant 1 <= i <= 4
      invariant count == count0 + (i - 1) <= 4
      invariant forall j :: 1 <= j < i ==> Along(b, row, col, d, disc, j)
    {
      if count == 4 {
        RunCovers(b, row, col, d, disc, 3, i - 1);
        break;
      }
      var newRow, newCol := row + i * d.dRow, col + i * d.dCol;
      if !InBounds(b, newRow, newCol) || b[newRow][newCol] != disc {
        assert !Along(b, row, col, d, disc, i);
        RunCovers(b, row, col, d, disc, 3, i - 1);
        RunCovers(b, row, col, d, disc, 3, i);
        break;
      }
      count := count + 1;
      i := i + 1;
    }
    if i == 4 {
      RunCovers(b, row, col, d, disc, 3, 3);
    }
  }

  /** The capped count of one orientation, as the two `checkDirection` calls leave it. */
  function LineCount(b: Board, row: int, col: int, dirs: Directions): (count: nat)
    requires IsRectangular(b) && 0 <= row < |b| && 0 <= col < |b[0]|
    ensures 1 <= count <= 4
  {
    var disc := b[row][col];
    Min(4, Min(4, 1 + Run(b, row, col, dirs.0, disc, 3)) + Run(b, row, col, dirs.1, disc, 3))
  }

  /** `board.flat()`: the cells row after row. */
  function Flat(b: Board): seq<Disc> {
    if b == [] then [] else b[0] + Flat(b[1..])
  }

  lemma {:induction false} FlatContains(b: Board, x: Disc)
    ensures x in Flat(b) <==> exists r, c :: 0 <= r < |b| && 0 <= c < |b[r]| && b[r][c] == x
  {
    if b != [] {
      FlatContains(b[1..], x);
      if x in Flat(b[1..]) {
        var r, c :| 0 <= r < |b[1..]| && 0 <= c < |b[1..][r]| && b[1..][r][c] == x;
        assert b[r + 1][c] == x;
      }
      if exists r, c :: 0 <= r < |b| && 0 <= c < |b[r]| && b[r][c] == x {
        var r, c :| 0 <= r < |b| && 0 <= c < |b[r]| && b[r][c] == x;
        if r == 0 {
          assert x in b[0];
        } else {
          assert b[1..][r - 1][c] == x;
        }
      }
    }
  }

  /** The `board.flat().some(...)` test finds an empty cell exactly when one exists. */
  lemma FlatHasEmpty(b: Board)
    ensures EMPTY_DISC in Flat(b) <==> HasEmptyCell(b)
  {
    FlatContains(b, EMPTY_DISC);
    if EMPTY_DISC in Flat(b) {
      var r, c :| 0 <= r < |b| && 0 <= c < |b[r]| && b[r][c] == EMPTY_DISC;
      assert IsEmptyAt(b, r, c);
    }
    if HasEmptyCell(b) {
      var r, c :| 0 <= r < |b| && IsEmptyAt(b, r, c);
      assert b[r][c] == EMPTY_DISC;
    }
  }

  /** What `getEndCondition` returns: the cell's disc on a line of four, else null while a cell is empty, else a draw. */
  function EndCondition(b: Board, row: int, col: int): Option<EndConditionValue>
    requires IsRectangular(b) && 0 <= row < |b| && 0 <= col < |b[0]|
  {
    if exists k :: 0 <= k < |ALL_DIRECTIONS| && LineCount(b, row, col, ALL_DIRECTIONS[k]) == 4 then
      Some(b[row][col])
    else if EMPTY_DISC in Flat(b) then
      None
    else
      Some(DRAW)
  }

  /** The source's loop over the four orientations, with early return on a count of 4. */
  method GetEndCondition(b: Board, row: int, col: int) returns (res: Option<EndConditionValue>)
    requires IsRectangular(b) && 0 <= row < |b| && 0 <= col < |b[0]|
    ensures res == EndCondition(b, row, col)
  {
    var disc := b[row][col];
    var k := 0;
    while k < |ALL_DIRECTIONS|
      invariant 0 <= k <= |ALL_DIRECTIONS|
      invariant forall j :: 0 <= j < k ==> LineCount(b, row, col, ALL_DIRECTIONS[j]) < 4
    {
      var (dir1, dir2) := ALL_DIRECTIONS[k];
      var count := 1;
      count := CheckDirection(b, row, col, disc, dir1, count);
      count := CheckDirection(b, row, col, disc, dir2, count);
      if count == 4 {
        return Some(disc);
      }
      k := k + 1;
    }
    var isPlayable := EMPTY_DISC in Flat(b);
    res := if isPlayable then None else Some(DRAW);
  }

  // ----- Reference notion of a win -----

  /** The four cells at offsets -s .. 3-s from (row, col) along d all lie on the board and hold `disc`. */
  ghost predicate WindowAt(b: Board, row: int, col: int, d: Direction, disc: Disc, s: int)
    requires IsRectangular(b)
  {
    forall i :: -s <= i <= 3 - s ==> Along(b, row, col, d, disc, i)
  }

  /** Four in a row of the cell's disc, in one of the four orientations, that includes the cell itself. */
  ghost predicate FourInARowThrough(b: Board, row: int, col: int)
    requires IsRectangular(b) && 0 <= row < |b| && 0 <= col < |b[0]|
  {
    exists k, s :: 0 <= k < |ALL_DIRECTIONS| && 0 <= s <= 3 &&
      WindowAt(b, row, col, ALL_DIRECTIONS[k].0, b[row][col], s)
  }

  lemma AlongOpposite(b: Board, row: int, col: int, d: Direction, disc: Disc, i: int)
    requires IsRectangular(b)
    ensures Along(b, row, col, Opposite(d), disc, i) == Along(b, row, col, d, disc, -i)
  {
    assert i * -d.dRow == -i * d.dRow;
    assert i * -d.dCol == -i * d.dCol;
  }

  /**
   * An orientation's count reaches 4 exactly when four in a row of the cell's
   * disc along that orientation pass through the cell, wherever in the four
   * the cell sits.
   */
  lemma LineCountFourIff(b: Board, row: int, col: int, dirs: Directions)
    requires IsRectangular(b) && 0 <= row < |b| && 0 <= col < |b[0]|
    requires dirs.1 == Opposite(dirs.0)
    ensures LineCount(b, row, col, dirs) == 4 <==>
      exists s :: 0 <= s <= 3 && WindowAt(b, row, col, dirs.0, b[row][col], s)
  {
    var disc := b[row][col];
    var d := dirs.0;
    var forward := Run(b, row, col, d, disc, 3);
    var backward := Run(b, row, col, dirs.1, disc, 3);
    assert Along(b, row, col, d, disc, 0);
    if LineCount(b, row, col, dirs) == 4 {
      assert forward + backward >= 3;
      var s: int := 3 - forward;
      RunCovers(b, row, col, d, disc, 3, forward);
      RunCovers(b, row, col, dirs.1, disc, 3, s);
      forall i: int | -s <= i <= 3 - s
        ensures Along(b, row, col, d, disc, i)
      {
        if i < 0 {
          AlongOpposite(b, row, col, d, disc, -i);
        }
      }
      assert WindowAt(b, row, col, d, disc, s);
    }
    if s :| 0 <= s <= 3 && WindowAt(b, row, col, d, disc, s) {
      forall i | 1 <= i <= 3 - s
        ensures Along(b, row, col, d, disc, i)
      {
      }
      RunCovers(b, row, col, d, disc, 3, 3 - s);
      forall i | 1 <= i <= s
        ensures Along(b, row, col, dirs.1, disc, i)
      {
        AlongOpposite(b, row, col, d, disc, i);
      }
      RunCovers(b, row, col, dirs.1, disc, 3, s);
    }
  }

  /**
   * What the detector reports, stated without its counting: a win for the
   * cell's disc when four in a row pass through the cell (even if the board is
   * now full), otherwise null while some cell is empty and a draw once none is.
   */
  lemma EndConditionMeaning(b: Board, row: int, col: int)
    requires IsRectangular(b) && 0 <= row < |b| && 0 <= col < |b[0]|
    ensures FourInARowThrough(b, row, col) ==> EndCondition(b, row, col) == Some(b[row][col])
    ensures !FourInARowThrough(b, row, col) ==>
      EndCondition(b, row, col) == if HasEmptyCell(b) then None else Some(DRAW)
  {
    FlatHasEmpty(b);
    var hasLine := exists k :: 0 <= k < |ALL_DIRECTIONS| && LineCount(b, row, col, ALL_DIRECTIONS[k]) == 4;
    forall k | 0 <= k < |ALL_DIRECTIONS|
      ensures LineCount(b, row, col, ALL_DIRECTIONS[k]) == 4 <==>
        exists s :: 0 <= s <= 3 && WindowAt(b, row, col, ALL_DIRECTIONS[k].0, b[row][col], s)
    {
      DirectionsAreOpposite(k);
      LineCountFourIff(b, row, col, ALL_DIRECTIONS[k]);
    }
    assert hasLine <==> FourInARowThrough(b, row, col);
  }

  /** The detector's outcome is a winner's disc only when that disc is the cell's, and null only while a cell is empty. */
  lemma EndConditionOutcomes(b: Board, row: int, col: int)
    requires IsRectangular(b) && 0 <= row < |b| && 0 <= col < |b[0]|
    requires b[row][col] != EMPTY_DISC
    ensures EndCondition(b, row, col) == Some(PLAYER_WINS) ==> b[row][col] == PLAYER_DISC && FourInARowThrough(b, row, col)
    ensures EndCondition(b, row, col) == Some(OPPONENT_WINS) ==> b[row][col] == OPPONENT_DISC && FourInARowThrough(b, row, col)
    ensures EndCondition(b, row, col) == Some(DRAW) <==> !FourInARowThrough(b, row, col) && !HasEmptyCell(b)
    ensures EndCondition(b, row, col).None? <==> !FourInARowThrough(b, row, col) && HasEmptyCell(b)
  {
    EndConditionMeaning(b, row, col);
  }
}
