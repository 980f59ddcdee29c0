# Connect Four game engine in Dafny

This project models the engine of a Connect Four web app. The game is played on
a board of 6 rows by 7 columns, with row 0 at the top. A cell holds 0 (empty),
1 (the player's disc) or -1 (the opponent's disc). The model covers four parts
of the app:

- `constants.dfy` (module `Constants`): the encodings of discs, turns and end
  conditions, the board type, the four direction tables, and the construction
  of the initial board.
- `utils.dfy` (module `Utils`): the disc, turn and end-condition tests, the
  lowest-playable-row scan, the playable-column test, and the win/draw detector.
- `game.dfy` (module `Game`): the game state, the actions, the `reducer`
  transition function, the initial state, the routing of a manual move, and the
  automated opponent's move.
- `minimax.dfy` (module `Minimax`): the opponent's column chooser. It is still a
  placeholder that plays the leftmost playable column.
- `wrappers.dfy` (module `Wrappers`): `Option`, which stands in for `null`.

The code that works with loops is modelled as methods with loops:
`GetColumnLowestPlayableRowIdx`, `CheckDirection`, `GetEndCondition`,
`Minimax` and `BuildInitialBoard`. Each method is proved against a function.
The reducer is pure, so it uses those functions: `LowestEmptyRow`, `LineCount`,
`EndCondition` and `InitialBoard`. A board is an immutable value
(`seq<seq<Disc>>`). The draft write inside `produce` is modelled as `SetCell`,
which returns a copy with one cell changed.

The win detector is stated two ways. `LineCount` follows the source's capped
`count`, which is shared by the two `checkDirection` calls of one orientation.
`FourInARowThrough` is an independent definition of a win: four cells in a row
of the placed disc, in one of the four orientations, that include the placed
cell. `LineCountFourIff` and `EndConditionMeaning` prove that the two agree.

Assumptions, and behaviour of the code that the model keeps:

- The direction tables are imported by the detector from the constants module
  (src/utils.ts:5-8). Their definitions are outside the modelled code. They are
  assumed to be pairs of opposite unit vectors, as the destructuring at
  src/utils.ts:107 implies: horizontal (0,-1)/(0,1), vertical (-1,0)/(1,0),
  and the diagonals (-1,-1)/(1,1) and (-1,1)/(1,-1). Because the count adds
  both halves, the order inside a pair does not matter.
- The reducer does not check `endCondition` before a move
  (src/connect4Game.tsx:52-59); only the screen hides the move buttons once
  the game has ended (src/connect4Game.tsx:234). The model follows the
  reducer: `MoveEffect` has no condition on the end condition.
- The reducer sets the turn outright: the opponent after a player move, the
  player after an opponent move (src/connect4Game.tsx:74, 100). It does not
  flip the previous turn.
- The column chooser is a placeholder marked TODO (src/minimax.ts:4-6). It
  returns the first playable column, or 0 when none is playable, and the model
  does the same.
- Reading a cell of a column index outside the board gives `undefined`, which
  is not the empty disc. So such a column counts as full, and a move there is
  a no-op. The model does the same (`IsEmptyAt`, `MoveOnFullColumn`).
- The detector does not need the probed cell to be occupied; the reducer only
  probes the cell it just filled. The source does not need a rectangular
  board either: a read past the end of a shorter row gives `undefined`, which
  differs from the disc, so the probe stops (src/utils.ts:128-133). The model
  requires a rectangular board and an in-range cell for the detector; see
  "## Left out".

## Model

| member | source | states |
|---|---|---|
| `Constants.EncodingsCoincide` | src/constants.ts:3-18 | The empty, player and opponent discs (0, 1, -1) are pairwise distinct. The turn values and the winner values equal the discs of the same side, and a draw (0) equals the empty disc. |
| `Constants.DirectionsAreOpposite` | src/utils.ts:101-107 | Each of the four assumed direction tables is a non-zero unit step paired with its opposite. |
| `Constants.BuildInitialBoard` | src/constants.ts:20-27 | The nested push loops build exactly 6 rows of 7 cells, every cell empty. The result equals `InitialBoard()`. |
| `Constants.InitialBoard` | src/constants.ts:20-27 | The value `INITIAL_BOARD` holds: 6 rows of 7 empty cells. Its contract is stated by `BuildInitialBoard`, which is proved equal to it, and by `InitialGameStateProperties`. |
| `Utils.DiscTestsPartition` | src/utils.ts:12-22 | Every disc passes exactly one of the player, opponent and empty tests. |
| `Utils.TurnTestsPartition` | src/utils.ts:24-30 | Every turn passes exactly one of the player-turn and opponent-turn tests. |
| `Utils.EndConditionTestsPartition` | src/utils.ts:32-54 | A null end condition passes none of the winner and draw tests. A present one passes exactly one. |
| `Utils.CheckPlayerDisc` | src/utils.ts:12-14 | Exact equality with the player's disc (1); see `DiscTestsPartition`. |
| `Utils.CheckOpponentDisc` | src/utils.ts:16-18 | Exact equality with the opponent's disc (-1); see `DiscTestsPartition`. |
| `Utils.CheckEmptyDisc` | src/utils.ts:20-22 | Exact equality with the empty disc (0); see `DiscTestsPartition`. |
| `Utils.CheckPlayerTurn` | src/utils.ts:24-26 | Exact equality with the player's turn (1); see `TurnTestsPartition`. |
| `Utils.CheckOpponentTurn` | src/utils.ts:28-30 | Exact equality with the opponent's turn (-1); see `TurnTestsPartition`. |
| `Utils.CheckPlayerWinner` | src/utils.ts:32-38 | True iff the end condition is present and is 1; see `EndConditionTestsPartition`. |
| `Utils.CheckOpponentWinner` | src/utils.ts:40-46 | True iff the end condition is present and is -1; see `EndConditionTestsPartition`. |
| `Utils.CheckDraw` | src/utils.ts:48-54 | True iff the end condition is present and is 0; see `EndConditionTestsPartition`. |
| `Utils.LowestEmptyRowFrom` | src/utils.ts:63-68 | Scanning rows r down to 0 returns None iff none of them is empty in the column. Otherwise it returns an empty row, and no row between that row and r is empty. |
| `Utils.LowestEmptyRow` | src/utils.ts:56-69 | Returns None iff the column has no empty cell. Otherwise it returns the largest row that is empty in the column, so every row below it is occupied. |
| `Utils.GetColumnLowestPlayableRowIdx` | src/utils.ts:56-69 | The bottom-up loop with early return computes `LowestEmptyRow`. |
| `Utils.CheckPlayableColumn` | src/utils.ts:71-79 | True iff the top cell of the column is empty; an index outside row 0 reads as not empty. Its relation to the lowest empty row is stated by `PlayableColumnHasLowestRow`. |
| `Utils.PlayableColumnHasLowestRow` | src/utils.ts:71-79 | If the top cell of a column is empty, the column has a lowest empty row. On a board obeying gravity, the converse also holds. |
| `Utils.NoPlayableColumnMeansFull` | src/utils.ts:71-79 | On a board obeying gravity, if no column is playable then no cell is empty. |
| `Utils.InBounds` | src/utils.ts:93-97 | A cell is in bounds iff its row is in 0..maxRowsIdx and its column in 0..maxColsIdx, with the width taken from row 0. `GetEndCondition` tests it before every read. |
| `Utils.Run` | src/utils.ts:120-136 | The number of consecutive same-disc steps found among the first k steps is at most k. |
| `Utils.RunCovers` | src/utils.ts:120-136 | The run reaches m steps iff each of the first m steps is on the board and holds the disc. |
| `Utils.CheckDirection` | src/utils.ts:112-137 | One `checkDirection` loop adds the same-disc steps along a direction to the shared count. It probes at most three steps and stops once the count is 4, so the result is min(4, count + run). |
| `Utils.LineCount` | src/utils.ts:107-142 | The count for one orientation starts at 1 and never exceeds 4. |
| `Utils.LineCountFourIff` | src/utils.ts:101-145 | An orientation's count is 4 iff four in a row of the cell's disc along it include the cell, at any of the four positions in the line. |
| `Utils.FlatContains` | src/utils.ts:147 | A value occurs in the flattened board iff some cell holds it. |
| `Utils.Flat` | src/utils.ts:147 | `board.flat()`, the cells row after row; its contents are stated by `FlatContains`. |
| `Utils.FlatHasEmpty` | src/utils.ts:147-149 | The `flat().some(...)` test is true iff some cell is empty. |
| `Utils.EndCondition` | src/utils.ts:81-150 | The value `getEndCondition` returns; its meaning is stated by `EndConditionMeaning` and `EndConditionOutcomes`, and `GetEndCondition` is proved equal to it. |
| `Utils.GetEndCondition` | src/utils.ts:81-150 | The loops over the four orientations, with their early return, compute `EndCondition`. Every index they read is checked to be in bounds. |
| `Utils.EndConditionMeaning` | src/utils.ts:99-149 | If four in a row pass through the cell, the result is the cell's disc, even when the board is full. Otherwise the result is null while some cell is empty, and a draw (0) when none is. |
| `Utils.EndConditionOutcomes` | src/utils.ts:142-149 | For an occupied cell: a player or opponent win means that side's disc is on a line of four through the cell; a draw means no such line and a full board; null means no such line and an empty cell remains. |
| `Minimax.Minimax` | src/minimax.ts:5-17 | If some column is playable, it returns the leftmost playable column, which is in range. If none is playable, it returns 0. |
| `Game.SetCell` | src/connect4Game.tsx:61-63 | The new board has the same shape and equals the old board except at the written cell, which holds the disc. The old board is a value and is unchanged. |
| `Game.Move` | src/connect4Game.tsx:52-103 | The shared body of the two move cases; its effect is stated by `MoveEffect`, `MoveOnFullColumn` and `MoveAddsOneDisc`. |
| `Game.Reducer` | src/connect4Game.tsx:44-115 | Every action keeps the board rectangular. Only the toggle changes `isTwoPlayer`, which it flips; moves and restart keep it. The rest is stated by `MoveEffect`, `MoveOnFullColumn`, `ToggleTwoPlayerEffect`, `RestartEffect` and `ReducerPreservesBoard`. |
| `Game.InitialGameState` | src/connect4Game.tsx:117-122 | `initialGameState`; its contents are stated by `InitialGameStateProperties`. |
| `Game.InitialGameStateProperties` | src/connect4Game.tsx:117-122 | The initial state has an empty 6 x 7 board obeying gravity, with every column playable. The player is to move, there is no end condition, and two-player mode is off. |
| `Game.ToggleTwoPlayerEffect` | src/connect4Game.tsx:46-51 | Toggling flips `isTwoPlayer` and leaves the board, the turn and the end condition unchanged. |
| `Game.RestartEffect` | src/connect4Game.tsx:104-111 | Restart gives the initial board, the player's turn and no end condition, and keeps `isTwoPlayer`. |
| `Game.MoveOnFullColumn` | src/connect4Game.tsx:52-59 | A player or opponent move into a column with no empty cell returns the state unchanged. |
| `Game.MoveEffect` | src/connect4Game.tsx:52-103 | A move writes the mover's disc at the lowest empty cell and changes no other cell. It sets the turn to the other side outright and keeps `isTwoPlayer`. It records a win for the mover iff four in a row pass through the new disc; otherwise null while a cell is empty, and a draw when none is. |
| `Game.VerticalWin` | src/connect4Game.tsx:52-76 | A disc dropped onto three discs of its own colour in the same column is recorded as a win for its side. |
| `Game.MoveAddsOneDisc` | src/connect4Game.tsx:55-63 | A move that lands adds exactly one occupied cell. A move into a full column adds none. |
| `Game.ReducerPreservesBoard` | src/connect4Game.tsx:44-115 | Every action keeps a 6 x 7 board that obeys gravity as a 6 x 7 board that obeys gravity. |
| `Game.ManualMoveAction` | src/connect4Game.tsx:142-155 | The dispatched action is a move in the clicked column. It is the opponent's move iff two-player mode is on and it is the opponent's turn; otherwise it is the player's. |
| `Game.ManualMoveRouting` | src/connect4Game.tsx:142-155 | In single-player mode a manual move is the player's and gives the turn to the opponent. In two-player mode the side to move places its disc and the turn passes to the other side. A move into a full column changes nothing. |
| `Game.AutomatedOpponentMove` | src/connect4Game.tsx:157-160 | The dispatched column is the chooser's: when some column is playable, it is the leftmost playable column, the opponent's disc lands on its lowest empty row, one disc is added and the turn goes to the player. When no column is playable, the column is 0, and on a board that obeys gravity the state is unchanged. |

## Left out

- Rendering, hooks, icons and confetti (src/connect4Game.tsx:124-277), the disc
  component (src/disc.tsx) and mounting (src/main.tsx): these are presentation.
  The routing in `handleManualMove` and the dispatch in
  `handleAutomatedOpponentMove` are kept.
- The re-render rule that starts the automated opponent when the turn changes
  (src/connect4Game.tsx:167-173): it depends on React's re-render order and on
  `setPrevTurn`. `AutomatedOpponentMove` is the step it takes, left for a caller
  to invoke.
- The `default` branch of the reducer: the action type is closed, so every
  action is matched and that branch cannot be reached.
- The `console.log` in the column chooser: it is output only.
- A search algorithm, heuristic evaluator or tie-breaking for the opponent:
  the code has none, only a placeholder.
- The draft mechanics of `produce`: only its effect, a copy of the board with
  one cell changed, is modelled.
- Boards whose rows differ in length: the model's detector and reducer require
  a rectangular board and read its width from row 0. In the source, a probe
  past the end of a shorter row reads `undefined` and simply stops
  (src/utils.ts:128-133); the model does not capture that case. Every board
  the game builds is 6 x 7 (`ReducerPreservesBoard`).
