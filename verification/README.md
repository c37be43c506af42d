# Console games: rules engines in Dafny

This project models the rules engines of three console games and proves properties about them:

- the Gomoku referee and computer player (`Gomoku/gomoku.cpp`);
- the 2048 slide-and-merge engine (`2048.c`);
- the Snake step function (`Snake/snake.c`).

The source keeps global mutable state. The model uses immutable values and pure functions in its place:

- boards and grids are `seq<seq<int>>`;
- the snake is a `seq<(int, int)>` with the head first.

Each global that an operation reads or writes becomes a parameter or a result. Randomness becomes draw parameters.

Modules:

- `SlideLine` (`slide_line.dfy`) — the 2048 line rule:
  - the reference rule: take the non-zero tiles, merge equal neighbours once from the wall side, pad with zeros;
  - the source's in-place loops toward the start and toward the end of a line, as step functions, each proved equal to the rule.
- `Grid2048` (`grid2048.dfy`) — the 4×4 grid:
  - the four moves, the score gain and the change flag;
  - tile total and empty-cell count;
  - `count_empty_spots` and `check_game_status` as loop methods;
  - tile spawning in the i-th empty cell, the tile value, the new game, and one arrow key of play.
- `GomokuBoard` (`gomoku_board.dfy`) — the 15×15 board, the eight-neighbour candidate filter, the cell/console-position arithmetic, and the battle reset.
- `GomokuRules` (`gomoku_rules.dfy`) — `check_battle_state` and `check_winner`: five in a row through the last move, or a full board.
- `GomokuEval` (`gomoku_eval.dfy`) — the eight directional scanners and `assess_board_value`. All values are in tenths, so every term is an integer.
- `GomokuSearch` (`gomoku_search.dfy`) — `predict_board_value` and the root loop of `calculate_ai_move`:
  - The search is written for any terminal test and any evaluator.
  - It threads the board and the last-move anchor through the recursion, so leaving them unchanged is part of its contract.
  - It is proved equal to plain minimax inside the alpha-beta window.
  - The root loop is proved to choose the first candidate with the greatest minimax value.
- `GomokuAi` (`gomoku_ai.dfy`) — `calculate_ai_move` with the game's own terminal test and evaluator.
- `SnakeGame` (`snake.dfy`) — the snake:
  - initial snake and head advance;
  - wall and self-collision rules;
  - the direction table, food collision and food placement;
  - one frame of the game loop, and a state invariant that every frame preserves.
- `Options` (`options.dfy`) — the `Option` type.

Where the documented behaviour and the code disagree, the model follows the code:

- The scanners are worth 10^(k+1) for a run of k stones, not 10^k.
- The terminal test's five-in-a-row loops skip cells off the board and keep counting. They do not stop at the edge.

## Model

| member | source | states |
|---|---|---|
| SlideLine.TowardStartMeetsRule | 2048.c:523-567 | A left pass over a row leaves its non-zero tiles in order, with equal neighbours merged once from the left and zeros after them. It scores the merged tiles' values. It raises the change flag exactly when the row differs. |
| SlideLine.TowardEndMeetsRule | 2048.c:583-627 | A right pass over a row is the reverse of the merge rule applied to the reversed row, with that rule's points. Its change flag holds exactly when the row differs. |
| SlideLine.TowardEndIsMirroredStart | 2048.c:583-627 | The right-to-left loop equals the left-to-right loop run on the reversed row, then reversed back: same cells, points and flag. |
| SlideLine.FoldMergeIsMerge | 2048.c:540-561 | Merging tiles one at a time against the last written tile gives the reference rule: same tiles, points, and whether the last tile may still merge. |
| SlideLine.SlideSpecSum | 2048.c:540-549 | Sliding a line keeps the sum of its tiles. |
| SlideLine.SlideSpecEmpties | 2048.c:540-549 | After a slide the line has as many zeros as cells not taken by merged tiles. It never has fewer zeros than before. |
| SlideLine.SlideSpecChangedHasRoom | 2048.c:569-572 | A line the rule changes ends with fewer tiles than cells. |
| SlideLine.FullLineFixed | 2048.c:320-350 | A line without zeros is left unchanged exactly when no two neighbours are equal. |
| Grid2048.MoveFollowsRule | 2048.c:403-635 | Every direction applies the merge rule to each of its lines, read from the wall side. It scores exactly the rule's points. It raises the change flag exactly when the grid changes, which is exactly when some line is not already as the rule leaves it. |
| Grid2048.LeftObeys | 2048.c:523-572 | The left move obeys the merge rule on the rows. |
| Grid2048.RightObeys | 2048.c:583-632 | The right move obeys the merge rule on the reversed rows. |
| Grid2048.UpObeys | 2048.c:403-452 | The up move obeys the merge rule on the columns. |
| Grid2048.DownObeys | 2048.c:463-512 | The down move obeys the merge rule on the reversed columns. |
| Grid2048.MoveKeepsTotal | 2048.c:540-549 | A move keeps the sum of all tiles. |
| Grid2048.MoveKeepsRoom | 2048.c:540-549 | A move never lowers the number of empty cells. |
| Grid2048.MovedLeavesRoom | 2048.c:569-572 | After a move that changed the grid there is an empty cell, so the spawn's `rand() % count_empty_spots()` never divides by zero. |
| Grid2048.StillMoveEarnsNothing | 2048.c:569-572 | A move that changes nothing scores nothing. |
| Grid2048.CountEmptySpots | 2048.c:229-245 | The count is the number of zero cells. |
| Grid2048.EmptiesZero | 2048.c:322-325 | The count is zero exactly when no cell is zero. |
| Grid2048.CheckGameStatus | 2048.c:320-350 | The game is over exactly when no cell is zero and no two horizontal or vertical neighbours are equal. |
| Grid2048.StuckIffNoMove | 2048.c:320-350 | On a full grid, check_game_status's test holds exactly when none of the four moves changes the grid. |
| Grid2048.SpawnCell | 2048.c:197-221 | The spawn cell is empty, and exactly `draw % count_empty_spots()` empty cells precede it in row-major order. |
| Grid2048.SpawnPlaces | 2048.c:197-221 | Spawning writes the value into that cell and leaves every other cell unchanged. There is one empty cell fewer, and the total grows by the value. |
| Grid2048.TileValue | 2048.c:254-268 | A new tile is 2 or 4. It is always 2 when the value is not random, and 4 exactly for a random draw divisible by ten. |
| Grid2048.InitializeGame | 2048.c:172-188 | A new game has score 0, fourteen empty cells, and a tile total of 2 plus the value draw's tile. |
| Grid2048.InitializeGameTiles | 2048.c:172-188 | A new game holds exactly two tiles in different cells: a 2 from the first draw and the value draw's tile from the second. Every other cell is empty. |
| Grid2048.PlayEffect | 2048.c:403-635 | An arrow key adds the merge rule's points to the score. A key that moves nothing leaves the game unchanged. A key that moves something adds one new tile, so the total grows by that tile's value. |
| GomokuBoard.PlaceUndo | Gomoku/gomoku.cpp:1175-1185 | Taking back a stone put on an empty cell restores the board exactly. |
| GomokuBoard.InitializeBattle | Gomoku/gomoku.cpp:812-819 | A new battle has every cell empty and no last move. |
| GomokuBoard.CheckNeighborsMeaning | Gomoku/gomoku.cpp:1110-1145 | The candidate filter holds exactly when some stone lies on one of the eight surrounding board cells. |
| GomokuBoard.EmptyBoardNoCandidate | Gomoku/gomoku.cpp:1110-1145 | On an empty board no cell passes the filter. |
| GomokuBoard.EmptyNextToStone | Gomoku/gomoku.cpp:1110-1145 | A board with an empty cell and a stone has an empty cell that passes the filter. |
| GomokuBoard.DecodeClickRoundTrip | Gomoku/gomoku.cpp:951-958 | Each cell's drawn position decodes back to that cell. Each accepted position is the drawn position of the cell it decodes to. |
| GomokuBoard.ClickBelowBoardAccepted | Gomoku/gomoku.cpp:951-958 | The source's bound Y ≤ 35 accepts the positions (15, 32) and (15, 34), as rows 15 and 16. Those rows are off the board. |
| GomokuBoard.DecodeClickAgrees | Gomoku/gomoku.cpp:951-958 | The source's test and the corrected test agree on every position that decodes to a board cell. |
| GomokuBoard.CheckValidPlacementMeaning | Gomoku/gomoku.cpp:941-971 | With the corrected Y bound of the first finding, a placement is accepted exactly for a left press on the drawn position of an empty cell, and yields that cell. |
| GomokuBoard.CheckValidPlacementAsWrittenAgrees | Gomoku/gomoku.cpp:941-971 | The source's placement test, with its Y ≤ 35 bound, agrees with the corrected test on every click that decodes to a board cell. It accepts the off-board cell (15, 0) when the memory it reads past the board is zero. |
| GomokuRules.ScanMeaning | Gomoku/gomoku.cpp:1246-1304 | One axis loop of the terminal test stops only at the end of five of the last mover's stones. It finds the first such five in the window −4..4. |
| GomokuRules.AxisEndMeaning | Gomoku/gomoku.cpp:1246-1304 | An axis loop stops exactly when the axis holds five of the last mover's stones in a row through the last move. |
| GomokuRules.CheckBattleStateMeaning | Gomoku/gomoku.cpp:1242-1312 | The battle is over exactly when the last mover has five in a row through the last move, or no cell is empty. |
| GomokuRules.FirstWin | Gomoku/gomoku.cpp:1557-1634 | The winning line reported is that of the first axis, in source order, whose loop stops. No line is reported only when no axis's loop stops. |
| GomokuRules.CheckWinnerMeaning | Gomoku/gomoku.cpp:1557-1634 | check_winner names the last mover, with a line end, exactly when some axis holds five of the last mover's stones. Otherwise it reports a tie. |
| GomokuRules.BattleOverIffDecided | Gomoku/gomoku.cpp:1557-1634 | The battle is over exactly when check_winner names the last mover or the board is full. The winner is always the last mover or nobody. |
| GomokuEval.ExtendableMeaning | Gomoku/gomoku.cpp:1364-1369 | A scanner's first loop counts four exactly when the first four steps are on the board and hold no opponent stone. |
| GomokuEval.RunMeaning | Gomoku/gomoku.cpp:1370-1373 | The bounded run covers exactly the owner's stones from step 1 up to the first step that is off the board or not the owner's. |
| GomokuEval.DirValueMeaning | Gomoku/gomoku.cpp:1361-1528 | A scanner is worth nothing exactly when one of its first four steps is off the board or an opponent's. Otherwise it is worth 10^(k+1) for a run of k stones. |
| GomokuEval.RunAsWrittenExceeds | Gomoku/gomoku.cpp:1370-1373 | The unchecked run counts the bounded run plus the owner's stones it reads past the edge of the board. |
| GomokuEval.DirValueAsWrittenAgrees | Gomoku/gomoku.cpp:1361-1528 | The unchecked scanner agrees with the bounded one unless the owner's run reaches the edge and the memory past it holds the owner's stone. |
| GomokuEval.EdgeFiveOverCounts | Gomoku/gomoku.cpp:1427-1447 | For a five of the computer's stones ending at the right edge, the bounded scanner is worth 10^5. The unchecked one, with the next memory cell holding the computer's stone, is worth 10^6. |
| GomokuEval.StoneValuePositive | Gomoku/gomoku.cpp:1326-1346 | Every stone's value is at least one tenth, the centre bonus of a corner. |
| GomokuEval.ValueSplits | Gomoku/gomoku.cpp:1320-1352 | The board value is the sum of the computer's stone values, minus five times the sum of the player's. Both sums are non-negative. |
| GomokuEval.EmptyValue | Gomoku/gomoku.cpp:1320-1352 | An empty board is worth nothing. |
| GomokuSearch.Predict | Gomoku/gomoku.cpp:1156-1234 | The search leaves the board and the anchor as it found them. At depth 0 or on a terminal position it returns the evaluator's value. |
| GomokuSearch.MinLoop | Gomoku/gomoku.cpp:1165-1195 | The player's loop leaves board and anchor unchanged and never returns more than beta. |
| GomokuSearch.MaxLoop | Gomoku/gomoku.cpp:1201-1231 | The computer's loop leaves board and anchor unchanged and never returns less than alpha. |
| GomokuSearch.PredictIsMinimax | Gomoku/gomoku.cpp:1156-1234 | For alpha < beta, the search's value, clamped to the window, equals plain minimax's value clamped to the window. So the cut-offs at `min <= max` never change a value strictly inside the window. |
| GomokuSearch.MinLoopIsMinOver | Gomoku/gomoku.cpp:1165-1195 | The player's loop with cut-offs, clamped to its window, equals the least minimax value of the remaining candidates. |
| GomokuSearch.MaxLoopIsMaxOver | Gomoku/gomoku.cpp:1201-1231 | The computer's loop with cut-offs, clamped to its window, equals the greatest minimax value of the remaining candidates. |
| GomokuSearch.PredictWidest | Gomoku/gomoku.cpp:1156-1234 | With the window (−∞, +∞) the search returns exactly the minimax value. |
| GomokuSearch.MinimaxAboveNegInf | Gomoku/gomoku.cpp:1156-1234 | Once a stone is on the last move, the value is never −∞, because the terminal test holds on a full board. |
| GomokuSearch.RootLoopArgmax | Gomoku/gomoku.cpp:1061-1091 | The root loop's best value and cell are the argmax of the candidates' two-ply minimax values. A later cell replaces the choice only on a strictly greater value. |
| GomokuSearch.RootChoice | Gomoku/gomoku.cpp:1061-1091 | From no best value, the chosen cell is the first candidate in row-major order whose minimax value is the greatest. Some cell is chosen whenever a candidate's value is above −∞. |
| GomokuAi.CalculateAiMoveMeaning | Gomoku/gomoku.cpp:1050-1101 | Before any move the computer plays the centre (7, 7). Afterwards it plays the first empty cell next to a stone whose minimax value is strictly greatest. |
| GomokuAi.CalculateAiMoveDefined | Gomoku/gomoku.cpp:1050-1101 | After a move, with an empty cell left, the computer always finds a move. |
| GomokuAi.AiMovePositionDecodes | Gomoku/gomoku.cpp:1096-1097 | The computer reports a position exactly when it chooses a cell. That position is the cell's drawn point, X = column × 4 + 15 and Y = row × 2 + 2, and a click there decodes back to the cell. |
| SnakeGame.InitializeGameState | Snake/snake.c:382-411 | The new snake is, head first, (12,28), (12,27), (12,26), (12,25), (12,24). It is still, not teleporting, and the score is 0. |
| SnakeGame.InitializeGameValid | Snake/snake.c:382-427 | A new game satisfies the game invariant. |
| SnakeGame.NextHeadStep | Snake/snake.c:518-543 | The new head is one unit away in the current direction. Stepping back the opposite way returns to the old head. Different directions give different heads. |
| SnakeGame.CheckSnakeStateMeaning | Snake/snake.c:475-510 | The snake dies exactly when it is moving, not teleporting, and either its new head is on a wall row or column or it meets a segment other than the tail. |
| SnakeGame.StepStaysInField | Snake/snake.c:475-543 | A snake that survives the check moves its head to a cell inside the walls. |
| SnakeGame.TurnMeaning | Snake/snake.c:794-820 | An arrow key is accepted exactly under these conditions: its direction is not the current one or its opposite, and left is not accepted from standing still. An accepted key never reverses the snake. |
| SnakeGame.UpdateSnakeDirectionMeaning | Snake/snake.c:780-833 | The direction changes only to that of an accepted key, and stays as it was when no key is accepted. |
| SnakeGame.CheckFoodCollisionMeaning | Snake/snake.c:734-754 | Eating food i sets the teleport destination to the other food and starts teleporting. Otherwise nothing changes. |
| SnakeGame.GenerateFoodPlaces | Snake/snake.c:680-722 | Accepted food cells lie inside the walls and off the snake. The first new food differs from both current foods. The second differs from the first new food and from the old second food, the two cells the loop compares it with. |
| SnakeGame.RefreshEffect | Snake/snake.c:552-592 | A teleporting snake gets its head at the destination and loses its tail. A moving snake gets a new head one step on, and either loses its tail or, on food, grows by one and scores one. A still snake is unchanged. |
| SnakeGame.FrameValid | Snake/snake.c:295-306 | Each frame of the game loop preserves the invariant: score is length − 5, the body is distinct and inside the walls, and the foods are inside the walls, distinct and off the body (or the teleport target is a free food cell). |

## Left out

- Console setup, mouse and font configuration, virtual-terminal sequences, and all rendering: title and card screens, board and interface printing, winner highlighting, dead-snake display. These are foreign calls or output with no effect on game state.
- Timing, sound and threads (`Sleep`, `sleep_for`, `PlaySound`, animations).
- The best-score record file of Snake.
- `malloc` failure paths and `free_snake`. The snake is a sequence, and only the length ≥ 2 needed to drop the tail is kept as a precondition.
- Raw input loops (`ReadConsoleInput`, `_getch`, `_kbhit`, card hit-testing, "play again" prompts). Only the decoded key → direction table and the click → cell arithmetic are modelled. A frame's pending keys are a sequence of decoded keys.
- Randomness: the Gomoku first-mover choice is not modelled. 2048 tile positions and values and Snake food draws are parameters.
- SnakeGame.GenerateFood: the source draws until it succeeds. The model takes a finite list of draws and returns `None` when they run out before two cells are accepted.
- GomokuBoard.CheckValidPlacement: uses the corrected Y bound (Y ≤ 30) of the first finding, so it never places a stone off the board. GomokuBoard.CheckValidPlacementAsWritten keeps the source's Y ≤ 35 bound, with the value read past the board as a parameter.
- GomokuEval: the evaluator's `double` arithmetic is modelled as exact integers in tenths. The `numeric_limits` sentinels of the search are ±∞ values. IEEE rounding is not modelled.
- GomokuEval.RunAsWritten: memory read past the edge of the board is a parameter `beyond`. What the process actually holds there is not modelled.
- GomokuAi.GameOver and GomokuAi.Evaluate: each has a fallback branch for a value that is not a board or a last move that is not on the board. The search never asks about such values, and the fallback results are placeholders.
- SnakeGame.InitializeGame: the teleport destination starts as (0, 0), the zero-initialised global. It is not read before food is eaten.
- The Gomoku player's move loop and `perform_ai_move`'s drawing are not modelled beyond `check_valid_placement` and `calculate_ai_move`.

## Findings

| source | as written | input that shows it | evidently intended | confidence | as-written member | corrected member |
|---|---|---|---|---|---|---|
| Gomoku/gomoku.cpp:951-958 | The click test accepts Y up to 35, so the grid points at Y = 32 and Y = 34 decode to rows 15 and 16. Line 958 then reads the board at those rows. | a left click at character position (15, 32) | accept only Y ≤ 30, the last drawn row (14 × 2 + 2) | not executed | GomokuBoard.DecodeClickAsWritten, GomokuBoard.ClickBelowBoardAccepted, GomokuBoard.CheckValidPlacementAsWritten | GomokuBoard.DecodeClick, GomokuBoard.DecodeClickRoundTrip, GomokuBoard.CheckValidPlacement |
| Gomoku/gomoku.cpp:1370-1373 | The run loop of each scanner has no bounds test. When the owner's run reaches the edge, it reads past the board and counts whatever matching values lie there. | five computer stones at row 7, columns 10-14, scanned rightwards from (7, 10), with the next memory cell holding −1 | stop the run at the edge of the board | not executed | GomokuEval.RunAsWritten, GomokuEval.EdgeFiveOverCounts | GomokuEval.Run, GomokuEval.RunMeaning |
