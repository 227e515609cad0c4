# Tic-tac-toe game engine with a one-ply opponent

A Dafny model of the game-state engine inside the `TicTacToeAI` Unity
component: a 3x3 board of `TicTacToeState` squares (`None`, `Cross`,
`Circle`), the queries that read it (legal moves in row-major order,
"is there an empty square", "does this mark have a line"), the opponent's
move policy (a coin between a random move and a one-ply search that takes a
win, else blocks, else plays at random) and the turn logic that places
marks, flips whose turn it is and reports the outcome.

Layout:

- `board.dfy`, module `Board`: the square states, the board as a value
  (`Grid`, the nine squares in row-major order; square (row, col) is index
  `row * 3 + col`), the win rule, the legal-move list and the empty-square
  test, with their lemmas.
- `policy.dfy`, module `Policy`: the opponent's choice of square as
  functions of the board and the injected random draws, with the priority
  lemma and two worked positions.
- `game.dfy`, module `Game`: class `TicTacToeAI`, holding the board as an
  `array2<TicTacToeState>` changed in place and the `isPlayerTurn` flag.
  Its read-only methods (`GetAvailableMoves`, `EmptySquaresExist`,
  `CheckForWin`) are loops proved equal to the `Board` functions; its
  state-changing methods (`InitializeBoard`, `MakeStrategicMove`,
  `AiSelects`, `PlayerSelects`, `StartGame`) state the new board as a
  function of the old one through the ghost view `Cells()`.

The outcome events become a returned `Outcome`: `PlayerWon`, `AiWon` and
`Draw` stand for the events carrying 0, 1 and -1 (`Game.Code`), and
`InProgress` for a call that raises no event. The two random draws become
parameters: `gate` is `Random.value < 0.5`, and `k` is the index
`Random.Range(0, moves.Count)` returns, so `k < |moves|`.

The code reports no error for an out-of-range or occupied square or for a
click out of turn. It has no game-over state: after the opponent wins or
fills the board, `isPlayerTurn` is true again and `PlayerSelects` still
places marks. Its board size is fixed at 3 by the win check, which indexes
columns 0..2. The opponent has one strategy, the coin-gated one.

## Model

| member | source | states |
|---|---|---|
| `Board.Index` | Assets/Scripts/TicTacToeAI.cs:155-158 | a square's index is below 9 and decodes back to its row (`i / 3`) and column (`i % 3`) |
| `Board.WinsIffSomeLine` | Assets/Scripts/TicTacToeAI.cs:247-287 | a mark wins (some full row, full column or full diagonal) exactly when it holds all three squares of one of the eight lines |
| `Board.NoWinOnEmptyGrid` | Assets/Scripts/TicTacToeAI.cs:76-87 | on a freshly initialised board neither `Cross` nor `Circle` has a line |
| `Board.NoWinWithOneMark` | Assets/Scripts/TicTacToeAI.cs:70-72 | after the opponent's opening move on an empty board it has no line, whichever square it took |
| `Board.TopRowScenario` | Assets/Scripts/TicTacToeAI.cs:250-258 | marks at (0,0) and (0,1) give no line, adding (0,2) gives a line |
| `Board.MovesBelowSpec` | Assets/Scripts/TicTacToeAI.cs:155-164 | after the loop has seen the first `n` squares, the list holds exactly the empty ones among them, strictly increasing |
| `Board.AvailableMovesSpec` | Assets/Scripts/TicTacToeAI.cs:151-167 | the legal moves are exactly the indices of the empty squares, strictly increasing; each decodes to a row and column below 3 whose square is `None` |
| `Board.AvailableMovesOfEmptyGrid` | Assets/Scripts/TicTacToeAI.cs:151-167 | on an empty board all nine squares, 0 to 8, are legal |
| `Board.MovesPlusMarked` | Assets/Scripts/TicTacToeAI.cs:151-167 | the number of legal moves plus the number of marked squares is 9 |
| `Board.PlaceRemovesMove` | Assets/Scripts/TicTacToeAI.cs:160-163 | marking an empty square removes exactly that index from the legal moves and keeps the order of the rest, so the list gets one shorter |
| `Board.HasEmptySquareIffMoves` | Assets/Scripts/TicTacToeAI.cs:228-244 | some square is empty exactly when the legal-move list is not empty |
| `Policy.FirstWinningIndex` | Assets/Scripts/TicTacToeAI.cs:197-206 | the position found is the first one whose move gives the mark a line: every earlier move does not, and `|moves|` means none does |
| `Policy.StrategicChoice` | Assets/Scripts/TicTacToeAI.cs:193-224 | the strategic square is a legal move whose square was `None` |
| `Policy.StrategicChoiceSpec` | Assets/Scripts/TicTacToeAI.cs:193-224 | if the opponent can win, the first winning square in row-major order; else if the player could win, the first such square (a block); else the `k`-th legal move |
| `Policy.AiChoice` | Assets/Scripts/TicTacToeAI.cs:133-148 | whatever the coin and the index, the opponent plays a legal move whose square was `None` |
| `Policy.StrategicTakesTheWin` | Assets/Scripts/TicTacToeAI.cs:197-204 | with crosses at (0,0) and (0,1) and only (0,2) free, the strategic move takes (0,2) |
| `Policy.StrategicBlocks` | Assets/Scripts/TicTacToeAI.cs:209-216 | with circles at (1,0) and (1,1), one cross at (0,0) and no winning square for it, the strategic move blocks at (1,2) for every random index |
| `Game.TicTacToeAI.constructor` | Assets/Scripts/TicTacToeAI.cs:22-30 | a session with the configured player mark and starting side, the opponent's mark fixed to a cross, and a 3x3 board |
| `Game.TicTacToeAI.SetSquare` | Assets/Scripts/TicTacToeAI.cs:104 | writing one square changes that square of the board and nothing else |
| `Game.TicTacToeAI.InitializeBoard` | Assets/Scripts/TicTacToeAI.cs:76-87 | a newly allocated 3x3 board on which every square is `None`; the turn flag is unchanged |
| `Game.TicTacToeAI.GetAvailableMoves` | Assets/Scripts/TicTacToeAI.cs:151-167 | the loop returns the legal-move list: exactly the indices whose square is `None`, strictly increasing; the board is only read |
| `Game.TicTacToeAI.EmptySquaresExist` | Assets/Scripts/TicTacToeAI.cs:228-244 | true exactly when some square is `None`, which is when the legal-move list is not empty; the board is only read |
| `Game.TicTacToeAI.CheckForWin` | Assets/Scripts/TicTacToeAI.cs:247-287 | the fixed-index checks of rows, columns and diagonals answer exactly whether the mark has a full row, column or diagonal |
| `Game.TicTacToeAI.ScanForWin` | Assets/Scripts/TicTacToeAI.cs:197-206 | a tentative loop stops at the first move that gives the mark a line, leaving that mark on the board; every other tentative mark is taken back |
| `Game.TicTacToeAI.MakeStrategicMove` | Assets/Scripts/TicTacToeAI.cs:193-224 | afterwards the board equals the original except that the strategic square holds the opponent's mark; the turn is the player's; the outcome is the opponent's verdict |
| `Game.TicTacToeAI.AiSelects` | Assets/Scripts/TicTacToeAI.cs:170-190 | exactly one square takes the opponent's mark and the turn goes to the player; an opponent line is reported as `AiWon` even on a full board, else a full board as `Draw` |
| `Game.TicTacToeAI.EasyAI` | Assets/Scripts/TicTacToeAI.cs:133-148 | the board gains the opponent's mark on the random legal move when the coin is below one half, on the strategic square otherwise, and changes nowhere else |
| `Game.TicTacToeAI.PlayerSelects` | Assets/Scripts/TicTacToeAI.cs:101-128 | out of turn nothing changes; otherwise the player's mark lands on the square and the turn passes; a player line is reported (event code 0) before a draw (code -1); otherwise the opponent replies at once; with a real player mark every accepted click leaves fewer legal moves |
| `Game.TicTacToeAI.StartGame` | Assets/Scripts/TicTacToeAI.cs:63-73 | a fresh empty board, plus the opponent's opening square if the player does not start; the player has the turn afterwards and nothing is reported |

## Left out

- Unity lifecycle and presentation: `Awake`, `SetVisual` and `Instantiate`, the prefabs, `RegisterTransform` and the `_triggers` array, `SetInputEndabled`, `Debug.Log`. These are engine calls with no game logic.
- `UnityEvent` plumbing (`onGameStarted`, `onPlayerWin.Invoke`): the outcome is returned as a value instead.
- `async`/`await Task.Delay(500)`: the opponent's reply is synchronous. In the code, `AiSelects` yields before writing its square. So in the blocking case the tentative player mark stays on the board for the length of the delay before the opponent's mark replaces it. The model has no such interleaving and shows only the final board.
- `UnityEngine.Random`: the float draw compared with 0.5 is a `bool` parameter, and `Random.Range` is an index parameter below the number of legal moves. No probabilities are modelled.
- `StartAI` and `_aiLevel`: the level is stored and never read. `StartGame` is modelled directly.
- Board size: fixed at 3. The code reads a configurable `_gridSize`, but its win check indexes squares 0..2 directly.
- The board before the first `StartGame`: the code has no board yet. The model's constructor allocates a 3x3 board whose contents are unspecified until `InitializeBoard` runs.
- Occupied or out-of-range clicks: `PlayerSelects` does not check them. It relies on the disabled click triggers and the 3x3 trigger grid. The model states both as preconditions, and the occupancy one only on the player's turn; no error is reported.
- Game-over lock: none is claimed, since the code has none (see above).
- `GetAvailableMoves` returns a Dafny sequence of indices, not a mutable `List<int>`.
