/**
 * The game session: the board as a 3x3 array changed in place, whose turn
 * it is, and the turn logic that places marks, hands the move over and
 * reports the outcome. The outcome events of the `TicTacToeAI` component
 * are modelled as a returned `Outcome`; the opponent's thinking delay is left out, so the
 * opponent's reply happens within the call that triggers it.
 */
module Game {
  import opened Board
  import opened Policy

  /**
   * What a call reports: nothing yet, or one of the three outcome events
   * (their codes are given by `Code`).
   */
  datatype Outcome = InProgress | PlayerWon | AiWon | Draw

  /** The number the outcome event carries: 0 for the player, 1 for the AI, -1 for a tie. */
  function Code(o: Outcome): int
    requires o != InProgress
  {
    match o
    case PlayerWon => 0
    case AiWon => 1
    case Draw => -1
  }

  /**
   * The report after `m` has just moved on `g`: `winner` when `m` has a
   * line (checked first), a draw when no empty square is left, and
   * otherwise nothing.
   */
  function Judge(g: Grid, m: TicTacToeState, winner: Outcome): Outcome
  {
    if Wins(g, m) then winner
    else if !HasEmptySquare(g) then Draw
    else InProgress
  }

  class TicTacToeAI {
    /** The squares, indexed [row, column]. */
    var boardState: array2<TicTacToeState>
    /** True while the human player may place a mark. */
    var isPlayerTurn: bool
    /** The human player's mark (configurable). */
    const playerState: TicTacToeState
    /** The opponent's mark, always a cross. */
    const aiState: TicTacToeState := Cross

    /** The board has the 3x3 shape every operation indexes. */
    ghost predicate Valid()
      reads this`boardState
    {
      boardState.Length0 == GridSize && boardState.Length1 == GridSize
    }

    /** The board as a value, in row-major order. */
    ghost function Cells(): Grid
      requires Valid()
      reads this`boardState, boardState
    {
      var b := boardState;
      seq(SquareCount, i requires 0 <= i < SquareCount && b.Length0 == b.Length1 == GridSize reads b =>
        b[i / GridSize, i % GridSize])
    }

    /**
     * A session with the configured player mark and starting side; the
     * board exists but is only cleared by `StartGame`.
     */
    constructor (playerState: TicTacToeState, isPlayerTurn: bool)
      ensures Valid() && fresh(boardState)
      ensures this.playerState == playerState
      ensures this.isPlayerTurn == isPlayerTurn
    {
      this.playerState := playerState;
      this.isPlayerTurn := isPlayerTurn;
      boardState := new TicTacToeState[GridSize, GridSize];
    }

    /** Writes `s` into square (row, col) and nothing else. */
    method SetSquare(row: nat, col: nat, s: TicTacToeState)
      requires Valid() && row < GridSize && col < GridSize
      modifies boardState
      ensures Valid()
      ensures Cells() == old(Cells())[Index(row, col) := s]
    {
      boardState[row, col] := s;
      assert forall i | 0 <= i < SquareCount ::
        Cells()[i] == old(Cells())[Index(row, col) := s][i];
    }

    /** Allocates a fresh board and sets every square to `None`. */
    method InitializeBoard()
      modifies this
      ensures Valid() && fresh(boardState)
      ensures Cells() == EmptyGrid
      ensures isPlayerTurn == old(isPlayerTurn)
    {
      var b := new TicTacToeState[GridSize, GridSize];
      for i := 0 to GridSize
        modifies b
        invariant forall r, c :: 0 <= r < i && 0 <= c < GridSize ==> b[r, c] == None
      {
        for j := 0 to GridSize
          modifies b
          invariant forall r, c :: 0 <= r < i && 0 <= c < GridSize ==> b[r, c] == None
          invariant forall c :: 0 <= c < j ==> b[i, c] == None
        {
          b[i, j] := None;
        }
      }
      boardState := b;
      assert forall i | 0 <= i < SquareCount :: Cells()[i] == EmptyGrid[i];
    }

    /**
     * The legal moves: the index row * 3 + col of every empty square, in
     * row-major order.
     */
    method GetAvailableMoves() returns (moves: seq<nat>)
      requires Valid()
      ensures moves == AvailableMoves(Cells())
      ensures forall x: nat :: x in moves <==>
                x < SquareCount && boardState[x / GridSize, x % GridSize] == None
      ensures StrictlyIncreasing(moves)
    {
      moves := [];
      for i := 0 to GridSize * GridSize
        invariant moves == MovesBelow(Cells(), i)
      {
        var row := i / GridSize;
        var col := i % GridSize;
        if boardState[row, col] == None {
          moves := moves + [i];
        }
      }
      AvailableMovesSpec(Cells());
    }

    /** Whether some square of the board is `None`; the board is only read. */
    method EmptySquaresExist() returns (r: bool)
      requires Valid()
      ensures r <==> exists row, col :: 0 <= row < GridSize && 0 <= col < GridSize &&
                                        boardState[row, col] == None
      ensures r == HasEmptySquare(Cells())
      ensures r <==> AvailableMoves(Cells()) != []
    {
      HasEmptySquareIffMoves(Cells());
      var gridSize := boardState.Length0;
      for i := 0 to gridSize
        invariant forall row, col :: 0 <= row < i && 0 <= col < gridSize ==> boardState[row, col] != None
      {
        for j := 0 to gridSize
          invariant forall row, col :: 0 <= row < i && 0 <= col < gridSize ==> boardState[row, col] != None
          invariant forall col :: 0 <= col < j ==> boardState[i, col] != None
        {
          if boardState[i, j] == None {
            assert Cells()[Index(i, j)] == None;
            return true;
          }
        }
      }
      forall x: nat | x < SquareCount
        ensures Cells()[x] != None
      {
        assert boardState[x / GridSize, x % GridSize] != None;
      }
      return false;
    }

    /**
     * Whether `m` fills a row, a column or one of the two diagonals,
     * checked through the nine fixed indices of a 3x3 board.
     */
    method CheckForWin(m: TicTacToeState) returns (r: bool)
      requires Valid()
      ensures r == Wins(Cells(), m)
    {
      ghost var g := Cells();
      assert forall row, col | 0 <= row < GridSize && 0 <= col < GridSize ::
        At(g, row, col) == boardState[row, col];
      for row := 0 to GridSize
        invariant forall rw: nat :: rw < row ==> !RowFilled(g, rw, m)
      {
        if boardState[row, 0] == m && boardState[row, 1] == m && boardState[row, 2] == m {
          assert RowFilled(g, row, m);
          return true;
        }
        assert !RowFilled(g, row, m) by {
          assert At(g, row, 0) != m || At(g, row, 1) != m || At(g, row, 2) != m;
        }
      }
      for col := 0 to GridSize
        invariant forall cl: nat :: cl < col ==> !ColumnFilled(g, cl, m)
      {
        if boardState[0, col] == m && boardState[1, col] == m && boardState[2, col] == m {
          assert ColumnFilled(g, col, m);
          return true;
        }
        assert !ColumnFilled(g, col, m) by {
          assert At(g, 0, col) != m || At(g, 1, col) != m || At(g, 2, col) != m;
        }
      }
      if boardState[0, 0] == m && boardState[1, 1] == m && boardState[2, 2] == m {
        assert MainDiagonalFilled(g, m);
        return true;
      }
      assert !MainDiagonalFilled(g, m) by {
        assert At(g, 0, 0) != m || At(g, 1, 1) != m || At(g, 2, 2) != m;
      }
      if boardState[0, 2] == m && boardState[1, 1] == m && boardState[2, 0] == m {
        assert AntiDiagonalFilled(g, m);
        return true;
      }
      assert !AntiDiagonalFilled(g, m) by {
        assert At(g, 0, 2) != m || At(g, 1, 1) != m || At(g, 2, 0) != m;
      }
      return false;
    }

    /**
     * The opponent marks square (row, col) and hands the turn back; it
     * reports its own win before a draw.
     */
    method AiSelects(row: nat, col: nat) returns (outcome: Outcome)
      requires Valid() && row < GridSize && col < GridSize
      modifies this, boardState
      ensures Valid() && boardState == old(boardState)
      ensures Cells() == old(Cells())[Index(row, col) := aiState]
      ensures isPlayerTurn
      ensures outcome == Judge(Cells(), aiState, AiWon)
    {
      SetSquare(row, col, aiState);
      isPlayerTurn := true;
      var won := CheckForWin(aiState);
      if won {
        outcome := AiWon;
      } else {
        var open := EmptySquaresExist();
        outcome := if open then InProgress else Draw;
      }
    }

    /**
     * The one-ply search: try every legal move for the opponent, then every
     * legal move for the player, each placed tentatively and taken back when
     * it does not win; fall back on the `k`-th legal move.
     */
    method MakeStrategicMove(k: nat) returns (outcome: Outcome)
      requires Valid() && k < |AvailableMoves(Cells())|
      modifies this, boardState
      ensures Valid() && boardState == old(boardState)
      ensures Cells() == old(Cells())[StrategicChoice(old(Cells()), aiState, playerState, k) := aiState]
      ensures isPlayerTurn
      ensures outcome == Judge(Cells(), aiState, AiWon)
    {
      ghost var g := Cells();
      var moves := GetAvailableMoves();
      AvailableMovesSpec(g);
      var j := ScanForWin(moves, aiState);
      if j < |moves| {
        assert moves[j] in moves;
        outcome := AiSelects(moves[j] / GridSize, moves[j] % GridSize);
        return;
      }
      j := ScanForWin(moves, playerState);
      if j < |moves| {
        assert moves[j] in moves;
        outcome := AiSelects(moves[j] / GridSize, moves[j] % GridSize);
        assert Cells() == g[moves[j] := aiState];
        return;
      }
      var square := moves[k];
      assert square in moves;
      outcome := AiSelects(square / GridSize, square % GridSize);
    }

    /**
     * One `foreach` loop of the strategic move: place `m` tentatively on
     * each legal move in row-major order, stop at the first that gives `m`
     * a line (its mark stays) and take back every other.
     */
    method ScanForWin(moves: seq<nat>, m: TicTacToeState) returns (j: nat)
      requires Valid() && moves == AvailableMoves(Cells())
      modifies boardState
      ensures Valid()
      ensures j == FirstWinningIndex(old(Cells()), moves, m)
      ensures Cells() == if j < |moves| then old(Cells())[moves[j] := m] else old(Cells())
    {
      ghost var g := Cells();
      AvailableMovesSpec(g);
      for i := 0 to |moves|
        invariant Valid() && Cells() == g
        invariant forall i' :: 0 <= i' < i ==> !WinningAt(g, moves[i'], m)
      {
        assert moves[i] in moves;
        var row, col := moves[i] / GridSize, moves[i] % GridSize;
        SetSquare(row, col, m);
        var won := CheckForWin(m);
        if won {
          return i;
        }
        SetSquare(row, col, None);
        assert Cells() == g;
      }
      return |moves|;
    }

    /**
     * The opponent's turn: with the coin `gate` (the draw below one half) a
     * random legal move, otherwise the strategic move.
     */
    method EasyAI(gate: bool, k: nat) returns (outcome: Outcome)
      requires Valid() && k < |AvailableMoves(Cells())|
      modifies this, boardState
      ensures Valid() && boardState == old(boardState)
      ensures Cells() == old(Cells())[AiChoice(old(Cells()), aiState, playerState, gate, k) := aiState]
      ensures isPlayerTurn
      ensures outcome == Judge(Cells(), aiState, AiWon)
    {
      var moves := GetAvailableMoves();
      if gate {
        var square := moves[k];
        AvailableMovesSpec(Cells());
        assert square in moves;
        outcome := AiSelects(square / GridSize, square % GridSize);
      } else {
        outcome := MakeStrategicMove(k);
      }
    }

    /**
     * The player clicks square (row, col). Out of turn nothing happens.
     * Otherwise the player's mark is placed and the turn passes; a player
     * line is reported first, then a full board as a draw, and otherwise
     * the opponent replies at once.
     */
    method PlayerSelects(row: nat, col: nat, gate: bool, k: nat) returns (outcome: Outcome)
      requires Valid() && row < GridSize && col < GridSize
      requires isPlayerTurn ==> boardState[row, col] == None
      requires isPlayerTurn && Judge(Cells()[Index(row, col) := playerState], playerState, PlayerWon) == InProgress ==>
                 k < |AvailableMoves(Cells()[Index(row, col) := playerState])|
      modifies this, boardState
      ensures Valid() && boardState == old(boardState)
      ensures !old(isPlayerTurn) ==>
                Cells() == old(Cells()) && !isPlayerTurn && outcome == InProgress
      ensures old(isPlayerTurn) ==>
                var afterPlayer := old(Cells())[Index(row, col) := playerState];
                var judged := Judge(afterPlayer, playerState, PlayerWon);
                if judged != InProgress then
                  Cells() == afterPlayer && !isPlayerTurn && outcome == judged &&
                  Code(outcome) == if Wins(afterPlayer, playerState) then 0 else -1
                else
                  Cells() == afterPlayer[AiChoice(afterPlayer, aiState, playerState, gate, k) := aiState] &&
                  isPlayerTurn && outcome == Judge(Cells(), aiState, AiWon)
      ensures old(isPlayerTurn) && playerState != None ==>
                |AvailableMoves(Cells())| < |AvailableMoves(old(Cells()))|
    {
      outcome := InProgress;
      if isPlayerTurn {
        ghost var before := Cells();
        assert before[Index(row, col)] == None;
        SetSquare(row, col, playerState);
        ghost var afterPlayer := Cells();
        if playerState != None {
          PlaceRemovesMove(before, Index(row, col), playerState);
        }
        isPlayerTurn := false;
        var won := CheckForWin(playerState);
        if won {
          outcome := PlayerWon;
        } else {
          var open := EmptySquaresExist();
          if !open {
            outcome := Draw;
          } else {
            ghost var c := AiChoice(afterPlayer, aiState, playerState, gate, k);
            outcome := EasyAI(gate, k);
            PlaceRemovesMove(afterPlayer, c, aiState);
          }
        }
      }
    }

    /**
     * A new game: a cleared board, and the opponent's opening move when it
     * is not the player's turn. One mark cannot make a line and leaves
     * squares empty, so nothing is reported.
     */
    method StartGame(gate: bool, k: nat) returns (outcome: Outcome)
      requires !isPlayerTurn ==> k < SquareCount
      modifies this
      ensures Valid() && fresh(boardState)
      ensures old(isPlayerTurn) ==> Cells() == EmptyGrid
      ensures !old(isPlayerTurn) ==>
                k < |AvailableMoves(EmptyGrid)| &&
                Cells() == EmptyGrid[AiChoice(EmptyGrid, aiState, playerState, gate, k) := aiState]
      ensures isPlayerTurn
      ensures outcome == InProgress
    {
      InitializeBoard();
      outcome := InProgress;
      if !isPlayerTurn {
        AvailableMovesOfEmptyGrid();
        ghost var c := AiChoice(EmptyGrid, aiState, playerState, gate, k);
        outcome := EasyAI(gate, k);
        NoWinWithOneMark(c, aiState);
        assert Cells()[if c == 0 then 1 else 0] == None;
      }
    }
  }
}
