/**
 * The opponent's move-selection policy: a coin decides between a uniformly
 * random legal move and a one-ply search that takes a winning square first,
 * then a square that blocks the player's win, and otherwise a random square.
 * The random draws are parameters: `gate` stands for `Random.value < 0.5`,
 * `k` for the index `Random.Range(0, moves.Count)` returns.
 */
module Policy {
  import opened Board

  /** Marking the legal square `mv` with `m` would give `m` a line. */
  predicate WinningAt(g: Grid, mv: nat, m: TicTacToeState)
  {
    mv < SquareCount && Wins(g[mv := m], m)
  }

  /** Some legal move would give `m` a line. */
  predicate CanWinNext(g: Grid, m: TicTacToeState)
  {
    exists mv :: mv in AvailableMoves(g) && WinningAt(g, mv, m)
  }

  /**
   * The position in `moves` of the first move that wins for `m`, or
   * `|moves|` when none does: the scan of one `foreach` loop of the search.
   */
  function FirstWinningIndex(g: Grid, moves: seq<nat>, m: TicTacToeState): (j: nat)
    ensures j <= |moves|
    ensures j < |moves| ==> WinningAt(g, moves[j], m)
    ensures forall i :: 0 <= i < j ==> !WinningAt(g, moves[i], m)
  {
    if moves == [] then 0
    else if WinningAt(g, moves[0], m) then 0
    else 1 + FirstWinningIndex(g, moves[1..], m)
  }

  /**
   * The square the strategic move plays: the first legal move (row-major)
   * that wins for `ai`; failing that, the first that would win for
   * `player`; failing that, the `k`-th legal move.
   */
  function StrategicChoice(g: Grid, ai: TicTacToeState, player: TicTacToeState, k: nat): (r: nat)
    requires k < |AvailableMoves(g)|
    ensures r in AvailableMoves(g) && r < SquareCount && g[r] == None
  {
    AvailableMovesSpec(g);
    var moves := AvailableMoves(g);
    var w := FirstWinningIndex(g, moves, ai);
    if w < |moves| then moves[w]
    else
      var b := FirstWinningIndex(g, moves, player);
      if b < |moves| then moves[b] else moves[k]
  }

  /**
   * The square the opponent plays: random when the coin says so, strategic
   * otherwise; either way a legal square that was empty.
   */
  function AiChoice(g: Grid, ai: TicTacToeState, player: TicTacToeState, gate: bool, k: nat): (r: nat)
    requires k < |AvailableMoves(g)|
    ensures r in AvailableMoves(g) && r < SquareCount && g[r] == None
  {
    AvailableMovesSpec(g);
    assert AvailableMoves(g)[k] in AvailableMoves(g);
    if gate then AvailableMoves(g)[k] else StrategicChoice(g, ai, player, k)
  }

  /**
   * `r`, the value of `moves[j]`, is the first move of the strictly
   * increasing list `moves` to win for `m` when no move before position `j`
   * wins: no smaller legal square wins.
   */
  lemma FirstInRowMajorOrder(g: Grid, moves: seq<nat>, j: nat, m: TicTacToeState)
    requires StrictlyIncreasing(moves) && j < |moves|
    requires forall i :: 0 <= i < j ==> !WinningAt(g, moves[i], m)
    ensures forall mv :: mv in moves && mv < moves[j] ==> !WinningAt(g, mv, m)
  {
    forall mv | mv in moves && mv < moves[j]
      ensures !WinningAt(g, mv, m)
    {
      var i :| 0 <= i < |moves| && moves[i] == mv;
      assert i < j;
    }
  }

  /**
   * The strategic move is the first winning square for `ai` when one exists; only when none exists is it the
   * first square where `player` would win (a block); and only when neither
   * exists is it the injected random pick.
   */
  lemma StrategicChoiceSpec(g: Grid, ai: TicTacToeState, player: TicTacToeState, k: nat)
    requires k < |AvailableMoves(g)|
    ensures var r := StrategicChoice(g, ai, player, k);
      (CanWinNext(g, ai) ==>
         WinningAt(g, r, ai) &&
         forall mv :: mv in AvailableMoves(g) && mv < r ==> !WinningAt(g, mv, ai)) &&
      (!CanWinNext(g, ai) && CanWinNext(g, player) ==>
         WinningAt(g, r, player) &&
         forall mv :: mv in AvailableMoves(g) && mv < r ==> !WinningAt(g, mv, player)) &&
      (!CanWinNext(g, ai) && !CanWinNext(g, player) ==> r == AvailableMoves(g)[k])
  {
    var moves := AvailableMoves(g);
    AvailableMovesSpec(g);
    var w := FirstWinningIndex(g, moves, ai);
    var b := FirstWinningIndex(g, moves, player);
    if w < |moves| {
      FirstInRowMajorOrder(g, moves, w, ai);
    } else {
      assert !CanWinNext(g, ai);
      if b < |moves| {
        FirstInRowMajorOrder(g, moves, b, player);
      } else {
        assert !CanWinNext(g, player);
      }
    }
  }

  /**
   * Two crosses in the top row and a single empty square left at (0, 2):
   * whatever the random index, the strategic move takes the win there.
   */
  lemma StrategicTakesTheWin(k: nat)
    requires k == 0
    ensures StrategicChoice([Cross, Cross, None,
                             Circle, Circle, Cross,
                             Cross, Circle, Circle], Cross, Circle, k) == Index(0, 2)
  {
    var g: Grid := [Cross, Cross, None, Circle, Circle, Cross, Cross, Circle, Circle];
    AvailableMovesSpec(g);
    assert AvailableMoves(g) == [2];
    assert RowFilled(g[2 := Cross], 0, Cross);
    assert WinningAt(g, 2, Cross);
  }

  /** The board of the blocking scenario below. */
  const BlockingBoard: Grid := [Cross, None, None, Circle, Circle, None, None, None, None]

  lemma NoLineAfter(mv: nat, m: TicTacToeState)
    requires (m == Cross && mv in [1, 2, 5, 6, 7, 8]) || (m == Circle && mv in [1, 2])
    ensures !Wins(BlockingBoard[mv := m], m)
  {
    var h := BlockingBoard[mv := m];
    WinsIffSomeLine(h, m);
    forall k: nat | k < |WinLines|
      ensures !HoldsLine(h, k, m)
    {
      var line := WinLines[k];
      assert h[line.0] != m || h[line.1] != m || h[line.2] != m;
    }
  }

  lemma BlockingBoardMoves()
    ensures AvailableMoves(BlockingBoard) == [1, 2, 5, 6, 7, 8]
  {
    var g := BlockingBoard;
    assert MovesBelow(g, 3) == [1, 2];
    assert MovesBelow(g, 5) == [1, 2];
    assert MovesBelow(g, 8) == [1, 2, 5, 6, 7];
  }

  lemma BlockingBoardScan()
    ensures FirstWinningIndex(BlockingBoard, [1, 2, 5, 6, 7, 8], Cross) == 6
    ensures FirstWinningIndex(BlockingBoard, [1, 2, 5, 6, 7, 8], Circle) == 2
  {
    var g := BlockingBoard;
    var moves: seq<nat> := [1, 2, 5, 6, 7, 8];
    forall i | 0 <= i < |moves|
      ensures !WinningAt(g, moves[i], Cross)
    {
      NoLineAfter(moves[i], Cross);
    }
    NoLineAfter(1, Circle);
    NoLineAfter(2, Circle);
    assert !WinningAt(g, moves[0], Circle) && !WinningAt(g, moves[1], Circle);
    assert RowFilled(g[5 := Circle], 1, Circle);
    assert WinningAt(g, moves[2], Circle);
  }

  /**
   * The player (circles) holds (1, 0) and (1, 1), the opponent one cross at
   * (0, 0) and so no winning square: whatever the random index, the
   * strategic move blocks at (1, 2).
   */
  lemma StrategicBlocks(k: nat)
    requires k < 6
    ensures StrategicChoice(BlockingBoard, Cross, Circle, k) == Index(1, 2)
  {
    BlockingBoardMoves();
    BlockingBoardScan();
  }
}
