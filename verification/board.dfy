/**
 * The board of the game and the rules that only read it: the state of a
 * square, the 3x3 grid as a value, the eight winning lines, the legal moves
 * in row-major order and the test for an empty square.
 */
module Board {

  /** The state of one square of the board. */
  datatype TicTacToeState = None | Cross | Circle

  /** Side length of the board; the win check only knows the 3x3 lines. */
  const GridSize: nat := 3

  /** Number of squares on the board. */
  const SquareCount: nat := 9

  /**
   * A board as a value: its squares in row-major order, so that square
   * (row, col) sits at index row * GridSize + col.
   */
  type Grid = g: seq<TicTacToeState> | |g| == SquareCount
    witness [None, None, None, None, None, None, None, None, None]

  /** The index of square (row, col); decoding the index gives the square back. */
  function Index(row: nat, col: nat): (i: nat)
    requires row < GridSize && col < GridSize
    ensures i < SquareCount
    ensures i / GridSize == row && i % GridSize == col
  {
    row * GridSize + col
  }

  /** The state of square (row, col). */
  function At(g: Grid, row: nat, col: nat): TicTacToeState
    requires row < GridSize && col < GridSize
  {
    g[Index(row, col)]
  }

  /** The board right after it is initialised: every square is `None`. */
  const EmptyGrid: Grid := seq(SquareCount, _ => None)

  // ---------------------------------------------------------------- wins

  /** Every square of row `row` holds `m`. */
  predicate RowFilled(g: Grid, row: nat, m: TicTacToeState)
    requires row < GridSize
  {
    forall col: nat :: col < GridSize ==> At(g, row, col) == m
  }

  /** Every square of column `col` holds `m`. */
  predicate ColumnFilled(g: Grid, col: nat, m: TicTacToeState)
    requires col < GridSize
  {
    forall row: nat :: row < GridSize ==> At(g, row, col) == m
  }

  /** Every square from the top-left to the bottom-right corner holds `m`. */
  predicate MainDiagonalFilled(g: Grid, m: TicTacToeState)
  {
    forall i: nat :: i < GridSize ==> At(g, i, i) == m
  }

  /** Every square from the top-right to the bottom-left corner holds `m`. */
  predicate AntiDiagonalFilled(g: Grid, m: TicTacToeState)
  {
    forall row: nat, col: nat :: row < GridSize && col < GridSize && row + col == GridSize - 1 ==> At(g, row, col) == m
  }

  /** `m` has a winning line: a full row, a full column or a full diagonal. */
  predicate Wins(g: Grid, m: TicTacToeState)
  {
    (exists row: nat :: row < GridSize && RowFilled(g, row, m)) ||
    (exists col: nat :: col < GridSize && ColumnFilled(g, col, m)) ||
    MainDiagonalFilled(g, m) ||
    AntiDiagonalFilled(g, m)
  }

  /**
   * The eight lines of the board, each as the indices of its three squares:
   * a second, table-driven statement of the win rule. `Wins` is the rule the
   * model uses; this table serves only to prove facts about `Wins`
   * (`WinsIffSomeLine` and the lemmas about concrete boards).
   */
  const WinLines: seq<(nat, nat, nat)> :=
    [(0, 1, 2), (3, 4, 5), (6, 7, 8),
     (0, 3, 6), (1, 4, 7), (2, 5, 8),
     (0, 4, 8), (2, 4, 6)]

  /** The three squares of `line` all hold `m`. */
  predicate LineHolds(g: Grid, line: (nat, nat, nat), m: TicTacToeState)
  {
    line.0 < SquareCount && line.1 < SquareCount && line.2 < SquareCount &&
    g[line.0] == m && g[line.1] == m && g[line.2] == m
  }

  /** `m` holds all three squares of the k-th of the eight lines. */
  predicate HoldsLine(g: Grid, k: nat, m: TicTacToeState)
    requires k < |WinLines|
  {
    LineHolds(g, WinLines[k], m)
  }

  lemma RowIsLine(g: Grid, row: nat, m: TicTacToeState)
    requires row < GridSize
    ensures RowFilled(g, row, m) <==> HoldsLine(g, row, m)
  {
    if HoldsLine(g, row, m) {
      forall col: nat | col < GridSize
        ensures At(g, row, col) == m
      {
        assert Index(row, col) == WinLines[row].0 + col;
      }
    }
    if RowFilled(g, row, m) {
      assert At(g, row, 0) == m && At(g, row, 1) == m && At(g, row, 2) == m;
    }
  }

  lemma ColumnIsLine(g: Grid, col: nat, m: TicTacToeState)
    requires col < GridSize
    ensures ColumnFilled(g, col, m) <==> HoldsLine(g, GridSize + col, m)
  {
    if HoldsLine(g, GridSize + col, m) {
      forall row: nat | row < GridSize
        ensures At(g, row, col) == m
      {
        assert Index(row, col) == WinLines[GridSize + col].0 + GridSize * row;
      }
    }
    if ColumnFilled(g, col, m) {
      assert At(g, 0, col) == m && At(g, 1, col) == m && At(g, 2, col) == m;
    }
  }

  lemma DiagonalsAreLines(g: Grid, m: TicTacToeState)
    ensures MainDiagonalFilled(g, m) <==> HoldsLine(g, 6, m)
    ensures AntiDiagonalFilled(g, m) <==> HoldsLine(g, 7, m)
  {
    if MainDiagonalFilled(g, m) {
      assert At(g, 0, 0) == m && At(g, 1, 1) == m && At(g, 2, 2) == m;
    }
    if AntiDiagonalFilled(g, m) {
      assert At(g, 0, 2) == m && At(g, 1, 1) == m && At(g, 2, 0) == m;
    }
    if HoldsLine(g, 6, m) {
      forall i: nat | i < GridSize
        ensures At(g, i, i) == m
      {
        assert Index(i, i) == 4 * i;
      }
    }
    if HoldsLine(g, 7, m) {
      forall row: nat, col: nat | row < GridSize && col < GridSize && row + col == GridSize - 1
        ensures At(g, row, col) == m
      {
        assert Index(row, col) == 2 + 2 * row;
      }
    }
  }

  /**
   * The row/column/diagonal definition of a win agrees with the table of
   * the eight lines (3 rows, 3 columns, 2 diagonals).
   */
  lemma WinsIffSomeLine(g: Grid, m: TicTacToeState)
    ensures Wins(g, m) <==> exists k: nat :: k < |WinLines| && HoldsLine(g, k, m)
  {
    forall row: nat | row < GridSize
      ensures RowFilled(g, row, m) <==> HoldsLine(g, row, m)
    {
      RowIsLine(g, row, m);
    }
    forall col: nat | col < GridSize
      ensures ColumnFilled(g, col, m) <==> HoldsLine(g, GridSize + col, m)
    {
      ColumnIsLine(g, col, m);
    }
    DiagonalsAreLines(g, m);
    if k: nat :| k < |WinLines| && HoldsLine(g, k, m) {
      if k < GridSize {
        assert RowFilled(g, k, m);
      } else if k < 2 * GridSize {
        assert ColumnFilled(g, k - GridSize, m);
      }
    }
  }

  /** On a freshly initialised board neither mark has a line. */
  lemma NoWinOnEmptyGrid(m: TicTacToeState)
    requires m != None
    ensures !Wins(EmptyGrid, m)
  {
    WinsIffSomeLine(EmptyGrid, m);
  }

  /**
   * A board holding a single mark has no line of that mark: every line has
   * three distinct squares.
   */
  lemma NoWinWithOneMark(i: nat, m: TicTacToeState)
    requires i < SquareCount && m != None
    ensures !Wins(EmptyGrid[i := m], m)
  {
    var g := EmptyGrid[i := m];
    WinsIffSomeLine(g, m);
    forall k: nat | k < |WinLines|
      ensures !HoldsLine(g, k, m)
    {
      var line := WinLines[k];
      assert line.0 != line.1;
    }
  }

  /**
   * Marks placed at (0, 0), (0, 1) and (0, 2) one after another: no line
   * after the first two, a line after the third.
   */
  lemma TopRowScenario(m: TicTacToeState)
    requires m != None
    ensures !Wins(EmptyGrid[Index(0, 0) := m], m)
    ensures !Wins(EmptyGrid[Index(0, 0) := m][Index(0, 1) := m], m)
    ensures Wins(EmptyGrid[Index(0, 0) := m][Index(0, 1) := m][Index(0, 2) := m], m)
  {
    NoWinWithOneMark(0, m);
    var two := EmptyGrid[0 := m][1 := m];
    WinsIffSomeLine(two, m);
    forall k: nat | k < |WinLines|
      ensures !HoldsLine(two, k, m)
    {
      var line := WinLines[k];
      assert two[line.0] != m || two[line.1] != m || two[line.2] != m;
    }
    var three := two[2 := m];
    assert RowFilled(three, 0, m);
  }

  // ---------------------------------------------------------- legal moves

  /** The indices below `n` whose square is `None`, in increasing order. */
  function MovesBelow(g: Grid, n: nat): seq<nat>
    requires n <= SquareCount
  {
    if n == 0 then []
    else MovesBelow(g, n - 1) + (if g[n - 1] == None then [n - 1] else [])
  }

  /** The legal moves: every empty square's index, in row-major order. */
  function AvailableMoves(g: Grid): seq<nat>
  {
    MovesBelow(g, SquareCount)
  }

  /** Each element of `s` is smaller than the ones after it. */
  predicate StrictlyIncreasing(s: seq<nat>)
  {
    forall i, j :: 0 <= i < j < |s| ==> s[i] < s[j]
  }

  lemma {:induction false} MovesBelowSpec(g: Grid, n: nat)
    requires n <= SquareCount
    ensures forall x: nat :: x in MovesBelow(g, n) <==> x < n && g[x] == None
    ensures StrictlyIncreasing(MovesBelow(g, n))
  {
    if n > 0 {
      MovesBelowSpec(g, n - 1);
      var s := MovesBelow(g, n - 1);
      forall i | 0 <= i < |s|
        ensures s[i] < n - 1
      {
        assert s[i] in s;
      }
    }
  }

  /**
   * The legal moves are exactly the indices of the empty squares, listed in
   * strictly increasing (row-major) order, and each decodes to a square of
   * the board that is `None`.
   */
  lemma AvailableMovesSpec(g: Grid)
    ensures forall x: nat :: x in AvailableMoves(g) <==> x < SquareCount && g[x] == None
    ensures StrictlyIncreasing(AvailableMoves(g))
    ensures forall x :: x in AvailableMoves(g) ==>
              x / GridSize < GridSize && x % GridSize < GridSize &&
              Index(x / GridSize, x % GridSize) == x &&
              At(g, x / GridSize, x % GridSize) == None
  {
    MovesBelowSpec(g, SquareCount);
  }

  lemma {:induction false} MovesBelowOfEmpty(n: nat)
    requires n <= SquareCount
    ensures MovesBelow(EmptyGrid, n) == seq(n, i => i)
  {
    if n > 0 {
      MovesBelowOfEmpty(n - 1);
    }
  }

  /** On a freshly initialised board every one of the nine squares is a legal move. */
  lemma AvailableMovesOfEmptyGrid()
    ensures AvailableMoves(EmptyGrid) == [0, 1, 2, 3, 4, 5, 6, 7, 8]
  {
    MovesBelowOfEmpty(SquareCount);
  }

  /** Number of marked (non-`None`) squares in `s`. */
  function Marked(s: seq<TicTacToeState>): nat
  {
    if s == [] then 0
    else Marked(s[..|s| - 1]) + (if s[|s| - 1] != None then 1 else 0)
  }

  lemma {:induction false} MovesBelowPlusMarked(g: Grid, n: nat)
    requires n <= SquareCount
    ensures |MovesBelow(g, n)| + Marked(g[..n]) == n
  {
    if n > 0 {
      MovesBelowPlusMarked(g, n - 1);
      assert g[..n][..n - 1] == g[..n - 1];
    }
  }

  /** Legal moves and marked squares together account for every square. */
  lemma MovesPlusMarked(g: Grid)
    ensures |AvailableMoves(g)| + Marked(g) == SquareCount
  {
    MovesBelowPlusMarked(g, SquareCount);
    assert g[..SquareCount] == g;
  }

  lemma {:induction false} MovesBelowAfterPlace(g: Grid, i: nat, m: TicTacToeState, n: nat)
    requires i < SquareCount && g[i] == None && m != None && n <= SquareCount
    ensures MovesBelow(g[i := m], n) == if i < n then RemoveMove(MovesBelow(g, n), i) else MovesBelow(g, n)
  {
    if n > 0 {
      var h := g[i := m];
      MovesBelowAfterPlace(g, i, m, n - 1);
      var s := MovesBelow(g, n - 1);
      var t: seq<nat> := if g[n - 1] == None then [n - 1] else [];
      assert MovesBelow(g, n) == s + t;
      if i < n - 1 {
        assert h[n - 1] == g[n - 1];
        assert MovesBelow(h, n) == RemoveMove(s, i) + t;
        assert i !in t;
        RemoveMoveAppend(s, i, t);
      } else if i == n - 1 {
        assert MovesBelow(h, n - 1) == s;
        assert MovesBelow(h, n) == s + [];
        MovesBelowSpec(g, n - 1);
        RemoveMoveAbsent(s, i);
        assert (s + [i])[..|s + [i]| - 1] == s;
        assert RemoveMove(s + [i], i) == RemoveMove(s, i) + [];
      } else {
        assert h[n - 1] == g[n - 1];
        assert MovesBelow(h, n) == s + t;
      }
    }
  }

  /** `s` without the element `x`. */
  function RemoveMove(s: seq<nat>, x: nat): seq<nat>
  {
    if s == [] then []
    else RemoveMove(s[..|s| - 1], x) + (if s[|s| - 1] == x then [] else [s[|s| - 1]])
  }

  lemma {:induction false} RemoveMoveAbsent(s: seq<nat>, x: nat)
    requires x !in s
    ensures RemoveMove(s, x) == s
  {
    if s != [] {
      RemoveMoveAbsent(s[..|s| - 1], x);
      assert s[..|s| - 1] + [s[|s| - 1]] == s;
    }
  }

  lemma {:induction false} RemoveMoveAppend(s: seq<nat>, x: nat, t: seq<nat>)
    requires x !in t
    ensures RemoveMove(s + t, x) == RemoveMove(s, x) + t
  {
    if t != [] {
      var u := s + t[..|t| - 1];
      assert (s + t)[..|s + t| - 1] == u;
      assert t[..|t| - 1] + [t[|t| - 1]] == t;
      RemoveMoveAppend(s, x, t[..|t| - 1]);
    } else {
      assert s + t == s;
    }
  }

  /**
   * Marking an empty square removes exactly that square from the legal
   * moves, keeping the order of the others; so each placement shortens the
   * list by one and a game on the nine squares has at most nine placements.
   */
  lemma PlaceRemovesMove(g: Grid, i: nat, m: TicTacToeState)
    requires i < SquareCount && g[i] == None && m != None
    ensures AvailableMoves(g[i := m]) == RemoveMove(AvailableMoves(g), i)
    ensures |AvailableMoves(g[i := m])| + 1 == |AvailableMoves(g)|
  {
    MovesBelowAfterPlace(g, i, m, SquareCount);
    MovesPlusMarked(g);
    MovesPlusMarked(g[i := m]);
    MarkedAfterPlace(g, i, m, SquareCount);
    assert g[..SquareCount] == g;
    assert g[i := m][..SquareCount] == g[i := m];
  }

  lemma {:induction false} MarkedAfterPlace(g: Grid, i: nat, m: TicTacToeState, n: nat)
    requires i < SquareCount && g[i] == None && m != None && n <= SquareCount
    ensures Marked(g[i := m][..n]) == Marked(g[..n]) + (if i < n then 1 else 0)
  {
    if n > 0 {
      MarkedAfterPlace(g, i, m, n - 1);
      assert g[i := m][..n][..n - 1] == g[i := m][..n - 1];
      assert g[..n][..n - 1] == g[..n - 1];
    }
  }

  // ------------------------------------------------------- empty squares

  /** Some square of the board is `None`. */
  predicate HasEmptySquare(g: Grid)
  {
    exists i: nat :: i < SquareCount && g[i] == None
  }

  /** An empty square exists exactly when the list of legal moves is not empty. */
  lemma HasEmptySquareIffMoves(g: Grid)
    ensures HasEmptySquare(g) <==> AvailableMoves(g) != []
  {
    AvailableMovesSpec(g);
    if HasEmptySquare(g) {
      var i: nat :| i < SquareCount && g[i] == None;
      assert i in AvailableMoves(g);
    }
    if AvailableMoves(g) != [] {
      assert AvailableMoves(g)[0] in AvailableMoves(g);
    }
  }
}
