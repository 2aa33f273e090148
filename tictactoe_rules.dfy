/**
 * The three rules of tictactoe.py that loop over the board: whose turn it
 * is (`player`), the open moves (`actions`) and the board after a move
 * (`result`).  Boards are values, so the copy `result` makes is implicit:
 * the board passed in is never changed.
 */
module TicTacToeRules {
  import opened Wrappers
  import opened TicTacToeBoard

  /** What `result` gives back: the new board, or the `ValueError` of a move that is not open. */
  datatype MoveResult = Moved(board: Board) | ValueError

  /**
   * `player`: X on the empty board; otherwise the marks are counted row by
   * row, and O moves exactly when there are more X's than O's.
   */
  method Player(b: Board) returns (p: Mark)
    ensures p == O <==> CountRows(b, Some(X)) > CountRows(b, Some(O))
    ensures p == NextMark(b)
  {
    if b == InitialState() {
      InitialStateFacts();
      return X;
    }
    var xs, os := 0, 0;
    for i := 0 to 3
      invariant xs == CountRows(b[..i], Some(X)) && os == CountRows(b[..i], Some(O))
    {
      var row := b[i];
      for j := 0 to 3
        invariant xs == CountRows(b[..i], Some(X)) + CountRow(row[..j], Some(X))
        invariant os == CountRows(b[..i], Some(O)) + CountRow(row[..j], Some(O))
      {
        assert row[..j + 1][..j] == row[..j];
        if row[j] == Some(X) {
          xs := xs + 1;
        } else if row[j] == Some(O) {
          os := os + 1;
        }
      }
      assert row[..3] == row;
      assert b[..i + 1][..i] == b[..i];
    }
    assert b[..3] == b;
    p := if xs > os then O else X;
  }

  /** `actions`: every cell is visited row by row and the empty ones are collected. */
  method Actions(b: Board) returns (moves: set<Action>)
    ensures moves == EmptyCells(b)
  {
    moves := {};
    for i := 0 to 3
      invariant forall a :: a in moves <==> OnBoard(a) && a.0 < i && b[a.0][a.1] == None
    {
      for j := 0 to 3
        invariant forall a :: a in moves <==> OnBoard(a) && (a.0 < i || (a.0 == i && a.1 < j)) && b[a.0][a.1] == None
      {
        if b[i][j] == None {
          moves := moves + {(i, j)};
        }
      }
    }
    forall a ensures a in moves <==> a in EmptyCells(b) {
      EmptyCellsMember(b, a);
    }
  }

  /**
   * `result`: a move that is not open is a `ValueError`; otherwise the new
   * board equals the old one except that the cell of the move holds the
   * mark of the player to move.
   */
  method Result(b: Board, a: Action) returns (r: MoveResult)
    ensures r.ValueError? <==> a !in EmptyCells(b)
    ensures r.Moved? ==> forall i, j :: 0 <= i < 3 && 0 <= j < 3 ==>
              r.board[i][j] == if (i, j) == a then Some(NextMark(b)) else b[i][j]
    ensures r.Moved? ==> r.board == Play(b, a)
  {
    var open := Actions(b);
    if a !in open {
      return ValueError;
    }
    EmptyCellsMember(b, a);
    var (i, j) := a;
    var p := Player(b);
    var board := b[i := b[i][j := Some(p)]];
    ApplyChanges(b, a, p);
    r := Moved(board);
  }
}
