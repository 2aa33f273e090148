/**
 * The tic-tac-toe board of tictactoe.py and the rules that are plain
 * conditionals over it: the initial state, whose turn it is, the empty
 * cells, placing a mark, the winner, the end of the game and its utility.
 */
module TicTacToeBoard {
  import opened Wrappers

  datatype Mark = X | O

  /** A cell holds a mark or is EMPTY (`None`). */
  type Cell = Option<Mark>

  /** Three rows of three cells. */
  type Board = b: seq<seq<Cell>> | |b| == 3 && forall i | 0 <= i < 3 :: |b[i]| == 3
    witness [[None, None, None], [None, None, None], [None, None, None]]

  /** A move `(i, j)`: row `i`, column `j`. */
  type Action = (int, int)

  predicate OnBoard(a: Action)
  {
    0 <= a.0 < 3 && 0 <= a.1 < 3
  }

  function InitialState(): (b: Board)
    ensures forall i, j :: 0 <= i < 3 && 0 <= j < 3 ==> b[i][j] == None
  {
    [[None, None, None], [None, None, None], [None, None, None]]
  }

  /** The nine cells of the board. */
  const Cells: set<Action> := {(0, 0), (0, 1), (0, 2), (1, 0), (1, 1), (1, 2), (2, 0), (2, 1), (2, 2)}

  lemma CellsOnBoard(a: Action)
    ensures a in Cells <==> OnBoard(a)
  {
  }

  /** The moves still open: `actions(board)`. */
  function EmptyCells(b: Board): set<Action>
  {
    set a | a in Cells && b[a.0][a.1] == None
  }

  lemma EmptyCellsMember(b: Board, a: Action)
    ensures a in EmptyCells(b) <==> OnBoard(a) && b[a.0][a.1] == None
  {
  }

  /** How many cells of `row` hold `c`. */
  function CountRow(row: seq<Cell>, c: Cell): nat
  {
    if row == [] then 0 else CountRow(row[..|row| - 1], c) + (if row[|row| - 1] == c then 1 else 0)
  }

  /** How many cells of `rows` hold `c`. */
  function CountRows(rows: seq<seq<Cell>>, c: Cell): nat
  {
    if rows == [] then 0 else CountRows(rows[..|rows| - 1], c) + CountRow(rows[|rows| - 1], c)
  }

  /**
   * The mark that moves next: O exactly when X has placed more marks than
   * O.  In legal play that is X exactly when the two counts are level.
   */
  function NextMark(b: Board): (r: Mark)
    ensures Legal(b) ==> (r == X <==> CountRows(b, Some(X)) == CountRows(b, Some(O)))
  {
    if CountRows(b, Some(X)) > CountRows(b, Some(O)) then O else X
  }

  /** The board `b` with mark `p` written into cell `a`. */
  function Apply(b: Board, a: Action, p: Mark): Board
    requires OnBoard(a)
  {
    b[a.0 := b[a.0][a.1 := Some(p)]]
  }

  /** Writing into a cell changes that cell alone, and closes it if it was open. */
  lemma ApplyChanges(b: Board, a: Action, p: Mark)
    requires OnBoard(a)
    ensures forall i, j :: 0 <= i < 3 && 0 <= j < 3 ==> Apply(b, a, p)[i][j] == if (i, j) == a then Some(p) else b[i][j]
    ensures a in EmptyCells(b) ==> EmptyCells(Apply(b, a, p)) == EmptyCells(b) - {a}
  {
  }

  /** The board after the mark to move takes the open cell `a`; one open cell fewer. */
  function Play(b: Board, a: Action): (r: Board)
    requires a in EmptyCells(b)
    ensures |EmptyCells(r)| == |EmptyCells(b)| - 1
  {
    EmptyCellsMember(b, a);
    ApplyChanges(b, a, NextMark(b));
    Apply(b, a, NextMark(b))
  }

  /** The three cells of line `k`: rows 0 to 2, then columns 0 to 2, then the two diagonals. */
  function LineCells(b: Board, k: nat): (Cell, Cell, Cell)
    requires k < 8
  {
    if k < 3 then (b[k][0], b[k][1], b[k][2])
    else if k < 6 then (b[0][k - 3], b[1][k - 3], b[2][k - 3])
    else if k == 6 then (b[0][0], b[1][1], b[2][2])
    else (b[0][2], b[1][1], b[2][0])
  }

  /** The mark filling all three cells of line `k`, if one does. */
  function LineWinner(b: Board, k: nat): Option<Mark>
    requires k < 8
  {
    var (x, y, z) := LineCells(b, k);
    if x == y == z then x else None
  }

  /** Mark `p` fills some row, column or diagonal. */
  ghost predicate HasLine(b: Board, p: Mark)
  {
    exists k :: 0 <= k < 8 && LineWinner(b, k) == Some(p)
  }

  /** The mark of the first full line from line `k` on, in the order rows, columns, diagonals. */
  function FirstWinner(b: Board, k: nat): (r: Option<Mark>)
    requires k <= 8
    ensures r.Some? ==> exists j :: k <= j < 8 && LineWinner(b, j) == r && forall i :: k <= i < j ==> LineWinner(b, i) == None
    ensures r.None? ==> forall j :: k <= j < 8 ==> LineWinner(b, j) == None
    decreases 8 - k
  {
    if k == 8 then None
    else if LineWinner(b, k).Some? then LineWinner(b, k)
    else FirstWinner(b, k + 1)
  }

  /**
   * `winner`: the mark of the first full row, else of the first full
   * column, else of a full diagonal; `None` when no line is full.
   */
  function Winner(b: Board): Option<Mark>
  {
    FirstWinner(b, 0)
  }

  /** The winner holds a line, there is none exactly when no line is full, and the first full line decides. */
  lemma WinnerFirstLine(b: Board)
    ensures Winner(b).Some? ==> HasLine(b, Winner(b).value)
    ensures Winner(b).None? <==> !HasLine(b, X) && !HasLine(b, O)
    ensures forall k :: 0 <= k < 8 && LineWinner(b, k).Some? && (forall i :: 0 <= i < k ==> LineWinner(b, i) == None) ==>
              Winner(b) == LineWinner(b, k)
  {
    var r := FirstWinner(b, 0);
    forall k | 0 <= k < 8 && LineWinner(b, k).Some? && (forall i :: 0 <= i < k ==> LineWinner(b, i) == None)
      ensures r == LineWinner(b, k)
    {
      if r.Some? {
        var j :| 0 <= j < 8 && LineWinner(b, j) == r && forall i :: 0 <= i < j ==> LineWinner(b, i) == None;
        assert !(j < k) && !(k < j);
      }
    }
    if r.Some? {
      var j :| 0 <= j < 8 && LineWinner(b, j) == r && forall i :: 0 <= i < j ==> LineWinner(b, i) == None;
      match r.value
      case X => assert HasLine(b, X);
      case O => assert HasLine(b, O);
    }
  }

  /** No cell is open exactly when every cell holds a mark. */
  lemma FullBoard(b: Board)
    ensures EmptyCells(b) == {} <==> forall i, j :: 0 <= i < 3 && 0 <= j < 3 ==> b[i][j] != None
  {
    if EmptyCells(b) != {} {
      var a :| a in EmptyCells(b);
      EmptyCellsMember(b, a);
    }
    if !(forall i, j :: 0 <= i < 3 && 0 <= j < 3 ==> b[i][j] != None) {
      var i, j :| 0 <= i < 3 && 0 <= j < 3 && b[i][j] == None;
      EmptyCellsMember(b, (i, j));
    }
  }

  /** `terminal`: a winner, or no open move. */
  function Terminal(b: Board): bool
  {
    Winner(b).Some? || EmptyCells(b) == {}
  }

  /** The game is over exactly when somebody has a line or every cell is taken. */
  lemma TerminalIff(b: Board)
    ensures Terminal(b) <==> HasLine(b, X) || HasLine(b, O) || forall i, j :: 0 <= i < 3 && 0 <= j < 3 ==> b[i][j] != None
  {
    WinnerFirstLine(b);
    FullBoard(b);
  }

  /**
   * `utility`: 1 when X has won, -1 when O has won, 0 otherwise; nothing
   * (Python's implicit `None`) while the game is on.
   */
  function Utility(b: Board): Option<int>
  {
    if Terminal(b) then
      match Winner(b)
      case Some(X) => Some(1)
      case Some(O) => Some(-1)
      case None => Some(0)
    else None
  }

  /** A finished game is worth 1 only with a line of X's, -1 only with a line of O's, and 0 only for a full board with no line. */
  lemma UtilityValues(b: Board)
    ensures Utility(b).Some? <==> Terminal(b)
    ensures Utility(b) == Some(1) ==> HasLine(b, X)
    ensures Utility(b) == Some(-1) ==> HasLine(b, O)
    ensures Utility(b) == Some(0) ==> !HasLine(b, X) && !HasLine(b, O) && EmptyCells(b) == {}
    ensures Utility(b).Some? ==> -1 <= Utility(b).value <= 1
  {
  }

  /** The mark counts of a board reached by legal play: X moves first and the two alternate. */
  predicate Legal(b: Board)
  {
    CountRows(b, Some(X)) == CountRows(b, Some(O)) || CountRows(b, Some(X)) == CountRows(b, Some(O)) + 1
  }

  lemma {:induction false} CountRowUpdate(row: seq<Cell>, j: nat, x: Cell, c: Cell)
    requires j < |row|
    ensures CountRow(row[j := x], c) + (if row[j] == c then 1 else 0) == CountRow(row, c) + (if x == c then 1 else 0)
    decreases |row|
  {
    var n := |row| - 1;
    var row' := row[j := x];
    if j == n {
      assert row'[..n] == row[..n];
    } else {
      assert row'[..n] == row[..n][j := x];
      CountRowUpdate(row[..n], j, x, c);
    }
  }

  lemma {:induction false} CountRowsUpdate(rows: seq<seq<Cell>>, i: nat, row: seq<Cell>, c: Cell)
    requires i < |rows|
    ensures CountRows(rows[i := row], c) + CountRow(rows[i], c) == CountRows(rows, c) + CountRow(row, c)
    decreases |rows|
  {
    var n := |rows| - 1;
    var rows' := rows[i := row];
    if i == n {
      assert rows'[..n] == rows[..n];
    } else {
      assert rows'[..n] == rows[..n][i := row];
      CountRowsUpdate(rows[..n], i, row, c);
    }
  }

  /** Writing `p` into an empty cell adds one `p` and leaves every other count alone. */
  lemma ApplyCounts(b: Board, a: Action, p: Mark, c: Cell)
    requires a in EmptyCells(b)
    ensures CountRows(Apply(b, a, p), c) == CountRows(b, c) + (if c == Some(p) then 1 else 0) - (if c == None then 1 else 0)
  {
    EmptyCellsMember(b, a);
    var row := b[a.0][a.1 := Some(p)];
    CountRowUpdate(b[a.0], a.1, Some(p), c);
    CountRowsUpdate(b, a.0, row, c);
  }

  /** Legal play stays legal, and the turn passes to the other mark after every move. */
  lemma TurnsAlternate(b: Board, a: Action)
    requires Legal(b) && a in EmptyCells(b)
    ensures Legal(Play(b, a))
    ensures NextMark(Play(b, a)) != NextMark(b)
  {
    ApplyCounts(b, a, NextMark(b), Some(X));
    ApplyCounts(b, a, NextMark(b), Some(O));
  }

  lemma {:induction false} CountRowAbsent(row: seq<Cell>, c: Cell)
    requires forall j :: 0 <= j < |row| ==> row[j] != c
    ensures CountRow(row, c) == 0
    decreases |row|
  {
    if row != [] {
      CountRowAbsent(row[..|row| - 1], c);
    }
  }

  lemma {:induction false} CountRowsAbsent(rows: seq<seq<Cell>>, c: Cell)
    requires forall i, j :: 0 <= i < |rows| && 0 <= j < |rows[i]| ==> rows[i][j] != c
    ensures CountRows(rows, c) == 0
    decreases |rows|
  {
    if rows != [] {
      CountRowsAbsent(rows[..|rows| - 1], c);
      CountRowAbsent(rows[|rows| - 1], c);
    }
  }

  /** The game opens with all nine cells open, no line, and X to move. */
  lemma InitialStateFacts()
    ensures EmptyCells(InitialState()) == Cells && |Cells| == 9
    ensures NextMark(InitialState()) == X && Legal(InitialState())
    ensures !Terminal(InitialState())
  {
    var b := InitialState();
    CountRowsAbsent(b, Some(X));
    CountRowsAbsent(b, Some(O));
    forall a | a in Cells ensures a in EmptyCells(b) {
      EmptyCellsMember(b, a);
    }
    NineCells();
    assert forall k :: 0 <= k < 8 ==> LineWinner(b, k) == None;
    WinnerFirstLine(b);
  }

  lemma NineCells()
    ensures |Cells| == 9
  {
  }
}
