/**
 * Exhaustive minimax of tictactoe.py.  `MinSpec` and `MaxSpec` define the
 * value of a board under best play by both sides, as the least or greatest
 * value among the boards one move away; the methods `MinValue`, `MaxValue`
 * and `Minimax` are the loops of `min_value`, `max_value` and `minimax`,
 * proved to compute those values.  The `math.inf` sentinels are 2 and -2,
 * outside the range of every utility.
 */
module TicTacToeSearch {
  import opened Wrappers
  import opened TicTacToeBoard
  import opened TicTacToeRules

  /** The value of `b` when O is to choose: its utility once the game is over. */
  ghost function MinSpec(b: Board): (v: int)
    ensures -1 <= v <= 1
    decreases |EmptyCells(b)|, 2
  {
    if Terminal(b) then Utility(b).value else LeastReply(b, EmptyCells(b))
  }

  /** The value of `b` when X is to choose: its utility once the game is over. */
  ghost function MaxSpec(b: Board): (v: int)
    ensures -1 <= v <= 1
    decreases |EmptyCells(b)|, 2
  {
    if Terminal(b) then Utility(b).value else GreatestReply(b, EmptyCells(b))
  }

  /** The value for X of the board after the open move `a`: `max_value(result(b, a))`. */
  ghost function MaxReply(b: Board, a: Action): (v: int)
    requires a in EmptyCells(b)
    ensures -1 <= v <= 1
    decreases |EmptyCells(b)|, 0
  {
    MaxSpec(Play(b, a))
  }

  /** The value for O of the board after the open move `a`: `min_value(result(b, a))`. */
  ghost function MinReply(b: Board, a: Action): (v: int)
    requires a in EmptyCells(b)
    ensures -1 <= v <= 1
    decreases |EmptyCells(b)|, 0
  {
    MinSpec(Play(b, a))
  }

  /** Some move of `moves`, the one the value functions look at first. */
  ghost function Pick(moves: set<Action>): (a: Action)
    requires moves != {}
    ensures a in moves
  {
    var a :| a in moves; a
  }

  /** The least `MaxReply` over the moves in `moves`. */
  ghost function LeastReply(b: Board, moves: set<Action>): (v: int)
    requires moves != {} && moves <= EmptyCells(b)
    ensures -1 <= v <= 1
    decreases |EmptyCells(b)|, 1, moves
  {
    var a := Pick(moves);
    var here := MaxReply(b, a);
    if moves == {a} then here
    else
      var rest := LeastReply(b, moves - {a});
      if here < rest then here else rest
  }

  /** The greatest `MinReply` over the moves in `moves`. */
  ghost function GreatestReply(b: Board, moves: set<Action>): (v: int)
    requires moves != {} && moves <= EmptyCells(b)
    ensures -1 <= v <= 1
    decreases |EmptyCells(b)|, 1, moves
  {
    var a := Pick(moves);
    var here := MinReply(b, a);
    if moves == {a} then here
    else
      var rest := GreatestReply(b, moves - {a});
      if here > rest then here else rest
  }

  lemma {:induction false} LeastReplyIsLeast(b: Board, moves: set<Action>)
    requires moves != {} && moves <= EmptyCells(b)
    ensures exists a :: a in moves && LeastReply(b, moves) == MaxReply(b, a)
    ensures forall a :: a in moves ==> LeastReply(b, moves) <= MaxReply(b, a)
    decreases moves
  {
    var a := Pick(moves);
    if moves != {a} {
      LeastReplyIsLeast(b, moves - {a});
    }
  }

  lemma {:induction false} GreatestReplyIsGreatest(b: Board, moves: set<Action>)
    requires moves != {} && moves <= EmptyCells(b)
    ensures exists a :: a in moves && GreatestReply(b, moves) == MinReply(b, a)
    ensures forall a :: a in moves ==> MinReply(b, a) <= GreatestReply(b, moves)
    decreases moves
  {
    var a := Pick(moves);
    if moves != {a} {
      GreatestReplyIsGreatest(b, moves - {a});
    }
  }

  /** While the game is on, the value for O is the least value for X that one move of O's leaves. */
  lemma MinSpecIsLeast(b: Board)
    requires !Terminal(b)
    ensures exists a :: a in EmptyCells(b) && MinSpec(b) == MaxReply(b, a)
    ensures forall a :: a in EmptyCells(b) ==> MinSpec(b) <= MaxReply(b, a)
  {
    LeastReplyIsLeast(b, EmptyCells(b));
  }

  /** While the game is on, the value for X is the greatest value for O that one move of X's leaves. */
  lemma MaxSpecIsGreatest(b: Board)
    requires !Terminal(b)
    ensures exists a :: a in EmptyCells(b) && MaxSpec(b) == MinReply(b, a)
    ensures forall a :: a in EmptyCells(b) ==> MinReply(b, a) <= MaxSpec(b)
  {
    GreatestReplyIsGreatest(b, EmptyCells(b));
  }

  /**
   * After the moves `done` have been visited, `value` is the least
   * `MaxReply` among them and `best` a move that reaches it; before the
   * first move, `value` is the sentinel 2.
   */
  ghost predicate LeastSoFar(b: Board, done: set<Action>, value: int, best: Action)
  {
    && done <= EmptyCells(b)
    && (done == {} ==> value == 2)
    && (done != {} ==> best in done && value == MaxReply(b, best))
    && (forall a :: a in done ==> value <= MaxReply(b, a))
  }

  /**
   * After the moves `done` have been visited, `value` is the greatest
   * `MinReply` among them and `best` a move that reaches it; before the
   * first move, `value` is the sentinel -2.
   */
  ghost predicate GreatestSoFar(b: Board, done: set<Action>, value: int, best: Action)
  {
    && done <= EmptyCells(b)
    && (done == {} ==> value == -2)
    && (done != {} ==> best in done && value == MinReply(b, best))
    && (forall a :: a in done ==> MinReply(b, a) <= value)
  }

  /** Visiting one more move keeps the least value, taking the new move exactly when it undercuts. */
  lemma LeastSoFarStep(b: Board, done: set<Action>, value: int, best: Action, a: Action)
    requires LeastSoFar(b, done, value, best) && a in EmptyCells(b)
    ensures MaxReply(b, a) < value ==> LeastSoFar(b, done + {a}, MaxReply(b, a), a)
    ensures MaxReply(b, a) >= value ==> LeastSoFar(b, done + {a}, value, best)
  {
  }

  /** Visiting one more move keeps the greatest value, taking the new move exactly when it beats. */
  lemma GreatestSoFarStep(b: Board, done: set<Action>, value: int, best: Action, a: Action)
    requires GreatestSoFar(b, done, value, best) && a in EmptyCells(b)
    ensures MinReply(b, a) > value ==> GreatestSoFar(b, done + {a}, MinReply(b, a), a)
    ensures MinReply(b, a) <= value ==> GreatestSoFar(b, done + {a}, value, best)
  {
  }

  /** Once every open move is visited, the least value found is the value for O. */
  lemma LeastSoFarAll(b: Board, value: int, best: Action)
    requires !Terminal(b) && LeastSoFar(b, EmptyCells(b), value, best)
    ensures best in EmptyCells(b) && value == MaxReply(b, best) && value == MinSpec(b)
    ensures forall a :: a in EmptyCells(b) ==> value <= MaxReply(b, a)
  {
    MinSpecIsLeast(b);
  }

  /** Once every open move is visited, the greatest value found is the value for X. */
  lemma GreatestSoFarAll(b: Board, value: int, best: Action)
    requires !Terminal(b) && GreatestSoFar(b, EmptyCells(b), value, best)
    ensures best in EmptyCells(b) && value == MinReply(b, best) && value == MaxSpec(b)
    ensures forall a :: a in EmptyCells(b) ==> MinReply(b, a) <= value
  {
    MaxSpecIsGreatest(b);
  }

  /** Moving one visited move from the moves still to visit to those visited. */
  lemma MoveAcross(todo: set<Action>, done: set<Action>, a: Action)
    requires a in todo && todo !! done
    ensures (todo - {a}) + (done + {a}) == todo + done && (todo - {a}) !! (done + {a})
    ensures todo - {a} < todo
  {
  }

  /** `min_value`: the utility of a finished game, else the least `max_value` over the open moves. */
  method MinValue(b: Board) returns (v: int)
    ensures v == MinSpec(b)
    decreases |EmptyCells(b)|, 2
  {
    if Terminal(b) {
      return Utility(b).value;
    }
    v := 2;
    ghost var best: Action := (0, 0);
    ghost var done: set<Action> := {};
    var todo := Actions(b);
    while todo != {}
      invariant todo + done == EmptyCells(b) && todo !! done
      invariant LeastSoFar(b, done, v, best)
      decreases todo
    {
      var a :| a in todo;
      var w := MaxAfter(b, a);
      LeastSoFarStep(b, done, v, best, a);
      if w < v {
        v, best := w, a;
      }
      MoveAcross(todo, done, a);
      todo, done := todo - {a}, done + {a};
    }
    LeastSoFarAll(b, v, best);
  }

  /** `max_value`: the utility of a finished game, else the greatest `min_value` over the open moves. */
  method MaxValue(b: Board) returns (v: int)
    ensures v == MaxSpec(b)
    decreases |EmptyCells(b)|, 2
  {
    if Terminal(b) {
      return Utility(b).value;
    }
    v := -2;
    ghost var best: Action := (0, 0);
    ghost var done: set<Action> := {};
    var todo := Actions(b);
    while todo != {}
      invariant todo + done == EmptyCells(b) && todo !! done
      invariant GreatestSoFar(b, done, v, best)
      decreases todo
    {
      var a :| a in todo;
      var w := MinAfter(b, a);
      GreatestSoFarStep(b, done, v, best, a);
      if w > v {
        v, best := w, a;
      }
      MoveAcross(todo, done, a);
      todo, done := todo - {a}, done + {a};
    }
    GreatestSoFarAll(b, v, best);
  }

  /** `max_value(result(board, a))` for an open move `a`. */
  method MaxAfter(b: Board, a: Action) returns (v: int)
    requires a in EmptyCells(b)
    ensures v == MaxReply(b, a)
    decreases |EmptyCells(b)|, 0
  {
    var r := Result(b, a);
    v := MaxValue(r.board);
  }

  /** `min_value(result(board, a))` for an open move `a`. */
  method MinAfter(b: Board, a: Action) returns (v: int)
    requires a in EmptyCells(b)
    ensures v == MinReply(b, a)
    decreases |EmptyCells(b)|, 0
  {
    var r := Result(b, a);
    v := MinValue(r.board);
  }

  /**
   * `minimax`: nothing once the game is over; the random cell `opening`
   * on the empty board; otherwise the first open move, in the order the
   * moves are visited, whose value is best for the player to move.
   */
  method Minimax(b: Board, opening: Action) returns (m: Option<Action>)
    requires OnBoard(opening)
    ensures m.None? <==> Terminal(b)
    ensures b == InitialState() ==> m == Some(opening)
    ensures m.Some? && b != InitialState() ==> m.value in EmptyCells(b)
    ensures m.Some? && b != InitialState() && NextMark(b) == X ==>
              MinReply(b, m.value) == MaxSpec(b) &&
              forall a :: a in EmptyCells(b) ==> MinReply(b, a) <= MinReply(b, m.value)
    ensures m.Some? && b != InitialState() && NextMark(b) == O ==>
              MaxReply(b, m.value) == MinSpec(b) &&
              forall a :: a in EmptyCells(b) ==> MaxReply(b, m.value) <= MaxReply(b, a)
  {
    if Terminal(b) {
      InitialStateFacts();
      return None;
    }
    var p := Player(b);
    if p == X {
      if b == InitialState() {
        return Some(opening);
      }
      var best := MaximizingMove(b, opening);
      m := Some(best);
    } else {
      // X moves first, so the empty board never reaches this branch.
      InitialStateFacts();
      var best := MinimizingMove(b, opening);
      m := Some(best);
    }
  }

  /**
   * The loop of `minimax` for X: starting from the value -2 and the move
   * `opening`, every open move whose `min_value` beats the best so far
   * becomes the best move.
   */
  method MaximizingMove(b: Board, opening: Action) returns (best: Action)
    requires !Terminal(b)
    ensures best in EmptyCells(b)
    ensures MinReply(b, best) == MaxSpec(b)
    ensures forall a :: a in EmptyCells(b) ==> MinReply(b, a) <= MinReply(b, best)
  {
    best := opening;
    var value := -2;
    ghost var done: set<Action> := {};
    var todo := Actions(b);
    while todo != {}
      invariant todo + done == EmptyCells(b) && todo !! done
      invariant GreatestSoFar(b, done, value, best)
      decreases todo
    {
      var a :| a in todo;
      var w := MinAfter(b, a);
      GreatestSoFarStep(b, done, value, best, a);
      if w > value {
        value, best := w, a;
      }
      MoveAcross(todo, done, a);
      todo, done := todo - {a}, done + {a};
    }
    GreatestSoFarAll(b, value, best);
  }

  /**
   * The loop of `minimax` for O: starting from the value 2 and the move
   * `opening`, every open move whose `max_value` undercuts the best so far
   * becomes the best move.
   */
  method MinimizingMove(b: Board, opening: Action) returns (best: Action)
    requires !Terminal(b)
    ensures best in EmptyCells(b)
    ensures MaxReply(b, best) == MinSpec(b)
    ensures forall a :: a in EmptyCells(b) ==> MaxReply(b, best) <= MaxReply(b, a)
  {
    best := opening;
    var value := 2;
    ghost var done: set<Action> := {};
    var todo := Actions(b);
    while todo != {}
      invariant todo + done == EmptyCells(b) && todo !! done
      invariant LeastSoFar(b, done, value, best)
      decreases todo
    {
      var a :| a in todo;
      var w := MaxAfter(b, a);
      LeastSoFarStep(b, done, value, best, a);
      if w < value {
        value, best := w, a;
      }
      MoveAcross(todo, done, a);
      todo, done := todo - {a}, done + {a};
    }
    LeastSoFarAll(b, value, best);
  }
}
