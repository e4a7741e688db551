/**
 * The move generator and the transition function of the tic-tac-toe engine.
 */
module Moves {
  import opened Wrappers
  import opened BoardState
  import opened Outcome

  /** The one error the engine raises: a move outside the grid or onto an occupied cell. */
  datatype Error = InvalidAction

  /** A requested move (row, column) is legal when it lies on the grid and its cell is empty. */
  predicate Legal(b: Board, action: (int, int)) {
    0 <= action.0 < 3 && 0 <= action.1 < 3 && b[action.0][action.1] == Empty
  }

  /**
   * The board after the side to move places its mark on the empty cell `a`:
   * that cell holds the mover's mark and every other cell is unchanged.
   */
  ghost function Successor(b: Board, a: Pos): (r: Board)
    requires At(b, a) == Empty
    ensures forall p: Pos :: At(r, p) == if p == a then Turn(b) else At(b, p)
  {
    b[a.0 := b[a.0][a.1 := Turn(b)]]
  }

  /**
   * The engine's `result`: fails with the invalid-action error when the move
   * is off the grid or its cell is occupied; otherwise copies the board and
   * writes the mover's mark into the copy. The input board is a value and is
   * never changed.
   */
  method Result(b: Board, action: (int, int)) returns (r: Result<Board, Error>)
    ensures r.Failure? <==> !Legal(b, action)
    ensures r.Failure? ==> r.error == InvalidAction
    ensures r.Success? ==> Legal(b, action) && r.value == Successor(b, action)
  {
    if !(0 <= action.0 < 3 && 0 <= action.1 < 3) || b[action.0][action.1] != Empty {
      return Failure(InvalidAction);
    }
    var mark := Player(b);
    var newboard := b;
    newboard := newboard[action.0 := newboard[action.0][action.1 := mark]];
    return Success(newboard);
  }

  /** A move takes its cell out of the empty cells, adds it to the mover's cells and leaves the other mark's cells alone. */
  lemma SuccessorCells(b: Board, a: Pos)
    requires At(b, a) == Empty
    ensures Cells(Successor(b, a), Empty) == Cells(b, Empty) - {a}
    ensures Cells(Successor(b, a), Turn(b)) == Cells(b, Turn(b)) + {a}
    ensures forall c :: c != Empty && c != Turn(b) ==> Cells(Successor(b, a), c) == Cells(b, c)
  {
    var r := Successor(b, a);
    forall c ensures forall p: Pos :: p in Cells(r, c) <==> if p == a then Turn(b) == c else p in Cells(b, c) {
    }
  }

  /** A move fills exactly one empty cell and raises the mover's count by one. */
  lemma SuccessorCounts(b: Board, a: Pos)
    requires At(b, a) == Empty
    ensures Count(Successor(b, a), Empty) == Count(b, Empty) - 1
    ensures Count(Successor(b, a), Turn(b)) == Count(b, Turn(b)) + 1
    ensures forall c :: c != Empty && c != Turn(b) ==> Count(Successor(b, a), c) == Count(b, c)
  {
    var r := Successor(b, a);
    SuccessorCells(b, a);
    assert a in Cells(b, Empty) && a !in Cells(b, Turn(b));
    forall c | c != Empty && c != Turn(b) ensures Count(r, c) == Count(b, c) {
      assert Cells(r, c) == Cells(b, c);
    }
  }

  /**
   * Turns alternate: after a move on a board with equally many X and O marks
   * O is to move, and after a move on a board where X is one ahead X is to move.
   */
  lemma TurnAlternates(b: Board, a: Pos)
    requires At(b, a) == Empty
    ensures Count(b, X) == Count(b, O) ==> Turn(Successor(b, a)) == O
    ensures Count(b, X) == Count(b, O) + 1 ==> Turn(Successor(b, a)) == X
  {
    SuccessorCounts(b, a);
  }

  /** Boards reachable by alternate play from the starting board: X is level with O or one ahead. */
  ghost predicate Balanced(b: Board) {
    Count(b, X) == Count(b, O) || Count(b, X) == Count(b, O) + 1
  }

  /** The starting board is balanced. */
  lemma InitialBalanced()
    ensures Balanced(InitialState())
  {
    InitialStateTurn();
  }

  /** Every move keeps a board balanced and hands the turn to the other side. */
  lemma BalancedPreserved(b: Board, a: Pos)
    requires Balanced(b) && At(b, a) == Empty
    ensures Balanced(Successor(b, a))
    ensures Turn(Successor(b, a)) != Turn(b)
  {
    SuccessorCounts(b, a);
  }

  /**
   * The engine's `actions`: `None` on a terminal board; otherwise the set of
   * all empty positions, gathered cell by cell, which is never empty and has
   * nine minus the number of marks as its size.
   */
  method Actions(b: Board) returns (r: Option<set<Pos>>)
    ensures r.None? <==> Terminal(b)
    ensures r.Some? ==> forall p: Pos :: p in r.value <==> At(b, p) == Empty
    ensures r.Some? ==> r.value == Cells(b, Empty) && r.value != {}
    ensures r.Some? ==> |r.value| == 9 - Count(b, X) - Count(b, O)
  {
    var t := IsTerminal(b);
    if t {
      return None;
    }
    var act: set<Pos> := {};
    for i := 0 to 3
      invariant act == CellsBefore(b, Empty, i, 0)
    {
      for j := 0 to 3
        invariant act == CellsBefore(b, Empty, i, j)
      {
        if b[i][j] == Empty {
          act := act + {(i, j)};
        }
      }
    }
    CellsBeforeAll(b, Empty);
    NonTerminalHasEmpty(b);
    CountsTotal(b);
    return Some(act);
  }
}
