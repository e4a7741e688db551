/**
 * Concrete boards checked against the model:
 * a drawn full board, a reachable board that shows the winning-line scan
 * stopping at an empty line, and a full board rejecting every move.
 */
module Scenarios {
  import opened BoardState
  import opened Outcome
  import opened Moves

  /** A full board with alternating marks and no three in a row. */
  const Drawn: Board := [[X, O, X], [X, O, O], [O, X, X]]

  /** The full drawn board is over, has no winner and is worth 0. */
  lemma DrawnBoardIsDraw()
    ensures Winner(Drawn) == Empty && Full(Drawn) && Terminal(Drawn) && Utility(Drawn) == 0
  {
  }

  /** Every action on a full board is rejected, whatever its coordinates. */
  lemma FullBoardRejectsAll(b: Board, action: (int, int))
    requires Full(b)
    ensures !Legal(b, action)
  {
  }

  /** X has completed the middle row while the top row is still empty. */
  const Hidden: Board := [[Empty, Empty, Empty], [X, X, X], [O, O, Empty]]

  /**
   * The scan stops at the empty top row, so the board has no winner, is not
   * over and is worth 0, although X holds the middle row.
   */
  lemma EmptyLineHidesWin()
    ensures Uniform(Hidden, Lines[1]) && At(Hidden, (1, 0)) == X
    ensures Winner(Hidden) == Empty && !Terminal(Hidden) && Utility(Hidden) == 0
  {
  }

  /** Three X against two O: the engine hands the move to O and play goes on. */
  lemma HiddenWinOToMove()
    ensures Count(Hidden, X) == 3 && Count(Hidden, O) == 2 && Turn(Hidden) == O
  {
    assert Cells(Hidden, X) == {(1, 0), (1, 1), (1, 2)};
    assert Cells(Hidden, O) == {(2, 0), (2, 1)};
  }

  /** X on (0,0) and (0,1), O on (1,0). */
  const TopRowThreat: Board := [[X, X, Empty], [O, Empty, Empty], [Empty, Empty, Empty]]

  /** With two X against one O the engine gives the move to O. */
  lemma TopRowThreatOToMove()
    ensures Count(TopRowThreat, X) == 2 && Count(TopRowThreat, O) == 1 && Turn(TopRowThreat) == O
  {
    assert Cells(TopRowThreat, X) == {(0, 0), (0, 1)};
    assert Cells(TopRowThreat, O) == {(1, 0)};
  }

  /** The board after O answers at (0,2). */
  const Blocked: Board := [[X, X, O], [O, Empty, Empty], [Empty, Empty, Empty]]

  /** The move at (0,2) therefore places an O and blocks the row rather than completing it for X. */
  lemma TopRowThreatBlocked()
    ensures Legal(TopRowThreat, (0, 2))
    ensures Successor(TopRowThreat, (0, 2)) == Blocked && Winner(Blocked) == Empty && !Terminal(Blocked)
  {
    TopRowThreatOToMove();
    var r := Successor(TopRowThreat, (0, 2));
    assert r[0] == [X, X, O] && r[1] == TopRowThreat[1] && r[2] == TopRowThreat[2];
  }
}
