/**
 * The outcome evaluator of the tic-tac-toe engine: the winning-line scan,
 * the terminal test and the utility of a board.
 */
module Outcome {
  import opened BoardState

  /** A line of three positions. */
  type Line = (Pos, Pos, Pos)

  /** The eight lines in the order the engine scans them. */
  const Lines: seq<Line> := [
    ((0, 0), (0, 1), (0, 2)), ((1, 0), (1, 1), (1, 2)), ((2, 0), (2, 1), (2, 2)),  // rows
    ((0, 0), (1, 0), (2, 0)), ((0, 1), (1, 1), (2, 1)), ((0, 2), (1, 2), (2, 2)),  // columns
    ((0, 0), (1, 1), (2, 2)),                                                      // main diagonal
    ((0, 2), (1, 1), (2, 0))                                                       // anti-diagonal
  ]

  /** The three cells of the line compare equal; three empty cells included. */
  predicate Uniform(b: Board, l: Line) {
    At(b, l.0) == At(b, l.1) == At(b, l.2)
  }

  /** Line `k` is the first uniform one in scan order. */
  ghost predicate FirstUniform(b: Board, k: int) {
    0 <= k < |Lines| && Uniform(b, Lines[k]) && forall m | 0 <= m < k :: !Uniform(b, Lines[m])
  }

  /** The scan from line `k` on: the common value of the first uniform line, or `Empty` when there is none. */
  function ScanFrom(b: Board, k: nat): (w: Cell)
    requires k <= |Lines|
    ensures (forall m | k <= m < |Lines| :: !Uniform(b, Lines[m])) ==> w == Empty
    ensures forall m | k <= m < |Lines| :: Uniform(b, Lines[m]) && (forall m' | k <= m' < m :: !Uniform(b, Lines[m'])) ==> w == At(b, Lines[m].0)
    decreases |Lines| - k
  {
    if k == |Lines| then Empty
    else if Uniform(b, Lines[k]) then At(b, Lines[k].0)
    else ScanFrom(b, k + 1)
  }

  /**
   * The engine's `winner`: the value of the first line, in scan order, whose
   * three cells are equal — which is `Empty` when that line is empty, even if
   * a later line holds three equal marks — and `Empty` (the engine's `None`)
   * when no line is uniform.
   */
  function Winner(b: Board): (w: Cell)
    ensures (forall m | 0 <= m < |Lines| :: !Uniform(b, Lines[m])) ==> w == Empty
    ensures forall k :: FirstUniform(b, k) ==> w == At(b, Lines[k].0)
  {
    ScanFrom(b, 0)
  }

  /** A non-empty winner holds a whole line. */
  lemma WinnerHoldsLine(b: Board)
    requires Winner(b) != Empty
    ensures exists k | 0 <= k < |Lines| ::
      At(b, Lines[k].0) == At(b, Lines[k].1) == At(b, Lines[k].2) == Winner(b)
  {
    var k := FirstIndex(b, 0);
  }

  /** The index of the first uniform line from `k` on, when there is one. */
  ghost function FirstIndex(b: Board, k: nat): (m: nat)
    requires k <= |Lines|
    requires exists m | k <= m < |Lines| :: Uniform(b, Lines[m])
    ensures k <= m < |Lines| && Uniform(b, Lines[m]) && ScanFrom(b, k) == At(b, Lines[m].0)
    decreases |Lines| - k
  {
    if Uniform(b, Lines[k]) then k else FirstIndex(b, k + 1)
  }

  /** Every cell holds a mark. */
  ghost predicate Full(b: Board) {
    forall i, j | 0 <= i < 3 && 0 <= j < 3 :: b[i][j] != Empty
  }

  /** A board is full exactly when no position is empty. */
  lemma FullNoEmpty(b: Board)
    ensures Full(b) <==> Count(b, Empty) == 0
  {
    if !Full(b) {
      var i, j :| 0 <= i < 3 && 0 <= j < 3 && b[i][j] == Empty;
      var p: Pos := (i, j);
      assert p in Cells(b, Empty);
    } else {
      assert forall p: Pos :: p !in Cells(b, Empty) by {
        forall p: Pos ensures p !in Cells(b, Empty) {
          assert b[p.0][p.1] != Empty;
        }
      }
      assert Cells(b, Empty) == {};
    }
  }

  /** The game is over: the scan reports X or O, or no cell is empty. */
  ghost predicate Terminal(b: Board) {
    Winner(b) == X || Winner(b) == O || Full(b)
  }

  /**
   * The engine's `terminal`: true when the winner is X or O, otherwise false
   * as soon as an empty cell is found, and true after scanning all cells.
   */
  method IsTerminal(b: Board) returns (t: bool)
    ensures t == Terminal(b)
  {
    var w := Winner(b);
    if w == X || w == O {
      return true;
    }
    for i := 0 to 3
      invariant forall i', j' | 0 <= i' < i && 0 <= j' < 3 :: b[i'][j'] != Empty
    {
      for j := 0 to 3
        invariant forall i', j' | (0 <= i' < i && 0 <= j' < 3) || (i' == i && 0 <= j' < j) :: b[i'][j'] != Empty
      {
        if b[i][j] == Empty {
          return false;
        }
      }
    }
    return true;
  }

  /** The engine's `utility`: 1 when the winner is X, 0 when it is `None`, -1 when it is O. */
  function Utility(b: Board): (u: int)
    ensures u == 1 <==> Winner(b) == X
    ensures u == 0 <==> Winner(b) == Empty
    ensures u == -1 <==> Winner(b) == O
    ensures -1 <= u <= 1
  {
    var champion := Winner(b);
    if champion == X then 1
    else if champion == Empty then 0
    else -1
  }

  /** A board that is not terminal has utility 0, the same as a draw. */
  lemma NonTerminalUtility(b: Board)
    requires !Terminal(b)
    ensures Utility(b) == 0
  {
  }

  /** A board that is not terminal has an empty cell. */
  lemma NonTerminalHasEmpty(b: Board)
    requires !Terminal(b)
    ensures Count(b, Empty) > 0
    ensures exists p: Pos :: At(b, p) == Empty
  {
    FullNoEmpty(b);
    var i, j :| 0 <= i < 3 && 0 <= j < 3 && b[i][j] == Empty;
    var p: Pos := (i, j);
    assert At(b, p) == Empty;
  }
}
