/**
 * The board value of the tic-tac-toe engine, the counting of marks on it and
 * the turn rule derived from those counts.
 */
module BoardState {

  /** A cell mark; `Empty` is the engine's `EMPTY = None`. */
  datatype Cell = X | O | Empty

  /** A coordinate pair (row, column) that lies on the 3x3 grid. */
  type Pos = p: (int, int) | 0 <= p.0 < 3 && 0 <= p.1 < 3 witness (0, 0)

  predicate IsGrid(g: seq<seq<Cell>>) {
    |g| == 3 && forall i | 0 <= i < 3 :: |g[i]| == 3
  }

  /** A board is a list of three rows of three cells, as in the engine. */
  type Board = g: seq<seq<Cell>> | IsGrid(g)
    witness [[Empty, Empty, Empty], [Empty, Empty, Empty], [Empty, Empty, Empty]]

  function At(b: Board, p: Pos): Cell {
    b[p.0][p.1]
  }

  /** The starting board: every one of the nine cells is empty. */
  function InitialState(): (b: Board)
    ensures forall p: Pos :: At(b, p) == Empty
  {
    [[Empty, Empty, Empty], [Empty, Empty, Empty], [Empty, Empty, Empty]]
  }

  /*
   * The engine visits cells row by row, each row left to right. A visit is
   * "before (i, j)" when it comes earlier in that order; (i, 0) is the start
   * of row i and (3, 0) is past the last cell.
   */

  predicate InRange(i: int, j: int) {
    0 <= i <= 3 && 0 <= j <= 3 && (i == 3 ==> j == 0)
  }

  predicate Before(p: Pos, i: int, j: int) {
    p.0 < i || (p.0 == i && p.1 < j)
  }

  /** All positions holding `c`. */
  ghost function Cells(b: Board, c: Cell): (s: set<Pos>)
    ensures forall p: Pos :: p in s <==> At(b, p) == c
  {
    set i, j | 0 <= i < 3 && 0 <= j < 3 && b[i][j] == c :: (i, j)
  }

  /** How many cells of the board hold `c`. */
  ghost function Count(b: Board, c: Cell): nat {
    |Cells(b, c)|
  }

  /** How many of the cells visited before (i, j) hold `c`. */
  ghost function CountBefore(b: Board, c: Cell, i: int, j: int): nat
    requires InRange(i, j)
    decreases i, j
  {
    if j == 0 then
      if i == 0 then 0 else CountBefore(b, c, i - 1, 3)
    else
      CountBefore(b, c, i, j - 1) + (if b[i][j - 1] == c then 1 else 0)
  }

  /** The positions holding `c` among the cells visited before (i, j). */
  ghost function CellsBefore(b: Board, c: Cell, i: int, j: int): set<Pos>
    requires InRange(i, j)
    decreases i, j
  {
    if j == 0 then
      if i == 0 then {} else CellsBefore(b, c, i - 1, 3)
    else
      var p: Pos := (i, j - 1);
      CellsBefore(b, c, i, j - 1) + (if At(b, p) == c then {p} else {})
  }

  /** A position is among those visited before (i, j) holding `c` exactly when it is visited before (i, j) and holds `c`. */
  lemma {:induction false} CellsBeforeMember(b: Board, c: Cell, i: int, j: int, p: Pos)
    requires InRange(i, j)
    ensures p in CellsBefore(b, c, i, j) <==> Before(p, i, j) && At(b, p) == c
    decreases i, j
  {
    if j == 0 {
      if i > 0 {
        CellsBeforeMember(b, c, i - 1, 3, p);
      }
    } else {
      CellsBeforeMember(b, c, i, j - 1, p);
    }
  }

  /** There are as many positions visited before (i, j) holding `c` as the count says. */
  lemma {:induction false} CellsBeforeCount(b: Board, c: Cell, i: int, j: int)
    requires InRange(i, j)
    ensures |CellsBefore(b, c, i, j)| == CountBefore(b, c, i, j)
    decreases i, j
  {
    if j == 0 {
      if i > 0 {
        CellsBeforeCount(b, c, i - 1, 3);
      }
    } else {
      CellsBeforeCount(b, c, i, j - 1);
      CellsBeforeMember(b, c, i, j - 1, (i, j - 1));
    }
  }

  /** Once every cell has been visited, the positions seen holding `c` are all of them, and so is their count. */
  lemma CellsBeforeAll(b: Board, c: Cell)
    ensures CellsBefore(b, c, 3, 0) == Cells(b, c)
    ensures CountBefore(b, c, 3, 0) == Count(b, c)
  {
    forall p: Pos ensures p in CellsBefore(b, c, 3, 0) <==> p in Cells(b, c) {
      CellsBeforeMember(b, c, 3, 0, p);
    }
    CellsBeforeCount(b, c, 3, 0);
  }

  /** Among the cells visited before (i, j) each holds exactly one of the three marks. */
  lemma {:induction false} CountsBeforeTotal(b: Board, i: int, j: int)
    requires InRange(i, j)
    ensures CountBefore(b, X, i, j) + CountBefore(b, O, i, j) + CountBefore(b, Empty, i, j) == 3 * i + j
    decreases i, j
  {
    if j == 0 {
      if i > 0 {
        CountsBeforeTotal(b, i - 1, 3);
      }
    } else {
      CountsBeforeTotal(b, i, j - 1);
    }
  }

  /** The X, O and empty counts of a board add up to nine. */
  lemma CountsTotal(b: Board)
    ensures Count(b, X) + Count(b, O) + Count(b, Empty) == 9
  {
    CountsBeforeTotal(b, 3, 0);
    CellsBeforeAll(b, X);
    CellsBeforeAll(b, O);
    CellsBeforeAll(b, Empty);
  }

  /** The mark of the side to move: X when both sides have placed equally many marks, O otherwise. */
  ghost function Turn(b: Board): Cell {
    if Count(b, X) == Count(b, O) then X else O
  }

  /**
   * The engine's `player`: counts the X and O marks cell by cell and returns
   * X when the counts are equal (the empty board included), O otherwise.
   */
  method Player(b: Board) returns (p: Cell)
    ensures p == X <==> Count(b, X) == Count(b, O)
    ensures p == O <==> Count(b, X) != Count(b, O)
    ensures p == Turn(b)
  {
    var x, o := 0, 0;
    for i := 0 to 3
      invariant x == CountBefore(b, X, i, 0) && o == CountBefore(b, O, i, 0)
    {
      for j := 0 to 3
        invariant x == CountBefore(b, X, i, j) && o == CountBefore(b, O, i, j)
      {
        if b[i][j] == X {
          x := x + 1;
        } else if b[i][j] == O {
          o := o + 1;
        }
      }
    }
    CellsBeforeAll(b, X);
    CellsBeforeAll(b, O);
    if (x == 0 && o == 0) || x - o == 0 {
      p := X;
    } else {
      p := O;
    }
  }

  /** On the starting board nine cells are empty, no mark is placed and X moves first. */
  lemma InitialStateTurn()
    ensures Count(InitialState(), Empty) == 9
    ensures Count(InitialState(), X) == 0 && Count(InitialState(), O) == 0
    ensures Turn(InitialState()) == X
  {
    var b := InitialState();
    assert Cells(b, X) == {} && Cells(b, O) == {} by {
      forall p: Pos ensures p !in Cells(b, X) && p !in Cells(b, O) {
        assert At(b, p) == Empty;
      }
    }
    CountsTotal(b);
  }
}
