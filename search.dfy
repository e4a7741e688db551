/**
 * The adversarial search of the tic-tac-toe engine: minimax with alpha-beta
 * pruning, and the choice of a best move at the root.
 */
module Search {
  import Wrappers
  import opened BoardState
  import opened Outcome
  import opened Moves

  /**
   * Stand-in for the engine's `float("inf")`: every utility lies strictly
   * between -Inf and Inf, which is all the search relies on.
   */
  const Inf: int := 2

  function Max(x: int, y: int): int { if x >= y then x else y }

  function Min(x: int, y: int): int { if x <= y then x else y }

  /** The `k`-th position visited, row by row. */
  function PosOf(k: int): Pos
    requires 0 <= k < 9
  {
    (k / 3, k % 3)
  }

  /** Every position is visited, at place 3 * row + column. */
  lemma PosOfIndex(p: Pos)
    ensures 0 <= 3 * p.0 + p.1 < 9 && PosOf(3 * p.0 + p.1) == p
  {
  }

  /*
   * The unpruned minimax values. As in the engine, the maximising search
   * always evaluates children with the minimising search and vice versa; the
   * side to move is not consulted below the root.
   */

  /** The value of `b` for the maximiser: its utility when terminal, else the largest child value. */
  ghost function MaxVal(b: Board): (v: int)
    ensures -1 <= v <= 1
    decreases Count(b, Empty), 1, 0
  {
    if Terminal(b) then Utility(b)
    else
      NonTerminalHasEmpty(b);
      var p: Pos :| At(b, p) == Empty;
      PosOfIndex(p);
      MaxOver(b, 0)
  }

  /** The value of `b` for the minimiser: its utility when terminal, else the smallest child value. */
  ghost function MinVal(b: Board): (v: int)
    ensures -1 <= v <= 1
    decreases Count(b, Empty), 1, 0
  {
    if Terminal(b) then Utility(b)
    else
      NonTerminalHasEmpty(b);
      var p: Pos :| At(b, p) == Empty;
      PosOfIndex(p);
      MinOver(b, 0)
  }

  /** The largest `MinVal` of the children reached through empty positions visited from place `k` on; -Inf when there are none. */
  ghost function MaxOver(b: Board, k: nat): (v: int)
    requires k <= 9
    ensures v == -Inf || -1 <= v <= 1
    ensures v == -Inf <==> forall m | k <= m < 9 :: At(b, PosOf(m)) != Empty
    decreases Count(b, Empty), 0, 9 - k
  {
    if k == 9 then -Inf
    else
      var p := PosOf(k);
      var rest := MaxOver(b, k + 1);
      if At(b, p) != Empty then rest
      else
        SuccessorCounts(b, p);
        Max(MinVal(Successor(b, p)), rest)
  }

  /** The smallest `MaxVal` of the children reached through empty positions visited from place `k` on; Inf when there are none. */
  ghost function MinOver(b: Board, k: nat): (v: int)
    requires k <= 9
    ensures v == Inf || -1 <= v <= 1
    ensures v == Inf <==> forall m | k <= m < 9 :: At(b, PosOf(m)) != Empty
    decreases Count(b, Empty), 0, 9 - k
  {
    if k == 9 then Inf
    else
      var p := PosOf(k);
      var rest := MinOver(b, k + 1);
      if At(b, p) != Empty then rest
      else
        SuccessorCounts(b, p);
        Min(MaxVal(Successor(b, p)), rest)
  }

  /** One place of `MaxOver`: it is at least the rest of the scan and at least the child at this place. */
  lemma MaxOverStep(b: Board, k: nat)
    requires k < 9
    ensures MaxOver(b, k + 1) <= MaxOver(b, k)
    ensures At(b, PosOf(k)) == Empty ==> MinVal(Successor(b, PosOf(k))) <= MaxOver(b, k)
  {
  }

  /** `MaxOver` bounds every child it ranges over. */
  lemma {:induction false} MaxOverBound(b: Board, k: nat)
    requires k <= 9
    ensures forall m | k <= m < 9 && At(b, PosOf(m)) == Empty :: MinVal(Successor(b, PosOf(m))) <= MaxOver(b, k)
    decreases 9 - k
  {
    if k < 9 {
      MaxOverBound(b, k + 1);
      MaxOverStep(b, k);
      forall m | k < m < 9 && At(b, PosOf(m)) == Empty
        ensures MinVal(Successor(b, PosOf(m))) <= MaxOver(b, k)
      {
        assert MinVal(Successor(b, PosOf(m))) <= MaxOver(b, k + 1);
      }
    }
  }

  /** `MaxOver` is -Inf or attained by one of the children it ranges over. */
  lemma {:induction false} MaxOverAttained(b: Board, k: nat)
    requires k <= 9
    ensures MaxOver(b, k) == -Inf ||
            exists m | k <= m < 9 && At(b, PosOf(m)) == Empty :: MinVal(Successor(b, PosOf(m))) == MaxOver(b, k)
    decreases 9 - k
  {
    if k < 9 {
      MaxOverAttained(b, k + 1);
    }
  }

  /** One place of `MinOver`: it is at most the rest of the scan and at most the child at this place. */
  lemma MinOverStep(b: Board, k: nat)
    requires k < 9
    ensures MinOver(b, k) <= MinOver(b, k + 1)
    ensures At(b, PosOf(k)) == Empty ==> MinOver(b, k) <= MaxVal(Successor(b, PosOf(k)))
  {
  }

  /** `MinOver` bounds every child it ranges over from below. */
  lemma {:induction false} MinOverBound(b: Board, k: nat)
    requires k <= 9
    ensures forall m | k <= m < 9 && At(b, PosOf(m)) == Empty :: MinOver(b, k) <= MaxVal(Successor(b, PosOf(m)))
    decreases 9 - k
  {
    if k < 9 {
      MinOverBound(b, k + 1);
      MinOverStep(b, k);
      forall m | k < m < 9 && At(b, PosOf(m)) == Empty
        ensures MinOver(b, k) <= MaxVal(Successor(b, PosOf(m)))
      {
        assert MinOver(b, k + 1) <= MaxVal(Successor(b, PosOf(m)));
      }
    }
  }

  /** `MinOver` is Inf or attained by one of the children it ranges over. */
  lemma {:induction false} MinOverAttained(b: Board, k: nat)
    requires k <= 9
    ensures MinOver(b, k) == Inf ||
            exists m | k <= m < 9 && At(b, PosOf(m)) == Empty :: MaxVal(Successor(b, PosOf(m))) == MinOver(b, k)
    decreases 9 - k
  {
    if k < 9 {
      MinOverAttained(b, k + 1);
    }
  }

  /** On a board that is not terminal, `MaxVal` is at least the `MinVal` of every child. */
  lemma MaxValAbove(b: Board, p: Pos)
    requires !Terminal(b) && At(b, p) == Empty
    ensures MinVal(Successor(b, p)) <= MaxVal(b)
  {
    MaxOverBound(b, 0);
    PosOfIndex(p);
  }

  /** On a board that is not terminal, `MaxVal` is the `MinVal` of some child. */
  lemma MaxValAttained(b: Board)
    requires !Terminal(b)
    ensures exists p: Pos | At(b, p) == Empty :: MinVal(Successor(b, p)) == MaxVal(b)
  {
    MaxOverAttained(b, 0);
    assert MaxOver(b, 0) == MaxVal(b);
    var m :| 0 <= m < 9 && At(b, PosOf(m)) == Empty && MinVal(Successor(b, PosOf(m))) == MaxOver(b, 0);
    var p := PosOf(m);
  }

  /** On a board that is not terminal, `MaxVal` is the maximum of `MinVal` over the children. */
  lemma MaxValChildren(b: Board)
    requires !Terminal(b)
    ensures forall p: Pos | At(b, p) == Empty :: MinVal(Successor(b, p)) <= MaxVal(b)
    ensures exists p: Pos | At(b, p) == Empty :: MinVal(Successor(b, p)) == MaxVal(b)
  {
    forall p: Pos | At(b, p) == Empty ensures MinVal(Successor(b, p)) <= MaxVal(b) {
      MaxValAbove(b, p);
    }
    MaxValAttained(b);
  }

  /** On a board that is not terminal, `MinVal` is at most the `MaxVal` of every child. */
  lemma MinValBelow(b: Board, p: Pos)
    requires !Terminal(b) && At(b, p) == Empty
    ensures MinVal(b) <= MaxVal(Successor(b, p))
  {
    MinOverBound(b, 0);
    PosOfIndex(p);
  }

  /** On a board that is not terminal, `MinVal` is the `MaxVal` of some child. */
  lemma MinValAttained(b: Board)
    requires !Terminal(b)
    ensures exists p: Pos | At(b, p) == Empty :: MaxVal(Successor(b, p)) == MinVal(b)
  {
    MinOverAttained(b, 0);
    assert MinOver(b, 0) == MinVal(b);
    var m :| 0 <= m < 9 && At(b, PosOf(m)) == Empty && MaxVal(Successor(b, PosOf(m))) == MinOver(b, 0);
    var p := PosOf(m);
  }

  /** On a board that is not terminal, `MinVal` is the minimum of `MaxVal` over the children. */
  lemma MinValChildren(b: Board)
    requires !Terminal(b)
    ensures forall p: Pos | At(b, p) == Empty :: MinVal(b) <= MaxVal(Successor(b, p))
    ensures exists p: Pos | At(b, p) == Empty :: MaxVal(Successor(b, p)) == MinVal(b)
  {
    forall p: Pos | At(b, p) == Empty ensures MinVal(b) <= MaxVal(Successor(b, p)) {
      MinValBelow(b, p);
    }
    MinValAttained(b);
  }

  /**
   * The fail-soft alpha-beta relation between a pruned result `v` and the true
   * value `t` for the window (alpha, beta): a result at or below alpha bounds
   * `t` from above, a result inside the window is `t`, and a result at or above
   * beta bounds `t` from below.
   */
  predicate FailSoft(v: int, t: int, alpha: int, beta: int) {
    && (v <= alpha ==> t <= v)
    && (alpha < v < beta ==> t == v)
    && (beta <= v ==> v <= t)
  }

  /**
   * Read from the true value's side: a true value inside the window is
   * returned exactly, and one outside it yields a result on the same side.
   */
  lemma FailSoftWindow(v: int, t: int, alpha: int, beta: int)
    requires alpha < beta && FailSoft(v, t, alpha, beta)
    ensures alpha < t < beta ==> v == t
    ensures t <= alpha ==> v <= alpha
    ensures beta <= t ==> beta <= v
  {
  }

  /** The `MinVal` of each child of `b`, by the empty position that leads to it. */
  ghost function MinChildren(b: Board): (m: map<Pos, int>)
    ensures m.Keys == Cells(b, Empty)
    ensures forall p | p in m :: At(b, p) == Empty && m[p] == MinVal(Successor(b, p))
  {
    map p | p in Cells(b, Empty) :: MinVal(Successor(b, p))
  }

  /** The `MaxVal` of each child of `b`, by the empty position that leads to it. */
  ghost function MaxChildren(b: Board): (m: map<Pos, int>)
    ensures m.Keys == Cells(b, Empty)
    ensures forall p | p in m :: At(b, p) == Empty && m[p] == MaxVal(Successor(b, p))
  {
    map p | p in Cells(b, Empty) :: MaxVal(Successor(b, p))
  }

  /**
   * The state of `maxvalue` after scoring the children in `done`, whose true
   * values are `vals`, without a cut: `v` is at least every true value seen and
   * is one of them unless it is at or below alpha, and the running alpha `a`
   * is alpha raised to `v`.
   */
  ghost predicate MaxScan(vals: map<Pos, int>, done: set<Pos>, v: int, a: int, alpha: int, beta: int) {
    && done <= vals.Keys
    && alpha <= a < beta
    && (done == {} ==> v == -Inf && a == alpha)
    && (done != {} ==> -1 <= v <= 1 && a == Max(alpha, v))
    && (forall p | p in done :: vals[p] <= v)
    && (done == {} || v <= alpha || exists p | p in done :: vals[p] == v)
  }

  /** The state of `minvalue` after scoring the children in `done` without a cut; the mirror image of `MaxScan`. */
  ghost predicate MinScan(vals: map<Pos, int>, done: set<Pos>, v: int, bt: int, alpha: int, beta: int) {
    && done <= vals.Keys
    && alpha < bt <= beta
    && (done == {} ==> v == Inf && bt == beta)
    && (done != {} ==> -1 <= v <= 1 && bt == Min(beta, v))
    && (forall p | p in done :: v <= vals[p])
    && (done == {} || beta <= v || exists p | p in done :: vals[p] == v)
  }

  /**
   * One step of `maxvalue`: a child scored under the window (a, beta) either
   * reaches beta, which bounds its true value from below, or leaves the scan
   * state intact for the larger set of children.
   */
  lemma MaxScanStep(vals: map<Pos, int>, done: set<Pos>, act: Pos, v: int, a: int, alpha: int, beta: int, score: int)
    requires MaxScan(vals, done, v, a, alpha, beta)
    requires act in vals && -1 <= score <= 1
    requires FailSoft(score, vals[act], a, beta)
    ensures beta <= Max(a, score) ==> Max(v, score) == score && score <= vals[act]
    ensures Max(a, score) < beta ==> MaxScan(vals, done + {act}, Max(v, score), Max(a, score), alpha, beta)
  {
    var v', a' := Max(v, score), Max(a, score);
    if a' < beta && v' != v {
      if score <= a {
        assert v' <= alpha;
      } else {
        assert vals[act] == v';
      }
    }
  }

  /** One step of `minvalue`; the mirror image of `MaxScanStep`. */
  lemma MinScanStep(vals: map<Pos, int>, done: set<Pos>, act: Pos, v: int, bt: int, alpha: int, beta: int, score: int)
    requires MinScan(vals, done, v, bt, alpha, beta)
    requires act in vals && -1 <= score <= 1
    requires FailSoft(score, vals[act], alpha, bt)
    ensures Min(bt, score) <= alpha ==> Min(v, score) == score && vals[act] <= score
    ensures alpha < Min(bt, score) ==> MinScan(vals, done + {act}, Min(v, score), Min(bt, score), alpha, beta)
  {
    var v', bt' := Min(v, score), Min(bt, score);
    if alpha < bt' && v' != v {
      if bt <= score {
        assert beta <= v';
      } else {
        assert vals[act] == v';
      }
    }
  }

  /** A `maxvalue` scan over all children without a cut ends with the fail-soft relation to `MaxVal`. */
  lemma MaxScanFinish(b: Board, done: set<Pos>, v: int, a: int, alpha: int, beta: int)
    requires !Terminal(b) && MaxScan(MinChildren(b), done, v, a, alpha, beta)
    requires forall p: Pos :: At(b, p) == Empty ==> p in done
    ensures -1 <= v <= 1 && FailSoft(v, MaxVal(b), alpha, beta)
  {
    var vals := MinChildren(b);
    NonTerminalHasEmpty(b);
    MaxValAttained(b);
    var p: Pos :| At(b, p) == Empty && MinVal(Successor(b, p)) == MaxVal(b);
    assert p in done;
    if alpha < v {
      var q :| q in vals && vals[q] == v;
      MaxValAbove(b, q);
    }
  }

  /** A `minvalue` scan over all children without a cut ends with the fail-soft relation to `MinVal`. */
  lemma MinScanFinish(b: Board, done: set<Pos>, v: int, bt: int, alpha: int, beta: int)
    requires !Terminal(b) && MinScan(MaxChildren(b), done, v, bt, alpha, beta)
    requires forall p: Pos :: At(b, p) == Empty ==> p in done
    ensures -1 <= v <= 1 && FailSoft(v, MinVal(b), alpha, beta)
  {
    var vals := MaxChildren(b);
    NonTerminalHasEmpty(b);
    MinValAttained(b);
    var p: Pos :| At(b, p) == Empty && MaxVal(Successor(b, p)) == MinVal(b);
    assert p in done;
    if v < beta {
      var q :| q in vals && vals[q] == v;
      MinValBelow(b, q);
    }
  }

  /**
   * The expression `minvalue(result(board, act), alpha, beta)` inside
   * `maxvalue`'s loop: the child is built with `Result` and searched.
   */
  method MinOfChild(b: Board, act: Pos, alpha: int, beta: int) returns (score: int)
    requires At(b, act) == Empty && alpha < beta
    ensures -1 <= score <= 1 && FailSoft(score, MinVal(Successor(b, act)), alpha, beta)
    decreases Count(b, Empty), 0
  {
    SuccessorCounts(b, act);
    var next := Result(b, act);
    score := MinValue(next.value, alpha, beta);
  }

  /** The expression `maxvalue(result(board, act), alpha, beta)` inside `minvalue`'s loop. */
  method MaxOfChild(b: Board, act: Pos, alpha: int, beta: int) returns (score: int)
    requires At(b, act) == Empty && alpha < beta
    ensures -1 <= score <= 1 && FailSoft(score, MaxVal(Successor(b, act)), alpha, beta)
    decreases Count(b, Empty), 0
  {
    SuccessorCounts(b, act);
    var next := Result(b, act);
    score := MaxValue(next.value, alpha, beta);
  }

  /** Moving one element from the pending set to the finished one keeps the two a partition and shrinks the pending set. */
  lemma MoveToDone<T>(all: set<T>, todo: set<T>, x: T)
    requires x in todo && todo <= all
    ensures (all - todo) + {x} == all - (todo - {x}) && todo - {x} <= all
    ensures |todo - {x}| < |todo|
  {}

  /**
   * The engine's `maxvalue`: the utility of a terminal board; otherwise the
   * children are evaluated with `minvalue` one by one, in any order, raising
   * `v` and alpha, and the scan stops as soon as alpha reaches beta.
   */
  method MaxValue(b: Board, alpha: int, beta: int) returns (v: int)
    requires alpha < beta
    ensures -1 <= v <= 1
    ensures Terminal(b) ==> v == Utility(b)
    ensures FailSoft(v, MaxVal(b), alpha, beta)
    decreases Count(b, Empty), 1
  {
    v := -Inf;
    var t := IsTerminal(b);
    if t {
      return Utility(b);
    }
    var acts := Actions(b);
    var a := alpha;
    var moves := acts.value;
    var todo := moves;
    ghost var vals := MinChildren(b);
    ghost var done: set<Pos> := {};
    while todo != {}
      invariant todo <= moves && done == moves - todo
      invariant MaxScan(vals, done, v, a, alpha, beta)
      decreases |todo|
    {
      var act :| act in todo;
      MoveToDone(moves, todo, act);
      todo := todo - {act};
      var score := MinOfChild(b, act, a, beta);
      MaxScanStep(vals, done, act, v, a, alpha, beta, score);
      done := done + {act};
      v := Max(v, score);
      a := Max(a, score);
      if beta <= a {
        MaxValAbove(b, act);
        break;
      }
    }
    if a < beta {
      MaxScanFinish(b, done, v, a, alpha, beta);
    }
  }

  /**
   * The engine's `minvalue`: the utility of a terminal board; otherwise the
   * children are evaluated with `maxvalue` one by one, in any order, lowering
   * `v` and beta, and the scan stops as soon as beta reaches alpha.
   */
  method MinValue(b: Board, alpha: int, beta: int) returns (v: int)
    requires alpha < beta
    ensures -1 <= v <= 1
    ensures Terminal(b) ==> v == Utility(b)
    ensures FailSoft(v, MinVal(b), alpha, beta)
    decreases Count(b, Empty), 1
  {
    v := Inf;
    var t := IsTerminal(b);
    if t {
      return Utility(b);
    }
    var acts := Actions(b);
    var bt := beta;
    var moves := acts.value;
    var todo := moves;
    ghost var vals := MaxChildren(b);
    ghost var done: set<Pos> := {};
    while todo != {}
      invariant todo <= moves && done == moves - todo
      invariant MinScan(vals, done, v, bt, alpha, beta)
      decreases |todo|
    {
      var act :| act in todo;
      MoveToDone(moves, todo, act);
      todo := todo - {act};
      var score := MaxOfChild(b, act, alpha, bt);
      MinScanStep(vals, done, act, v, bt, alpha, beta, score);
      done := done + {act};
      v := Min(v, score);
      bt := Min(bt, score);
      if bt <= alpha {
        MinValBelow(b, act);
        break;
      }
    }
    if alpha < bt {
      MinScanFinish(b, done, v, bt, alpha, beta);
    }
  }

  /** Python's `max` over the values of a non-empty dictionary: one of the values, and no smaller than any. */
  method MaxScore(scores: map<Pos, int>) returns (m: int)
    requires scores != map[]
    ensures exists k | k in scores :: scores[k] == m
    ensures forall k | k in scores :: scores[k] <= m
  {
    var first :| first in scores;
    m := scores[first];
    var todo := scores.Keys - {first};
    while todo != {}
      invariant todo <= scores.Keys && first in scores && first !in todo
      invariant exists k | k in scores :: scores[k] == m
      invariant forall k | k in scores && k !in todo :: scores[k] <= m
      decreases |todo|
    {
      var k :| k in todo;
      MoveToDone(scores.Keys, todo, k);
      todo := todo - {k};
      if scores[k] > m {
        m := scores[k];
      }
    }
  }

  /** Python's `min` over the values of a non-empty dictionary. */
  method MinScore(scores: map<Pos, int>) returns (m: int)
    requires scores != map[]
    ensures exists k | k in scores :: scores[k] == m
    ensures forall k | k in scores :: m <= scores[k]
  {
    var first :| first in scores;
    m := scores[first];
    var todo := scores.Keys - {first};
    while todo != {}
      invariant todo <= scores.Keys && first in scores && first !in todo
      invariant exists k | k in scores :: scores[k] == m
      invariant forall k | k in scores && k !in todo :: m <= scores[k]
      decreases |todo|
    {
      var k :| k in todo;
      MoveToDone(scores.Keys, todo, k);
      todo := todo - {k};
      if scores[k] < m {
        m := scores[k];
      }
    }
  }

  /**
   * The scores X's root loop collects: every empty position is a key, and each
   * key maps to the minimiser's value of the child it leads to.
   */
  ghost predicate RootScoresForX(b: Board, scores: map<Pos, int>) {
    && (forall p: Pos :: At(b, p) == Empty ==> p in scores)
    && (forall p | p in scores :: At(b, p) == Empty && scores[p] == MinVal(Successor(b, p)))
  }

  /** The scores O's root loop collects: the maximiser's value of every child. */
  ghost predicate RootScoresForO(b: Board, scores: map<Pos, int>) {
    && (forall p: Pos :: At(b, p) == Empty ==> p in scores)
    && (forall p | p in scores :: At(b, p) == Empty && scores[p] == MaxVal(Successor(b, p)))
  }

  /** The largest root score is the maximiser's value of the board. */
  lemma RootMaxIsMaxVal(b: Board, scores: map<Pos, int>, m: int)
    requires !Terminal(b) && RootScoresForX(b, scores)
    requires (exists k | k in scores :: scores[k] == m) && (forall k | k in scores :: scores[k] <= m)
    ensures m == MaxVal(b)
  {
    MaxValAttained(b);
    var p: Pos :| At(b, p) == Empty && MinVal(Successor(b, p)) == MaxVal(b);
    assert p in scores;
    var k :| k in scores && scores[k] == m;
    MaxValAbove(b, k);
  }

  /** The smallest root score is the minimiser's value of the board. */
  lemma RootMinIsMinVal(b: Board, scores: map<Pos, int>, m: int)
    requires !Terminal(b) && RootScoresForO(b, scores)
    requires (exists k | k in scores :: scores[k] == m) && (forall k | k in scores :: m <= scores[k])
    ensures m == MinVal(b)
  {
    MinValAttained(b);
    var p: Pos :| At(b, p) == Empty && MaxVal(Successor(b, p)) == MinVal(b);
    assert p in scores;
    var k :| k in scores && scores[k] == m;
    MinValBelow(b, k);
  }

  /** Under the full window (-Inf, Inf) the fail-soft score of a child is its exact value. */
  lemma FullWindowExact(v: int, t: int)
    requires -1 <= v <= 1 && -1 <= t <= 1 && FailSoft(v, t, -Inf, Inf)
    ensures v == t
  {
  }

  /**
   * The loop `for act in actions(board): amax[act] = minvalue(result(board, act), alpha, beta)`
   * of X's branch of `minimax`, run under the full window.
   */
  method ScoreMovesForX(b: Board, moves: set<Pos>) returns (scores: map<Pos, int>)
    requires forall p: Pos :: p in moves <==> At(b, p) == Empty
    ensures RootScoresForX(b, scores)
  {
    scores := map[];
    var todo := moves;
    while todo != {}
      invariant todo <= moves
      invariant forall p | p in moves && p !in todo :: p in scores
      invariant forall p | p in scores :: At(b, p) == Empty && scores[p] == MinVal(Successor(b, p))
      decreases |todo|
    {
      var act :| act in todo;
      MoveToDone(moves, todo, act);
      todo := todo - {act};
      var score := MinOfChild(b, act, -Inf, Inf);
      FullWindowExact(score, MinVal(Successor(b, act)));
      scores := scores[act := score];
    }
  }

  /** The loop that fills `amin` in O's branch of `minimax`, run under the full window. */
  method ScoreMovesForO(b: Board, moves: set<Pos>) returns (scores: map<Pos, int>)
    requires forall p: Pos :: p in moves <==> At(b, p) == Empty
    ensures RootScoresForO(b, scores)
  {
    scores := map[];
    var todo := moves;
    while todo != {}
      invariant todo <= moves
      invariant forall p | p in moves && p !in todo :: p in scores
      invariant forall p | p in scores :: At(b, p) == Empty && scores[p] == MaxVal(Successor(b, p))
      decreases |todo|
    {
      var act :| act in todo;
      MoveToDone(moves, todo, act);
      todo := todo - {act};
      var score := MaxOfChild(b, act, -Inf, Inf);
      FullWindowExact(score, MaxVal(Successor(b, act)));
      scores := scores[act := score];
    }
  }

  /**
   * The engine's `minimax`: nothing on a finished board; otherwise every
   * child is scored under the full window, and a move whose score is best
   * for the side to move is returned, picked at random among the ties (the
   * pick is a nondeterministic choice here).
   */
  method Minimax(b: Board) returns (r: Wrappers.Option<Pos>)
    ensures r.None? <==> Terminal(b)
    ensures r.Some? ==> At(b, r.value) == Empty
    ensures r.Some? && Turn(b) == X ==> MinVal(Successor(b, r.value)) == MaxVal(b)
    ensures r.Some? && Turn(b) == X ==>
      forall p: Pos | At(b, p) == Empty :: MinVal(Successor(b, p)) <= MinVal(Successor(b, r.value))
    ensures r.Some? && Turn(b) == O ==> MaxVal(Successor(b, r.value)) == MinVal(b)
    ensures r.Some? && Turn(b) == O ==>
      forall p: Pos | At(b, p) == Empty :: MaxVal(Successor(b, r.value)) <= MaxVal(Successor(b, p))
  {
    var t := IsTerminal(b);
    if t {
      return Wrappers.None;
    }
    var pl := Player(b);
    var acts := Actions(b);
    NonTerminalHasEmpty(b);
    if pl == X {
      var amax := ScoreMovesForX(b, acts.value);
      var maxrnd := MaxScore(amax);
      RootMaxIsMaxVal(b, amax, maxrnd);
      MaxValChildren(b);
      var choice :| choice in amax && amax[choice] == maxrnd;
      return Wrappers.Some(choice);
    } else {
      var amin := ScoreMovesForO(b, acts.value);
      var minrnd := MinScore(amin);
      RootMinIsMinVal(b, amin, minrnd);
      MinValChildren(b);
      var choice :| choice in amin && amin[choice] == minrnd;
      return Wrappers.Some(choice);
    }
  }
}
