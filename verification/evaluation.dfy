/** The static evaluator `heuristic(state, maximizingPlayer)`. */
module Evaluation {
  import opened Game

  /** Weight of a line of length `i`: `i*i*i*i*i`. */
  function Weight(i: int): (w: int)
  {
    i * i * i * i * i
  }

  /** Contribution of lines of length `i`, seen from `m`. */
  function LengthTerm(p: Pos, m: Player, i: int): (t: int)
  {
    Weight(i) * (p.lines(i, m) - p.lines(i, Other(m)))
  }

  /** Sum of the contributions of the lengths `i, i-1, ..., 2`; nothing when `i <= 1`. */
  function LengthSum(p: Pos, m: Player, i: int): (h: int)
    decreases i
  {
    if i <= 1 then 0 else LengthTerm(p, m, i) + LengthSum(p, m, i - 1)
  }

  /** The evaluation of `p` from the perspective of `m`: the loop from `winning` down to 2. */
  function Heuristic(p: Pos, m: Player): (h: int)
  {
    LengthSum(p, m, p.winning)
  }

  lemma {:induction false} LengthSumAntisymmetric(p: Pos, m: Player, i: int)
    ensures LengthSum(p, m, i) == -LengthSum(p, Other(m), i)
    decreases i
  {
    if i > 1 {
      LengthSumAntisymmetric(p, m, i - 1);
      var w, a, b := Weight(i), p.lines(i, m), p.lines(i, Other(m));
      assert Other(Other(m)) == m;
      assert w * (a - b) == -(w * (b - a));
    }
  }

  /** The evaluation is antisymmetric in perspective: what one player gains the other loses. */
  lemma HeuristicAntisymmetric(p: Pos, m: Player)
    ensures Heuristic(p, m) == -Heuristic(p, Other(m))
  {
    LengthSumAntisymmetric(p, m, p.winning);
  }

  lemma {:induction false} LengthSumBalanced(p: Pos, m: Player, i: int)
    requires forall j :: 2 <= j <= i ==> p.lines(j, X) == p.lines(j, O)
    ensures LengthSum(p, m, i) == 0
    decreases i
  {
    if i > 1 {
      LengthSumBalanced(p, m, i - 1);
      assert p.lines(i, m) == p.lines(i, Other(m));
    }
  }

  /** A position where both players own equally many lines of every counted length is neutral.
      This covers the position with no lines at all and every position whose threshold is below 2,
      where the loop does not run. */
  lemma HeuristicBalancedIsZero(p: Pos, m: Player)
    requires forall j :: 2 <= j <= p.winning ==> p.lines(j, X) == p.lines(j, O)
    ensures Heuristic(p, m) == 0
  {
    LengthSumBalanced(p, m, p.winning);
  }

  /** An empty board scores 0 from either side. */
  lemma HeuristicNoLinesIsZero(p: Pos, m: Player)
    requires forall j, q :: 2 <= j <= p.winning ==> p.lines(j, q) == 0
    ensures Heuristic(p, m) == 0
  {
    HeuristicBalancedIsZero(p, m);
  }

  lemma {:induction false} LengthSumFrame(p: Pos, q: Pos, m: Player, i: int)
    requires forall j, r :: 2 <= j <= i ==> p.lines(j, r) == q.lines(j, r)
    ensures LengthSum(p, m, i) == LengthSum(q, m, i)
    decreases i
  {
    if i > 1 {
      LengthSumFrame(p, q, m, i - 1);
      assert p.lines(i, m) == q.lines(i, m);
      assert p.lines(i, Other(m)) == q.lines(i, Other(m));
    }
  }

  /** Only the counts of lengths 2 to `winning` matter: in particular the count of
      single-cell lines, and of lines longer than the threshold, never changes the score. */
  lemma HeuristicFrame(p: Pos, q: Pos, m: Player)
    requires p.winning == q.winning
    requires forall j, r :: 2 <= j <= p.winning ==> p.lines(j, r) == q.lines(j, r)
    ensures Heuristic(p, m) == Heuristic(q, m)
  {
    LengthSumFrame(p, q, m, p.winning);
  }

  lemma MulLeftMonotone(x: int, a: int, b: int)
    requires 0 <= x && a <= b
    ensures x * a <= x * b
  {
  }

  lemma MulStrict(a: int, b: int, c: int, d: int)
    requires 0 < a < b && 0 < c <= d
    ensures a * c < b * d
  {
    MulLeftMonotone(c, a, b);
    assert a * c < b * c by {
      assert b * c - a * c == (b - a) * c;
    }
    MulLeftMonotone(b, c, d);
  }

  /** Longer lines weigh strictly more. */
  lemma WeightIncreasing(i: int, j: int)
    requires 2 <= i < j
    ensures 0 < Weight(i) < Weight(j)
  {
    MulStrict(i, j, i, j);
    MulStrict(i * i, j * j, i, j);
    MulStrict(i * i * i, j * j * j, i, j);
    MulStrict(i * i * i * i, j * j * j * j, i, j);
  }

  lemma LengthTermMonotone(p: Pos, q: Pos, m: Player, i: int)
    requires i >= 2
    requires p.lines(i, m) <= q.lines(i, m) && p.lines(i, Other(m)) >= q.lines(i, Other(m))
    ensures LengthTerm(p, m, i) <= LengthTerm(q, m, i)
  {
    WeightIncreasing(i, i + 1);
    MulLeftMonotone(Weight(i), p.lines(i, m) - p.lines(i, Other(m)), q.lines(i, m) - q.lines(i, Other(m)));
  }

  lemma {:induction false} LengthSumMonotone(p: Pos, q: Pos, m: Player, i: int)
    requires forall j :: 2 <= j <= i ==> p.lines(j, m) <= q.lines(j, m)
    requires forall j :: 2 <= j <= i ==> p.lines(j, Other(m)) >= q.lines(j, Other(m))
    ensures LengthSum(p, m, i) <= LengthSum(q, m, i)
    decreases i
  {
    if i > 1 {
      LengthSumMonotone(p, q, m, i - 1);
      LengthTermMonotone(p, q, m, i);
    }
  }

  /** More lines for the maximizer and fewer for the minimizer never lower the score. */
  lemma HeuristicMonotone(p: Pos, q: Pos, m: Player)
    requires p.winning == q.winning
    requires forall j :: 2 <= j <= p.winning ==> p.lines(j, m) <= q.lines(j, m)
    requires forall j :: 2 <= j <= p.winning ==> p.lines(j, Other(m)) >= q.lines(j, Other(m))
    ensures Heuristic(p, m) <= Heuristic(q, m)
  {
    LengthSumMonotone(p, q, m, p.winning);
  }

  /** On a 7x6 board with 4 in a row each player owns at most 21 pieces and each piece
      lies on at most four maximal lines (one per direction), so `len * lines(len, q) <= 84`.
      Under that bound every evaluation lies in [-29652, 29652]. */
  lemma ConnectFourEvaluationBound(p: Pos, m: Player)
    requires p.winning == 4
    requires forall j, q :: 2 <= j <= 4 ==> j * p.lines(j, q) <= 84
    ensures -29652 <= Heuristic(p, m) <= 29652
  {
    var o := Other(m);
    assert 2 * p.lines(2, m) <= 84 && 2 * p.lines(2, o) <= 84;
    assert 3 * p.lines(3, m) <= 84 && 3 * p.lines(3, o) <= 84;
    assert 4 * p.lines(4, m) <= 84 && 4 * p.lines(4, o) <= 84;
    assert Heuristic(p, m)
      == 1024 * (p.lines(4, m) - p.lines(4, o))
       + 243 * (p.lines(3, m) - p.lines(3, o))
       + 32 * (p.lines(2, m) - p.lines(2, o));
  }

  /** The `i^5` weights do not let one line a cell short of winning outweigh every
      combination of shorter lines: with 4 in a row, eight lines of length 2 beat one of length 3. */
  lemma ShortLinesCanOutweigh() returns (p: Pos)
    ensures p.winning == 4
    ensures p.lines(3, X) == 1 && p.lines(3, O) == 0
    ensures p.lines(2, X) == 0 && p.lines(2, O) == 8
    ensures p.lines(4, X) == 0 && p.lines(4, O) == 0
    ensures Heuristic(p, X) < 0
  {
    p := Pos(X, 4, (len: int, q: Player) => if len == 3 && q == X then 1 else if len == 2 && q == O then 8 else 0, [], []);
    assert Heuristic(p, X) == 1024 * 0 + 243 * 1 + 32 * (-8);
  }
}
