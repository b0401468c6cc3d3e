/** The depth-bounded adversarial search `minimax(state, depth, maximizingPlayer)`. */
module Search {
  import opened Game
  import opened Evaluation
  import opened Folds

  /** Seed of the max-fold: `-10000000`. */
  const MaxSeed: int := -10_000_000
  /** Seed of the min-fold: `10000000`. */
  const MinSeed: int := 10_000_000

  /** The value of `p` searched `depth` moves deep, from the fixed perspective `m`.
      The mover `p.next` decides between the max-fold and the min-fold; `m` never changes. */
  function Minimax(p: Pos, depth: nat, m: Player): (v: int)
    decreases depth, 0
  {
    if depth == 0 || |p.children| == 0 then Heuristic(p, m)
    else if p.next == m then FoldMax(ChildValues(p, depth - 1, m), MaxSeed)
    else FoldMin(ChildValues(p, depth - 1, m), MinSeed)
  }

  /** `minimax(child, d, m)` for every successor, in `nextStates()` order. */
  function ChildValues(p: Pos, d: nat, m: Player): (vals: seq<int>)
    ensures |vals| == |p.children|
    decreases d, 1
  {
    seq(|p.children|, i requires 0 <= i < |p.children| => Minimax(p.children[i], d, m))
  }

  /** At the search horizon, or at a position without successors, the search is the evaluation. */
  lemma MinimaxAtHorizon(p: Pos, depth: nat, m: Player)
    requires depth == 0 || |p.children| == 0
    ensures Minimax(p, depth, m) == Heuristic(p, m)
  {
  }

  /** When the maximizer moves and every child value lies above the seed,
      the value is the largest child value. */
  lemma MinimaxMaxNode(p: Pos, depth: nat, m: Player)
    requires depth > 0 && |p.children| > 0 && p.next == m
    requires forall i :: 0 <= i < |p.children| ==> MaxSeed < Minimax(p.children[i], depth - 1, m)
    ensures forall i :: 0 <= i < |p.children| ==> Minimax(p.children[i], depth - 1, m) <= Minimax(p, depth, m)
    ensures exists i :: 0 <= i < |p.children| && Minimax(p, depth, m) == Minimax(p.children[i], depth - 1, m)
  {
    var vals := ChildValues(p, depth - 1, m);
    var r := FoldMax(vals, MaxSeed);
    assert Minimax(p, depth, m) == r;
    forall i | 0 <= i < |vals|
      ensures Minimax(p.children[i], depth - 1, m) <= r
    {
      assert vals[i] == Minimax(p.children[i], depth - 1, m);
    }
    assert vals[0] == Minimax(p.children[0], depth - 1, m);
    assert r != MaxSeed;
    var i :| 0 <= i < |vals| && vals[i] == r;
    assert vals[i] == Minimax(p.children[i], depth - 1, m);
  }

  /** When the minimizer moves and every child value lies below the seed,
      the value is the smallest child value. */
  lemma MinimaxMinNode(p: Pos, depth: nat, m: Player)
    requires depth > 0 && |p.children| > 0 && p.next != m
    requires forall i :: 0 <= i < |p.children| ==> Minimax(p.children[i], depth - 1, m) < MinSeed
    ensures forall i :: 0 <= i < |p.children| ==> Minimax(p, depth, m) <= Minimax(p.children[i], depth - 1, m)
    ensures exists i :: 0 <= i < |p.children| && Minimax(p, depth, m) == Minimax(p.children[i], depth - 1, m)
  {
    var vals := ChildValues(p, depth - 1, m);
    var r := FoldMin(vals, MinSeed);
    assert Minimax(p, depth, m) == r;
    forall i | 0 <= i < |vals|
      ensures r <= Minimax(p.children[i], depth - 1, m)
    {
      assert vals[i] == Minimax(p.children[i], depth - 1, m);
    }
    assert vals[0] == Minimax(p.children[0], depth - 1, m);
    assert r != MinSeed;
    var i :| 0 <= i < |vals| && vals[i] == r;
    assert vals[i] == Minimax(p.children[i], depth - 1, m);
  }

  /** The game is zero-sum: searching for the other player negates the value. */
  lemma {:induction false} MinimaxAntisymmetric(p: Pos, depth: nat, m: Player)
    ensures Minimax(p, depth, m) == -Minimax(p, depth, Other(m))
    decreases depth
  {
    var o := Other(m);
    assert Other(o) == m;
    if depth == 0 || |p.children| == 0 {
      HeuristicAntisymmetric(p, m);
    } else {
      forall i | 0 <= i < |p.children|
        ensures Minimax(p.children[i], depth - 1, o) == -Minimax(p.children[i], depth - 1, m)
      {
        MinimaxAntisymmetric(p.children[i], depth - 1, o);
      }
      var vm, vo := ChildValues(p, depth - 1, m), ChildValues(p, depth - 1, o);
      if p.next == m {
        assert vm == Negated(vo);
        FoldMaxNegated(vo, MinSeed);
      } else {
        assert p.next == o;
        assert vo == Negated(vm);
        FoldMaxNegated(vm, MinSeed);
      }
    }
  }

  /** Every position reachable within `d` moves evaluates inside [-k, k]. */
  predicate EvaluationsWithin(p: Pos, d: nat, m: Player, k: int)
    decreases d
  {
    && -k <= Heuristic(p, m) <= k
    && (d > 0 ==> forall i :: 0 <= i < |p.children| ==> EvaluationsWithin(p.children[i], d - 1, m, k))
  }

  /** When every evaluation in the searched tree lies strictly inside the seeds,
      so does the search value: the seeds never leak out. */
  lemma {:induction false} MinimaxWithin(p: Pos, depth: nat, m: Player, k: int)
    requires 0 <= k < MinSeed
    requires EvaluationsWithin(p, depth, m, k)
    ensures -k <= Minimax(p, depth, m) <= k
    decreases depth
  {
    if depth > 0 && |p.children| > 0 {
      var vals := ChildValues(p, depth - 1, m);
      forall i | 0 <= i < |vals|
        ensures -k <= vals[i] <= k
      {
        MinimaxWithin(p.children[i], depth - 1, m, k);
      }
      if p.next == m {
        assert FoldMax(vals, MaxSeed) >= vals[0] > MaxSeed;
      } else {
        assert FoldMin(vals, MinSeed) <= vals[0] < MinSeed;
      }
    }
  }
}
