/** `minimaxAlphaBetaWrapper` and its inner `minimaxAB`.

    `minimaxAB` is not recursive: below the node it is called on, it calls plain
    `minimax`. So pruning happens at that one node only, inside the `reduce` whose
    callback updates the closed-over `alpha` (at a maximizing node) or `beta`
    (at a minimizing node) before looking at each child. */
module AlphaBeta {
  import opened Game
  import opened Evaluation
  import opened Folds
  import opened Search

  /** Initial `alpha` of the wrapper: `-100000`. */
  const RootAlpha: int := -100_000
  /** Initial `beta` of the wrapper: `100000`. */
  const RootBeta: int := 100_000

  /** What the `reduce` callback threads from one child to the next: the accumulator,
      the current `alpha` and `beta`, and how many children `minimax` has been called on. */
  datatype Window = Window(best: int, alpha: int, beta: int, examined: nat)

  /** One call of the maximizing callback on a child whose `minimax` value is `v`:
      raise `alpha` to the accumulator; if `alpha > beta` return the accumulator
      without looking at the child, otherwise fold the child's value in with `Max2`. */
  function MaxNodeStep(w: Window, v: int): (w': Window)
  {
    var alpha := Max2(w.best, w.alpha);
    if alpha > w.beta then w.(alpha := alpha)
    else Window(Max2(w.best, v), alpha, w.beta, w.examined + 1)
  }

  /** One call of the minimizing callback: lower `beta` to the accumulator; if
      `alpha > beta` return the accumulator, otherwise fold the child's value in with `Min2`. */
  function MinNodeStep(w: Window, v: int): (w': Window)
  {
    var beta := Min2(w.best, w.beta);
    if w.alpha > beta then w.(beta := beta)
    else Window(Min2(w.best, v), w.alpha, beta, w.examined + 1)
  }

  function MaxNodeFold(vals: seq<int>, w: Window): (w': Window)
    decreases |vals|
  {
    if |vals| == 0 then w else MaxNodeFold(vals[1..], MaxNodeStep(w, vals[0]))
  }

  function MinNodeFold(vals: seq<int>, w: Window): (w': Window)
    decreases |vals|
  {
    if |vals| == 0 then w else MinNodeFold(vals[1..], MinNodeStep(w, vals[0]))
  }

  /** The final state of the `reduce` at an inner node of `minimaxAB`. */
  function NodeWindow(p: Pos, depth: nat, m: Player, alpha: int, beta: int): (w: Window)
    requires depth > 0 && |p.children| > 0
  {
    var vals := ChildValues(p, depth - 1, m);
    if p.next == m then MaxNodeFold(vals, Window(MaxSeed, alpha, beta, 0))
    else MinNodeFold(vals, Window(MinSeed, alpha, beta, 0))
  }

  /** `minimaxAB(state, depth, alpha, beta)`, with `maximizingPlayer` closed over as `m`. */
  function MinimaxAB(p: Pos, depth: nat, m: Player, alpha: int, beta: int): (v: int)
  {
    if depth == 0 || |p.children| == 0 then Heuristic(p, m)
    else NodeWindow(p, depth, m, alpha, beta).best
  }

  /** `minimaxAlphaBetaWrapper(state, depth, maximizingPlayer)`. */
  function AlphaBetaWrapper(p: Pos, depth: nat, m: Player): (v: int)
  {
    MinimaxAB(p, depth, m, RootAlpha, RootBeta)
  }

  /** Once `alpha > beta`, every later callback returns the accumulator and looks at nothing. */
  lemma {:induction false} MaxNodeFoldClosed(vals: seq<int>, w: Window)
    requires Max2(w.best, w.alpha) > w.beta
    ensures MaxNodeFold(vals, w).best == w.best
    ensures MaxNodeFold(vals, w).examined == w.examined
    decreases |vals|
  {
    if |vals| > 0 {
      MaxNodeFoldClosed(vals[1..], MaxNodeStep(w, vals[0]));
    }
  }

  lemma {:induction false} MinNodeFoldClosed(vals: seq<int>, w: Window)
    requires w.alpha > Min2(w.best, w.beta)
    ensures MinNodeFold(vals, w).best == w.best
    ensures MinNodeFold(vals, w).examined == w.examined
    decreases |vals|
  {
    if |vals| > 0 {
      MinNodeFoldClosed(vals[1..], MinNodeStep(w, vals[0]));
    }
  }

  /** The pruned fold at a maximizing node is the plain max-fold of the children it
      examined, which form a prefix; if it stopped early, the window had closed. */
  lemma {:induction false} MaxNodeFoldPrefix(vals: seq<int>, w: Window)
    ensures w.examined <= MaxNodeFold(vals, w).examined <= w.examined + |vals|
    ensures MaxNodeFold(vals, w).best == FoldMax(vals[..MaxNodeFold(vals, w).examined - w.examined], w.best)
    ensures MaxNodeFold(vals, w).examined < w.examined + |vals| ==> Max2(MaxNodeFold(vals, w).best, w.alpha) > w.beta
    decreases |vals|
  {
    if |vals| > 0 {
      var alpha := Max2(w.best, w.alpha);
      var w1 := MaxNodeStep(w, vals[0]);
      var r := MaxNodeFold(vals, w);
      assert r == MaxNodeFold(vals[1..], w1);
      if alpha > w.beta {
        MaxNodeFoldClosed(vals[1..], w1);
        assert vals[..0] == [];
      } else {
        MaxNodeFoldPrefix(vals[1..], w1);
        var k1 := r.examined - w1.examined;
        var k := k1 + 1;
        assert vals[..k][1..] == vals[1..][..k1];
        assert FoldMax(vals[..k], w.best) == FoldMax(vals[..k][1..], Max2(w.best, vals[0]));
      }
    }
  }

  lemma {:induction false} MinNodeFoldPrefix(vals: seq<int>, w: Window)
    ensures w.examined <= MinNodeFold(vals, w).examined <= w.examined + |vals|
    ensures MinNodeFold(vals, w).best == FoldMin(vals[..MinNodeFold(vals, w).examined - w.examined], w.best)
    ensures MinNodeFold(vals, w).examined < w.examined + |vals| ==> w.alpha > Min2(MinNodeFold(vals, w).best, w.beta)
    decreases |vals|
  {
    if |vals| > 0 {
      var beta := Min2(w.best, w.beta);
      var w1 := MinNodeStep(w, vals[0]);
      var r := MinNodeFold(vals, w);
      assert r == MinNodeFold(vals[1..], w1);
      if w.alpha > beta {
        MinNodeFoldClosed(vals[1..], w1);
        assert vals[..0] == [];
      } else {
        MinNodeFoldPrefix(vals[1..], w1);
        var k1 := r.examined - w1.examined;
        var k := k1 + 1;
        assert vals[..k][1..] == vals[1..][..k1];
        assert FoldMin(vals[..k], w.best) == FoldMin(vals[..k][1..], Min2(w.best, vals[0]));
      }
    }
  }

  /** The window seen from the other player: values negated, alpha and beta swapped. */
  function Mirrored(w: Window): (w': Window)
  {
    Window(-w.best, -w.beta, -w.alpha, w.examined)
  }

  /** A maximizing fold over negated values, from the mirrored window, is the mirror
      of the minimizing fold: the same children are examined and the value is negated. */
  lemma {:induction false} MaxNodeFoldMirrorsMin(vals: seq<int>, w: Window)
    ensures MaxNodeFold(Negated(vals), Mirrored(w)) == Mirrored(MinNodeFold(vals, w))
    decreases |vals|
  {
    if |vals| > 0 {
      assert Negated(vals)[1..] == Negated(vals[1..]);
      assert Max2(-w.best, -w.beta) == -Min2(w.best, w.beta);
      assert Max2(-w.best, -vals[0]) == -Min2(w.best, vals[0]);
      assert MaxNodeStep(Mirrored(w), -vals[0]) == Mirrored(MinNodeStep(w, vals[0]));
      MaxNodeFoldMirrorsMin(vals[1..], MinNodeStep(w, vals[0]));
    }
  }

  /** Like `minimax`, the wrapper is zero-sum: the root window [-100000, 100000] and the
      seeds are symmetric, so searching for the other player negates the value. */
  lemma AlphaBetaAntisymmetric(p: Pos, depth: nat, m: Player)
    ensures AlphaBetaWrapper(p, depth, m) == -AlphaBetaWrapper(p, depth, Other(m))
  {
    var o := Other(m);
    assert Other(o) == m;
    if depth == 0 || |p.children| == 0 {
      HeuristicAntisymmetric(p, m);
    } else {
      forall i | 0 <= i < |p.children|
        ensures Minimax(p.children[i], depth - 1, o) == -Minimax(p.children[i], depth - 1, m)
      {
        MinimaxAntisymmetric(p.children[i], depth - 1, o);
      }
      var vm, vo := ChildValues(p, depth - 1, m), ChildValues(p, depth - 1, o);
      if p.next == m {
        assert vm == Negated(vo);
        MaxNodeFoldMirrorsMin(vo, Window(MinSeed, RootAlpha, RootBeta, 0));
        assert Mirrored(Window(MinSeed, RootAlpha, RootBeta, 0)) == Window(MaxSeed, RootAlpha, RootBeta, 0);
      } else {
        assert p.next == o;
        assert vo == Negated(vm);
        MaxNodeFoldMirrorsMin(vm, Window(MinSeed, RootAlpha, RootBeta, 0));
        assert Mirrored(Window(MinSeed, RootAlpha, RootBeta, 0)) == Window(MaxSeed, RootAlpha, RootBeta, 0);
      }
    }
  }

  /** Same base cases as `minimax`. */
  lemma AlphaBetaAtHorizon(p: Pos, depth: nat, m: Player)
    requires depth == 0 || |p.children| == 0
    ensures AlphaBetaWrapper(p, depth, m) == Minimax(p, depth, m) == Heuristic(p, m)
  {
  }

  /** At a maximizing root the wrapper always calls `minimax` on the first child, returns the
      largest value among the children it examined, never exceeds `minimax`, and stops early
      only after some examined child scored above 100000 — which is then the value returned. */
  lemma AlphaBetaMaxNode(p: Pos, depth: nat, m: Player)
    requires depth > 0 && |p.children| > 0 && p.next == m
    ensures 1 <= NodeWindow(p, depth, m, RootAlpha, RootBeta).examined <= |p.children|
    ensures AlphaBetaWrapper(p, depth, m)
      == FoldMax(ChildValues(p, depth - 1, m)[..NodeWindow(p, depth, m, RootAlpha, RootBeta).examined], MaxSeed)
    ensures AlphaBetaWrapper(p, depth, m) <= Minimax(p, depth, m)
    ensures NodeWindow(p, depth, m, RootAlpha, RootBeta).examined < |p.children| ==>
      && RootBeta < AlphaBetaWrapper(p, depth, m)
      && exists i :: 0 <= i < NodeWindow(p, depth, m, RootAlpha, RootBeta).examined
                  && AlphaBetaWrapper(p, depth, m) == Minimax(p.children[i], depth - 1, m)
    ensures AlphaBetaWrapper(p, depth, m) != Minimax(p, depth, m) ==>
      NodeWindow(p, depth, m, RootAlpha, RootBeta).examined < |p.children|
  {
    var vals := ChildValues(p, depth - 1, m);
    var w0 := Window(MaxSeed, RootAlpha, RootBeta, 0);
    var w := NodeWindow(p, depth, m, RootAlpha, RootBeta);
    assert w == MaxNodeFold(vals, w0);
    MaxNodeFoldPrefix(vals, w0);
    var k := w.examined;
    var r := FoldMax(vals[..k], MaxSeed);
    var full := FoldMax(vals, MaxSeed);
    assert r == MaxSeed || r in vals[..k];
    if r != MaxSeed {
      var i :| 0 <= i < k && vals[..k][i] == r;
      assert r == vals[i] <= full;
      assert vals[i] == Minimax(p.children[i], depth - 1, m);
    }
    if k == |vals| {
      assert vals[..k] == vals;
    }
  }

  /** At a minimizing root, symmetrically: the first child is always examined, the result
      never falls below `minimax`, and an early stop means some examined child scored below
      -100000 and is the value returned. */
  lemma AlphaBetaMinNode(p: Pos, depth: nat, m: Player)
    requires depth > 0 && |p.children| > 0 && p.next != m
    ensures 1 <= NodeWindow(p, depth, m, RootAlpha, RootBeta).examined <= |p.children|
    ensures AlphaBetaWrapper(p, depth, m)
      == FoldMin(ChildValues(p, depth - 1, m)[..NodeWindow(p, depth, m, RootAlpha, RootBeta).examined], MinSeed)
    ensures Minimax(p, depth, m) <= AlphaBetaWrapper(p, depth, m)
    ensures NodeWindow(p, depth, m, RootAlpha, RootBeta).examined < |p.children| ==>
      && AlphaBetaWrapper(p, depth, m) < RootAlpha
      && exists i :: 0 <= i < NodeWindow(p, depth, m, RootAlpha, RootBeta).examined
                  && AlphaBetaWrapper(p, depth, m) == Minimax(p.children[i], depth - 1, m)
    ensures AlphaBetaWrapper(p, depth, m) != Minimax(p, depth, m) ==>
      NodeWindow(p, depth, m, RootAlpha, RootBeta).examined < |p.children|
  {
    var vals := ChildValues(p, depth - 1, m);
    var w0 := Window(MinSeed, RootAlpha, RootBeta, 0);
    var w := NodeWindow(p, depth, m, RootAlpha, RootBeta);
    assert w == MinNodeFold(vals, w0);
    MinNodeFoldPrefix(vals, w0);
    var k := w.examined;
    var r := FoldMin(vals[..k], MinSeed);
    var full := FoldMin(vals, MinSeed);
    assert r == MinSeed || r in vals[..k];
    if r != MinSeed {
      var i :| 0 <= i < k && vals[..k][i] == r;
      assert full <= vals[i] == r;
      assert vals[i] == Minimax(p.children[i], depth - 1, m);
    }
    if k == |vals| {
      assert vals[..k] == vals;
    }
  }

  /** If every child's `minimax` value lies in [-100000, 100000], no cutoff fires and the
      wrapper returns exactly what `minimax` returns. */
  lemma AlphaBetaAgreesWithMinimax(p: Pos, depth: nat, m: Player)
    requires depth > 0 ==>
      forall i :: 0 <= i < |p.children| ==> RootAlpha <= Minimax(p.children[i], depth - 1, m) <= RootBeta
    ensures AlphaBetaWrapper(p, depth, m) == Minimax(p, depth, m)
  {
    if depth > 0 && |p.children| > 0 {
      var vals := ChildValues(p, depth - 1, m);
      if p.next == m {
        AlphaBetaMaxNode(p, depth, m);
        var k := NodeWindow(p, depth, m, RootAlpha, RootBeta).examined;
        if k < |vals| {
          assert false;
        }
      } else {
        AlphaBetaMinNode(p, depth, m);
        var k := NodeWindow(p, depth, m, RootAlpha, RootBeta).examined;
        if k < |vals| {
          assert false;
        }
      }
    }
  }

  /** When every position the search can reach evaluates inside [-100000, 100000]
      (as on a 7x6 board with 4 in a row, see `ConnectFourEvaluationBound`),
      the wrapper and `minimax` agree. */
  lemma AlphaBetaAgreesOnBoundedTree(p: Pos, depth: nat, m: Player)
    requires EvaluationsWithin(p, depth, m, RootBeta)
    ensures AlphaBetaWrapper(p, depth, m) == Minimax(p, depth, m)
  {
    if depth > 0 {
      forall i | 0 <= i < |p.children|
        ensures RootAlpha <= Minimax(p.children[i], depth - 1, m) <= RootBeta
      {
        MinimaxWithin(p.children[i], depth - 1, m, RootBeta);
      }
    }
    AlphaBetaAgreesWithMinimax(p, depth, m);
  }

  /** Every position within `d` moves of `p` is a 7x6 position with 4 in a row whose line
      counts meet the premise of `ConnectFourEvaluationBound`. */
  predicate ConnectFourTree(p: Pos, d: nat)
    decreases d
  {
    && p.winning == 4
    && (forall j, q :: 2 <= j <= 4 ==> j * p.lines(j, q) <= 84)
    && (d > 0 ==> forall i :: 0 <= i < |p.children| ==> ConnectFourTree(p.children[i], d - 1))
  }

  /** On such a tree every evaluation lies inside the root window [-100000, 100000]. */
  lemma {:induction false} ConnectFourTreeWithinRootWindow(p: Pos, d: nat, m: Player)
    requires ConnectFourTree(p, d)
    ensures EvaluationsWithin(p, d, m, RootBeta)
    decreases d
  {
    ConnectFourEvaluationBound(p, m);
    if d > 0 {
      forall i | 0 <= i < |p.children|
        ensures EvaluationsWithin(p.children[i], d - 1, m, RootBeta)
      {
        ConnectFourTreeWithinRootWindow(p.children[i], d - 1, m);
      }
    }
  }

  /** So on a 7x6 board with 4 in a row the cutoff never fires and the wrapper is `minimax`. */
  lemma ConnectFourAlphaBetaAgrees(p: Pos, depth: nat, m: Player)
    requires ConnectFourTree(p, depth)
    ensures AlphaBetaWrapper(p, depth, m) == Minimax(p, depth, m)
  {
    ConnectFourTreeWithinRootWindow(p, depth, m);
    AlphaBetaAgreesOnBoundedTree(p, depth, m);
  }

  /** Outside that range the two differ: a maximizing root whose first leaf scores 200000
      stops there and never sees the second leaf's 300000. */
  lemma AlphaBetaCutoffExample() returns (p: Pos)
    ensures p.next == X && |p.children| == 2
    ensures Minimax(p.children[0], 0, X) == 200_000
    ensures Minimax(p.children[1], 0, X) == 300_000
    ensures AlphaBetaWrapper(p, 1, X) == 200_000
    ensures Minimax(p, 1, X) == 300_000
  {
    var a := Pos(O, 2, (len: int, q: Player) => if len == 2 && q == X then 6250 else 0, [], []);
    var b := Pos(O, 2, (len: int, q: Player) => if len == 2 && q == X then 9375 else 0, [], []);
    p := Pos(X, 2, (len: int, q: Player) => 0, [a, b], [0, 1]);
    assert Heuristic(a, X) == 32 * 6250;
    assert Heuristic(b, X) == 32 * 9375;
    var vals := ChildValues(p, 0, X);
    assert vals == [200_000, 300_000];
    var w0 := Window(MaxSeed, RootAlpha, RootBeta, 0);
    var w1 := MaxNodeStep(w0, 200_000);
    assert w1 == Window(200_000, RootAlpha, RootBeta, 1);
    var w2 := MaxNodeStep(w1, 300_000);
    assert w2 == Window(200_000, 200_000, RootBeta, 1);
    assert MaxNodeFold(vals, w0) == MaxNodeFold(vals[1..], w1);
    assert MaxNodeFold(vals[1..], w1) == MaxNodeFold(vals[2..], w2);
    assert vals[2..] == [];
  }
}
