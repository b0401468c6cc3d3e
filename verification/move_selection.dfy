/** `makeMove(state)`: score every legal move with the alpha-beta wrapper and keep the best. */
module MoveSelection {
  import opened Game
  import opened Search
  import opened AlphaBeta

  datatype Option<T> = None | Some(value: T)

  /** The fixed lookahead of `makeMove`. */
  const SearchDepth: nat := 4

  /** The score of each legal move: the wrapper's value of its successor, searched
      `SearchDepth` deep with the player to move at `p` as the maximizer. */
  function MoveScores(p: Pos): (s: seq<int>)
    ensures |s| == |p.children|
  {
    seq(|p.children|, i requires 0 <= i < |p.children| => AlphaBetaWrapper(p.children[i], SearchDepth, p.next))
  }

  /** The scores the commented-out `minimax` call would give each legal move. */
  function MinimaxMoveScores(p: Pos): (s: seq<int>)
    ensures |s| == |p.children|
  {
    seq(|p.children|, i requires 0 <= i < |p.children| => Minimax(p.children[i], SearchDepth, p.next))
  }

  /** When every position within the lookahead evaluates inside [-100000, 100000], scoring the
      moves with the wrapper or with plain `minimax` gives the same scores, hence the same move. */
  lemma PruningKeepsMoveChoice(p: Pos)
    requires forall i :: 0 <= i < |p.children| ==> EvaluationsWithin(p.children[i], SearchDepth, p.next, RootBeta)
    ensures MoveScores(p) == MinimaxMoveScores(p)
  {
    forall i | 0 <= i < |p.children|
      ensures MoveScores(p)[i] == MinimaxMoveScores(p)[i]
    {
      AlphaBetaAgreesOnBoundedTree(p.children[i], SearchDepth, p.next);
    }
  }

  /** On a 7x6 board with 4 in a row (every position within the lookahead meeting the count
      premise of `ConnectFourEvaluationBound`), the wrapper and `minimax` score every move alike. */
  lemma ConnectFourPruningKeepsMoveChoice(p: Pos)
    requires forall i :: 0 <= i < |p.children| ==> ConnectFourTree(p.children[i], SearchDepth)
    ensures MoveScores(p) == MinimaxMoveScores(p)
  {
    forall i | 0 <= i < |p.children|
      ensures EvaluationsWithin(p.children[i], SearchDepth, p.next, RootBeta)
    {
      ConnectFourTreeWithinRootWindow(p.children[i], SearchDepth, p.next);
    }
    PruningKeepsMoveChoice(p);
  }

  /** `k` holds a greatest score and every earlier score is strictly smaller. */
  predicate IsFirstBest(s: seq<int>, k: int)
  {
    && 0 <= k < |s|
    && (forall j :: 0 <= j < |s| ==> s[j] <= s[k])
    && (forall j :: 0 <= j < k ==> s[j] < s[k])
  }

  /** At most one index is the first best, so the choice is determined by the scores. */
  lemma FirstBestUnique(s: seq<int>, k1: int, k2: int)
    requires IsFirstBest(s, k1) && IsFirstBest(s, k2)
    ensures k1 == k2
  {
    var best1, best2 := s[k1], s[k2];
    assert best1 == best2;
  }

  /** Picks the legal column with the greatest score, the earliest one on a tie. */
  method MakeMove(p: Pos) returns (column: int)
    requires MovesMatchChildren(p) && |p.moves| > 0
    ensures exists k :: IsFirstBest(MoveScores(p), k) && column == p.moves[k]
  {
    var playerMoving := p.next;
    var scores := MoveScores(p);
    var bestMoveIndex: Option<nat> := None;
    var bestMoveValue := 0;
    var i := 0;
    while i < |p.moves|
      invariant 0 <= i <= |p.moves|
      invariant bestMoveIndex.None? <==> i == 0
      invariant bestMoveIndex.Some? ==>
        && IsFirstBest(scores[..i], bestMoveIndex.value)
        && bestMoveValue == scores[bestMoveIndex.value]
    {
      var potentialState := p.children[i];
      var stateValue := AlphaBetaWrapper(potentialState, SearchDepth, playerMoving);
      assert stateValue == scores[i];
      if bestMoveIndex.None? || stateValue > bestMoveValue {
        bestMoveIndex := Some(i);
        bestMoveValue := stateValue;
      }
      i := i + 1;
    }
    assert scores[..i] == scores;
    column := p.moves[bestMoveIndex.value];
  }
}
