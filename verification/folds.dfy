/** The two `reduce` callbacks of `minimax`, and the left folds they drive. */
module Folds {

  /** `(max > cur) ? max : cur` */
  function Max2(a: int, b: int): (r: int)
  {
    if a > b then a else b
  }

  /** `(min > current) ? current : min` */
  function Min2(a: int, b: int): (r: int)
  {
    if a > b then b else a
  }

  /** Left fold of `Max2` over `vals`, seeded with `acc`: the largest of `acc` and all of `vals`. */
  function FoldMax(vals: seq<int>, acc: int): (r: int)
    ensures acc <= r
    ensures forall i :: 0 <= i < |vals| ==> vals[i] <= r
    ensures r == acc || r in vals
    decreases |vals|
  {
    if |vals| == 0 then acc
    else
      var r := FoldMax(vals[1..], Max2(acc, vals[0]));
      assert r in vals[1..] ==> r in vals;
      r
  }

  /** Left fold of `Min2` over `vals`, seeded with `acc`: the smallest of `acc` and all of `vals`. */
  function FoldMin(vals: seq<int>, acc: int): (r: int)
    ensures r <= acc
    ensures forall i :: 0 <= i < |vals| ==> r <= vals[i]
    ensures r == acc || r in vals
    decreases |vals|
  {
    if |vals| == 0 then acc
    else
      var r := FoldMin(vals[1..], Min2(acc, vals[0]));
      assert r in vals[1..] ==> r in vals;
      r
  }

  /** Every value negated. */
  function Negated(vals: seq<int>): (r: seq<int>)
    ensures |r| == |vals|
    ensures forall i :: 0 <= i < |vals| ==> r[i] == -vals[i]
  {
    seq(|vals|, i requires 0 <= i < |vals| => -vals[i])
  }

  /** Maximizing the negated values from the negated seed is minimizing the originals.
      The contracts of the two folds pin their results down exactly, so this needs no induction. */
  lemma FoldMaxNegated(vals: seq<int>, acc: int)
    ensures FoldMax(Negated(vals), -acc) == -FoldMin(vals, acc)
  {
  }
}
