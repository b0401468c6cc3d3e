/** The board collaborator, reduced to an immutable game tree.

    The engine never looks inside a board: it only asks whose turn it is,
    what the win threshold is, how many lines of a given length a player
    owns, which columns are legal and what position each of them leads to.
    A `Pos` records exactly those answers. */
module Game {

  /** The two player identities, 'x' and 'o'. */
  datatype Player = X | O

  /** The opponent of `p`: the minimizing player when `p` maximizes. */
  function Other(p: Player): (q: Player)
    ensures q != p
  {
    if p == X then O else X
  }

  /** A position as the engine sees it.
      - `next`: the player to move (`nextMovePlayer`);
      - `winning`: the win-threshold line length;
      - `lines(len, player)`: the number of lines of exactly `len` cells owned by `player` (`numLines`);
      - `children`: the successor positions, in legal-move order (`nextStates()`);
      - `moves`: the legal columns (`legalMoves()`); `children[i]` is the position after `moves[i]`. */
  datatype Pos = Pos(
    next: Player,
    winning: int,
    lines: (int, Player) -> nat,
    children: seq<Pos>,
    moves: seq<int>)

  /** One successor per legal column. That `children[i]` is the position after playing
      `moves[i]` is a convention of the index, as `nextStates()` and `legalMoves()` list
      them in the same order; only the lengths are checked here. */
  predicate MovesMatchChildren(p: Pos)
  {
    |p.moves| == |p.children|
  }
}
