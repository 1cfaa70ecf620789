/** The game interface the players program against.

    The players only ever call a handful of methods of the game object:
    `game_over()`, `wins(letter)`, `empty_cells()`, `set_move(x, y, letter)`
    on a copy, and `curr_player`.  `Rules<G>` bundles those operations for a
    game state type `G`; the searches are written and proved once for any
    such bundle, and module `TicTacToe` supplies the 3x3 board instance. */
module Games {

  /** The two letters; the players' string letters 'X' and 'O'. */
  datatype Player = X | O

  function Other(p: Player): (q: Player)
    ensures q != p
  {
    if p == X then O else X
  }

  /** A board coordinate `(row, col)`. */
  datatype Pos = Pos(row: nat, col: nat)

  /** The game object's operations, as seen by a player.  `play` is
      `set_move` applied to a copy, so the game it is given is never
      changed. */
  datatype Rules<!G> = Rules(
    gameOver: G -> bool,
    wins: (G, Player) -> bool,
    emptyCells: G -> seq<Pos>,
    play: (G, Pos, Player) -> G,
    curr: G -> Player)

  /** A game that is not over still has an empty cell. */
  ghost predicate NeverStuck<G(!new)>(r: Rules<G>)
  {
    forall g :: !r.gameOver(g) ==> |r.emptyCells(g)| > 0
  }

  /** Playing an empty cell leaves exactly one empty cell fewer. */
  ghost predicate FillsOne<G(!new)>(r: Rules<G>)
  {
    forall g, c, p :: c in r.emptyCells(g) ==> |r.emptyCells(r.play(g, c, p))| == |r.emptyCells(g)| - 1
  }

  /** What the players rely on without checking it. */
  ghost predicate Consistent<G(!new)>(r: Rules<G>)
  {
    NeverStuck(r) && FillsOne(r)
  }
}
