/** The 3x3 board, as an instance of the game interface.

    The game class itself is not part of this model; this module gives the
    operations the players use (`empty_cells`, `set_move`, `wins`,
    `game_over`, `curr_player`) plain definitions.  Each definition is an
    assumption about that class, chosen to be the ordinary tic-tac-toe one:
      - empty cells are listed in row-major order;
      - `set_move` writes the letter into the cell and hands the turn to the
        other letter;
      - a player wins with three marks in a row, column or diagonal;
      - the game is over when either letter has won or no cell is empty. */
module TicTacToe {
  import opened Games

  datatype Cell = Empty | Mark(owner: Player)

  predicate OnBoard(p: Pos)
  {
    p.row < 3 && p.col < 3
  }

  predicate IsGrid(b: seq<seq<Cell>>)
  {
    |b| == 3 && forall i :: 0 <= i < 3 ==> |b[i]| == 3
  }

  type Board = b: seq<seq<Cell>> | IsGrid(b)
    witness [[Empty, Empty, Empty], [Empty, Empty, Empty], [Empty, Empty, Empty]]

  /** A game state: the board and the letter whose turn it is (`curr_player`). */
  datatype Game = Game(board: Board, curr: Player)

  /** The cell at `p`; off-board coordinates read as empty and are always
      excluded by an `OnBoard` guard where it matters. */
  function At(b: Board, p: Pos): Cell
  {
    if OnBoard(p) then b[p.row][p.col] else Empty
  }

  /** Row-major index of a coordinate, 0 .. 8. */
  function Index(p: Pos): nat
  {
    3 * p.row + p.col
  }

  /** Strictly increasing row-major indices: row-major order, no repeats. */
  predicate RowMajor(r: seq<Pos>)
  {
    forall i, j :: 0 <= i < j < |r| ==> Index(r[i]) < Index(r[j])
  }

  /** The coordinates from row-major index `k` on, in row-major order. */
  function CellsFrom(k: nat): (ps: seq<Pos>)
    requires k <= 9
    ensures |ps| == 9 - k
    ensures forall p :: p in ps <==> OnBoard(p) && k <= Index(p)
    decreases 9 - k
  {
    if k == 9 then []
    else
      var p := Pos(k / 3, k % 3);
      assert forall q :: OnBoard(q) && Index(q) == k ==> q == p;
      [p] + CellsFrom(k + 1)
  }

  /** `p` is an empty cell of the board. */
  predicate Free(b: Board, p: Pos)
  {
    OnBoard(p) && At(b, p) == Empty
  }

  /** The empty cells among `ps`, in their order. */
  function FreeAmong(b: Board, ps: seq<Pos>): (r: seq<Pos>)
    ensures |r| <= |ps|
    ensures forall p :: p in r <==> p in ps && Free(b, p)
  {
    if |ps| == 0 then []
    else
      var rest := FreeAmong(b, ps[1..]);
      assert forall p :: p in ps <==> p == ps[0] || p in ps[1..];
      if Free(b, ps[0]) then [ps[0]] + rest else rest
  }

  /** `empty_cells()`: every empty coordinate, once (see
      `EmptyCellsRowMajor` for the order). */
  function EmptyCells(b: Board): (r: seq<Pos>)
    ensures forall p :: p in r <==> Free(b, p)
    ensures |r| <= 9
  {
    FreeAmong(b, CellsFrom(0))
  }

  /** Every coordinate of `r` has row-major index `k` or more. */
  predicate From(r: seq<Pos>, k: int)
  {
    forall i :: 0 <= i < |r| ==> k <= Index(r[i])
  }

  /** `r` in strictly increasing row-major order, every index above `k`;
      the step-by-step form of `RowMajor`. */
  predicate Ascending(r: seq<Pos>, k: int)
    decreases |r|
  {
    |r| == 0 || (k < Index(r[0]) && Ascending(r[1..], Index(r[0])))
  }

  lemma RowMajorCons(p: Pos, rest: seq<Pos>)
    requires RowMajor(rest) && From(rest, Index(p) + 1)
    ensures RowMajor([p] + rest)
  {
    var s := [p] + rest;
    forall i, j | 0 <= i < j < |s|
      ensures Index(s[i]) < Index(s[j])
    {
      assert s[j] == rest[j - 1];
      if i > 0 {
        assert s[i] == rest[i - 1];
      }
    }
  }

  lemma {:induction false} AscendingRowMajor(r: seq<Pos>, k: int)
    requires Ascending(r, k)
    ensures RowMajor(r) && From(r, k + 1)
    decreases |r|
  {
    if |r| > 0 {
      AscendingRowMajor(r[1..], Index(r[0]));
      assert r == [r[0]] + r[1..];
      RowMajorCons(r[0], r[1..]);
      assert forall i :: 0 < i < |r| ==> r[i] == r[1..][i - 1];
    }
  }

  /** The empty cells from index `k` on: the one at `k`, if empty, then
      those from `k + 1` on. */
  lemma FreeAmongCells(b: Board, k: nat)
    requires k < 9
    ensures var ps, rest := CellsFrom(k), FreeAmong(b, CellsFrom(k + 1));
            Index(ps[0]) == k &&
            FreeAmong(b, ps) == if Free(b, ps[0]) then [ps[0]] + rest else rest
  {
    var ps := CellsFrom(k);
    assert ps[1..] == CellsFrom(k + 1);
  }

  lemma {:induction false} FreeFromAscending(b: Board, k: nat)
    requires k <= 9
    ensures Ascending(FreeAmong(b, CellsFrom(k)), k - 1)
    decreases 9 - k
  {
    if k < 9 {
      FreeFromAscending(b, k + 1);
      FreeAmongCells(b, k);
      var p := CellsFrom(k)[0];
      var rest := FreeAmong(b, CellsFrom(k + 1));
      if Free(b, p) {
        assert ([p] + rest)[1..] == rest;
      }
    }
  }

  /** The empty cells are listed in row-major order, each once. */
  lemma EmptyCellsRowMajor(b: Board)
    ensures RowMajor(EmptyCells(b))
  {
    FreeFromAscending(b, 0);
    AscendingRowMajor(EmptyCells(b), -1);
  }

  /** `set_move(row, col, letter)`: the cell gets the letter and the turn
      passes to the other letter.  The players only play empty on-board
      cells; an off-board coordinate leaves the board as it is. */
  function SetMove(g: Game, p: Pos, who: Player): (r: Game)
    ensures OnBoard(p) ==> At(r.board, p) == Mark(who)
    ensures forall q {:trigger At(r.board, q)} :: q != p ==> At(r.board, q) == At(g.board, q)
    ensures r.curr == Other(who)
  {
    if OnBoard(p) then
      var row := g.board[p.row][p.col := Mark(who)];
      var board: Board := g.board[p.row := row];
      Game(board, Other(who))
    else Game(g.board, Other(who))
  }

  /** Two boards that differ only in the empty cell `p`, filled in `b'`. */
  ghost predicate FilledAt(b: Board, b': Board, p: Pos)
  {
    Free(b, p) && !Free(b', p) && forall q :: q != p ==> (Free(b', q) <==> Free(b, q))
  }

  /** What `FilledAt` says about one cell `q`. */
  lemma FilledOther(b: Board, b': Board, p: Pos, q: Pos)
    requires FilledAt(b, b', p)
    ensures OnBoard(p) && (q != p ==> (Free(b', q) <==> Free(b, q)))
  {
  }

  lemma {:induction false} FilledFrom(b: Board, b': Board, p: Pos, k: nat)
    requires k <= 9 && FilledAt(b, b', p)
    ensures |FreeAmong(b', CellsFrom(k))| == |FreeAmong(b, CellsFrom(k))| - (if k <= Index(p) then 1 else 0)
    decreases 9 - k
  {
    if k < 9 {
      FilledFrom(b, b', p, k + 1);
      FreeAmongCells(b, k);
      FreeAmongCells(b', k);
      FilledOther(b, b', p, CellsFrom(k)[0]);
    }
  }

  lemma FilledCells(b: Board, b': Board, p: Pos)
    requires FilledAt(b, b', p)
    ensures forall q :: q in EmptyCells(b') <==> q in EmptyCells(b) && q != p
  {
  }

  /** `set_move` fills exactly one empty cell: the empty cells afterwards are
      the ones before, minus the cell played. */
  lemma SetMoveFillsOne(g: Game, p: Pos, who: Player)
    requires Free(g.board, p)
    ensures forall q :: q in EmptyCells(SetMove(g, p, who).board) <==> q in EmptyCells(g.board) && q != p
    ensures |EmptyCells(SetMove(g, p, who).board)| == |EmptyCells(g.board)| - 1
  {
    var b' := SetMove(g, p, who).board;
    assert At(b', p) == Mark(who);
    forall q | q != p
      ensures Free(b', q) <==> Free(g.board, q)
    {
      assert At(b', q) == At(g.board, q);
    }
    FilledFrom(g.board, b', p, 0);
    FilledCells(g.board, b', p);
  }

  predicate Line(b: Board, p: Player, r0: nat, c0: nat, r1: nat, c1: nat, r2: nat, c2: nat)
    requires r0 < 3 && c0 < 3 && r1 < 3 && c1 < 3 && r2 < 3 && c2 < 3
  {
    b[r0][c0] == Mark(p) && b[r1][c1] == Mark(p) && b[r2][c2] == Mark(p)
  }

  /** `wins(letter)`: three of the letter's marks in a row, column or diagonal. */
  predicate Wins(b: Board, p: Player)
  {
    Line(b, p, 0, 0, 0, 1, 0, 2) || Line(b, p, 1, 0, 1, 1, 1, 2) || Line(b, p, 2, 0, 2, 1, 2, 2) ||
    Line(b, p, 0, 0, 1, 0, 2, 0) || Line(b, p, 0, 1, 1, 1, 2, 1) || Line(b, p, 0, 2, 1, 2, 2, 2) ||
    Line(b, p, 0, 0, 1, 1, 2, 2) || Line(b, p, 0, 2, 1, 1, 2, 0)
  }

  /** `game_over()`: someone has won or the board is full. */
  predicate GameOver(g: Game)
  {
    Wins(g.board, X) || Wins(g.board, O) || |EmptyCells(g.board)| == 0
  }

  /** The 3x3 board as the game interface of the players. */
  const Standard: Rules<Game> :=
    Rules(GameOver, (g: Game, p: Player) => Wins(g.board, p), (g: Game) => EmptyCells(g.board),
          SetMove, (g: Game) => g.curr)

  /** The board meets what the players rely on. */
  lemma StandardIsConsistent()
    ensures Consistent(Standard)
  {
    forall g: Game, c: Pos, p: Player | c in EmptyCells(g.board)
      ensures |EmptyCells(SetMove(g, c, p).board)| == |EmptyCells(g.board)| - 1
    {
      SetMoveFillsOne(g, c, p);
    }
  }
}
