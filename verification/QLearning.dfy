/** The Q-learning player (`TTT_QPlayer`) as it plays: the board key of the
    Q-table, the epsilon-greedy `choose_action` and `get_move`.  Training
    (the Bellman updates) is not part of this model; the Q-table is any map
    from (board key, cell) pairs to values. */
module QLearning {
  import opened Games
  import opened TicTacToe

  // ---------------------------------------------------------------------
  // hash_board
  // ---------------------------------------------------------------------

  /** The key character of one cell: '1' for X, '2' for O, '0' otherwise. */
  function Code(c: Cell): char
  {
    match c
    case Mark(X) => '1'
    case Mark(O) => '2'
    case Empty => '0'
  }

  function RowKey(row: seq<Cell>): (key: string)
    requires |row| == 3
    ensures |key| == 3 && forall j :: 0 <= j < 3 ==> key[j] == Code(row[j])
  {
    [Code(row[0]), Code(row[1]), Code(row[2])]
  }

  /** `hash_board`: the nine cells in row-major order, one character each. */
  function HashBoard(b: Board): (key: string)
    ensures |key| == 9
    ensures forall k :: 0 <= k < 9 ==> key[k] == Code(b[k / 3][k % 3])
  {
    var key := RowKey(b[0]) + RowKey(b[1]) + RowKey(b[2]);
    assert forall j :: 0 <= j < 3 ==> key[j] == Code(b[0][j]) && key[3 + j] == Code(b[1][j]) && key[6 + j] == Code(b[2][j]);
    key
  }

  /** A string `hash_board` can produce: nine characters over '0', '1', '2'. */
  predicate IsKey(key: string)
  {
    |key| == 9 && forall k :: 0 <= k < 9 ==> key[k] in {'0', '1', '2'}
  }

  function Decode(ch: char): Cell
  {
    if ch == '1' then Mark(X) else if ch == '2' then Mark(O) else Empty
  }

  /** The board a key stands for, the inverse of `hash_board`. */
  function BoardOf(key: string): Board
    requires |key| == 9
  {
    [[Decode(key[0]), Decode(key[1]), Decode(key[2])],
     [Decode(key[3]), Decode(key[4]), Decode(key[5])],
     [Decode(key[6]), Decode(key[7]), Decode(key[8])]]
  }

  /** Decoding a board's key gives the board back. */
  lemma BoardOfHashBoard(b: Board)
    ensures BoardOf(HashBoard(b)) == b
  {
    var key := HashBoard(b);
    assert key[0] == Code(b[0][0]) && key[1] == Code(b[0][1]) && key[2] == Code(b[0][2]);
    assert key[3] == Code(b[1][0]) && key[4] == Code(b[1][1]) && key[5] == Code(b[1][2]);
    assert key[6] == Code(b[2][0]) && key[7] == Code(b[2][1]) && key[8] == Code(b[2][2]);
    assert BoardOf(key)[0] == b[0] && BoardOf(key)[1] == b[1] && BoardOf(key)[2] == b[2];
  }

  /** Every key is the key of the board it decodes to. */
  lemma HashBoardOf(key: string)
    requires IsKey(key)
    ensures HashBoard(BoardOf(key)) == key
  {
    var key' := HashBoard(BoardOf(key));
    forall k | 0 <= k < 9
      ensures key'[k] == key[k]
    {
      assert key[k] in {'0', '1', '2'};
    }
  }

  /** Distinct boards have distinct keys, and every key is well formed. */
  lemma HashBoardInjective(a: Board, b: Board)
    ensures HashBoard(a) == HashBoard(b) <==> a == b
    ensures IsKey(HashBoard(a))
  {
    if HashBoard(a) == HashBoard(b) {
      BoardOfHashBoard(a);
      BoardOfHashBoard(b);
    }
  }

  // ---------------------------------------------------------------------
  // choose_action
  // ---------------------------------------------------------------------

  /** The Q-table: values for (board key, cell) pairs. */
  type QTable = map<(string, Pos), real>

  /** `Q.get((state, action), 0)`. */
  function QOf(q: QTable, state: string, a: Pos): (v: real)
    ensures (state, a) in q ==> v == q[(state, a)]
    ensures (state, a) !in q ==> v == 0.0
  {
    if (state, a) in q then q[(state, a)] else 0.0
  }

  /** The position of a greatest value among the actions; `max(q_values)`
      is the value there. */
  function Top(q: QTable, state: string, actions: seq<Pos>): (k: nat)
    requires |actions| > 0
    ensures k < |actions|
    ensures forall j :: 0 <= j < |actions| ==> QOf(q, state, actions[j]) <= QOf(q, state, actions[k])
  {
    if |actions| == 1 then 0
    else
      var k := 1 + Top(q, state, actions[1..]);
      assert forall j :: 1 <= j < |actions| ==> actions[j] == actions[1..][j - 1];
      if QOf(q, state, actions[0]) >= QOf(q, state, actions[k]) then 0 else k
  }

  /** `best_actions`: the actions whose value is `m`, in their original order. */
  function Ties(q: QTable, state: string, actions: seq<Pos>, m: real): (best: seq<Pos>)
    ensures forall a :: a in best <==> a in actions && QOf(q, state, a) == m
  {
    if |actions| == 0 then []
    else
      var rest := Ties(q, state, actions[1..], m);
      assert forall a :: a in actions <==> a == actions[0] || a in actions[1..];
      if QOf(q, state, actions[0]) == m then [actions[0]] + rest else rest
  }

  /** `best_actions`: the actions of greatest value, `max(q_values)`, in
      their original order. */
  function BestActions(q: QTable, state: string, actions: seq<Pos>): (best: seq<Pos>)
    requires |actions| > 0
    ensures |best| > 0
    ensures forall a :: a in best <==> a in actions && forall b :: b in actions ==> QOf(q, state, b) <= QOf(q, state, a)
  {
    var top := actions[Top(q, state, actions)];
    var best := Ties(q, state, actions, QOf(q, state, top));
    assert top in best;
    best
  }

  /** The exploitation branch: one of the actions of greatest value, chosen
      by `pick` (for `np.random.randint`). */
  function Exploit(q: QTable, state: string, actions: seq<Pos>, pick: nat): (a: Pos)
    requires |actions| > 0
    ensures a in actions
    ensures forall b :: b in actions ==> QOf(q, state, b) <= QOf(q, state, a)
  {
    var best := BestActions(q, state, actions);
    best[pick % |best|]
  }

  lemma SmallMod(i: nat, n: nat)
    requires i < n
    ensures i % n == i
  {
  }

  /** Every action of greatest value is the choice of some `pick`. */
  lemma ExploitReachesEveryBest(q: QTable, state: string, actions: seq<Pos>, a: Pos)
    requires a in actions && forall b :: b in actions ==> QOf(q, state, b) <= QOf(q, state, a)
    ensures exists pick: nat :: Exploit(q, state, actions, pick) == a
  {
    var best := BestActions(q, state, actions);
    var i :| 0 <= i < |best| && best[i] == a;
    SmallMod(i, |best|);
    assert Exploit(q, state, actions, i) == a;
  }

  /** `choose_action` on `game`: with `u < epsilon` (`np.random.rand()`) a
      random empty cell, chosen by `roll`; otherwise `Exploit`.  Both `max`
      and `randint` fail on an empty list, so an empty cell must exist. */
  function ChooseAction(q: QTable, game: Game, epsilon: real, u: real, roll: nat, pick: nat): (a: Pos)
    requires |EmptyCells(game.board)| > 0
    ensures a in EmptyCells(game.board) && Free(game.board, a)
    ensures u >= epsilon ==>
              forall b :: Free(game.board, b) ==> QOf(q, HashBoard(game.board), b) <= QOf(q, HashBoard(game.board), a)
  {
    var actions := EmptyCells(game.board);
    if u < epsilon then actions[roll % |actions|]
    else Exploit(q, HashBoard(game.board), actions, pick)
  }

  // ---------------------------------------------------------------------
  // get_move
  // ---------------------------------------------------------------------

  /** The playing state of a `TTT_QPlayer`: its letter, its exploration rate
      and its Q-table. */
  datatype QPlayer = QPlayer(letter: Player, epsilon: real, q: QTable)

  /** The move and the player after `get_move`. */
  datatype Played = Played(move: Pos, player: QPlayer)

  /** `get_move`: epsilon is set to 0 for good, then `choose_action`; `u` is
      the draw of `np.random.rand()`, which is never negative, so play
      always exploits. */
  function GetMove(p: QPlayer, game: Game, u: real, roll: nat, pick: nat): (res: Played)
    requires |EmptyCells(game.board)| > 0 && 0.0 <= u
    ensures res.player == p.(epsilon := 0.0)
    ensures res.move == Exploit(p.q, HashBoard(game.board), EmptyCells(game.board), pick)
    ensures Free(game.board, res.move)
    ensures forall b :: Free(game.board, b) ==> QOf(p.q, HashBoard(game.board), b) <= QOf(p.q, HashBoard(game.board), res.move)
  {
    var p' := p.(epsilon := 0.0);
    Played(ChooseAction(p'.q, game, p'.epsilon, u, roll, pick), p')
  }
}
