/** The exhaustive minimax player (`TTT_MinimaxPlayer`).

    Scores are from a fixed perspective: an X win is +1, an O win is -1,
    anything else is 0.  X maximises, O minimises, and the mover alternates
    at every ply.  `minimax.py` starts each scan from `-math.inf` or
    `math.inf`; since every real score lies in [-1, 1] those are modelled by
    the sentinels `NegInf = -2` and `PosInf = 2`. */
module MinimaxPlayer {
  import opened Wrappers
  import opened Games

  const NegInf: int := -2
  const PosInf: int := 2

  /** `minimax.py`'s `[row, col, score]` list; `move == None` is `[None, None, score]`. */
  datatype Choice = Choice(move: Option<Pos>, score: int)

  /** `evaluate`: +1 if X has won, otherwise -1 if O has won, otherwise 0. */
  function Evaluate<G>(r: Rules<G>, g: G): (s: int)
    ensures s == 1 <==> r.wins(g, X)
    ensures s == -1 <==> !r.wins(g, X) && r.wins(g, O)
    ensures s == 0 <==> !r.wins(g, X) && !r.wins(g, O)
  {
    if r.wins(g, X) then 1 else if r.wins(g, O) then -1 else 0
  }

  /** The score a scan starts from: `-inf` for X, `+inf` for O. */
  function Worst(p: Player): int
  {
    if p == X then NegInf else PosInf
  }

  /** The strict comparison that replaces the best so far (`>` for X, `<` for O). */
  predicate Improves(p: Player, s: int, best: int)
  {
    if p == X then s > best else s < best
  }

  /** The better of two scores for `p`: max for X, min for O. */
  function Pick(p: Player, a: int, b: int): int
  {
    if p == X then (if a >= b then a else b) else (if a <= b then a else b)
  }

  /** The base case of the recursion: the game is over or no depth is left. */
  predicate Stops<G>(r: Rules<G>, g: G, depth: nat)
  {
    r.gameOver(g) || depth == 0
  }

  /** `minimax(game, depth, player_letter)`. */
  function Minimax<G>(r: Rules<G>, g: G, depth: nat, p: Player): Choice
    decreases depth, 1
  {
    if Stops(r, g, depth) then Choice(None, Evaluate(r, g))
    else Scan(r, g, depth, p, r.emptyCells(g), Choice(None, Worst(p)))
  }

  /** The `for cell in game.empty_cells()` loop of `minimax`: each cell is
      tried on a copy of the game, and the best so far is replaced only on a
      strict improvement. */
  function Scan<G>(r: Rules<G>, g: G, depth: nat, p: Player, cells: seq<Pos>, best: Choice): Choice
    requires depth > 0
    decreases depth, 0, |cells|
  {
    if |cells| == 0 then best
    else
      var s := Minimax(r, r.play(g, cells[0], p), depth - 1, Other(p)).score;
      Scan(r, g, depth, p, cells[1..], if Improves(p, s, best.score) then Choice(Some(cells[0]), s) else best)
  }

  // ---------------------------------------------------------------------
  // Reference definition: the game value as the max / min of child values.
  // ---------------------------------------------------------------------

  /** The best of `xs` for `p` (max for X, min for O); `Worst(p)` when empty. */
  function Best(p: Player, xs: seq<int>): int
  {
    if |xs| == 0 then Worst(p) else Pick(p, xs[0], Best(p, xs[1..]))
  }

  /** The depth-bounded game value with `p` to move. */
  function Value<G>(r: Rules<G>, g: G, depth: nat, p: Player): int
    decreases depth, 1
  {
    if Stops(r, g, depth) then Evaluate(r, g)
    else Best(p, ChildValues(r, g, depth, p, r.emptyCells(g)))
  }

  /** The values of the positions reached by `p` playing each of `cells`. */
  function ChildValues<G>(r: Rules<G>, g: G, depth: nat, p: Player, cells: seq<Pos>): (vs: seq<int>)
    requires depth > 0
    ensures |vs| == |cells|
    decreases depth, 0, |cells|
  {
    if |cells| == 0 then []
    else [Value(r, r.play(g, cells[0], p), depth - 1, Other(p))] + ChildValues(r, g, depth, p, cells[1..])
  }

  /** Index of the first occurrence of `v` in `xs`. */
  function First(xs: seq<int>, v: int): (i: nat)
    requires v in xs
    ensures i < |xs| && xs[i] == v
    ensures forall j :: 0 <= j < i ==> xs[j] != v
  {
    if xs[0] == v then 0 else 1 + First(xs[1..], v)
  }

  predicate InRange(xs: seq<int>, lo: int, hi: int)
  {
    forall k :: 0 <= k < |xs| ==> lo <= xs[k] <= hi
  }

  lemma InRangeCons(x: int, xs: seq<int>, lo: int, hi: int)
    requires lo <= x <= hi && InRange(xs, lo, hi)
    ensures InRange([x] + xs, lo, hi)
  {
    assert forall k :: 1 <= k < |[x] + xs| ==> ([x] + xs)[k] == xs[k - 1];
  }

  /** The best of a non-empty list of in-range scores is one of them and is
      at least as good as each of them. */
  lemma {:induction false} BestOf(p: Player, xs: seq<int>)
    requires InRange(xs, NegInf, PosInf)
    ensures NegInf <= Best(p, xs) <= PosInf
    ensures |xs| > 0 ==> Best(p, xs) in xs
    ensures forall k :: 0 <= k < |xs| ==> Pick(p, Best(p, xs), xs[k]) == Best(p, xs)
  {
    if |xs| > 0 {
      BestOf(p, xs[1..]);
      assert forall k :: 1 <= k < |xs| ==> xs[k] == xs[1..][k - 1];
    }
  }

  lemma {:induction false} BestInRange(p: Player, xs: seq<int>)
    requires |xs| > 0 && InRange(xs, -1, 1)
    ensures -1 <= Best(p, xs) <= 1
  {
    if |xs| > 1 {
      BestInRange(p, xs[1..]);
    }
  }

  /** Every game value lies between the two sentinels. */
  lemma {:induction false} ValueBounded<G>(r: Rules<G>, g: G, depth: nat, p: Player)
    ensures NegInf <= Value(r, g, depth, p) <= PosInf
    decreases depth, 1
  {
    if !Stops(r, g, depth) {
      var cells := r.emptyCells(g);
      ChildValuesBounded(r, g, depth, p, cells);
      BestOf(p, ChildValues(r, g, depth, p, cells));
    }
  }

  lemma {:induction false} ChildValuesBounded<G>(r: Rules<G>, g: G, depth: nat, p: Player, cells: seq<Pos>)
    requires depth > 0
    ensures InRange(ChildValues(r, g, depth, p, cells), NegInf, PosInf)
    decreases depth, 0, |cells|
  {
    if |cells| > 0 {
      ValueBounded(r, r.play(g, cells[0], p), depth - 1, Other(p));
      ChildValuesBounded(r, g, depth, p, cells[1..]);
      var v := Value(r, r.play(g, cells[0], p), depth - 1, Other(p));
      var rest := ChildValues(r, g, depth, p, cells[1..]);
      InRangeCons(v, rest, NegInf, PosInf);
      assert ChildValues(r, g, depth, p, cells) == [v] + rest;
    }
  }

  /** The best child value lies between the two sentinels. */
  lemma BestValuesBounded<G>(r: Rules<G>, g: G, depth: nat, p: Player, cells: seq<Pos>)
    requires depth > 0
    ensures NegInf <= Best(p, ChildValues(r, g, depth, p, cells)) <= PosInf
  {
    ChildValuesBounded(r, g, depth, p, cells);
    BestOf(p, ChildValues(r, g, depth, p, cells));
  }

  lemma ChildValuesCons<G>(r: Rules<G>, g: G, depth: nat, p: Player, cells: seq<Pos>)
    requires depth > 0 && |cells| > 0
    ensures ChildValues(r, g, depth, p, cells) ==
              [Value(r, r.play(g, cells[0], p), depth - 1, Other(p))] + ChildValues(r, g, depth, p, cells[1..])
  {
  }

  lemma BestCons(p: Player, v: int, xs: seq<int>)
    ensures Best(p, [v] + xs) == Pick(p, v, Best(p, xs))
  {
    assert ([v] + xs)[1..] == xs;
  }

  /** On a consistent game every value is a real score in {-1, 0, 1}: a
      position that is not over has an empty cell, so the scan never returns
      its infinite start. */
  lemma {:induction false} ValueInRange<G(!new)>(r: Rules<G>, g: G, depth: nat, p: Player)
    requires Consistent(r)
    ensures -1 <= Value(r, g, depth, p) <= 1
    decreases depth, 1
  {
    if !Stops(r, g, depth) {
      var cells := r.emptyCells(g);
      ChildValuesInRange(r, g, depth, p, cells);
      BestInRange(p, ChildValues(r, g, depth, p, cells));
    }
  }

  lemma {:induction false} ChildValuesInRange<G(!new)>(r: Rules<G>, g: G, depth: nat, p: Player, cells: seq<Pos>)
    requires Consistent(r) && depth > 0
    ensures InRange(ChildValues(r, g, depth, p, cells), -1, 1)
    decreases depth, 0, |cells|
  {
    if |cells| > 0 {
      ValueInRange(r, r.play(g, cells[0], p), depth - 1, Other(p));
      ChildValuesInRange(r, g, depth, p, cells[1..]);
      var v := Value(r, r.play(g, cells[0], p), depth - 1, Other(p));
      var rest := ChildValues(r, g, depth, p, cells[1..]);
      InRangeCons(v, rest, -1, 1);
      assert ChildValues(r, g, depth, p, cells) == [v] + rest;
    }
  }

  /** What one scan returns, for cells whose child values are `vs`: the
      starting best when no cell strictly improves on it, and otherwise the
      first cell whose child value is the best child value, with that value. */
  predicate Meets(p: Player, cells: seq<Pos>, vs: seq<int>, best: Choice, res: Choice)
    requires |vs| == |cells|
  {
    var b := Best(p, vs);
    if Pick(p, best.score, b) == best.score then res == best
    else b in vs && res == Choice(Some(cells[First(vs, b)]), b)
  }

  /** One cell of the scan: if the rest of the scan, started from the best
      after the first cell, meets its specification, the whole scan does. */
  lemma MeetsCons(p: Player, cells: seq<Pos>, vs: seq<int>, best: Choice, res: Choice)
    requires |vs| == |cells| > 0 && InRange(vs[1..], NegInf, PosInf)
    requires NegInf <= vs[0] <= PosInf && NegInf <= best.score <= PosInf
    requires Meets(p, cells[1..], vs[1..], if Improves(p, vs[0], best.score) then Choice(Some(cells[0]), vs[0]) else best, res)
    ensures Meets(p, cells, vs, best, res)
  {
    var s, vs' := vs[0], vs[1..];
    assert vs == [s] + vs';
    BestCons(p, s, vs');
    BestOf(p, vs');
    var b := Best(p, vs');
    if Pick(p, if Improves(p, s, best.score) then s else best.score, b) != (if Improves(p, s, best.score) then s else best.score) {
      assert First([s] + vs', b) == 1 + First(vs', b);
    }
  }

  /** One step of the scan, unfolded. */
  lemma ScanCons<G>(r: Rules<G>, g: G, depth: nat, p: Player, cells: seq<Pos>, best: Choice)
    requires depth > 0 && |cells| > 0
    ensures var s := Minimax(r, r.play(g, cells[0], p), depth - 1, Other(p)).score;
            Scan(r, g, depth, p, cells, best) ==
              Scan(r, g, depth, p, cells[1..], if Improves(p, s, best.score) then Choice(Some(cells[0]), s) else best)
  {
  }

  lemma {:induction false} ScanSpec<G>(r: Rules<G>, g: G, depth: nat, p: Player, cells: seq<Pos>, best: Choice)
    requires depth > 0
    requires NegInf <= best.score <= PosInf
    ensures Meets(p, cells, ChildValues(r, g, depth, p, cells), best, Scan(r, g, depth, p, cells, best))
    decreases depth, 0, |cells|
  {
    if |cells| > 0 {
      var child := r.play(g, cells[0], p);
      var vs := ChildValues(r, g, depth, p, cells);
      MinimaxScore(r, child, depth - 1, Other(p));
      ValueBounded(r, child, depth - 1, Other(p));
      ChildValuesBounded(r, g, depth, p, cells[1..]);
      ChildValuesCons(r, g, depth, p, cells);
      assert vs[1..] == ChildValues(r, g, depth, p, cells[1..]);
      var s := Minimax(r, child, depth - 1, Other(p)).score;
      var next := if Improves(p, s, best.score) then Choice(Some(cells[0]), s) else best;
      ScanSpec(r, g, depth, p, cells[1..], next);
      ScanCons(r, g, depth, p, cells, best);
      MeetsCons(p, cells, vs, best, Scan(r, g, depth, p, cells, best));
    }
  }

  /** The score `minimax` returns is the game value. */
  lemma {:induction false} MinimaxScore<G>(r: Rules<G>, g: G, depth: nat, p: Player)
    ensures Minimax(r, g, depth, p).score == Value(r, g, depth, p)
    decreases depth, 1
  {
    if !Stops(r, g, depth) {
      var cells := r.emptyCells(g);
      ScanSpec(r, g, depth, p, cells, Choice(None, Worst(p)));
      BestValuesBounded(r, g, depth, p, cells);
    }
  }

  /** A scan whose best is already the best score there is for `p` (the
      other letter's infinite start) keeps it: no child improves on it. */
  lemma ScanKeepsTop<G>(r: Rules<G>, g: G, depth: nat, p: Player, cells: seq<Pos>, best: Choice)
    requires depth > 0 && best.score == Worst(Other(p))
    ensures Scan(r, g, depth, p, cells, best) == best
  {
    ScanSpec(r, g, depth, p, cells, best);
    BestValuesBounded(r, g, depth, p, cells);
  }

  /** `minimax` computes the game value.  Below the base case the cell it
      returns is the first cell (in `empty_cells` order) whose child value
      equals it, unless no child beats the infinite start, in which case it
      falls through to `[None, None, -inf]` (`+inf` for O). */
  lemma MinimaxIsValue<G>(r: Rules<G>, g: G, depth: nat, p: Player)
    ensures Minimax(r, g, depth, p).score == Value(r, g, depth, p)
    ensures Stops(r, g, depth) ==> Minimax(r, g, depth, p) == Choice(None, Evaluate(r, g))
    ensures !Stops(r, g, depth) ==>
              var cells := r.emptyCells(g);
              var vs := ChildValues(r, g, depth, p, cells);
              var v := Value(r, g, depth, p);
              if v == Worst(p) then Minimax(r, g, depth, p) == Choice(None, Worst(p))
              else v in vs && Minimax(r, g, depth, p).move == Some(cells[First(vs, v)])
  {
    if !Stops(r, g, depth) {
      var cells := r.emptyCells(g);
      ScanSpec(r, g, depth, p, cells, Choice(None, Worst(p)));
      ChildValuesBounded(r, g, depth, p, cells);
      BestOf(p, ChildValues(r, g, depth, p, cells));
    }
  }

  /** On a consistent game that is not over, with depth left, `minimax`
      returns an empty cell; its score is always in {-1, 0, 1}. */
  lemma MinimaxMoveIsLegal<G(!new)>(r: Rules<G>, g: G, depth: nat, p: Player)
    requires Consistent(r)
    ensures -1 <= Minimax(r, g, depth, p).score <= 1
    ensures !Stops(r, g, depth) ==>
              Minimax(r, g, depth, p).move.Some? && Minimax(r, g, depth, p).move.value in r.emptyCells(g)
  {
    MinimaxIsValue(r, g, depth, p);
    ValueInRange(r, g, depth, p);
  }

  /** With X to move the score is the maximum of the child values (each
      child searched with O to move one ply shallower); with O to move it is
      the minimum. */
  lemma MaximiserMinimiser<G>(r: Rules<G>, g: G, depth: nat, p: Player)
    requires !Stops(r, g, depth) && |r.emptyCells(g)| > 0
    ensures var vs := ChildValues(r, g, depth, p, r.emptyCells(g));
            Minimax(r, g, depth, p).score in vs &&
            forall k :: 0 <= k < |vs| ==>
              (p == X ==> vs[k] <= Minimax(r, g, depth, p).score) &&
              (p == O ==> Minimax(r, g, depth, p).score <= vs[k])
  {
    var vs := ChildValues(r, g, depth, p, r.emptyCells(g));
    MinimaxIsValue(r, g, depth, p);
    ChildValuesBounded(r, g, depth, p, r.emptyCells(g));
    BestOf(p, vs);
  }

  /** `get_move`'s result: a random empty cell on the empty board, otherwise
      the full `[row, col, score]` of a search as deep as there are empty cells. */
  datatype Decision = Opening(cell: Pos) | Searched(choice: Choice)

  /** `get_move`. `pick` stands for `random.choice`. */
  function GetMove<G>(r: Rules<G>, g: G, letter: Player, pick: nat): (d: Decision)
    ensures |r.emptyCells(g)| == 9 ==> d.Opening? && d.cell in r.emptyCells(g)
    ensures |r.emptyCells(g)| != 9 ==> d == Searched(Minimax(r, g, |r.emptyCells(g)|, letter))
  {
    var cells := r.emptyCells(g);
    if |cells| == 9 then Opening(cells[pick % 9])
    else Searched(Minimax(r, g, |cells|, letter))
  }
}
