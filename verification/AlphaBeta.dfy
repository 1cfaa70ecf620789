/** The alpha-beta player (`TTT_AlphaBetaPlayer`): the minimax recursion
    with fail-soft `alpha` / `beta` bounds threaded through the scan and an
    early exit from the scan once `beta <= alpha`.  The infinite bounds of
    the root call are the sentinels `NegInf` / `PosInf` of `MinimaxPlayer`. */
module AlphaBetaPlayer {
  import opened Wrappers
  import opened Games
  import opened MinimaxPlayer

  /** `evaluate` of the alpha-beta player, written out again as in its class
      and named apart from `MinimaxPlayer.Evaluate`:
      +1 if X has won, otherwise -1 if O has won, otherwise 0. */
  function Evaluation<G>(r: Rules<G>, g: G): (s: int)
    ensures s == 1 <==> r.wins(g, X)
    ensures s == -1 <==> !r.wins(g, X) && r.wins(g, O)
    ensures s == 0 <==> !r.wins(g, X) && !r.wins(g, O)
  {
    if r.wins(g, X) then 1 else if r.wins(g, O) then -1 else 0
  }

  /** `minimax(game, depth, player_letter, alpha, beta)`. */
  function Search<G>(r: Rules<G>, g: G, depth: nat, p: Player, alpha: int, beta: int): Choice
    decreases depth, 1
  {
    if Stops(r, g, depth) then Choice(None, Evaluation(r, g))
    else PrunedScan(r, g, depth, p, r.emptyCells(g), Choice(None, Worst(p)), alpha, beta)
  }

  /** The raised `alpha` (X) or lowered `beta` (O) after a child. */
  function RaiseAlpha(p: Player, alpha: int, best: int): int
  {
    if p == X then Pick(X, alpha, best) else alpha
  }

  function LowerBeta(p: Player, beta: int, best: int): int
  {
    if p == O then Pick(O, beta, best) else beta
  }

  /** The scan of one node: each child is searched with the current bounds,
      the best is replaced on a strict improvement, then X raises `alpha`
      to the best (O lowers `beta`), and the scan stops as soon as
      `beta <= alpha`. */
  function PrunedScan<G>(r: Rules<G>, g: G, depth: nat, p: Player, cells: seq<Pos>, best: Choice, alpha: int, beta: int): Choice
    requires depth > 0
    decreases depth, 0, |cells|
  {
    if |cells| == 0 then best
    else
      var s := Search(r, r.play(g, cells[0], p), depth - 1, Other(p), alpha, beta).score;
      var best' := if Improves(p, s, best.score) then Choice(Some(cells[0]), s) else best;
      var alpha', beta' := RaiseAlpha(p, alpha, best'.score), LowerBeta(p, beta, best'.score);
      if beta' <= alpha' then best'
      else PrunedScan(r, g, depth, p, cells[1..], best', alpha', beta')
  }

  /** Where a scan stands between two cells: the best so far and the
      window. */
  datatype Progress = Progress(best: Choice, alpha: int, beta: int)

  /** The window is still open: the scan goes on to the next cell. */
  predicate Open(st: Progress)
  {
    st.alpha < st.beta
  }

  /** One cell of the scan: the child is searched in the current window,
      the best is replaced on a strict improvement, and X raises `alpha`
      (O lowers `beta`) to the best. */
  function Step<G>(r: Rules<G>, g: G, depth: nat, p: Player, cell: Pos, st: Progress): Progress
    requires depth > 0
  {
    var s := Search(r, r.play(g, cell, p), depth - 1, Other(p), st.alpha, st.beta).score;
    var best' := if Improves(p, s, st.best.score) then Choice(Some(cell), s) else st.best;
    Progress(best', RaiseAlpha(p, st.alpha, best'.score), LowerBeta(p, st.beta, best'.score))
  }

  /** The progress after the first `k` cells, one `Step` each, whatever
      the window does on the way. */
  function After<G>(r: Rules<G>, g: G, depth: nat, p: Player, cells: seq<Pos>, st: Progress, k: nat): Progress
    requires depth > 0 && k <= |cells|
    decreases k
  {
    if k == 0 then st
    else After(r, g, depth, p, cells[1..], Step(r, g, depth, p, cells[0], st), k - 1)
  }

  /** How many cells a scan looks at before it returns (see
      `ExploredIsCutOff`). */
  function Explored<G>(r: Rules<G>, g: G, depth: nat, p: Player, cells: seq<Pos>, best: Choice, alpha: int, beta: int): (n: nat)
    requires depth > 0
    ensures n <= |cells|
    ensures |cells| > 0 ==> n >= 1
    decreases |cells|
  {
    if |cells| == 0 then 0
    else
      var st := Step(r, g, depth, p, cells[0], Progress(best, alpha, beta));
      if !Open(st) then 1
      else 1 + Explored(r, g, depth, p, cells[1..], st.best, st.alpha, st.beta)
  }

  /** The scan stops right after the first cell whose search closes the
      window (`beta <= alpha`), or after the last cell when none does, and
      returns the best at that point. */
  lemma {:induction false} ExploredIsCutOff<G>(r: Rules<G>, g: G, depth: nat, p: Player, cells: seq<Pos>, best: Choice,
                                           alpha: int, beta: int)
    requires depth > 0
    ensures var st, n := Progress(best, alpha, beta), Explored(r, g, depth, p, cells, best, alpha, beta);
            (forall k :: 1 <= k < n ==> Open(After(r, g, depth, p, cells, st, k))) &&
            (n < |cells| ==> !Open(After(r, g, depth, p, cells, st, n))) &&
            PrunedScan(r, g, depth, p, cells, best, alpha, beta) == After(r, g, depth, p, cells, st, n).best
    decreases |cells|
  {
    if |cells| > 0 {
      var st := Progress(best, alpha, beta);
      var st' := Step(r, g, depth, p, cells[0], st);
      if Open(st') {
        ExploredIsCutOff(r, g, depth, p, cells[1..], st'.best, st'.alpha, st'.beta);
        var n := Explored(r, g, depth, p, cells, best, alpha, beta);
        forall k | 1 <= k < n
          ensures Open(After(r, g, depth, p, cells, st, k))
        {
          assert After(r, g, depth, p, cells, st, k) == After(r, g, depth, p, cells[1..], st', k - 1);
        }
      }
    }
  }

  predicate Bounds(alpha: int, beta: int)
  {
    NegInf <= alpha < beta <= PosInf
  }

  /** Fail-soft bound lemma.  With `v` the plain minimax value: a value
      strictly inside the window is returned exactly; a value at or below
      `alpha` comes back as an upper bound at most `alpha`; a value at or
      above `beta` comes back as a lower bound at least `beta`. */
  lemma {:induction false} SearchBound<G>(r: Rules<G>, g: G, depth: nat, p: Player, alpha: int, beta: int)
    requires Bounds(alpha, beta)
    ensures var v, res := Value(r, g, depth, p), Search(r, g, depth, p, alpha, beta).score;
            (alpha < v < beta ==> res == v) &&
            (v <= alpha ==> v <= res <= alpha) &&
            (beta <= v ==> beta <= res <= v)
    decreases depth, 1
  {
    ValueBounded(r, g, depth, p);
    if !Stops(r, g, depth) {
      var cells := r.emptyCells(g);
      ScanBound(r, g, depth, p, cells, Choice(None, Worst(p)), alpha, beta);
    }
  }

  /** The window facts a fail-soft search result `r` satisfies for a true
      value `v`: exact inside the window, an upper bound at or below
      `alpha`, a lower bound at or above `beta`. */
  predicate Window(alpha: int, beta: int, v: int, r: int)
  {
    (alpha < v < beta ==> r == v) &&
    (v <= alpha ==> v <= r <= alpha) &&
    (beta <= v ==> beta <= r <= v)
  }

  /** One step of the maximiser's scan, as arithmetic: child value `v0`,
      child result `r0`, best of the remaining values `m'`, result of the
      remaining scan `r'` (used only when there is no cut-off). */
  lemma MaxStep(alpha: int, beta: int, b: int, v0: int, r0: int, m': int, r': int)
    requires alpha < beta && b <= alpha && NegInf <= v0 <= PosInf && NegInf <= m'
    requires Window(alpha, beta, v0, r0)
    requires var b' := if r0 > b then r0 else b;
             var a' := Pick(X, alpha, b');
             a' < beta ==> Window(a', beta, m', r') && (m' <= a' ==> b' <= r')
    ensures var b' := if r0 > b then r0 else b;
            var a' := Pick(X, alpha, b');
            var r := if beta <= a' then b' else r';
            Window(alpha, beta, Pick(X, v0, m'), r) && (Pick(X, v0, m') <= alpha ==> b <= r)
  {
  }

  /** The minimiser's step, mirrored. */
  lemma MinStep(alpha: int, beta: int, b: int, v0: int, r0: int, m': int, r': int)
    requires alpha < beta && beta <= b && NegInf <= v0 <= PosInf && m' <= PosInf
    requires Window(alpha, beta, v0, r0)
    requires var b' := if r0 < b then r0 else b;
             var c' := Pick(O, beta, b');
             alpha < c' ==> Window(alpha, c', m', r') && (c' <= m' ==> r' <= b')
    ensures var b' := if r0 < b then r0 else b;
            var c' := Pick(O, beta, b');
            var r := if c' <= alpha then b' else r';
            Window(alpha, beta, Pick(O, v0, m'), r) && (beta <= Pick(O, v0, m') ==> r <= b)
  {
  }

  /** The state of a scan in progress: a proper window, and a best so far
      that has not passed the bound it moves (`alpha` for X, `beta` for O). */
  predicate Proper(p: Player, alpha: int, beta: int, b: int)
  {
    Bounds(alpha, beta) && NegInf <= b <= PosInf && (p == X ==> b <= alpha) && (p == O ==> beta <= b)
  }

  /** A searched child: its value `v0` is a score and its result `r0` is
      within the window relation. */
  predicate Searched(alpha: int, beta: int, v0: int, r0: int)
  {
    NegInf <= v0 <= PosInf && Window(alpha, beta, v0, r0)
  }

  /** The best `b'` and the bounds `a'`, `c'` after a child with result
      `r0`, from the best `b` and the bounds `alpha`, `beta` before it. */
  predicate Moved(p: Player, alpha: int, beta: int, b: int, r0: int, b': int, a': int, c': int)
  {
    b' == (if Improves(p, r0, b) then r0 else b) && a' == RaiseAlpha(p, alpha, b') && c' == LowerBeta(p, beta, b')
  }

  /** What a scan from best `b` in the window (`alpha`, `beta`) guarantees
      about its result `res`, with `m` the best value of the cells it
      scans: the window relation holds, and a fail-low (for X) or
      fail-high (for O) result is no better than `b`. */
  predicate Bound(p: Player, alpha: int, beta: int, b: int, m: int, res: int)
  {
    Window(alpha, beta, m, res) && (p == X && m <= alpha ==> b <= res) && (p == O && beta <= m ==> res <= b)
  }

  /** One step of either player's scan, as arithmetic: `b` is the best so
      far, `v0` and `r0` the first child's value and result, `b'`, `a'`
      and `c'` the best and the bounds after it, `m'` and `r'` the best
      value and the result of the rest of the scan, `m` and `res` those of
      the whole scan. */
  lemma ScanStep(p: Player, alpha: int, beta: int, b: int, v0: int, r0: int, b': int, a': int, c': int,
                 m': int, r': int, m: int, res: int)
    requires Proper(p, alpha, beta, b) && Searched(alpha, beta, v0, r0) && Moved(p, alpha, beta, b, r0, b', a', c')
    requires NegInf <= m' <= PosInf && (c' > a' ==> Bound(p, a', c', b', m', r'))
    requires m == Pick(p, v0, m') && res == (if c' <= a' then b' else r')
    ensures Bound(p, alpha, beta, b, m, res)
  {
    if p == X {
      MaxStep(alpha, beta, b, v0, r0, m', r');
    } else {
      MinStep(alpha, beta, b, v0, r0, m', r');
    }
  }

  /** Without a cut-off the scan goes on in a proper state. */
  lemma NextProper(p: Player, alpha: int, beta: int, b: int, v0: int, r0: int, b': int, a': int, c': int)
    requires Proper(p, alpha, beta, b) && Searched(alpha, beta, v0, r0) && Moved(p, alpha, beta, b, r0, b', a', c')
    ensures c' > a' ==> Proper(p, a', c', b')
  {
  }

  /** What a scan in progress guarantees: `Bound`, with `m` the best value
      of the cells still to try. */
  ghost predicate ScanBounded<G>(r: Rules<G>, g: G, depth: nat, p: Player, cells: seq<Pos>, best: Choice, alpha: int, beta: int)
    requires depth > 0
  {
    Bound(p, alpha, beta, best.score, Best(p, ChildValues(r, g, depth, p, cells)), PrunedScan(r, g, depth, p, cells, best, alpha, beta).score)
  }

  /** The same bound for a scan in progress: `best` is the best returned
      score so far, never better than the bound it has already moved. */
  lemma {:induction false} ScanBound<G>(r: Rules<G>, g: G, depth: nat, p: Player, cells: seq<Pos>, best: Choice, alpha: int, beta: int)
    requires depth > 0 && Proper(p, alpha, beta, best.score)
    ensures ScanBounded(r, g, depth, p, cells, best, alpha, beta)
    decreases depth, 0, |cells|
  {
    if |cells| > 0 {
      var child := r.play(g, cells[0], p);
      SearchBound(r, child, depth - 1, Other(p), alpha, beta);
      ValueBounded(r, child, depth - 1, Other(p));
      var v0 := Value(r, child, depth - 1, Other(p));
      var r0 := Search(r, child, depth - 1, Other(p), alpha, beta).score;
      var best' := if Improves(p, r0, best.score) then Choice(Some(cells[0]), r0) else best;
      var alpha', beta' := RaiseAlpha(p, alpha, best'.score), LowerBeta(p, beta, best'.score);
      assert Searched(alpha, beta, v0, r0) && Moved(p, alpha, beta, best.score, r0, best'.score, alpha', beta');
      PrunedScanCons(r, g, depth, p, cells, best, alpha, beta);
      ChildValuesCons(r, g, depth, p, cells);
      var vs' := ChildValues(r, g, depth, p, cells[1..]);
      BestCons(p, v0, vs');
      BestValuesBounded(r, g, depth, p, cells[1..]);
      NextProper(p, alpha, beta, best.score, v0, r0, best'.score, alpha', beta');
      if beta' > alpha' {
        ScanBound(r, g, depth, p, cells[1..], best', alpha', beta');
      }
      ScanStep(p, alpha, beta, best.score, v0, r0, best'.score, alpha', beta',
               Best(p, vs'), PrunedScan(r, g, depth, p, cells[1..], best', alpha', beta').score,
               Best(p, ChildValues(r, g, depth, p, cells)), PrunedScan(r, g, depth, p, cells, best, alpha, beta).score);
    }
  }

  /** One step of the scan, unfolded. */
  lemma PrunedScanCons<G>(r: Rules<G>, g: G, depth: nat, p: Player, cells: seq<Pos>, best: Choice, alpha: int, beta: int)
    requires depth > 0 && |cells| > 0
    ensures var s := Search(r, r.play(g, cells[0], p), depth - 1, Other(p), alpha, beta).score;
            var best' := if Improves(p, s, best.score) then Choice(Some(cells[0]), s) else best;
            var alpha', beta' := RaiseAlpha(p, alpha, best'.score), LowerBeta(p, beta, best'.score);
            PrunedScan(r, g, depth, p, cells, best, alpha, beta) ==
              if beta' <= alpha' then best' else PrunedScan(r, g, depth, p, cells[1..], best', alpha', beta')
  {
  }

  /** Every score alpha-beta returns is a real score in {-1, 0, 1}. */
  lemma {:induction false} SearchInRange<G(!new)>(r: Rules<G>, g: G, depth: nat, p: Player, alpha: int, beta: int)
    requires Consistent(r)
    ensures -1 <= Search(r, g, depth, p, alpha, beta).score <= 1
    decreases depth, 1
  {
    if !Stops(r, g, depth) {
      ScanInRange(r, g, depth, p, r.emptyCells(g), Choice(None, Worst(p)), alpha, beta);
    }
  }

  lemma {:induction false} ScanInRange<G(!new)>(r: Rules<G>, g: G, depth: nat, p: Player, cells: seq<Pos>, best: Choice, alpha: int, beta: int)
    requires Consistent(r) && depth > 0
    requires best.score == Worst(p) || -1 <= best.score <= 1
    requires best.score == Worst(p) ==> |cells| > 0
    ensures -1 <= PrunedScan(r, g, depth, p, cells, best, alpha, beta).score <= 1
    decreases depth, 0, |cells|
  {
    if |cells| > 0 {
      var child := r.play(g, cells[0], p);
      SearchInRange(r, child, depth - 1, Other(p), alpha, beta);
      var s := Search(r, child, depth - 1, Other(p), alpha, beta).score;
      var best' := if Improves(p, s, best.score) then Choice(Some(cells[0]), s) else best;
      var alpha', beta' := RaiseAlpha(p, alpha, best'.score), LowerBeta(p, beta, best'.score);
      if beta' > alpha' {
        ScanInRange(r, g, depth, p, cells[1..], best', alpha', beta');
      }
    }
  }

  /** Whatever the window, the search returns a score between the two
      sentinels. */
  lemma {:induction false} SearchWithin<G>(r: Rules<G>, g: G, depth: nat, p: Player, alpha: int, beta: int)
    ensures NegInf <= Search(r, g, depth, p, alpha, beta).score <= PosInf
    decreases depth, 1
  {
    if !Stops(r, g, depth) {
      PrunedScanWithin(r, g, depth, p, r.emptyCells(g), Choice(None, Worst(p)), alpha, beta);
    }
  }

  lemma {:induction false} PrunedScanWithin<G>(r: Rules<G>, g: G, depth: nat, p: Player, cells: seq<Pos>, best: Choice,
                                           alpha: int, beta: int)
    requires depth > 0 && NegInf <= best.score <= PosInf
    ensures NegInf <= PrunedScan(r, g, depth, p, cells, best, alpha, beta).score <= PosInf
    decreases depth, 0, |cells|
  {
    if |cells| > 0 {
      var child := r.play(g, cells[0], p);
      SearchWithin(r, child, depth - 1, Other(p), alpha, beta);
      var s := Search(r, child, depth - 1, Other(p), alpha, beta).score;
      var best' := if Improves(p, s, best.score) then Choice(Some(cells[0]), s) else best;
      var alpha', beta' := RaiseAlpha(p, alpha, best'.score), LowerBeta(p, beta, best'.score);
      if beta' > alpha' {
        PrunedScanWithin(r, g, depth, p, cells[1..], best', alpha', beta');
      }
    }
  }

  /** At the root the window is (-inf, +inf): the maximiser's `alpha` is its
      own best so far (the minimiser's `beta` likewise) and the other bound
      stays infinite.  Every child's improvement is then seen exactly as
      minimax sees it, and a cut-off happens only once the best is the
      other letter's infinity, which minimax's scan keeps to the end. */
  lemma {:induction false} RootScanIsMinimaxScan<G>(r: Rules<G>, g: G, depth: nat, p: Player, cells: seq<Pos>, best: Choice)
    requires depth > 0 && NegInf <= best.score <= PosInf
    ensures var alpha := if p == X then best.score else NegInf;
            var beta := if p == X then PosInf else best.score;
            PrunedScan(r, g, depth, p, cells, best, alpha, beta) == MinimaxPlayer.Scan(r, g, depth, p, cells, best)
    decreases |cells|
  {
    if |cells| > 0 {
      var alpha := if p == X then best.score else NegInf;
      var beta := if p == X then PosInf else best.score;
      var child := r.play(g, cells[0], p);
      MinimaxScore(r, child, depth - 1, Other(p));
      ValueBounded(r, child, depth - 1, Other(p));
      if alpha < beta {
        SearchBound(r, child, depth - 1, Other(p), alpha, beta);
      } else {
        SearchWithin(r, child, depth - 1, Other(p), alpha, beta);
      }
      var s := Search(r, child, depth - 1, Other(p), alpha, beta).score;
      var best' := if Improves(p, s, best.score) then Choice(Some(cells[0]), s) else best;
      MinimaxPlayer.ScanCons(r, g, depth, p, cells, best);
      if best'.score == Worst(Other(p)) {
        ScanKeepsTop(r, g, depth, p, cells[1..], best');
      } else {
        RootScanIsMinimaxScan(r, g, depth, p, cells[1..], best');
      }
    }
  }

  /** Alpha-beta at (-inf, +inf) returns exactly what minimax returns, both
      the score and the cell, on every game. */
  lemma SearchIsMinimax<G>(r: Rules<G>, g: G, depth: nat, p: Player)
    ensures Search(r, g, depth, p, NegInf, PosInf) == Minimax(r, g, depth, p)
  {
    if !Stops(r, g, depth) {
      RootScanIsMinimaxScan(r, g, depth, p, r.emptyCells(g), Choice(None, Worst(p)));
    }
  }

  /** Replacing the cells after the first `n`: the first cell stays, and the
      rest is the rest of `cells` replaced after `n - 1`. */
  lemma SpliceCons(cells: seq<Pos>, n: nat, others: seq<Pos>)
    requires 0 < n <= |cells|
    ensures (cells[..n] + others)[0] == cells[0]
    ensures (cells[..n] + others)[1..] == cells[1..][..n - 1] + others
  {
  }

  /** Pruning soundness: the cells a scan never looked at do not matter;
      any other cells in their place give the same result. */
  lemma {:induction false} UnexploredIrrelevant<G>(r: Rules<G>, g: G, depth: nat, p: Player, cells: seq<Pos>, best: Choice,
                                               alpha: int, beta: int, others: seq<Pos>)
    requires depth > 0
    ensures var n := Explored(r, g, depth, p, cells, best, alpha, beta);
            (n < |cells| ==>
              PrunedScan(r, g, depth, p, cells[..n] + others, best, alpha, beta) == PrunedScan(r, g, depth, p, cells, best, alpha, beta))
    decreases |cells|
  {
    var n := Explored(r, g, depth, p, cells, best, alpha, beta);
    if 0 < n < |cells| {
      var s := Search(r, r.play(g, cells[0], p), depth - 1, Other(p), alpha, beta).score;
      var best' := if Improves(p, s, best.score) then Choice(Some(cells[0]), s) else best;
      var alpha', beta' := RaiseAlpha(p, alpha, best'.score), LowerBeta(p, beta, best'.score);
      var cs := cells[..n] + others;
      SpliceCons(cells, n, others);
      PrunedScanCons(r, g, depth, p, cells, best, alpha, beta);
      PrunedScanCons(r, g, depth, p, cs, best, alpha, beta);
      if beta' > alpha' {
        UnexploredIrrelevant(r, g, depth, p, cells[1..], best', alpha', beta', others);
      }
    }
  }

  /** `get_move`: no move when the board is full or the game is over, a
      random empty cell on the empty board, otherwise the first two entries
      of the root search; `pick` stands for `random.choice`. */
  function GetMove<G(!new)>(r: Rules<G>, g: G, letter: Player, pick: nat): (m: Option<Pos>)
    requires Consistent(r)
    ensures m.None? <==> r.gameOver(g)
    ensures m.Some? ==> m.value in r.emptyCells(g)
    ensures !r.gameOver(g) && |r.emptyCells(g)| != 9 ==> m == Minimax(r, g, |r.emptyCells(g)|, letter).move
  {
    var cells := r.emptyCells(g);
    if |cells| == 0 || r.gameOver(g) then None
    else if |cells| == 9 then Some(cells[pick % 9])
    else
      SearchIsMinimax(r, g, |cells|, letter);
      MinimaxMoveIsLegal(r, g, |cells|, letter);
      Search(r, g, |cells|, letter, NegInf, PosInf).move
  }
}
