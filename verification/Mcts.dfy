/** The Monte-Carlo tree search player (`TreeNode`, `TTT_MCTSPlayer`).

    The tree is an arena: a sequence of node records that refer to each
    other by index.  A node's children are always appended after it, so
    every parent index is smaller than its child's, and walking up to the
    root terminates.  The UCB formula, the random choices and the number of
    simulations are parameters. */
module Mcts {
  import opened Wrappers
  import opened Games

  /** The simulation outcomes `WIN`, `LOSE`, `DRAW`. */
  const Win: int := 1
  const Lose: int := -1
  const Draw: int := 0

  /** A `TreeNode`: its game state, its player letter, the index of its
      parent, the cell that led to it, the indices of its children and the
      visit count `N` and total result `Q`. */
  datatype Node<G> = Node(state: G, player: Player, parent: Option<nat>, action: Option<Pos>,
                          children: seq<nat>, n: nat, q: int)

  type Tree<G> = seq<Node<G>>

  /** `TreeNode(game, letter)`: a fresh root. */
  function Root<G>(g: G, letter: Player): Node<G>
  {
    Node(g, letter, None, None, [], 0, 0)
  }

  /** `is_leaf_node`. */
  predicate IsLeaf<G>(t: Tree<G>, i: nat)
    requires i < |t|
  {
    |t[i].children| == 0
  }

  /** `is_terminal_node`. */
  predicate IsTerminal<G>(r: Rules<G>, t: Tree<G>, i: nat)
    requires i < |t|
  {
    r.gameOver(t[i].state)
  }

  // ---------------------------------------------------------------------
  // Shape of the arena
  // ---------------------------------------------------------------------

  predicate Increasing(xs: seq<nat>)
  {
    forall k, l :: 0 <= k < l < |xs| ==> xs[k] < xs[l]
  }

  /** Node 0 is the root; every other node has a smaller parent that lists
      it among its children. */
  ghost predicate ParentLink<G>(t: Tree<G>, j: nat)
    requires j < |t|
  {
    if j == 0 then t[j].parent == None
    else t[j].parent.Some? && t[j].parent.value < j && j in t[t[j].parent.value].children
  }

  /** The children of `i` are later nodes whose parent is `i`, listed once each
      in index order. */
  ghost predicate ChildLinks<G>(t: Tree<G>, i: nat)
    requires i < |t|
  {
    Increasing(t[i].children) &&
    forall k :: 0 <= k < |t[i].children| ==> i < t[i].children[k] < |t| && t[t[i].children[k]].parent == Some(i)
  }

  ghost predicate Linked<G>(t: Tree<G>)
  {
    |t| > 0 &&
    (forall j :: 0 <= j < |t| ==> ParentLink(t, j)) &&
    (forall i :: 0 <= i < |t| ==> ChildLinks(t, i))
  }

  /** `child` is what `expand` builds below `parent`: an empty cell of the
      parent's game, marked with the game's `curr_player`, and tagged with
      the letter opposite the parent's player. */
  ghost predicate IsChildOf<G>(r: Rules<G>, parent: Node<G>, child: Node<G>)
  {
    child.action.Some? && child.action.value in r.emptyCells(parent.state) &&
    child.state == r.play(parent.state, child.action.value, r.curr(parent.state)) &&
    child.player == Other(parent.player)
  }

  ghost predicate SoundAt<G>(r: Rules<G>, t: Tree<G>, i: nat)
    requires i < |t|
  {
    forall k :: 0 <= k < |t[i].children| && t[i].children[k] < |t| ==> IsChildOf(r, t[i], t[t[i].children[k]])
  }

  /** Every child in the arena was built by `expand` from its parent. */
  ghost predicate Sound<G>(r: Rules<G>, t: Tree<G>)
  {
    forall i :: 0 <= i < |t| ==> SoundAt(r, t, i)
  }

  /** The total visit count of the listed nodes. */
  function SumN<G>(t: Tree<G>, cs: seq<nat>): nat
  {
    if |cs| == 0 then 0 else (if cs[0] < |t| then t[cs[0]].n else 0) + SumN(t, cs[1..])
  }

  /** `|Q| <= N` and the children's visits add up to at most `N`;
      `slack` allows node `i` one visit too few. */
  ghost predicate BalancedAt<G>(t: Tree<G>, i: nat, slack: nat)
    requires i < |t|
  {
    -(t[i].n as int) <= t[i].q <= t[i].n && SumN(t, t[i].children) <= t[i].n + slack
  }

  ghost predicate Balanced<G>(t: Tree<G>)
  {
    forall i :: 0 <= i < |t| ==> BalancedAt(t, i, 0)
  }

  // ---------------------------------------------------------------------
  // best_child and ucb
  // ---------------------------------------------------------------------

  /** A UCB value: `float('inf')` or a finite real. */
  datatype Key = Infinite | Finite(x: real)

  /** `a > b` on keys. */
  predicate Above(a: Key, b: Key)
  {
    match a
    case Infinite => b.Finite?
    case Finite(x) => b.Finite? && x > b.x
  }

  /** Python's `max(xs, key=...)`: the index of the first greatest key. */
  function ArgMax(keys: seq<Key>): (k: nat)
    requires |keys| > 0
    ensures k < |keys|
    ensures forall j :: 0 <= j < |keys| ==> !Above(keys[j], keys[k])
    ensures forall j :: 0 <= j < k ==> Above(keys[k], keys[j])
  {
    if |keys| == 1 then 0
    else
      var m := 1 + ArgMax(keys[1..]);
      assert keys[m] == keys[1..][m - 1];
      assert forall j :: 1 <= j < |keys| ==> keys[j] == keys[1..][j - 1];
      if Above(keys[m], keys[0]) then m else 0
  }

  /** `ucb`: infinite for an unvisited node, otherwise the UCB1 score
      `formula(Q, N, parent N)`. */
  function Ucb<G>(node: Node<G>, parentN: nat, formula: (int, nat, nat) -> real): (k: Key)
    ensures k == Infinite <==> node.n == 0
  {
    if node.n == 0 then Infinite else Finite(formula(node.q, node.n, parentN))
  }

  /** The UCB values of the children of `i`, in list order. */
  function ChildKeys<G>(t: Tree<G>, i: nat, formula: (int, nat, nat) -> real): (ks: seq<Key>)
    requires i < |t| && ChildLinks(t, i)
    ensures |ks| == |t[i].children|
  {
    seq(|t[i].children|, k requires 0 <= k < |t[i].children| => Ucb(t[t[i].children[k]], t[i].n, formula))
  }

  /** `best_child`: the child with the greatest UCB value, the first one on
      ties. */
  function BestChild<G>(t: Tree<G>, i: nat, formula: (int, nat, nat) -> real): (c: nat)
    requires Linked(t) && i < |t| && !IsLeaf(t, i)
    ensures c in t[i].children && i < c < |t|
    ensures var ks := ChildKeys(t, i, formula);
            exists k :: 0 <= k < |ks| && t[i].children[k] == c &&
              (forall j :: 0 <= j < |ks| ==> !Above(ks[j], ks[k])) &&
              (forall j :: 0 <= j < k ==> Above(ks[k], ks[j]))
  {
    assert ChildLinks(t, i);
    var k := ArgMax(ChildKeys(t, i, formula));
    t[i].children[k]
  }

  /** An unvisited child always wins: if any child of `i` has `N == 0`,
      `best_child` returns the first such child. */
  lemma BestChildPrefersUnvisited<G>(t: Tree<G>, i: nat, formula: (int, nat, nat) -> real, u: nat)
    requires Linked(t) && i < |t| && u < |t[i].children| && t[i].children[u] < |t| && t[t[i].children[u]].n == 0
    ensures var c := BestChild(t, i, formula);
            t[c].n == 0 && forall j :: 0 <= j < |t[i].children| && t[i].children[j] < c ==> t[t[i].children[j]].n > 0
  {
    assert ChildLinks(t, i);
    var cs, ks := t[i].children, ChildKeys(t, i, formula);
    var c := BestChild(t, i, formula);
    var k :| 0 <= k < |ks| && cs[k] == c &&
             (forall j :: 0 <= j < |ks| ==> !Above(ks[j], ks[k])) &&
             (forall j :: 0 <= j < k ==> Above(ks[k], ks[j]));
    assert ks[u] == Infinite;
    assert ks[k] == Infinite;
    forall j | 0 <= j < |cs| && cs[j] < c
      ensures t[cs[j]].n > 0
    {
      assert j < k;
      assert Above(ks[k], ks[j]);
    }
  }

  /** `select`: follow `best_child` from `i` until a node without children.
      `path` lists the nodes visited, starting at `i` and ending at the leaf. */
  method Select<G>(t: Tree<G>, i: nat, formula: (int, nat, nat) -> real) returns (leaf: nat, path: seq<nat>)
    requires Linked(t) && i < |t|
    ensures leaf < |t| && IsLeaf(t, leaf)
    ensures |path| > 0 && path[0] == i && path[|path| - 1] == leaf
    ensures forall k :: 0 <= k < |path| ==> path[k] < |t|
    ensures forall k :: 0 <= k < |path| - 1 ==> !IsLeaf(t, path[k]) && path[k + 1] == BestChild(t, path[k], formula)
  {
    leaf, path := i, [i];
    while !IsLeaf(t, leaf)
      invariant leaf < |t|
      invariant |path| > 0 && path[0] == i && path[|path| - 1] == leaf
      invariant forall k :: 0 <= k < |path| ==> path[k] < |t|
      invariant forall k :: 0 <= k < |path| - 1 ==> !IsLeaf(t, path[k]) && path[k + 1] == BestChild(t, path[k], formula)
      decreases |t| - leaf
    {
      var c := BestChild(t, leaf, formula);
      path := path + [c];
      leaf := c;
    }
  }

  // ---------------------------------------------------------------------
  // expand
  // ---------------------------------------------------------------------

  /** `count` consecutive indices starting at `from`. */
  function Fresh(from: nat, count: nat): (ids: seq<nat>)
    ensures |ids| == count && forall k :: 0 <= k < count ==> ids[k] == from + k
    ensures Increasing(ids)
  {
    seq(count, k requires 0 <= k < count => from + k)
  }

  /** The node `expand` creates for `cell` below node `i`: the cell is set to
      the game's `curr_player` on a copy of the parent's game, and the node
      gets the letter opposite the parent's player. */
  function ChildNode<G>(r: Rules<G>, parent: Node<G>, i: nat, cell: Pos): Node<G>
  {
    Node(r.play(parent.state, cell, r.curr(parent.state)), Other(parent.player), Some(i), Some(cell), [], 0, 0)
  }

  /** The arena after `expand` and the node it returns (`None` where
      `random.choice` of an empty child list would raise). */
  datatype Expanded<G> = Expanded(tree: Tree<G>, chosen: Option<nat>)

  /** `expand` on node `i`; `pick` stands for `random.choice`. */
  function Expand<G>(r: Rules<G>, t: Tree<G>, i: nat, pick: nat): (e: Expanded<G>)
    requires i < |t|
    ensures IsTerminal(r, t, i) ==> e == Expanded(t, Some(i))
    ensures !IsTerminal(r, t, i) ==>
              Graft(r, t, e.tree, i, r.emptyCells(t[i].state)) &&
              (e.chosen.None? <==> |e.tree[i].children| == 0) &&
              (e.chosen.Some? ==> e.chosen.value in e.tree[i].children)
  {
    if r.gameOver(t[i].state) then Expanded(t, Some(i))
    else
      var cells := r.emptyCells(t[i].state);
      var kids := t[i].children + Fresh(|t|, |cells|);
      var t' := t[i := t[i].(children := kids)] +
                seq(|cells|, k requires 0 <= k < |cells| => ChildNode(r, t[i], i, cells[k]));
      if |kids| == 0 then Expanded(t', None) else Expanded(t', Some(kids[pick % |kids|]))
  }

  /** `expand` keeps the arena well linked, every child built from its
      parent, and the visit counts balanced (new nodes start at `N = Q = 0`). */
  lemma ExpandKeepsInvariants<G>(r: Rules<G>, t: Tree<G>, i: nat, pick: nat)
    requires Linked(t) && Sound(r, t) && Balanced(t) && i < |t|
    ensures var t' := Expand(r, t, i, pick).tree;
            Linked(t') && Sound(r, t') && Balanced(t')
  {
    if !IsTerminal(r, t, i) {
      var cells := r.emptyCells(t[i].state);
      var t' := Expand(r, t, i, pick).tree;
      Grafted(r, t, t', i, cells);
    }
  }

  /** `t'` is `t` with one new child per cell appended below node `i`. */
  ghost predicate Graft<G>(r: Rules<G>, t: Tree<G>, t': Tree<G>, i: nat, cells: seq<Pos>)
    requires i < |t|
  {
    |t'| == |t| + |cells| &&
    t'[i] == t[i].(children := t[i].children + Fresh(|t|, |cells|)) &&
    (forall j :: 0 <= j < |t| && j != i ==> t'[j] == t[j]) &&
    (forall k :: 0 <= k < |cells| ==> t'[|t| + k] == ChildNode(r, t[i], i, cells[k]))
  }

  lemma Grafted<G>(r: Rules<G>, t: Tree<G>, t': Tree<G>, i: nat, cells: seq<Pos>)
    requires Linked(t) && Sound(r, t) && Balanced(t) && i < |t|
    requires Graft(r, t, t', i, cells) && cells == r.emptyCells(t[i].state)
    ensures Linked(t') && Sound(r, t') && Balanced(t')
  {
    GraftLinked(r, t, t', i, cells);
    GraftSound(r, t, t', i, cells);
    GraftBalanced(r, t, t', i, cells);
  }

  lemma GraftLinked<G>(r: Rules<G>, t: Tree<G>, t': Tree<G>, i: nat, cells: seq<Pos>)
    requires Linked(t) && i < |t| && Graft(r, t, t', i, cells)
    ensures Linked(t')
  {
    var ids := Fresh(|t|, |cells|);
    forall j | 0 <= j < |t'|
      ensures ParentLink(t', j)
    {
      if j < |t| {
        assert ParentLink(t, j);
        if j != 0 {
          var p := t[j].parent.value;
          assert j in t[p].children;
          assert t[p].children <= t'[p].children;
        }
      } else {
        var k := j - |t|;
        assert t'[j] == ChildNode(r, t[i], i, cells[k]);
        assert ids[k] == j;
        assert t'[i].children[|t[i].children| + k] == j;
      }
    }
    forall j | 0 <= j < |t'|
      ensures ChildLinks(t', j)
    {
      if j < |t| {
        assert ChildLinks(t, j);
        if j == i {
          forall k | 0 <= k < |ids|
            ensures ids[k] < |t'| && t'[ids[k]].parent == Some(i)
          {
            assert t'[|t| + k] == ChildNode(r, t[i], i, cells[k]);
          }
          ChildLinksAppend(t, t', i, ids);
        } else {
          forall k | 0 <= k < |t[j].children|
            ensures t'[t[j].children[k]].parent == Some(j)
          {
            var c := t[j].children[k];
            assert c < |t| && t[c].parent == Some(j);
          }
        }
      } else {
        var k := j - |t|;
        assert t'[|t| + k] == ChildNode(r, t[i], i, cells[k]);
      }
    }
  }

  lemma GraftSound<G>(r: Rules<G>, t: Tree<G>, t': Tree<G>, i: nat, cells: seq<Pos>)
    requires Linked(t) && Sound(r, t) && i < |t| && Graft(r, t, t', i, cells) && cells == r.emptyCells(t[i].state)
    ensures Sound(r, t')
  {
    var ids := Fresh(|t|, |cells|);
    forall j | 0 <= j < |t'|
      ensures SoundAt(r, t', j)
    {
      if j < |t| {
        assert SoundAt(r, t, j) && ChildLinks(t, j);
        var cs := t'[j].children;
        forall k | 0 <= k < |cs| && cs[k] < |t'|
          ensures IsChildOf(r, t'[j], t'[cs[k]])
        {
          if j == i && k >= |t[i].children| {
            var m := k - |t[i].children|;
            assert cs[k] == ids[m] == |t| + m;
            assert t'[cs[k]] == ChildNode(r, t[i], i, cells[m]);
          } else {
            var c := t[j].children[k];
            assert cs[k] == c && c < |t|;
            assert IsChildOf(r, t[j], t[c]);
            assert t'[c].state == t[c].state && t'[c].action == t[c].action && t'[c].player == t[c].player;
          }
        }
      } else {
        var k := j - |t|;
        assert t'[|t| + k] == ChildNode(r, t[i], i, cells[k]);
      }
    }
  }

  lemma GraftBalanced<G>(r: Rules<G>, t: Tree<G>, t': Tree<G>, i: nat, cells: seq<Pos>)
    requires Linked(t) && Balanced(t) && i < |t| && Graft(r, t, t', i, cells)
    ensures Balanced(t')
  {
    var ids := Fresh(|t|, |cells|);
    forall j | 0 <= j < |t'|
      ensures BalancedAt(t', j, 0)
    {
      if j < |t| {
        assert BalancedAt(t, j, 0) && ChildLinks(t, j);
        forall k | 0 <= k < |t[j].children|
          ensures t[j].children[k] < |t| && t'[t[j].children[k]].n == t[t[j].children[k]].n
        {
          var c := t[j].children[k];
          assert c < |t| && c != i ==> t'[c] == t[c];
        }
        if j == i {
          forall k | 0 <= k < |ids|
            ensures ids[k] < |t'| && t'[ids[k]].n == 0
          {
            assert t'[|t| + k] == ChildNode(r, t[i], i, cells[k]);
          }
          SumNFresh(t, t', t[i].children, ids);
        } else {
          SumNSame(t, t', t[j].children);
        }
      } else {
        var k := j - |t|;
        assert t'[j] == ChildNode(r, t[i], i, cells[k]);
      }
    }
  }

  /** The new children of `i` are appended after every old one. */
  lemma ChildLinksAppend<G>(t: Tree<G>, t': Tree<G>, i: nat, ids: seq<nat>)
    requires i < |t| <= |t'| && ChildLinks(t, i)
    requires t'[i].children == t[i].children + ids && Increasing(ids)
    requires forall k :: 0 <= k < |ids| ==> ids[k] == |t| + k && ids[k] < |t'| && t'[ids[k]].parent == Some(i)
    requires forall j :: 0 <= j < |t| && j != i ==> t'[j] == t[j]
    requires t'[i].parent == t[i].parent
    ensures ChildLinks(t', i)
  {
    var cs, cs' := t[i].children, t'[i].children;
    forall k, l | 0 <= k < l < |cs'|
      ensures cs'[k] < cs'[l]
    {
      if l < |cs| {
      } else if k >= |cs| {
        assert cs'[k] == ids[k - |cs|] && cs'[l] == ids[l - |cs|];
      } else {
        assert cs'[k] == cs[k] && cs'[l] == ids[l - |cs|];
      }
    }
    forall k | 0 <= k < |cs'|
      ensures i < cs'[k] < |t'| && t'[cs'[k]].parent == Some(i)
    {
      if k < |cs| {
        assert cs'[k] == cs[k];
        if cs[k] == i {
        }
      } else {
        assert cs'[k] == ids[k - |cs|];
      }
    }
  }

  /** Visit counts of nodes that did not change. */
  lemma {:induction false} SumNSame<G>(t: Tree<G>, t': Tree<G>, cs: seq<nat>)
    requires |t| <= |t'|
    requires forall k :: 0 <= k < |cs| ==> cs[k] < |t| && t'[cs[k]].n == t[cs[k]].n
    ensures SumN(t', cs) == SumN(t, cs)
  {
    if |cs| > 0 {
      SumNSame(t, t', cs[1..]);
    }
  }

  /** Appending unvisited children does not change the visit total. */
  lemma SumNFresh<G>(t: Tree<G>, t': Tree<G>, cs: seq<nat>, ids: seq<nat>)
    requires |t| <= |t'|
    requires forall k :: 0 <= k < |cs| ==> cs[k] < |t| && t'[cs[k]].n == t[cs[k]].n
    requires forall k :: 0 <= k < |ids| ==> ids[k] < |t'| && t'[ids[k]].n == 0
    ensures SumN(t', cs + ids) == SumN(t, cs)
  {
    SumNSame(t, t', cs);
    SumNUnvisited(t', ids);
    SumNAppend(t', cs, ids);
  }

  lemma {:induction false} SumNUnvisited<G>(t: Tree<G>, cs: seq<nat>)
    requires forall k :: 0 <= k < |cs| ==> cs[k] < |t| && t[cs[k]].n == 0
    ensures SumN(t, cs) == 0
  {
    if |cs| > 0 {
      SumNUnvisited(t, cs[1..]);
    }
  }

  lemma {:induction false} SumNAppend<G>(t: Tree<G>, a: seq<nat>, b: seq<nat>)
    ensures SumN(t, a + b) == SumN(t, a) + SumN(t, b)
  {
    if |a| > 0 {
      assert (a + b)[1..] == a[1..] + b;
      SumNAppend(t, a[1..], b);
    } else {
      assert a + b == b;
    }
  }

  // ---------------------------------------------------------------------
  // simulate
  // ---------------------------------------------------------------------

  /** The playout loop of `simulate`: random moves by the game's
      `curr_player` until the game is over or no cell is left; `roll(step)`
      stands for the `random.choice` of each step. */
  function Playout<G(!new)>(r: Rules<G>, g: G, roll: nat -> nat, step: nat): (end: G)
    requires FillsOne(r)
    ensures r.gameOver(end) || |r.emptyCells(end)| == 0
    decreases |r.emptyCells(g)|
  {
    if r.gameOver(g) then g
    else
      var cells := r.emptyCells(g);
      if |cells| == 0 then g
      else
        var c := cells[roll(step) % |cells|];
        Playout(r, r.play(g, c, r.curr(g)), roll, step + 1)
  }

  /** The result classification of `simulate`, from `player`'s side: a win
      for `player` is checked first, then a win for the other letter. */
  function Classify<G>(r: Rules<G>, g: G, player: Player): (res: int)
    ensures res == Win <==> r.wins(g, player)
    ensures res == Lose <==> !r.wins(g, player) && r.wins(g, Other(player))
    ensures res == Draw <==> !r.wins(g, player) && !r.wins(g, Other(player))
  {
    if r.wins(g, player) then Win
    else if r.wins(g, Other(player)) then Lose
    else Draw
  }

  /** `simulate` from node `i`, classified from that node's player's side. */
  function Simulate<G(!new)>(r: Rules<G>, t: Tree<G>, i: nat, roll: nat -> nat): (res: int)
    requires FillsOne(r) && i < |t|
    ensures res in {Win, Lose, Draw}
  {
    Classify(r, Playout(r, t[i].state, roll, 0), t[i].player)
  }

  // ---------------------------------------------------------------------
  // backpropagate
  // ---------------------------------------------------------------------

  /** Every parent index is smaller than its child's. */
  ghost predicate ParentsBelow<G>(t: Tree<G>)
  {
    forall j :: 0 <= j < |t| && t[j].parent.Some? ==> t[j].parent.value < j
  }

  lemma LinkedParentsBelow<G>(t: Tree<G>)
    requires Linked(t)
    ensures ParentsBelow(t)
  {
    forall j | 0 <= j < |t| && t[j].parent.Some?
      ensures t[j].parent.value < j
    {
      assert ParentLink(t, j);
    }
  }

  /** Entry `k + 1` of `p` is the parent of entry `k`. */
  ghost predicate Climbs<G>(t: Tree<G>, p: seq<nat>, k: nat)
    requires k + 1 < |p| && p[k] < |t|
  {
    t[p[k]].parent == Some(p[k + 1])
  }

  /** The nodes from `i` up to the root, following `parent`. */
  function Path<G>(t: Tree<G>, i: nat): (p: seq<nat>)
    requires ParentsBelow(t) && i < |t|
    ensures |p| > 0 && p[0] == i
    decreases i
  {
    match t[i].parent
    case None => [i]
    case Some(j) => [i] + Path(t, j)
  }

  /** No node on the path from `i` lies above `i` in the arena. */
  lemma {:induction false} PathAtMost<G>(t: Tree<G>, i: nat)
    requires ParentsBelow(t) && i < |t|
    ensures forall k :: 0 <= k < |Path(t, i)| ==> Path(t, i)[k] <= i
    decreases i
  {
    if t[i].parent.Some? {
      var j := t[i].parent.value;
      PathAtMost(t, j);
      assert forall k :: 0 < k < |Path(t, i)| ==> Path(t, i)[k] == Path(t, j)[k - 1];
    }
  }

  /** The path climbs strictly downwards in index, one parent link per step,
      and ends at a node without parent. */
  lemma {:induction false} PathClimbs<G>(t: Tree<G>, i: nat)
    requires ParentsBelow(t) && i < |t|
    ensures var p := Path(t, i);
            (forall k :: 0 <= k < |p| ==> p[k] <= i) &&
            (forall k, l :: 0 <= k < l < |p| ==> p[l] < p[k]) &&
            (forall k :: 0 <= k < |p| - 1 ==> Climbs(t, p, k)) &&
            t[p[|p| - 1]].parent == None
    decreases i
  {
    if t[i].parent.Some? {
      var j := t[i].parent.value;
      PathClimbs(t, j);
      var rest := Path(t, j);
      var p := [i] + rest;
      assert Path(t, i) == p;
      forall k, l | 0 <= k < l < |p|
        ensures p[l] < p[k]
      {
        assert p[l] == rest[l - 1];
        if k > 0 {
          assert p[k] == rest[k - 1];
        }
      }
      forall k | 0 <= k < |p| - 1
        ensures Climbs(t, p, k)
      {
        if k > 0 {
          assert Climbs(t, rest, k - 1);
          assert p[k] == rest[k - 1] && p[k + 1] == rest[k];
        } else {
          assert p[1] == rest[0];
        }
      }
      assert p[|p| - 1] == rest[|rest| - 1];
    }
  }

  /** One visit of node `i` with result `res`: `N += 1`, `Q += res`. */
  function Visit<G>(t: Tree<G>, i: nat, res: int): (t': Tree<G>)
    requires i < |t|
    ensures |t'| == |t|
  {
    t[i := t[i].(n := t[i].n + 1, q := t[i].q + res)]
  }

  lemma VisitParentsBelow<G>(t: Tree<G>, i: nat, res: int)
    requires ParentsBelow(t) && i < |t|
    ensures ParentsBelow(Visit(t, i, res))
  {
    var t1 := Visit(t, i, res);
    forall j | 0 <= j < |t1| && t1[j].parent.Some?
      ensures t1[j].parent.value < j
    {
      assert t1[j].parent == t[j].parent;
    }
  }

  /** `backpropagate(result)` from node `i`. */
  function Backpropagate<G>(t: Tree<G>, i: nat, result: int): (t': Tree<G>)
    requires ParentsBelow(t) && i < |t|
    ensures |t'| == |t|
    decreases i
  {
    var t1 := Visit(t, i, result);
    VisitParentsBelow(t, i, result);
    match t[i].parent
    case None => t1
    case Some(j) => Backpropagate(t1, j, -result)
  }

  /** Two arenas that differ at most in the visit counts. */
  ghost predicate SameShape<G>(t: Tree<G>, t': Tree<G>)
  {
    |t| == |t'| && forall j :: 0 <= j < |t| ==> t'[j] == t[j].(n := t'[j].n, q := t'[j].q)
  }

  lemma {:induction false} PathSameShape<G>(t: Tree<G>, t': Tree<G>, i: nat)
    requires ParentsBelow(t) && ParentsBelow(t') && SameShape(t, t') && i < |t|
    ensures Path(t', i) == Path(t, i)
    decreases i
  {
    assert t'[i].parent == t[i].parent;
    if t[i].parent.Some? {
      PathSameShape(t, t', t[i].parent.value);
    }
  }

  /** What `backpropagate` does, with `p` its path and `t'` its result. */
  ghost predicate Propagated<G>(t: Tree<G>, t': Tree<G>, p: seq<nat>, result: int)
  {
    SameShape(t, t') &&
    (forall k :: 0 <= k < |p| ==>
       p[k] < |t| && t'[p[k]].n == t[p[k]].n + 1 && t'[p[k]].q == t[p[k]].q + (if k % 2 == 0 then result else -result)) &&
    (forall j :: 0 <= j < |t| && j !in p ==> t'[j] == t[j])
  }

  /** `backpropagate` adds one visit to every node on the path from `i` to
      the root, adds `result` at `i`, `-result` at its parent and so on with
      alternating sign, and changes nothing else. */
  lemma {:induction false} BackpropagateAlongPath<G>(t: Tree<G>, i: nat, result: int)
    requires ParentsBelow(t) && i < |t|
    ensures Propagated(t, Backpropagate(t, i, result), Path(t, i), result)
    decreases i
  {
    var t1 := Visit(t, i, result);
    BackpropagateCons(t, i, result);
    if t[i].parent.None? {
      PropagatedRoot(t, i, result);
    } else {
      var j := t[i].parent.value;
      BackpropagateAlongPath(t1, j, -result);
      VisitSameShape(t, i, result);
      PathSameShape(t, t1, j);
      PathAtMost(t1, j);
      PropagatedStep(t, t1, Backpropagate(t1, j, -result), i, result, Path(t1, j));
    }
  }

  /** One step of `backpropagate` and of the path, unfolded. */
  lemma BackpropagateCons<G>(t: Tree<G>, i: nat, result: int)
    requires ParentsBelow(t) && i < |t|
    ensures ParentsBelow(Visit(t, i, result))
    ensures t[i].parent.None? ==> Backpropagate(t, i, result) == Visit(t, i, result) && Path(t, i) == [i]
    ensures t[i].parent.Some? ==>
              t[i].parent.value < i &&
              Backpropagate(t, i, result) == Backpropagate(Visit(t, i, result), t[i].parent.value, -result) &&
              Path(t, i) == [i] + Path(t, t[i].parent.value)
  {
    VisitParentsBelow(t, i, result);
  }

  lemma PropagatedRoot<G>(t: Tree<G>, i: nat, result: int)
    requires i < |t|
    ensures Propagated(t, Visit(t, i, result), [i], result)
  {
  }

  lemma PropagatedStep<G>(t: Tree<G>, t1: Tree<G>, t': Tree<G>, i: nat, result: int, p': seq<nat>)
    requires i < |t| && t1 == Visit(t, i, result)
    requires forall k :: 0 <= k < |p'| ==> p'[k] < i
    requires Propagated(t1, t', p', -result)
    ensures Propagated(t, t', [i] + p', result)
  {
    var p := [i] + p';
    assert i !in p';
    forall k | 0 <= k < |p|
      ensures p[k] < |t| && t'[p[k]].n == t[p[k]].n + 1 && t'[p[k]].q == t[p[k]].q + (if k % 2 == 0 then result else -result)
    {
      if k > 0 {
        assert p[k] == p'[k - 1];
      }
    }
  }

  /** The arena's links do not depend on the visit counts. */
  lemma SameShapeLinked<G>(t: Tree<G>, t': Tree<G>)
    requires SameShape(t, t') && Linked(t)
    ensures Linked(t')
  {
    forall j | 0 <= j < |t'|
      ensures ParentLink(t', j) && ChildLinks(t', j)
    {
      assert ParentLink(t, j) && ChildLinks(t, j);
      if j != 0 {
        assert t'[t[j].parent.value].children == t[t[j].parent.value].children;
      }
      forall k | 0 <= k < |t[j].children|
        ensures t'[t[j].children[k]].parent == Some(j)
      {
        assert t'[t[j].children[k]].parent == t[t[j].children[k]].parent;
      }
    }
  }

  /** Nor does the provenance of the children. */
  lemma SameShapeSound<G>(r: Rules<G>, t: Tree<G>, t': Tree<G>)
    requires SameShape(t, t') && Sound(r, t)
    ensures Sound(r, t')
  {
    forall i | 0 <= i < |t'|
      ensures SoundAt(r, t', i)
    {
      assert SoundAt(r, t, i);
      forall k | 0 <= k < |t'[i].children| && t'[i].children[k] < |t'|
        ensures IsChildOf(r, t'[i], t'[t'[i].children[k]])
      {
        var c := t[i].children[k];
        assert IsChildOf(r, t[i], t[c]);
        assert t'[c] == t[c].(n := t'[c].n, q := t'[c].q);
      }
    }
  }

  lemma VisitSameShape<G>(t: Tree<G>, i: nat, res: int)
    requires i < |t|
    ensures SameShape(t, Visit(t, i, res))
  {
  }

  /** One more visit of node `i` adds one to the visit total of any list of
      distinct nodes that contains `i`. */
  lemma {:induction false} SumNVisit<G>(t: Tree<G>, i: nat, res: int, cs: seq<nat>)
    requires i < |t| && Increasing(cs)
    ensures SumN(Visit(t, i, res), cs) == SumN(t, cs) + (if i in cs then 1 else 0)
  {
    if |cs| > 0 {
      assert Increasing(cs[1..]);
      SumNVisit(t, i, res, cs[1..]);
      assert cs[0] == i ==> i !in cs[1..];
      assert i in cs <==> cs[0] == i || i in cs[1..];
    }
  }

  /** The visit `node` owes: one at the node a result is being passed to. */
  function Debt(x: nat, node: Option<nat>): nat
  {
    if node == Some(x) then 1 else 0
  }

  /** Balanced, except that `node` may be one visit short. */
  ghost predicate Owes<G>(t: Tree<G>, node: Option<nat>)
  {
    forall x :: 0 <= x < |t| ==> BalancedAt(t, x, Debt(x, node))
  }

  /** A visit of `i` with `-1 <= result <= 1` repays the debt at `i` and moves
      it to the parent of `i`. */
  lemma VisitRepays<G>(t: Tree<G>, i: nat, result: int)
    requires Linked(t) && i < |t| && -1 <= result <= 1 && Owes(t, Some(i))
    ensures Owes(Visit(t, i, result), t[i].parent)
  {
    var t1 := Visit(t, i, result);
    forall x | 0 <= x < |t1|
      ensures BalancedAt(t1, x, Debt(x, t[i].parent))
    {
      assert BalancedAt(t, x, Debt(x, Some(i)));
      assert ChildLinks(t, x) && ParentLink(t, i);
      SumNVisit(t, i, result, t[x].children);
      if i in t[x].children {
        var k :| 0 <= k < |t[x].children| && t[x].children[k] == i;
        assert t[i].parent == Some(x);
      }
    }
  }

  /** `backpropagate` from a node that owes one visit leaves the arena
      balanced: each node on the path gains one visit and its parent's
      children one visit in total, with `|Q| <= N` kept because results
      are in `-1 .. 1`. */
  lemma {:induction false} BackpropagateBalanced<G>(t: Tree<G>, i: nat, result: int)
    requires Linked(t) && i < |t| && -1 <= result <= 1 && Owes(t, Some(i))
    ensures ParentsBelow(t) && Balanced(Backpropagate(t, i, result))
    decreases i
  {
    LinkedParentsBelow(t);
    var t1 := Visit(t, i, result);
    VisitSameShape(t, i, result);
    SameShapeLinked(t, t1);
    VisitRepays(t, i, result);
    LinkedParentsBelow(t1);
    assert ParentLink(t, i);
    match t[i].parent
    case None =>
      assert Backpropagate(t, i, result) == t1;
      forall x | 0 <= x < |t1|
        ensures BalancedAt(t1, x, 0)
      {
        assert BalancedAt(t1, x, Debt(x, None));
      }
    case Some(j) =>
      BackpropagateBalanced(t1, j, -result);
      assert Backpropagate(t, i, result) == Backpropagate(t1, j, -result);
  }

  /** A balanced arena owes nothing. */
  lemma BalancedOwes<G>(t: Tree<G>, i: nat)
    requires Balanced(t)
    ensures Owes(t, Some(i))
  {
    forall x | 0 <= x < |t|
      ensures BalancedAt(t, x, Debt(x, Some(i)))
    {
      assert BalancedAt(t, x, 0);
    }
  }

  /** One `backpropagate` after a simulation from node `i`: the arena keeps its
      links, its children's provenance and its balance, only visit counts
      change, and the root gains exactly one visit. */
  lemma BackpropagateKeepsInvariants<G>(r: Rules<G>, t: Tree<G>, i: nat, result: int)
    requires Linked(t) && Sound(r, t) && Balanced(t) && i < |t| && -1 <= result <= 1
    ensures ParentsBelow(t)
    ensures var t' := Backpropagate(t, i, result);
            SameShape(t, t') && Linked(t') && Sound(r, t') && Balanced(t') && t'[0].n == t[0].n + 1
  {
    LinkedParentsBelow(t);
    BalancedOwes(t, i);
    BackpropagateBalanced(t, i, result);
    BackpropagateAlongPath(t, i, result);
    PathClimbs(t, i);
    var t', p := Backpropagate(t, i, result), Path(t, i);
    SameShapeLinked(t, t');
    SameShapeSound(r, t, t');
    var last := p[|p| - 1];
    assert ParentLink(t, last);
    assert last == 0;
  }

  // ---------------------------------------------------------------------
  // TTT_MCTSPlayer.get_move
  // ---------------------------------------------------------------------

  /** The final `max(children, key=N)`: the child of `i` with the most visits,
      the first one on ties. */
  function MostVisited<G>(t: Tree<G>, i: nat): (c: nat)
    requires Linked(t) && i < |t| && !IsLeaf(t, i)
    ensures c in t[i].children && i < c < |t|
    ensures forall d :: d in t[i].children && d < |t| ==> t[d].n <= t[c].n
    ensures exists k :: 0 <= k < |t[i].children| && t[i].children[k] == c &&
              forall j :: 0 <= j < k && t[i].children[j] < |t| ==> t[t[i].children[j]].n < t[c].n
  {
    assert ChildLinks(t, i);
    var cs := t[i].children;
    var ks := seq(|cs|, k requires 0 <= k < |cs| => Finite(t[cs[k]].n as real));
    var k := ArgMax(ks);
    forall d | d in cs
      ensures t[d].n <= t[cs[k]].n
    {
      var j :| 0 <= j < |cs| && cs[j] == d;
      assert !Above(ks[j], ks[k]);
    }
    forall j | 0 <= j < k
      ensures t[cs[j]].n < t[cs[k]].n
    {
      assert Above(ks[k], ks[j]);
    }
    cs[k]
  }

  /** One round of `get_move`'s loop: select a leaf, expand it unless it is
      terminal, simulate from it with `roll` and backpropagate the negated
      result.  The root gains one visit and, in a game not yet over, has
      children afterwards. */
  method Round<G(!new)>(r: Rules<G>, game: G, letter: Player, t: Tree<G>,
                        formula: (int, nat, nat) -> real, roll: nat -> nat) returns (t': Tree<G>)
    requires Consistent(r) && Linked(t) && Sound(r, t) && Balanced(t)
    requires t[0].state == game && t[0].player == letter
    requires r.gameOver(game) ==> t == [t[0]] && t[0].children == []
    ensures Linked(t') && Sound(r, t') && Balanced(t')
    ensures t'[0].state == game && t'[0].player == letter && t'[0].n == t[0].n + 1
    ensures r.gameOver(game) ==> t' == [t'[0]] && t'[0].children == []
    ensures !r.gameOver(game) ==> |t'[0].children| > 0
  {
    var leaf, _ := Select(t, 0, formula);
    var t1 := t;
    if !IsTerminal(r, t, leaf) {
      ExpandKeepsInvariants(r, t, leaf, 0);
      t1 := Expand(r, t, leaf, 0).tree;
      assert leaf == 0 ==> |t1[0].children| == |t[0].children| + |r.emptyCells(game)|;
      assert leaf != 0 ==> t1[0] == t[0];
    }
    var result := Simulate(r, t1, leaf, roll);
    BackpropagateKeepsInvariants(r, t1, leaf, -result);
    t' := Backpropagate(t1, leaf, -result);
  }

  /** `get_move`: `simulations` rounds of select, expand (unless terminal),
      simulate from the selected leaf and backpropagate the negated result,
      then the action of the most visited child of the root.  `formula` is
      the UCB1 score, `roll(round)` drives the random playout of that round.
      `None` where `max` of an empty child list would raise: no rounds, or a
      game that is already over. */
  method GetMove<G(!new)>(r: Rules<G>, game: G, letter: Player, simulations: nat,
                          formula: (int, nat, nat) -> real, roll: nat -> nat -> nat)
    returns (move: Option<Pos>, t: Tree<G>)
    requires Consistent(r)
    ensures move.None? <==> simulations == 0 || r.gameOver(game)
    ensures move.Some? ==> move.value in r.emptyCells(game)
    ensures Linked(t) && Sound(r, t) && Balanced(t)
    ensures t[0].state == game && t[0].player == letter && t[0].n == simulations
    ensures move.Some? <==> !IsLeaf(t, 0)
    ensures !IsLeaf(t, 0) ==> move == t[MostVisited(t, 0)].action
    ensures move.Some? ==>
              exists c :: c in t[0].children && c < |t| && t[c].action == move &&
                forall d :: d in t[0].children && d < |t| ==> t[d].n <= t[c].n
  {
    t := [Root(game, letter)];
    assert ParentLink(t, 0) && ChildLinks(t, 0) && BalancedAt(t, 0, 0) && SoundAt(r, t, 0);
    var k := 0;
    while k < simulations
      invariant k <= simulations
      invariant Linked(t) && Sound(r, t) && Balanced(t)
      invariant t[0].state == game && t[0].player == letter && t[0].n == k
      invariant k == 0 ==> t == [Root(game, letter)]
      invariant r.gameOver(game) ==> t == [t[0]] && t[0].children == []
      invariant k > 0 && !r.gameOver(game) ==> |t[0].children| > 0
    {
      t := Round(r, game, letter, t, formula, roll(k));
      k := k + 1;
    }
    if |t[0].children| == 0 {
      move := None;
    } else {
      var c := MostVisited(t, 0);
      assert SoundAt(r, t, 0);
      var j :| 0 <= j < |t[0].children| && t[0].children[j] == c;
      assert IsChildOf(r, t[0], t[c]);
      move := t[c].action;
    }
  }
}
