/**
 * mcts.py: Monte Carlo tree search over treenode.py nodes. `self.game` is the
 * very game object the root node holds (the constructor hands the same object
 * to `TreeNode`), so here it is the root's game, and `self.game.reset()` after
 * every backpropagation resets the root's game.
 */
module Mcts1 {
  import opened Wrappers
  import opened Rules
  import opened Boards
  import opened TicTacToe1
  import opened Arena
  import opened TreeNodes

  /**
   * `search_leaf(i)`: follows `get_best_child` down from node i to a node
   * without children. The leaf lies below i, and below i's best child when i
   * has children.
   */
  function SearchLeaf(nodes: seq<TreeNode>, i: nat, bonus: (int, int) -> real): (leaf: nat)
    requires WellFormed(nodes) && i < |nodes|
    ensures i <= leaf < |nodes|
    ensures nodes[leaf].children == []
    ensures leaf == i <==> nodes[i].children == []
    ensures i in Path(nodes, Some(leaf))
    ensures nodes[i].children != [] ==> GetBestChild(nodes, i, bonus).value in Path(nodes, Some(leaf))
    decreases |nodes| - i
  {
    match GetBestChild(nodes, i, bonus)
    case None => i
    case Some(c) =>
      var k :| 0 <= k < |nodes[i].children| && nodes[i].children[k] == c;
      var leaf := SearchLeaf(nodes, c, bonus);
      assert Path(nodes, Some(c)) == [c] + Path(nodes, Some(i));
      AncestorsCompose(nodes, leaf, c, i);
      leaf
  }

  /** On `p[0..k]`, each node's best child is the node before it. */
  ghost predicate BestChildChain(nodes: seq<TreeNode>, p: seq<nat>, k: nat, bonus: (int, int) -> real)
    requires WellFormed(nodes) && k < |p| && forall q :: 0 <= q < |p| ==> p[q] < |nodes|
  {
    forall j :: 0 < j <= k ==> GetBestChild(nodes, p[j], bonus) == Some(p[j - 1])
  }

  /** Some node i on the path from `leaf` is reached from i by best children down to `leaf`. */
  ghost predicate ReachedByBestChildren(nodes: seq<TreeNode>, leaf: nat, i: nat, bonus: (int, int) -> real)
    requires WellFormed(nodes) && leaf < |nodes|
  {
    var p := Path(nodes, Some(leaf));
    exists k :: 0 <= k < |p| && p[k] == i && BestChildChain(nodes, p, k, bonus)
  }

  lemma BestChildChainExtends(nodes: seq<TreeNode>, p: seq<nat>, k: nat, bonus: (int, int) -> real)
    requires WellFormed(nodes) && k + 1 < |p| && forall q :: 0 <= q < |p| ==> p[q] < |nodes|
    requires BestChildChain(nodes, p, k, bonus) && GetBestChild(nodes, p[k + 1], bonus) == Some(p[k])
    ensures BestChildChain(nodes, p, k + 1, bonus)
  {
  }

  /**
   * The leaf is reached from i through best children all the way down: on
   * the path from the leaf back up to i, each node's best child is the node
   * before it.
   */
  lemma {:induction false} SearchLeafChain(nodes: seq<TreeNode>, i: nat, bonus: (int, int) -> real)
    requires WellFormed(nodes) && i < |nodes|
    ensures ReachedByBestChildren(nodes, SearchLeaf(nodes, i, bonus), i, bonus)
    decreases |nodes| - i
  {
    var leaf := SearchLeaf(nodes, i, bonus);
    var p := Path(nodes, Some(leaf));
    var best := GetBestChild(nodes, i, bonus);
    if best.None? {
      ChainAtLeaf(nodes, i, bonus);
    } else {
      var c := best.value;
      SearchLeafChain(nodes, c, bonus);
      ChainUp(nodes, i, c, bonus);
    }
  }

  /** A node without a best child is its own leaf, reached by the empty chain. */
  lemma ChainAtLeaf(nodes: seq<TreeNode>, i: nat, bonus: (int, int) -> real)
    requires WellFormed(nodes) && i < |nodes| && GetBestChild(nodes, i, bonus).None?
    ensures ReachedByBestChildren(nodes, SearchLeaf(nodes, i, bonus), i, bonus)
  {
    assert SearchLeaf(nodes, i, bonus) == i;
    var p := Path(nodes, Some(SearchLeaf(nodes, i, bonus)));
    assert p[0] == i;
    assert BestChildChain(nodes, p, 0, bonus);
  }

  /** A chain from the best child c of i up to c extends by one to i. */
  lemma ChainUp(nodes: seq<TreeNode>, i: nat, c: nat, bonus: (int, int) -> real)
    requires WellFormed(nodes) && i < |nodes| && GetBestChild(nodes, i, bonus) == Some(c)
    requires ReachedByBestChildren(nodes, SearchLeaf(nodes, c, bonus), c, bonus)
    ensures ReachedByBestChildren(nodes, SearchLeaf(nodes, i, bonus), i, bonus)
  {
    var leaf := SearchLeaf(nodes, i, bonus);
    assert leaf == SearchLeaf(nodes, c, bonus) && nodes[c].parent == Some(i);
    var p := Path(nodes, Some(leaf));
    var k :| 0 <= k < |p| && p[k] == c && BestChildChain(nodes, p, k, bonus);
    assert k + 1 < |p|;
    PathStep(nodes, leaf, k);
    assert p[k + 1] == i;
    BestChildChainExtends(nodes, p, k, bonus);
  }

  /** A roll-out that plays `ms` from `g` ends in a finished game whose winner is `r`. */
  ghost predicate FinishedPlayout(g: Game, ms: seq<int>, r: int) {
    && Walk(g, ms).Some?
    && IsOver(Walk(g, ms).value.cells)
    && r == Winner(Walk(g, ms).value.cells)
  }

  /** `self.game.reset()` on the root's game: a fresh game, while the node keeps its history. */
  function ResetRoot(nodes: seq<TreeNode>): (out: seq<TreeNode>)
    requires |nodes| > 0
    ensures |out| == |nodes| && out[0].data.game == InitialGame
    ensures out[0] == nodes[0].(data := out[0].data) && out[0].data.gameHistory == nodes[0].data.gameHistory
    ensures forall j :: 0 < j < |nodes| ==> out[j] == nodes[j]
    ensures WellFormed(nodes) ==> WellFormed(out)
  {
    nodes[0 := nodes[0].(data := nodes[0].data.(game := InitialGame))]
  }

  /** The guard of line 64, evaluated on `self.game`, the root's game. */
  predicate GameGoesOn(nodes: seq<TreeNode>): (on: bool)
    requires |nodes| > 0
    ensures on <==> !IsOver(nodes[0].data.game.cells)
    ensures on ==> |PossibleMoves(nodes[0].data.game.cells)| > 0
  {
    var cells := nodes[0].data.game.cells;
    if Winner(cells) == 0 && !IsDraw(cells) then NotOverHasMoves(cells); true else false
  }

  /**
   * Lines 64-65: the leaf is expanded exactly when the root's game goes on.
   * Expansion adds unvisited, childless children of the leaf after the old
   * nodes, and changes no old node but the leaf's list of children.
   */
  function Grow(nodes: seq<TreeNode>, leaf: nat): (grown: seq<TreeNode>)
    requires WellFormed(nodes) && leaf < |nodes|
    ensures WellFormed(grown)
    ensures |grown| == |nodes| + (if GameGoesOn(nodes) then |PossibleMoves(nodes[leaf].data.game.cells)| else 0)
    ensures forall j :: 0 <= j < |nodes| && j != leaf ==> grown[j] == nodes[j]
    ensures grown[leaf] == nodes[leaf].(children := grown[leaf].children)
    ensures grown[leaf].children == nodes[leaf].children +
      (if GameGoesOn(nodes) then seq(|PossibleMoves(nodes[leaf].data.game.cells)|, k => |nodes| + k) else [])
    ensures forall j :: |nodes| <= j < |grown| ==>
      grown[j].visits == 0 && grown[j].wins == 0 && grown[j].parent == Some(leaf) && grown[j].children == []
  {
    ExpandedShape(nodes, leaf);
    ExpandedNewNodes(nodes, leaf);
    if GameGoesOn(nodes) then Expanded(nodes, leaf) else nodes
  }

  /**
   * Lines 63-74 of `do_one_step` once `search_leaf` has returned `leaf`, with
   * `r` the roll-out's result: an unvisited leaf is grown, the result is
   * backpropagated from it and the root's game is reset; a visited leaf
   * changes nothing.
   */
  function StepAt(nodes: seq<TreeNode>, leaf: nat, r: int): seq<TreeNode>
    requires WellFormed(nodes) && leaf < |nodes|
  {
    if nodes[leaf].visits != 0 then nodes
    else ResetRoot(Backprop(Grow(nodes, leaf), Some(leaf), r))
  }

  /** One `do_one_step(start)`: search for the leaf, then step there. */
  function Step(nodes: seq<TreeNode>, start: nat, bonus: (int, int) -> real, r: int): seq<TreeNode>
    requires WellFormed(nodes) && start < |nodes|
  {
    StepAt(nodes, SearchLeaf(nodes, start, bonus), r)
  }

  /**
   * Backpropagating from n and resetting the root: the path from n gets the
   * alternating update, the root's game is fresh, every other node is as it
   * was, and the arena stays well formed.
   */
  lemma BackpropResetEffect(nodes: seq<TreeNode>, n: nat, r: int)
    requires WellFormed(nodes) && n < |nodes|
    ensures var out := ResetRoot(Backprop(nodes, Some(n), r));
      var p := Path(nodes, Some(n));
      && WellFormed(out) && |out| == |nodes|
      && 0 in p
      && out[0].data.game == InitialGame
      && (forall k :: 0 <= k < |p| ==>
            out[p[k]].visits == nodes[p[k]].visits + 1 && out[p[k]].wins == nodes[p[k]].wins + Alternating(r, k) &&
            out[p[k]].children == nodes[p[k]].children && out[p[k]].parent == nodes[p[k]].parent)
      && (forall j :: 0 <= j < |nodes| && j !in p ==> out[j] == nodes[j])
  {
    BackpropEffect(nodes, Some(n), r);
    BackpropKeepsLinks(nodes, Some(n), r);
    BackpropVisitsGrow(nodes, Some(n), r);
    PathEndsAtRoot(nodes, n);
    var b := Backprop(nodes, Some(n), r);
    assert WellFormed(b);
    var out := ResetRoot(b);
    assert forall j :: 0 <= j < |nodes| ==> out[j].children == b[j].children && out[j].parent == b[j].parent;
  }

  /**
   * The facts the unvisited-leaf branch of `Step` rests on: the path from the
   * leaf is the same in the grown arena, it holds the leaf and the root, and
   * no new node is on it.
   */
  lemma GrowFrame(nodes: seq<TreeNode>, leaf: nat, r: int)
    requires WellFormed(nodes) && leaf < |nodes|
    ensures var grown := Grow(nodes, leaf);
      var p := Path(nodes, Some(leaf));
      && p == Path(grown, Some(leaf))
      && leaf in p && 0 in p
      && (forall k :: 0 <= k < |p| ==> p[k] < |nodes|)
      && (forall j :: |nodes| <= j < |grown| ==> j !in p)
  {
    var grown := Grow(nodes, leaf);
    assert forall j :: 0 <= j < |nodes| ==> grown[j].parent == nodes[j].parent;
    PathFrame(nodes, grown, Some(leaf));
    PathEndsAtRoot(nodes, leaf);
    var p := Path(nodes, Some(leaf));
    assert p[0] == leaf;
  }

  /**
   * A step keeps the arena well formed and never removes nodes; on a visited
   * leaf it changes nothing at all.
   */
  lemma StepWellFormed(nodes: seq<TreeNode>, leaf: nat, r: int)
    requires WellFormed(nodes) && leaf < |nodes|
    ensures var out := StepAt(nodes, leaf, r);
      && WellFormed(out) && |out| >= |nodes|
      && (nodes[leaf].visits != 0 ==> out == nodes)
  {
    if nodes[leaf].visits == 0 {
      BackpropResetEffect(Grow(nodes, leaf), leaf, r);
    }
  }

  /**
   * On an unvisited leaf a step backpropagates once from the leaf: every node
   * on the path from the leaf to the root gets one more visit and
   * `r * (-1)^k` more wins at the k-th ancestor, every other old node stays as
   * it was, and the root's game is fresh.
   */
  lemma StepBackpropagates(nodes: seq<TreeNode>, leaf: nat, r: int)
    requires WellFormed(nodes) && leaf < |nodes|
    ensures var out := StepAt(nodes, leaf, r);
      var p := Path(nodes, Some(leaf));
      nodes[leaf].visits == 0 ==>
        && (forall k :: 0 <= k < |p| ==>
              out[p[k]].visits == nodes[p[k]].visits + 1 && out[p[k]].wins == nodes[p[k]].wins + Alternating(r, k))
        && (forall j :: 0 <= j < |nodes| && j !in p ==> out[j] == nodes[j])
        && out[0].data.game == InitialGame
  {
    if nodes[leaf].visits == 0 {
      StepOnPath(nodes, leaf, r);
      StepOffPath(nodes, leaf, r);
      assert StepAt(nodes, leaf, r)[0].data.game == InitialGame by {
        BackpropResetEffect(Grow(nodes, leaf), leaf, r);
      }
    }
  }

  /** The path half of `StepBackpropagates`. */
  lemma StepOnPath(nodes: seq<TreeNode>, leaf: nat, r: int)
    requires WellFormed(nodes) && leaf < |nodes|
    ensures var out := StepAt(nodes, leaf, r);
      var p := Path(nodes, Some(leaf));
      nodes[leaf].visits == 0 ==>
        forall k :: 0 <= k < |p| ==>
          out[p[k]].visits == nodes[p[k]].visits + 1 && out[p[k]].wins == nodes[p[k]].wins + Alternating(r, k)
  {
    if nodes[leaf].visits == 0 {
      var p := Path(nodes, Some(leaf));
      forall k | 0 <= k < |p|
        ensures StepAt(nodes, leaf, r)[p[k]].visits == nodes[p[k]].visits + 1
        ensures StepAt(nodes, leaf, r)[p[k]].wins == nodes[p[k]].wins + Alternating(r, k)
      {
        StepOnPathAt(nodes, leaf, r, k);
      }
    }
  }

  /** The k-th node of the path from an unvisited leaf, after the step. */
  lemma StepOnPathAt(nodes: seq<TreeNode>, leaf: nat, r: int, k: nat)
    requires WellFormed(nodes) && leaf < |nodes| && nodes[leaf].visits == 0 && k < |Path(nodes, Some(leaf))|
    ensures var n := Path(nodes, Some(leaf))[k];
      && StepAt(nodes, leaf, r)[n].visits == nodes[n].visits + 1
      && StepAt(nodes, leaf, r)[n].wins == nodes[n].wins + Alternating(r, k)
  {
    var grown := Grow(nodes, leaf);
    assert Path(grown, Some(leaf)) == Path(nodes, Some(leaf)) by {
      PathFrame(nodes, grown, Some(leaf));
    }
    BackpropOnPath(grown, Some(leaf), r, k);
  }

  /** The off-path half of `StepBackpropagates`. */
  lemma StepOffPath(nodes: seq<TreeNode>, leaf: nat, r: int)
    requires WellFormed(nodes) && leaf < |nodes|
    ensures var out := StepAt(nodes, leaf, r);
      nodes[leaf].visits == 0 ==>
        forall j :: 0 <= j < |nodes| && j !in Path(nodes, Some(leaf)) ==> out[j] == nodes[j]
  {
    if nodes[leaf].visits == 0 {
      GrowFrame(nodes, leaf, r);
      BackpropResetEffect(Grow(nodes, leaf), leaf, r);
    }
  }

  lemma StepGrowsBy(nodes: seq<TreeNode>, leaf: nat, r: int)
    requires WellFormed(nodes) && leaf < |nodes| && nodes[leaf].visits == 0
    ensures |StepAt(nodes, leaf, r)| ==
      |nodes| + (if GameGoesOn(nodes) then |PossibleMoves(nodes[leaf].data.game.cells)| else 0)
  {
    BackpropResetEffect(Grow(nodes, leaf), leaf, r);
  }

  lemma StepNewNodes(nodes: seq<TreeNode>, leaf: nat, r: int)
    requires WellFormed(nodes) && leaf < |nodes| && nodes[leaf].visits == 0
    ensures var out := StepAt(nodes, leaf, r);
      forall j :: |nodes| <= j < |out| ==>
        out[j].visits == 0 && out[j].wins == 0 && out[j].parent == Some(leaf) && out[j].children == []
  {
    var grown := Grow(nodes, leaf);
    var out := StepAt(nodes, leaf, r);
    assert |out| == |grown|;
    forall j | |nodes| <= j < |out|
      ensures out[j] == grown[j]
    {
      BackpropOffPath(grown, Some(leaf), r, j);
    }
  }

  /**
   * On an unvisited leaf a step adds one unvisited, childless child of the
   * leaf per possible move of the leaf's game exactly when the root's game
   * goes on, and no node otherwise.
   */
  lemma StepExpands(nodes: seq<TreeNode>, leaf: nat, r: int)
    requires WellFormed(nodes) && leaf < |nodes|
    ensures var out := StepAt(nodes, leaf, r);
      nodes[leaf].visits == 0 ==>
        && |out| == |nodes| + (if GameGoesOn(nodes) then |PossibleMoves(nodes[leaf].data.game.cells)| else 0)
        && (forall j :: |nodes| <= j < |out| ==>
              out[j].visits == 0 && out[j].wins == 0 && out[j].parent == Some(leaf) && out[j].children == [])
  {
    if nodes[leaf].visits == 0 {
      StepGrowsBy(nodes, leaf, r);
      StepNewNodes(nodes, leaf, r);
    }
  }

  /**
   * The leaf of a step that expands it gets one new child link per possible
   * move, pointing at the new nodes in order; backpropagation and the reset of
   * the root's game keep every child list.
   */
  lemma StepChildren(nodes: seq<TreeNode>, leaf: nat, r: int)
    requires WellFormed(nodes) && leaf < |nodes| && nodes[leaf].visits == 0
    ensures StepAt(nodes, leaf, r)[leaf].children == nodes[leaf].children +
      (if GameGoesOn(nodes) then seq(|PossibleMoves(nodes[leaf].data.game.cells)|, k => |nodes| + k) else [])
  {
    var grown := Grow(nodes, leaf);
    BackpropKeepsLinks(grown, Some(leaf), r);
  }

  /**
   * Because line 64 looks at the root's game, and the root's game is fresh
   * after every backpropagation, from then on every unvisited leaf is
   * expanded, also one whose own game is already won.
   */
  lemma StepAfterResetExpands(nodes: seq<TreeNode>, leaf: nat, r: int)
    requires WellFormed(nodes) && leaf < |nodes| && nodes[0].data.game == InitialGame
    requires nodes[leaf].visits == 0
    ensures |StepAt(nodes, leaf, r)| == |nodes| + |PossibleMoves(nodes[leaf].data.game.cells)|
  {
    EmptyBoardGoesOn();
    StepExpands(nodes, leaf, r);
  }

  /** `TreeNode(TicTacToe())`: a root for a fresh game, with no children, visits or wins. */
  predicate IsFreshRoot(root: TreeNode) {
    root.data.game == InitialGame && root.parent.None? && root.children == [] && root.visits == 0 && root.wins == 0
  }

  lemma FreshRootWellFormed(root: TreeNode)
    requires IsFreshRoot(root)
    ensures WellFormed([root]) && GameGoesOn([root])
    ensures |PossibleMoves(root.data.game.cells)| == Size
  {
    assert WellFormed([root]) by {
      assert ValidGame(root.data.game);
    }
    assert GameGoesOn([root]) by {
      EmptyBoardGoesOn();
    }
    assert |PossibleMoves(root.data.game.cells)| == Size by {
      EmptyBoardGoesOn();
    }
  }

  /**
   * A single unvisited root whose game goes on is its own leaf. One step
   * gives it one visit, adds `r` to its wins and adds one unvisited child per
   * possible move.
   */
  lemma FirstStep(root: TreeNode, r: int)
    requires WellFormed([root]) && root.visits == 0 && GameGoesOn([root])
    ensures var out := StepAt([root], 0, r);
      && |out| == 1 + |PossibleMoves(root.data.game.cells)|
      && out[0].visits == 1 && out[0].wins == root.wins + r
      && forall j :: 1 <= j < |out| ==> out[j].visits == 0 && out[j].parent == Some(0)
  {
    var nodes := [root];
    StepGrowsBy(nodes, 0, r);
    StepNewNodes(nodes, 0, r);
    var p := Path(nodes, Some(0));
    assert p == [0];
    StepBackpropagates(nodes, 0, r);
    var out := StepAt(nodes, 0, r);
    assert out[p[0]].wins == nodes[p[0]].wins + Alternating(r, 0);
  }

  /** The children that step gives a childless root are the nodes 1, 2, ... in move order. */
  lemma FirstStepChildren(root: TreeNode, r: int)
    requires WellFormed([root]) && root.visits == 0 && root.children == [] && GameGoesOn([root])
    ensures var cs := StepAt([root], 0, r)[0].children;
      && |cs| == |PossibleMoves(root.data.game.cells)|
      && forall k :: 0 <= k < |cs| ==> cs[k] == 1 + k
  {
    StepChildren([root], 0, r);
  }

  /**
   * `r` can be the roll-out result of a step that reached `leaf`: 1, -1 or 0,
   * and the winner of a finished playout from the leaf's game when the leaf
   * is unvisited (a visited leaf is not rolled out).
   */
  ghost predicate PlayoutResult(nodes: seq<TreeNode>, leaf: nat, r: int)
    requires leaf < |nodes|
  {
    && (r == 1 || r == -1 || r == 0)
    && (nodes[leaf].visits == 0 ==> exists ms :: FinishedPlayout(nodes[leaf].data.game, ms, r))
  }

  /** One step from a fresh root gives it the nine children 1 to 9, one per cell in order. */
  lemma FreshRootFirstChildren(root: TreeNode, r: int)
    requires IsFreshRoot(root)
    ensures StepAt([root], 0, r)[0].children == [1, 2, 3, 4, 5, 6, 7, 8, 9]
    ensures |StepAt([root], 0, r)| == 10
  {
    FreshRootWellFormed(root);
    FirstStep(root, r);
    FirstStepChildren(root, r);
    var out := StepAt([root], 0, r);
    var cs := out[0].children;
    assert |cs| == 9 && |out| == 10;
    assert forall k :: 0 <= k < 9 ==> cs[k] == 1 + k;
    OneToNine(cs);
  }

  lemma OneToNine(cs: seq<nat>)
    requires |cs| == 9 && forall k :: 0 <= k < 9 ==> cs[k] == 1 + k
    ensures cs == [1, 2, 3, 4, 5, 6, 7, 8, 9]
  {
    assert cs[0] == 1 && cs[1] == 2 && cs[2] == 3 && cs[3] == 4 && cs[4] == 5;
    assert cs[5] == 6 && cs[6] == 7 && cs[7] == 8 && cs[8] == 9;
  }

  /** `after` is what one `do_one_step(start)` can make of `before`, with a possible roll-out result. */
  ghost predicate StepTaken(before: seq<TreeNode>, after: seq<TreeNode>, start: nat, bonus: (int, int) -> real) {
    && WellFormed(before) && start < |before|
    && exists r :: after == Step(before, start, bonus, r) && PlayoutResult(before, SearchLeaf(before, start, bonus), r)
  }

  /** A trace of steps extended by one more step is still a trace of steps. */
  lemma TraceExtends(trace: seq<seq<TreeNode>>, after: seq<TreeNode>, start: nat, bonus: (int, int) -> real)
    requires |trace| > 0 && StepTaken(trace[|trace| - 1], after, start, bonus)
    requires forall j :: 0 <= j < |trace| - 1 ==> StepTaken(trace[j], trace[j + 1], start, bonus)
    ensures var next := trace + [after];
      forall j :: 0 <= j < |next| - 1 ==> StepTaken(next[j], next[j + 1], start, bonus)
  {
    var next := trace + [after];
    forall j | 0 <= j < |next| - 1
      ensures StepTaken(next[j], next[j + 1], start, bonus)
    {
      assert next[j] == trace[j];
      if j + 1 < |trace| {
        assert next[j + 1] == trace[j + 1];
      }
    }
  }

  /**
   * The loop of `rollout`: plays random legal moves on a copy of `start`
   * until it is over, and returns its `check_winner`. The ghost `moves` are
   * the moves it drew; there are no more of them than empty cells.
   */
  method Playout(start: Game) returns (result: int, ghost moves: seq<int>)
    requires ValidGame(start)
    ensures FinishedPlayout(start, moves, result)
    ensures result == 1 || result == -1 || result == 0
    ensures |moves| <= ZeroCount(start.cells)
  {
    var board := new Board.FromCells(start.cells);
    var game := new TicTacToe.WithBoard(board, start.player);
    moves := [];
    var over := game.IsOver();
    while !over
      invariant game.Valid() && fresh(game.board.board)
      invariant Walk(start, moves) == Some(game.State()) && ValidGame(game.State())
      invariant over <==> IsOver(game.board.board[..])
      invariant |moves| + ZeroCount(game.board.board[..]) == ZeroCount(start.cells)
      decreases ZeroCount(game.board.board[..])
    {
      var possible := game.GetPossibleMoves();
      var m :| m in possible;
      ghost var before := game.State();
      var made := game.MakeMove(m);
      WalkSnoc(start, moves, m);
      FillingDecreasesZeroCount(before.cells, m, before.player);
      moves := moves + [m];
      over := game.IsOver();
    }
    result := game.CheckWinner();
  }

  /** The search object: the tree, `num_simulations` and the exploration term of `get_ucb`. */
  class MCTS {
    const tree: Tree
    const numSimulations: nat
    const bonus: (int, int) -> real

    ghost predicate Valid()
      reads this, tree
    {
      tree.Valid()
    }

    /** `MCTS(game, num_simulations)`: a tree holding only the root `TreeNode(game)`. */
    constructor (game: Game, numSimulations: nat, bonus: (int, int) -> real)
      requires ValidGame(game)
      ensures Valid() && fresh(tree)
      ensures tree.nodes == [Vertex(Position(game, []), None, [], 0, 0)]
      ensures this.numSimulations == numSimulations && this.bonus == bonus
    {
      tree := new Tree(game);
      this.numSimulations := numSimulations;
      this.bonus := bonus;
    }

    /** `rollout(node)`: a random playout on a copy of node i's game. */
    method Rollout(i: nat) returns (result: int, ghost moves: seq<int>)
      requires Valid() && i < |tree.nodes|
      ensures FinishedPlayout(tree.nodes[i].data.game, moves, result)
      ensures result == 1 || result == -1 || result == 0
      ensures |moves| <= ZeroCount(tree.nodes[i].data.game.cells)
    {
      result, moves := Playout(tree.nodes[i].data.game);
    }

    /**
     * `backpropagate(start, result)`: walks the parent links from `start` to
     * the root updating each node with alternating signs, then resets
     * `self.game`.
     */
    method Backpropagate(start: nat, result: int)
      requires Valid() && start < |tree.nodes|
      modifies tree
      ensures Valid()
      ensures tree.nodes == ResetRoot(Backprop(old(tree.nodes), Some(start), result))
    {
      ghost var goal := Backprop(tree.nodes, Some(start), result);
      var node: Option<nat> := Some(start);
      var r := result;
      while node.Some?
        invariant tree.Valid() && InArena(tree.nodes, node)
        invariant Backprop(tree.nodes, node, r) == goal
        decreases if node.Some? then node.value + 1 else 0
      {
        var n := node.value;
        BackpropUnfold(tree.nodes, n, r);
        var up := tree.nodes[n].parent;
        tree.Update(n, r);
        node := up;
        r := -r;
      }
      BackpropResetEffect(old(tree.nodes), start, result);
      tree.nodes := ResetRoot(tree.nodes);
    }

    /** `do_one_step(node)`; the ghost `result` is what the roll-out returned. */
    method DoOneStep(node: nat) returns (ghost result: int)
      requires Valid() && node < |tree.nodes|
      modifies tree
      ensures Valid()
      ensures tree.nodes == Step(old(tree.nodes), node, bonus, result)
      ensures result == 1 || result == -1 || result == 0
      ensures var leaf := SearchLeaf(old(tree.nodes), node, bonus);
        old(tree.nodes)[leaf].visits == 0 ==> exists ms :: FinishedPlayout(old(tree.nodes)[leaf].data.game, ms, result)
    {
      ghost var before := tree.nodes;
      var leaf := SearchLeaf(tree.nodes, node, bonus);
      if tree.nodes[leaf].visits == 0 {
        ExpandedShape(tree.nodes, leaf);
        var rootGame := tree.nodes[0].data.game;
        if Winner(rootGame.cells) == 0 && !IsDraw(rootGame.cells) {
          tree.AddAllChildren(leaf);
        }
        var r, moves := Rollout(leaf);
        result := r;
        Backpropagate(leaf, r);
      } else {
        var best := GetBestChild(tree.nodes, leaf, bonus);
        if best.Some? {
          // the roll-out from the best child (lines 73-74): a leaf has no children
          assert false;
        }
        result := 0;
      }
    }

    /** `build_tree(node)`: `num_simulations` steps from `node`, recorded in the ghost `trace`. */
    method BuildTree(node: nat) returns (ghost trace: seq<seq<TreeNode>>)
      requires Valid() && node < |tree.nodes|
      modifies tree
      ensures Valid() && node < |tree.nodes|
      ensures |trace| == numSimulations + 1
      ensures trace[0] == old(tree.nodes) && trace[numSimulations] == tree.nodes
      ensures forall k :: 0 <= k < numSimulations ==> StepTaken(trace[k], trace[k + 1], node, bonus)
    {
      trace := [tree.nodes];
      for k := 0 to numSimulations
        invariant Valid() && node < |tree.nodes|
        invariant |trace| == k + 1 && trace[0] == old(tree.nodes) && trace[k] == tree.nodes
        invariant forall j :: 0 <= j < k ==> StepTaken(trace[j], trace[j + 1], node, bonus)
      {
        ghost var r := DoOneStep(node);
        StepWellFormed(trace[k], SearchLeaf(trace[k], node, bonus), r);
        assert tree.nodes == Step(trace[k], node, bonus, r);
        assert PlayoutResult(trace[k], SearchLeaf(trace[k], node, bonus), r);
        assert StepTaken(trace[k], tree.nodes, node, bonus);
        TraceExtends(trace, tree.nodes, node, bonus);
        trace := trace + [tree.nodes];
      }
    }

    /**
     * `find_best_move_with_mcts(node)`: builds the tree from `node`, then the
     * move of its best child; `None` when `node` still has no children, where
     * `max` raises. The guard on an empty move list never fires, because
     * `np.where` always returns a one-element tuple. The ghost `trace` is
     * the tree before and after each of the `num_simulations` steps.
     */
    method FindBestMoveWithMcts(node: nat) returns (m: Option<nat>, ghost trace: seq<seq<TreeNode>>)
      requires Valid() && node < |tree.nodes|
      modifies tree
      ensures Valid() && node < |tree.nodes|
      ensures |trace| == numSimulations + 1
      ensures trace[0] == old(tree.nodes) && trace[numSimulations] == tree.nodes
      ensures forall k :: 0 <= k < numSimulations ==> StepTaken(trace[k], trace[k + 1], node, bonus)
      ensures m == GetBestMove(tree.nodes, node, bonus)
    {
      trace := BuildTree(node);
      m := GetBestMove(tree.nodes, node, bonus);
    }
  }
}
