/**
 * mcts2.py: the second Monte Carlo tree search, over treenode2.py nodes whose
 * children are a dictionary from moves to nodes and whose games are
 * tictactoe2.py games. The nodes live in an arena, node 0 being `self.root`;
 * a child link is the child's index in the arena.
 *
 * treenode2.py is not part of this model. Its `add_all_children`,
 * `best_child` and `get_best_move_from_possible_children` are supplied as the
 * three functions of a `NodeOps`, and `Sound` states what the search relies
 * on them to do.
 */
module Mcts2 {
  import opened Wrappers
  import opened Rules
  import opened TicTacToe2
  import opened Arena

  /** A treenode2.py node: its `game_state`, parent, `children` by move, `visits` and `wins`. */
  type Node = Vertex<Game, map<int, nat>>

  /**
   * Node 0 is the only root; parents come before children; child links and
   * parent links agree; visits are never negative; every game has nine cells
   * and a player 1 or -1.
   */
  ghost predicate WellFormed(nodes: seq<Node>) {
    && |nodes| > 0
    && nodes[0].parent.None?
    && ParentsBelow(nodes)
    && (forall i :: 0 < i < |nodes| ==> nodes[i].parent.Some?)
    && (forall i, m :: 0 <= i < |nodes| && m in nodes[i].children ==>
          i < nodes[i].children[m] < |nodes| && nodes[nodes[i].children[m]].parent == Some(i))
    && (forall i :: 0 <= i < |nodes| ==> nodes[i].visits >= 0 && ValidGame(nodes[i].data))
  }

  /**
   * `after` is `before` once node i has been given children: every old child
   * link stays, every new one points at a new node holding i's game after
   * that (legal) move, new nodes have no children, visits or wins, and
   * nothing else changes.
   */
  ghost predicate Expansion(before: seq<Node>, after: seq<Node>, i: nat)
    requires i < |before|
  {
    && WellFormed(after)
    && |before| <= |after|
    && (forall j :: 0 <= j < |before| && j != i ==> after[j] == before[j])
    && after[i] == before[i].(children := after[i].children)
    && (forall m :: m in before[i].children ==>
          m in after[i].children && after[i].children[m] == before[i].children[m])
    && (forall m :: m in after[i].children && m !in before[i].children ==>
          && |before| <= after[i].children[m]
          && Legal(before[i].data, m)
          && after[after[i].children[m]].data == Play(before[i].data, m))
    && (forall j :: |before| <= j < |after| ==>
          after[j].parent == Some(i) && after[j].children == map[] && after[j].visits == 0 && after[j].wins == 0)
  }

  /** Node c is one of node i's children: it is stored under some move. */
  ghost predicate IsChild(nodes: seq<Node>, i: nat, c: nat)
    requires i < |nodes|
  {
    exists m :: m in nodes[i].children && nodes[i].children[m] == c
  }

  /** treenode2.py's `add_all_children`, `best_child` and `get_best_move_from_possible_children`. */
  datatype NodeOps = NodeOps(
    addAllChildren: (seq<Node>, nat) -> seq<Node>,
    bestChild: (seq<Node>, nat) -> Option<nat>,
    bestMove: (seq<Node>, nat) -> Option<int>)

  /**
   * What mcts2.py relies on: `add_all_children` is an expansion, `best_child`
   * is a child, and the best move is a key of `children`.
   */
  ghost predicate Sound(ops: NodeOps) {
    && (forall nodes: seq<Node>, i: nat {:trigger ops.addAllChildren(nodes, i)} :: WellFormed(nodes) && i < |nodes| ==>
          Expansion(nodes, ops.addAllChildren(nodes, i), i))
    && (forall nodes: seq<Node>, i: nat {:trigger ops.bestChild(nodes, i)} :: i < |nodes| && ops.bestChild(nodes, i).Some? ==>
          IsChild(nodes, i, ops.bestChild(nodes, i).value))
    && (forall nodes: seq<Node>, i: nat {:trigger ops.bestMove(nodes, i)} :: i < |nodes| && ops.bestMove(nodes, i).Some? ==>
          ops.bestMove(nodes, i).value in nodes[i].children)
  }


  /** Operations that never add a child and never choose one meet `Sound`. */
  lemma ChildlessOpsSound()
    ensures Sound(NodeOps((nodes, i) => nodes, (nodes, i) => None, (nodes, i) => None))
  {
  }

  /**
   * An `add_all_children` that gives node i one child, for its first possible
   * move, unless that move already has one.
   */
  function AddFirstChild(nodes: seq<Node>, i: nat): seq<Node> {
    if i < |nodes| && ValidGame(nodes[i].data) then
      var ms := PossibleMoves(nodes[i].data.cells);
      if |ms| > 0 && ms[0] !in nodes[i].children then
        nodes[i := nodes[i].(children := nodes[i].children[ms[0] := |nodes|])]
          + [Vertex(Play(nodes[i].data, ms[0]), Some(i), map[], 0, 0)]
      else nodes
    else nodes
  }

  /** The move of `AddFirstChild`'s child, once node i has it. */
  function FirstChildMove(nodes: seq<Node>, i: nat): Option<int> {
    if i < |nodes| && ValidGame(nodes[i].data) then
      var ms := PossibleMoves(nodes[i].data.cells);
      if |ms| > 0 && ms[0] in nodes[i].children then Some(ms[0]) else None
    else None
  }

  /** The node of `AddFirstChild`'s child, once node i has it. */
  function FirstChild(nodes: seq<Node>, i: nat): Option<nat> {
    match FirstChildMove(nodes, i)
    case None => None
    case Some(m) => Some(nodes[i].children[m])
  }

  /** `AddFirstChild` keeps the arena well formed. */
  lemma AddFirstChildWellFormed(nodes: seq<Node>, i: nat)
    requires WellFormed(nodes) && i < |nodes|
    ensures WellFormed(AddFirstChild(nodes, i))
  {
    var ms := PossibleMoves(nodes[i].data.cells);
    if |ms| > 0 && ms[0] !in nodes[i].children {
      var out := AddFirstChild(nodes, i);
      forall j, m | 0 <= j < |out| && m in out[j].children
        ensures j < out[j].children[m] < |out| && out[out[j].children[m]].parent == Some(j)
      {
        if j != i || m != ms[0] {
          assert j < |nodes| && m in nodes[j].children;
        }
      }
    }
  }

  /** `AddFirstChild` is an expansion. */
  lemma AddFirstChildExpands(nodes: seq<Node>, i: nat)
    requires WellFormed(nodes) && i < |nodes|
    ensures Expansion(nodes, AddFirstChild(nodes, i), i)
  {
    AddFirstChildWellFormed(nodes, i);
    var ms := PossibleMoves(nodes[i].data.cells);
    if |ms| > 0 && ms[0] !in nodes[i].children {
      var out := AddFirstChild(nodes, i);
      assert out[|nodes|].data == Play(nodes[i].data, ms[0]);
    }
  }

  /** Operations that expand a node by one child and choose that child meet `Sound`. */
  lemma FirstChildOpsSound()
    ensures Sound(NodeOps(AddFirstChild, FirstChild, FirstChildMove))
  {
    var ops := NodeOps(AddFirstChild, FirstChild, FirstChildMove);
    forall nodes: seq<Node>, i: nat | WellFormed(nodes) && i < |nodes|
      ensures Expansion(nodes, ops.addAllChildren(nodes, i), i)
    {
      AddFirstChildExpands(nodes, i);
    }
  }

  /** The best child of a node is a node of the arena. */
  lemma BestChildInArena(nodes: seq<Node>, i: nat, ops: NodeOps)
    requires WellFormed(nodes) && i < |nodes| && Sound(ops)
    ensures var b := ops.bestChild(nodes, i);
      b.Some? ==> i < b.value < |nodes| && nodes[b.value].parent == Some(i)
  {
    var b := ops.bestChild(nodes, i);
    if b.Some? {
      var m :| m in nodes[i].children && nodes[i].children[m] == b.value;
    }
  }

  /**
   * `search_leaf(i)`: follows the best move down from node i while the node
   * has children and a best move. The leaf lies below i; it has no children,
   * or no best move.
   */
  function SearchLeaf(nodes: seq<Node>, i: nat, ops: NodeOps): (leaf: nat)
    requires WellFormed(nodes) && i < |nodes| && Sound(ops)
    ensures i <= leaf < |nodes|
    ensures |nodes[leaf].children| == 0 || ops.bestMove(nodes, leaf).None?
    ensures leaf == i <==> |nodes[i].children| == 0 || ops.bestMove(nodes, i).None?
    ensures i in Path(nodes, Some(leaf))
    decreases |nodes| - i
  {
    if |nodes[i].children| == 0 then i
    else
      match ops.bestMove(nodes, i)
      case None => i
      case Some(m) =>
        var c := nodes[i].children[m];
        var leaf := SearchLeaf(nodes, c, ops);
        assert Path(nodes, Some(c)) == [c] + Path(nodes, Some(i));
        AncestorsCompose(nodes, leaf, c, i);
        leaf
  }

  /** Lines 68-69 of `do_one_step`: a visited leaf gets its children, an unvisited one does not. */
  function Grown(nodes: seq<Node>, leaf: nat, ops: NodeOps): (grown: seq<Node>)
    requires WellFormed(nodes) && leaf < |nodes| && Sound(ops)
    ensures WellFormed(grown) && leaf < |nodes| <= |grown|
    ensures grown[leaf].visits == nodes[leaf].visits
    ensures nodes[leaf].visits > 0 ==> Expansion(nodes, grown, leaf)
    ensures nodes[leaf].visits == 0 ==> grown == nodes
  {
    if nodes[leaf].visits > 0 then ops.addAllChildren(nodes, leaf) else nodes
  }

  /** The node `do_one_step` rolls out: the best child of a visited leaf (if any), else the leaf itself. */
  function RolledOut(nodes: seq<Node>, leaf: nat, ops: NodeOps): (n: Option<nat>)
    requires WellFormed(nodes) && leaf < |nodes| && Sound(ops)
    ensures InArena(Grown(nodes, leaf, ops), n)
    ensures nodes[leaf].visits == 0 ==> n == Some(leaf)
    ensures nodes[leaf].visits > 0 && n.Some? ==> Grown(nodes, leaf, ops)[n.value].parent == Some(leaf)
  {
    BestChildInArena(Grown(nodes, leaf, ops), leaf, ops);
    if nodes[leaf].visits > 0 then ops.bestChild(Grown(nodes, leaf, ops), leaf) else Some(leaf)
  }

  /**
   * Lines 68-75 of `do_one_step` once `search_leaf` has returned `leaf`, with
   * `r` the roll-out's result: grow a visited leaf, then backpropagate from
   * the node rolled out, if there is one.
   */
  function StepAt(nodes: seq<Node>, leaf: nat, ops: NodeOps, r: int): seq<Node>
    requires WellFormed(nodes) && leaf < |nodes| && Sound(ops)
  {
    Backprop(Grown(nodes, leaf, ops), RolledOut(nodes, leaf, ops), r)
  }

  /** One `do_one_step` from node `start`. */
  function Step(nodes: seq<Node>, start: nat, ops: NodeOps, r: int): seq<Node>
    requires WellFormed(nodes) && start < |nodes| && Sound(ops)
  {
    StepAt(nodes, SearchLeaf(nodes, start, ops), ops, r)
  }

  /** A step keeps the arena well formed and never removes a node. */
  lemma StepWellFormed(nodes: seq<Node>, leaf: nat, ops: NodeOps, r: int)
    requires WellFormed(nodes) && leaf < |nodes| && Sound(ops)
    ensures WellFormed(StepAt(nodes, leaf, ops, r))
    ensures |StepAt(nodes, leaf, ops, r)| == |Grown(nodes, leaf, ops)| >= |nodes|
  {
    BackpropWellFormed(Grown(nodes, leaf, ops), RolledOut(nodes, leaf, ops), r);
  }

  /**
   * On an unvisited leaf `do_one_step` adds no node and no child link, and
   * backpropagates once from the leaf: each k-th ancestor gains one visit and
   * `r` with sign (-1)^k, every other node is unchanged.
   */
  lemma StepUnvisited(nodes: seq<Node>, leaf: nat, ops: NodeOps, r: int)
    requires WellFormed(nodes) && leaf < |nodes| && Sound(ops) && nodes[leaf].visits == 0
    ensures var out := StepAt(nodes, leaf, ops, r);
      var p := Path(nodes, Some(leaf));
      && |out| == |nodes|
      && (forall j :: 0 <= j < |nodes| ==> out[j].children == nodes[j].children)
      && (forall k :: 0 <= k < |p| ==>
            out[p[k]].visits == nodes[p[k]].visits + 1 && out[p[k]].wins == nodes[p[k]].wins + Alternating(r, k))
      && (forall j :: 0 <= j < |nodes| && j !in p ==> out[j] == nodes[j])
  {
    BackpropKeepsLinks(nodes, Some(leaf), r);
    BackpropEffect(nodes, Some(leaf), r);
  }

  /**
   * On a visited leaf `do_one_step` expands it; when the expanded leaf has no
   * best child, nothing else happens.
   */
  lemma StepVisitedExpands(nodes: seq<Node>, leaf: nat, ops: NodeOps, r: int)
    requires WellFormed(nodes) && leaf < |nodes| && Sound(ops) && nodes[leaf].visits > 0
    ensures var grown := ops.addAllChildren(nodes, leaf);
      var out := StepAt(nodes, leaf, ops, r);
      && Expansion(nodes, grown, leaf)
      && |out| == |grown|
      && (ops.bestChild(grown, leaf).None? ==> out == grown)
  {
    assert Grown(nodes, leaf, ops) == ops.addAllChildren(nodes, leaf);
  }

  /**
   * With a best child, `do_one_step` backpropagates once from it: each k-th
   * node on its path gains one visit and `r` with sign (-1)^k, every other
   * node is unchanged.
   */
  lemma StepVisitedBackpropagates(nodes: seq<Node>, leaf: nat, ops: NodeOps, r: int)
    requires WellFormed(nodes) && leaf < |nodes| && Sound(ops) && nodes[leaf].visits > 0
    ensures var grown := ops.addAllChildren(nodes, leaf);
      var out := StepAt(nodes, leaf, ops, r);
      var best := ops.bestChild(grown, leaf);
      best.Some? ==>
        && IsChild(grown, leaf, best.value)
        && var p := Path(grown, best);
           && (forall k :: 0 <= k < |p| ==>
                 out[p[k]].visits == grown[p[k]].visits + 1 && out[p[k]].wins == grown[p[k]].wins + Alternating(r, k))
           && (forall j :: 0 <= j < |grown| && j !in p ==> out[j] == grown[j])
  {
    var grown := ops.addAllChildren(nodes, leaf);
    var best := ops.bestChild(grown, leaf);
    assert StepAt(nodes, leaf, ops, r) == Backprop(grown, best, r);
    if best.Some? {
      BestChildInArena(grown, leaf, ops);
      BackpropEffect(grown, best, r);
    }
  }

  /**
   * On a visited leaf no node gains more than one visit, and the leaf keeps a
   * positive visit count, so the branch of line 73 is not taken.
   */
  lemma StepVisitedCounts(nodes: seq<Node>, leaf: nat, ops: NodeOps, r: int)
    requires WellFormed(nodes) && leaf < |nodes| && Sound(ops) && nodes[leaf].visits > 0
    ensures var grown := ops.addAllChildren(nodes, leaf);
      var out := StepAt(nodes, leaf, ops, r);
      && |out| == |grown|
      && (forall j :: 0 <= j < |grown| ==> grown[j].visits <= out[j].visits <= grown[j].visits + 1)
      && out[leaf].visits > 0
  {
    var grown := ops.addAllChildren(nodes, leaf);
    var best := ops.bestChild(grown, leaf);
    var out := StepAt(nodes, leaf, ops, r);
    assert out == Backprop(grown, best, r);
    BestChildInArena(grown, leaf, ops);
    BackpropEffect(grown, best, r);
    BackpropVisitsGrow(grown, best, r);
    var p := Path(grown, best);
    forall j | 0 <= j < |grown|
      ensures out[j].visits <= grown[j].visits + 1
    {
      if j in p {
        var k :| 0 <= k < |p| && p[k] == j;
      }
    }
  }

  /**
   * From a single unvisited root, one `do_one_step` gives the root one visit
   * and `r` more wins, and leaves it without children.
   */
  lemma FreshRootOneStep(root: Node, ops: NodeOps, r: int)
    requires WellFormed([root]) && Sound(ops) && root.visits == 0 && root.children == map[]
    ensures var out := Step([root], 0, ops, r);
      && |out| == 1
      && out[0].visits == 1 && out[0].wins == root.wins + r
      && out[0].children == map[]
  {
    var nodes := [root];
    assert SearchLeaf(nodes, 0, ops) == 0;
    var p := Path(nodes, Some(0));
    assert p == [0];
    StepUnvisited(nodes, 0, ops, r);
    var out := StepAt(nodes, 0, ops, r);
    assert out[p[0]].wins == nodes[p[0]].wins + Alternating(r, 0);
  }

  /** Backpropagation keeps the arena well formed. */
  lemma BackpropWellFormed(nodes: seq<Node>, n: Option<nat>, r: int)
    requires WellFormed(nodes) && InArena(nodes, n)
    ensures WellFormed(Backprop(nodes, n, r))
  {
    BackpropKeepsLinks(nodes, n, r);
    BackpropVisitsGrow(nodes, n, r);
  }

  /** A roll-out that plays `ms` from `g` ends in a finished game whose `return_winner` is `r`. */
  ghost predicate FinishedPlayout(g: Game, ms: seq<int>, r: int) {
    && Walk(g, ms).Some?
    && GameResult(Walk(g, ms).value.cells).Some?
    && r == GameResult(Walk(g, ms).value.cells).value
  }

  /**
   * `r` can be the roll-out result of a step that reached `leaf`: 1, -1 or 0,
   * and the `return_winner` of a finished playout from the game of the node
   * rolled out, when there is one.
   */
  ghost predicate PlayoutResult(nodes: seq<Node>, leaf: nat, ops: NodeOps, r: int)
    requires WellFormed(nodes) && leaf < |nodes| && Sound(ops)
  {
    && (r == 1 || r == -1 || r == 0)
    && var n := RolledOut(nodes, leaf, ops);
      n.Some? ==> exists ms :: FinishedPlayout(Grown(nodes, leaf, ops)[n.value].data, ms, r)
  }

  /** `after` is what one `do_one_step()` from the root can make of `before`, with a possible roll-out result. */
  ghost predicate StepTaken(before: seq<Node>, after: seq<Node>, ops: NodeOps) {
    && WellFormed(before) && Sound(ops)
    && exists r :: after == Step(before, 0, ops, r) && PlayoutResult(before, SearchLeaf(before, 0, ops), ops, r)
  }

  /** A trace of steps extended by one more step is still a trace of steps. */
  lemma TraceExtends(trace: seq<seq<Node>>, after: seq<Node>, ops: NodeOps)
    requires |trace| > 0 && StepTaken(trace[|trace| - 1], after, ops)
    requires forall j :: 0 <= j < |trace| - 1 ==> StepTaken(trace[j], trace[j + 1], ops)
    ensures var next := trace + [after];
      forall j :: 0 <= j < |next| - 1 ==> StepTaken(next[j], next[j + 1], ops)
  {
    var next := trace + [after];
    forall j | 0 <= j < |next| - 1
      ensures StepTaken(next[j], next[j + 1], ops)
    {
      assert next[j] == trace[j];
      if j + 1 < |trace| {
        assert next[j + 1] == trace[j + 1];
      }
    }
  }

  /**
   * The loop of `rollout`: plays random legal moves on a deep copy of `start`
   * until it is over, and returns its `return_winner`. The ghost `moves` are
   * the moves it drew; there are no more of them than empty cells.
   */
  method Playout(start: Game) returns (result: int, ghost moves: seq<int>)
    requires ValidGame(start)
    ensures FinishedPlayout(start, moves, result)
    ensures result == 1 || result == -1 || result == 0
    ensures |moves| <= ZeroCount(start.cells)
  {
    var copy := new int[Size](i requires 0 <= i < Size => start.cells[i]);
    var game := new TicTacToe.WithBoard(copy, start.player);
    game.gameHistory := start.history;
    assert game.State() == start;
    moves := [];
    var over := game.IsOver();
    while !over
      invariant game.Valid() && fresh(game.board)
      invariant Walk(start, moves) == Some(game.State()) && ValidGame(game.State())
      invariant over <==> GameResult(game.board[..]).Some?
      invariant !over ==> |PossibleMoves(game.board[..])| > 0
      invariant |moves| + ZeroCount(game.board[..]) == ZeroCount(start.cells)
      decreases ZeroCount(game.board[..])
    {
      var possible := game.GetPossibleMoves();
      var m :| m in possible;
      ghost var before := game.State();
      var made := game.MakeMove(m);
      WalkSnoc(start, moves, m);
      FillingDecreasesZeroCount(before.cells, m, before.player);
      moves := moves + [m];
      over := game.IsOver();
    }
    var w := game.ReturnWinner();
    result := w.value;
  }

  /** The search object: the arena below `self.root`, `num_simulations` and treenode2.py's operations. */
  class MCTS {
    var nodes: seq<Node>
    const numSimulations: nat
    const ops: NodeOps

    ghost predicate Valid()
      reads this
    {
      WellFormed(nodes) && Sound(ops)
    }

    /** `MCTS(game, num_simulations)`: the root is a node for `game` without children, visits or wins. */
    constructor (game: Game, numSimulations: nat, ops: NodeOps)
      requires ValidGame(game) && Sound(ops)
      ensures Valid()
      ensures nodes == [Vertex(game, None, map[], 0, 0)]
      ensures this.numSimulations == numSimulations && this.ops == ops
    {
      nodes := [Vertex(game, None, map[], 0, 0)];
      this.numSimulations := numSimulations;
      this.ops := ops;
    }

    /**
     * `rollout(node)`: 0 for no node, otherwise a random playout on a copy of
     * the node's game. The tree is left as it was.
     */
    method Rollout(node: Option<nat>) returns (result: int, ghost moves: seq<int>)
      requires Valid() && InArena(nodes, node)
      ensures node.None? ==> result == 0
      ensures node.Some? ==> FinishedPlayout(nodes[node.value].data, moves, result)
      ensures result == 1 || result == -1 || result == 0
      ensures node.Some? ==> |moves| <= ZeroCount(nodes[node.value].data.cells)
    {
      if node.None? {
        return 0, [];
      }
      result, moves := Playout(nodes[node.value].data);
    }

    /**
     * `backpropagate(node, result)`: walks the parent links from `node` to the
     * root, adding one visit and `result` with alternating signs.
     */
    method Backpropagate(node: Option<nat>, result: int)
      requires Valid() && InArena(nodes, node)
      modifies this
      ensures Valid()
      ensures nodes == Backprop(old(nodes), node, result)
    {
      ghost var goal := Backprop(nodes, node, result);
      BackpropWellFormed(nodes, node, result);
      var n := node;
      var r := result;
      while n.Some?
        invariant ParentsBelow(nodes) && InArena(nodes, n) && |nodes| == |old(nodes)|
        invariant Backprop(nodes, n, r) == goal
        decreases if n.Some? then n.value + 1 else 0
      {
        var i := n.value;
        var up := nodes[i].parent;
        var next := nodes[i := Arena.Update(nodes[i], r)];
        assert Backprop(next, up, -r) == goal by {
          BackpropUnfold(nodes, i, r);
        }
        nodes := next;
        n := up;
        r := -r;
      }
    }

    /**
     * `do_one_step(node)`, from the root when `node` is `None`. The two tests
     * of lines 68 and 73 are made one after the other, the second on the leaf
     * as the first branch left it. The ghost `result` is what the roll-out
     * returned.
     */
    method DoOneStep(node: Option<nat>) returns (ghost result: int)
      requires Valid() && InArena(nodes, node)
      modifies this
      ensures Valid()
      ensures var leaf := SearchLeaf(old(nodes), if node.None? then 0 else node.value, ops);
        nodes == StepAt(old(nodes), leaf, ops, result)
      ensures result == 1 || result == -1 || result == 0
      ensures var leaf := SearchLeaf(old(nodes), if node.None? then 0 else node.value, ops);
        var n := RolledOut(old(nodes), leaf, ops);
        n.Some? ==> exists ms :: FinishedPlayout(Grown(old(nodes), leaf, ops)[n.value].data, ms, result)
    {
      var start := if node.None? then 0 else node.value;
      var leaf := SearchLeaf(nodes, start, ops);
      ghost var grown := Grown(nodes, leaf, ops);
      ghost var rolled := RolledOut(nodes, leaf, ops);
      result := 0;
      if nodes[leaf].visits > 0 {
        nodes := ops.addAllChildren(nodes, leaf);
        var best := ops.bestChild(nodes, leaf);
        if best.Some? {
          var r, moves := Rollout(best);
          result := r;
          BackpropVisitsGrow(nodes, best, r);
          Backpropagate(best, r);
        }
        assert nodes[leaf].visits > 0;
      }
      if nodes[leaf].visits == 0 {
        var r, moves := Rollout(Some(leaf));
        result := r;
        Backpropagate(Some(leaf), r);
      }
    }

    /**
     * `build_mcts_tree(node)`: `num_simulations` steps, each from the root
     * whatever `node` is (line 84 calls `do_one_step()` without it),
     * recorded in the ghost `trace`.
     */
    method BuildMctsTree(node: Option<nat>) returns (ghost trace: seq<seq<Node>>)
      requires Valid() && InArena(nodes, node)
      modifies this
      ensures Valid() && InArena(nodes, node)
      ensures |trace| == numSimulations + 1
      ensures trace[0] == old(nodes) && trace[numSimulations] == nodes
      ensures forall k :: 0 <= k < numSimulations ==> StepTaken(trace[k], trace[k + 1], ops)
    {
      trace := [nodes];
      for k := 0 to numSimulations
        invariant Valid() && InArena(nodes, node)
        invariant |trace| == k + 1 && trace[0] == old(nodes) && trace[k] == nodes
        invariant forall j :: 0 <= j < k ==> StepTaken(trace[j], trace[j + 1], ops)
      {
        ghost var r := DoOneStep(None);
        StepWellFormed(trace[k], SearchLeaf(trace[k], 0, ops), ops, r);
        assert nodes == Step(trace[k], 0, ops, r);
        assert PlayoutResult(trace[k], SearchLeaf(trace[k], 0, ops), ops, r);
        assert StepTaken(trace[k], nodes, ops);
        TraceExtends(trace, nodes, ops);
        trace := trace + [nodes];
      }
    }

    /**
     * `find_best_move_with_mcts(node)`: builds the tree, then node's best
     * move, a key of its children. The ghost `trace` is the tree before and
     * after each of the `num_simulations` steps.
     */
    method FindBestMoveWithMcts(node: nat) returns (m: Option<int>, ghost trace: seq<seq<Node>>)
      requires Valid() && node < |nodes|
      modifies this
      ensures Valid() && node < |nodes|
      ensures |trace| == numSimulations + 1
      ensures trace[0] == old(nodes) && trace[numSimulations] == nodes
      ensures forall k :: 0 <= k < numSimulations ==> StepTaken(trace[k], trace[k + 1], ops)
      ensures m == ops.bestMove(nodes, node)
      ensures m.Some? ==> m.value in nodes[node].children
    {
      trace := BuildMctsTree(Some(node));
      m := ops.bestMove(nodes, node);
    }
  }
}
