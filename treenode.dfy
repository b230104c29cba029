/**
 * treenode.py: a search-tree node holding a tictactoe.py game, its parent, the
 * list of its children, `visits`, `wins` and `game_history`. The nodes live in
 * an arena (`Tree.nodes`), node 0 being the root; a child link is the child's
 * index in the arena.
 */
module TreeNodes {
  import opened Wrappers
  import opened Rules
  import opened TicTacToe1
  import opened Arena

  /** A node's game and its `game_history`. */
  datatype Position = Position(game: Game, gameHistory: seq<int>)

  type TreeNode = Vertex<Position, seq<nat>>

  /**
   * Node 0 is the only root; parents come before children; child links and
   * parent links agree; every game has nine cells and a player 1 or -1.
   */
  ghost predicate WellFormed(nodes: seq<TreeNode>) {
    && |nodes| > 0
    && nodes[0].parent.None?
    && ParentsBelow(nodes)
    && (forall i :: 0 < i < |nodes| ==> nodes[i].parent.Some?)
    && (forall i, k :: 0 <= i < |nodes| && 0 <= k < |nodes[i].children| ==>
          i < nodes[i].children[k] < |nodes| && nodes[nodes[i].children[k]].parent == Some(i))
    && (forall i :: 0 <= i < |nodes| ==> ValidGame(nodes[i].data.game))
  }

  /** In a well-formed arena every path ends at the root, node 0. */
  lemma PathEndsAtRoot(nodes: seq<TreeNode>, n: nat)
    requires WellFormed(nodes) && n < |nodes|
    ensures var p := Path(nodes, Some(n)); p[|p| - 1] == 0
  {
  }

  /** `|a[j] - b[j]|`. */
  function AbsDiff(a: seq<int>, b: seq<int>, j: nat): nat
    requires j < |a| && j < |b|
  {
    if a[j] < b[j] then b[j] - a[j] else a[j] - b[j]
  }

  /** numpy's `abs(a - b)[:n].argmax()`: the first index of the largest difference. */
  function ArgMaxAbsDiff(a: seq<int>, b: seq<int>, n: nat): (r: nat)
    requires 0 < n <= |a| && n <= |b|
    ensures r < n
    ensures forall j :: 0 <= j < n ==> AbsDiff(a, b, j) <= AbsDiff(a, b, r)
    ensures forall j :: 0 <= j < r ==> AbsDiff(a, b, j) < AbsDiff(a, b, r)
  {
    if n == 1 then 0
    else
      var r := ArgMaxAbsDiff(a, b, n - 1);
      if AbsDiff(a, b, r) < AbsDiff(a, b, n - 1) then n - 1 else r
  }

  /** The cell where a played move changed the board is the one `argmax` finds. */
  lemma ArgMaxFindsMove(g: Game, m: nat)
    requires ValidGame(g) && Legal(g, m)
    ensures ArgMaxAbsDiff(Play(g, m).cells, g.cells, Size) == m
  {
    var a := Play(g, m).cells;
    assert AbsDiff(a, g.cells, m) > 0;
    assert forall j :: 0 <= j < Size && j != m ==> AbsDiff(a, g.cells, j) == 0;
  }

  /** `last_move`: the cell where this node's board differs most from its parent's. */
  function LastMove(nodes: seq<TreeNode>, i: nat): (m: nat)
    requires WellFormed(nodes) && 0 < i < |nodes|
    ensures m < Size
  {
    var p := nodes[i].parent.value;
    ArgMaxAbsDiff(nodes[i].data.game.cells, nodes[p].data.game.cells, Size)
  }

  /** `TreeNode(game, parent)`: no children, no visits, no wins, history extended by `last_move`. */
  function NewNode(nodes: seq<TreeNode>, game: Game, parent: Option<nat>): (n: TreeNode)
    requires WellFormed(nodes) && InArena(nodes, parent) && |game.cells| == Size
    ensures n.data.game == game && n.parent == parent
    ensures n.children == [] && n.visits == 0 && n.wins == 0
    ensures parent.None? ==> n.data.gameHistory == []
    ensures parent.Some? ==> |n.data.gameHistory| == |nodes[parent.value].data.gameHistory| + 1
  {
    var history :=
      if parent.None? then []
      else
        var p := nodes[parent.value];
        p.data.gameHistory + [ArgMaxAbsDiff(game.cells, p.data.game.cells, Size)];
    Vertex(Position(game, history), parent, [], 0, 0)
  }

  /** A child made by one legal move records that move after its parent's history. */
  lemma NewNodeHistory(nodes: seq<TreeNode>, p: nat, m: nat)
    requires WellFormed(nodes) && p < |nodes| && Legal(nodes[p].data.game, m)
    ensures var n := NewNode(nodes, Play(nodes[p].data.game, m), Some(p));
      n.data.gameHistory == nodes[p].data.gameHistory + [m]
  {
    ArgMaxFindsMove(nodes[p].data.game, m);
  }

  /** Every move of `ms` can be played in node i's game. */
  predicate AllLegal(nodes: seq<TreeNode>, i: nat, ms: seq<nat>)
    requires i < |nodes|
  {
    forall k :: 0 <= k < |ms| ==> Legal(nodes[i].data.game, ms[k])
  }

  /**
   * Node i after `add_child` has been called once per move of `ms`, each time
   * with a node for a copy of i's game after that move.
   */
  function ExpandWith(nodes: seq<TreeNode>, i: nat, ms: seq<nat>): seq<TreeNode>
    requires WellFormed(nodes) && i < |nodes| && AllLegal(nodes, i, ms)
  {
    var n := |nodes|;
    var g := nodes[i].data.game;
    nodes[i := nodes[i].(children := nodes[i].children + seq(|ms|, k => n + k))]
      + seq(|ms|, k requires 0 <= k < |ms| => NewNode(nodes, Play(g, ms[k]), Some(i)))
  }

  /** `add_all_children`: one child per possible move of node i, in ascending order. */
  function Expanded(nodes: seq<TreeNode>, i: nat): seq<TreeNode>
    requires WellFormed(nodes) && i < |nodes|
  {
    var ms := PossibleMoves(nodes[i].data.game.cells);
    ExpandWith(nodes, i, ms)
  }

  lemma ExpandWithWellFormed(nodes: seq<TreeNode>, i: nat, ms: seq<nat>)
    requires WellFormed(nodes) && i < |nodes| && AllLegal(nodes, i, ms)
    ensures WellFormed(ExpandWith(nodes, i, ms))
  {
    var out := ExpandWith(nodes, i, ms);
    var n := |nodes|;
    forall j, k | 0 <= j < |out| && 0 <= k < |out[j].children|
      ensures j < out[j].children[k] < |out| && out[out[j].children[k]].parent == Some(j)
    {
      if j == i && k >= |nodes[i].children| {
        assert out[j].children[k] == n + (k - |nodes[i].children|);
      }
    }
  }

  /**
   * `add_all_children` gives node i one new child link per possible move,
   * pointing at the new nodes in ascending move order. Node i's own game,
   * parent and counters, and every other old node, stay as they were; the
   * arena stays well formed.
   */
  lemma ExpandedShape(nodes: seq<TreeNode>, i: nat)
    requires WellFormed(nodes) && i < |nodes|
    ensures var out := Expanded(nodes, i);
      var ms := PossibleMoves(nodes[i].data.game.cells);
      && WellFormed(out)
      && |out| == |nodes| + |ms|
      && out[i].data == nodes[i].data && out[i].parent == nodes[i].parent
      && out[i].visits == nodes[i].visits && out[i].wins == nodes[i].wins
      && out[i].children == nodes[i].children + seq(|ms|, k => |nodes| + k)
      && (forall j :: 0 <= j < |nodes| && j != i ==> out[j] == nodes[j])
  {
    ExpandWithWellFormed(nodes, i, PossibleMoves(nodes[i].data.game.cells));
  }

  /**
   * The k-th new node holds i's game with the k-th possible move made by i's
   * player, its `game_history` is i's history plus that move, and it has no
   * children, visits or wins.
   */
  lemma ExpandedNewNodes(nodes: seq<TreeNode>, i: nat)
    requires WellFormed(nodes) && i < |nodes|
    ensures var out := Expanded(nodes, i);
      var g := nodes[i].data.game;
      var ms := PossibleMoves(g.cells);
      && |out| == |nodes| + |ms|
      && forall k :: 0 <= k < |ms| ==>
            && out[|nodes| + k].data.game.cells == g.cells[ms[k] := g.player]
            && out[|nodes| + k].data.game.player == -g.player
            && out[|nodes| + k].data.gameHistory == nodes[i].data.gameHistory + [ms[k]]
            && out[|nodes| + k].parent == Some(i)
            && out[|nodes| + k].children == []
            && out[|nodes| + k].visits == 0 && out[|nodes| + k].wins == 0
  {
    var g := nodes[i].data.game;
    var ms := PossibleMoves(g.cells);
    forall k | 0 <= k < |ms|
      ensures ArgMaxAbsDiff(Play(g, ms[k]).cells, g.cells, Size) == ms[k]
    {
      ArgMaxFindsMove(g, ms[k]);
    }
  }

  /** `add_child` on values: the child goes last in the arena and last among i's children. */
  function AddChildTo(nodes: seq<TreeNode>, i: nat, child: TreeNode): (out: seq<TreeNode>)
    requires i < |nodes|
    ensures |out| == |nodes| + 1 && out[|nodes|] == child.(parent := Some(i))
    ensures out[i] == nodes[i].(children := nodes[i].children + [|nodes|])
    ensures forall j :: 0 <= j < |nodes| && j != i ==> out[j] == nodes[j]
    ensures WellFormed(nodes) && child.children == [] && ValidGame(child.data.game) ==> WellFormed(out)
  {
    nodes[i := nodes[i].(children := nodes[i].children + [|nodes|])] + [child.(parent := Some(i))]
  }

  lemma ExpandWithNothing(nodes: seq<TreeNode>, i: nat)
    requires WellFormed(nodes) && i < |nodes|
    ensures ExpandWith(nodes, i, []) == nodes
  {
    var out := ExpandWith(nodes, i, []);
    assert out[i].children == nodes[i].children;
    assert |out| == |nodes|;
  }

  /** One node of `ExpandWith(nodes, i, ms + [m])`, read off `ExpandWith(nodes, i, ms)`. */
  lemma ExpandWithSnocAt(nodes: seq<TreeNode>, i: nat, ms: seq<nat>, m: nat, j: nat)
    requires WellFormed(nodes) && i < |nodes| && AllLegal(nodes, i, ms + [m])
    requires AllLegal(nodes, i, ms) && Legal(nodes[i].data.game, m)
    requires j < |nodes| + |ms| + 1 && j != i
    ensures var prev := ExpandWith(nodes, i, ms);
      var lhs := ExpandWith(nodes, i, ms + [m]);
      && |lhs| == |prev| + 1
      && (j < |prev| ==> lhs[j] == prev[j])
      && (j == |prev| ==> lhs[j] == NewNode(nodes, Play(nodes[i].data.game, m), Some(i)))
  {
    var ms' := ms + [m];
    var n := |nodes|;
    if n <= j < n + |ms| {
      assert ms'[j - n] == ms[j - n];
    }
  }

  lemma ExpandWithSnoc(nodes: seq<TreeNode>, i: nat, ms: seq<nat>, m: nat)
    requires WellFormed(nodes) && i < |nodes| && AllLegal(nodes, i, ms) && Legal(nodes[i].data.game, m)
    ensures AllLegal(nodes, i, ms + [m])
    ensures var prev := ExpandWith(nodes, i, ms);
      && WellFormed(prev) && prev[i].data == nodes[i].data
      && ExpandWith(nodes, i, ms + [m]) ==
           AddChildTo(prev, i, NewNode(prev, Play(prev[i].data.game, m), Some(i)))
  {
    var ms' := ms + [m];
    assert forall k :: 0 <= k < |ms| ==> ms'[k] == ms[k];
    var n := |nodes|;
    var g := nodes[i].data.game;
    var prev := ExpandWith(nodes, i, ms);
    ExpandWithWellFormed(nodes, i, ms);
    var child := NewNode(prev, Play(g, m), Some(i));
    assert child == NewNode(nodes, Play(g, m), Some(i));
    var lhs := ExpandWith(nodes, i, ms');
    var rhs := AddChildTo(prev, i, child);
    assert lhs[i] == rhs[i] by {
      var c := nodes[i].children;
      assert seq(|ms'|, k => n + k) == seq(|ms|, k => n + k) + [n + |ms|];
      assert prev[i].children == c + seq(|ms|, k => n + k);
      assert lhs[i].children == c + (seq(|ms|, k => n + k) + [n + |ms|]);
      assert rhs[i].children == (c + seq(|ms|, k => n + k)) + [n + |ms|];
      assert lhs[i].children == rhs[i].children;
      assert lhs[i].data == rhs[i].data;
      assert lhs[i].parent == rhs[i].parent;
      assert lhs[i].visits == rhs[i].visits;
      assert lhs[i].wins == rhs[i].wins;
    }
    forall j | 0 <= j < |lhs| && j != i
      ensures lhs[j] == rhs[j]
    {
      ExpandWithSnocAt(nodes, i, ms, m, j);
    }
  }

  /** The arena of treenode.py nodes that an MCTS search grows. */
  class Tree {
    var nodes: seq<TreeNode>

    ghost predicate Valid()
      reads this
    {
      WellFormed(nodes)
    }

    /** A tree holding just the root `TreeNode(game)`. */
    constructor (game: Game)
      requires ValidGame(game)
      ensures Valid()
      ensures nodes == [Vertex(Position(game, []), None, [], 0, 0)]
    {
      nodes := [Vertex(Position(game, []), None, [], 0, 0)];
    }

    /** `update(result)` on node i: one more visit, `result` more wins, nothing else changes. */
    method Update(i: nat, result: int)
      requires Valid() && i < |nodes|
      modifies this
      ensures Valid()
      ensures nodes == old(nodes)[i := Arena.Update(old(nodes)[i], result)]
    {
      nodes := nodes[i := Arena.Update(nodes[i], result)];
    }

    /** `add_child(child)` on node i: appends the child, whose parent becomes i. */
    method AddChild(i: nat, child: TreeNode)
      requires Valid() && i < |nodes| && child.children == [] && ValidGame(child.data.game)
      modifies this
      ensures Valid()
      ensures nodes == AddChildTo(old(nodes), i, child)
    {
      var c := |nodes|;
      nodes := nodes[i := nodes[i].(children := nodes[i].children + [c])] + [child.(parent := Some(i))];
    }

    /** `add_all_children` on node i. */
    method AddAllChildren(i: nat)
      requires Valid() && i < |nodes|
      modifies this
      ensures Valid()
      ensures nodes == Expanded(old(nodes), i)
    {
      var game := nodes[i].data.game;
      var moves := PossibleMoves(game.cells);
      ghost var before := nodes;
      ExpandWithNothing(nodes, i);
      var k := 0;
      while k < |moves|
        invariant 0 <= k <= |moves|
        invariant AllLegal(before, i, moves[..k])
        invariant nodes == ExpandWith(before, i, moves[..k])
        invariant Valid() && nodes[i].data.game == game
      {
        assert moves[..k + 1] == moves[..k] + [moves[k]];
        ExpandWithSnoc(before, i, moves[..k], moves[k]);
        // copy.deepcopy(self.game), then make_move(move) on the copy
        var newGame := Play(game, moves[k]);
        AddChild(i, NewNode(nodes, newGame, Some(i)));
        k := k + 1;
      }
      assert moves[..k] == moves;
    }
  }

  /** What `get_ucb` compares: +infinity, or a finite score. */
  datatype Score = Infinity | Finite(value: real)

  /** `a < b` on scores. */
  predicate Below(a: Score, b: Score) {
    a.Finite? && (b.Infinity? || a.value < b.value)
  }

  /**
   * `get_ucb` of node i: +infinity for an unvisited node, the mean `wins/visits`
   * for a visited root, the mean plus the exploration term `bonus(parent visits,
   * visits)` otherwise.
   */
  function GetUcb(nodes: seq<TreeNode>, i: nat, bonus: (int, int) -> real): (s: Score)
    requires WellFormed(nodes) && i < |nodes|
    ensures s.Infinity? <==> nodes[i].visits == 0
    ensures nodes[i].visits != 0 && nodes[i].parent.None? ==>
      s == Finite(nodes[i].wins as real / nodes[i].visits as real)
  {
    var v := nodes[i];
    if v.visits == 0 then Infinity
    else if v.parent.None? then Finite(v.wins as real / v.visits as real)
    else Finite(v.wins as real / v.visits as real + bonus(nodes[v.parent.value].visits, v.visits))
  }

  /** Python's `max`: the first position holding a largest score. */
  function FirstMax(scores: seq<Score>): (k: nat)
    requires |scores| > 0
    ensures k < |scores|
    ensures forall j :: 0 <= j < |scores| ==> !Below(scores[k], scores[j])
    ensures forall j :: 0 <= j < k ==> Below(scores[j], scores[k])
  {
    if |scores| == 1 then 0
    else
      var n := |scores| - 1;
      var k := FirstMax(scores[..n]);
      assert forall j :: 0 <= j < n ==> scores[..n][j] == scores[j];
      if Below(scores[k], scores[n]) then n else k
  }

  /** The scores of node i's children, in order. */
  function ChildScores(nodes: seq<TreeNode>, i: nat, bonus: (int, int) -> real): (s: seq<Score>)
    requires WellFormed(nodes) && i < |nodes|
    ensures |s| == |nodes[i].children|
    ensures forall k :: 0 <= k < |s| ==> s[k] == GetUcb(nodes, nodes[i].children[k], bonus)
  {
    var cs := nodes[i].children;
    seq(|cs|, k requires 0 <= k < |cs| => GetUcb(nodes, cs[k], bonus))
  }

  /**
   * `get_best_child`: `None` exactly when node i has no children; otherwise the
   * first child with the largest score. An unvisited child (+infinity) always
   * wins against visited ones.
   */
  function GetBestChild(nodes: seq<TreeNode>, i: nat, bonus: (int, int) -> real): (r: Option<nat>)
    requires WellFormed(nodes) && i < |nodes|
    ensures r.None? <==> nodes[i].children == []
    ensures r.Some? ==> r.value in nodes[i].children
    ensures r.Some? ==> forall c :: c in nodes[i].children ==>
      !Below(GetUcb(nodes, r.value, bonus), GetUcb(nodes, c, bonus))
    ensures r.Some? ==>
      exists k :: 0 <= k < |nodes[i].children| && nodes[i].children[k] == r.value &&
        forall j :: 0 <= j < k ==> Below(GetUcb(nodes, nodes[i].children[j], bonus), GetUcb(nodes, r.value, bonus))
    ensures (exists c :: c in nodes[i].children && nodes[c].visits == 0) ==> r.Some? && nodes[r.value].visits == 0
  {
    var cs := nodes[i].children;
    if cs == [] then None
    else
      var scores := ChildScores(nodes, i, bonus);
      var k := FirstMax(scores);
      assert forall c :: c in cs ==> exists j :: 0 <= j < |cs| && cs[j] == c;
      Some(cs[k])
  }

  /** `get_best_move`: the `last_move` of the best child; `None` where Python's `max` raises on no children. */
  function GetBestMove(nodes: seq<TreeNode>, i: nat, bonus: (int, int) -> real): (m: Option<nat>)
    requires WellFormed(nodes) && i < |nodes|
    ensures m.None? <==> nodes[i].children == []
    ensures m.Some? ==> m.value < Size
    ensures m.Some? ==>
      exists c :: c in nodes[i].children && 0 < c && m.value == LastMove(nodes, c) &&
        GetBestChild(nodes, i, bonus) == Some(c)
  {
    match GetBestChild(nodes, i, bonus)
    case None => None
    case Some(c) =>
      Some(ArgMaxAbsDiff(nodes[c].data.game.cells, nodes[i].data.game.cells, Size))
  }
}
