/**
 * The search tree as an arena: a sequence of nodes where a node refers to its
 * parent by index, and every parent index is smaller than the node's own. Both
 * MCTS drafts keep their nodes this way; the payload (`S`) and the container of
 * child links (`C`) differ between them. Backpropagation walks the parent
 * links, so it is defined once here.
 */
module Arena {
  import opened Wrappers
  import opened Rules

  /** A tree node: payload, parent link, child links, `visits` and `wins`. */
  datatype Vertex<S, C> = Vertex(data: S, parent: Option<nat>, children: C, visits: int, wins: int)

  /** `update(result)`: one more visit and `result` more wins. */
  function Update<S, C>(v: Vertex<S, C>, result: int): Vertex<S, C> {
    v.(visits := v.visits + 1, wins := v.wins + result)
  }

  /** Every parent link points to an earlier node. */
  predicate ParentsBelow<S, C>(nodes: seq<Vertex<S, C>>) {
    forall i :: 0 <= i < |nodes| && nodes[i].parent.Some? ==> nodes[i].parent.value < i
  }

  /** `n` is `None` or a node of the arena. */
  predicate InArena<S, C>(nodes: seq<Vertex<S, C>>, n: Option<nat>) {
    n.None? || n.value < |nodes|
  }

  /**
   * The nodes met by following parent links from `n` to a root: `Path[k]` is
   * the k-th ancestor of `n` (k = 0 is `n` itself).
   */
  function Path<S, C>(nodes: seq<Vertex<S, C>>, n: Option<nat>): (p: seq<nat>)
    requires ParentsBelow(nodes) && InArena(nodes, n)
    ensures n.None? <==> p == []
    ensures forall k :: 0 <= k < |p| ==> p[k] < |nodes|
    ensures n.Some? ==> |p| > 0 && p[0] == n.value && nodes[p[|p| - 1]].parent.None?
    ensures forall k :: 0 <= k < |p| ==> n.Some? && p[k] <= n.value
    decreases if n.Some? then n.value + 1 else 0
  {
    if n.None? then []
    else
      var rest := Path(nodes, nodes[n.value].parent);
      var p := [n.value] + rest;
      assert forall k :: 1 <= k < |p| ==> p[k] == rest[k - 1];
      p
  }

  /** Each node of a path after the first is the parent of the one before it. */
  lemma {:induction false} PathStep<S, C>(nodes: seq<Vertex<S, C>>, n: nat, k: nat)
    requires ParentsBelow(nodes) && n < |nodes| && k + 1 < |Path(nodes, Some(n))|
    ensures var p := Path(nodes, Some(n)); nodes[p[k]].parent == Some(p[k + 1])
    decreases n
  {
    var up := nodes[n].parent;
    var rest := Path(nodes, up);
    assert Path(nodes, Some(n)) == [n] + rest;
    if k > 0 {
      PathStep(nodes, up.value, k - 1);
    }
  }

  /** An ancestor of an ancestor of `n` is an ancestor of `n`. */
  lemma {:induction false} AncestorsCompose<S, C>(nodes: seq<Vertex<S, C>>, n: nat, a: nat, b: nat)
    requires ParentsBelow(nodes) && n < |nodes| && a < |nodes|
    requires a in Path(nodes, Some(n)) && b in Path(nodes, Some(a))
    ensures b in Path(nodes, Some(n))
    decreases n
  {
    if a != n {
      var up := nodes[n].parent;
      assert Path(nodes, Some(n)) == [n] + Path(nodes, up);
      AncestorsCompose(nodes, up.value, a, b);
    }
  }

  /** The tree shape is what `Path` depends on: a larger arena with the same links gives the same path. */
  lemma {:induction false} PathFrame<S, C, S', C'>(nodes: seq<Vertex<S, C>>, other: seq<Vertex<S', C'>>, n: Option<nat>)
    requires ParentsBelow(nodes) && ParentsBelow(other) && InArena(nodes, n)
    requires |nodes| <= |other|
    requires forall i :: 0 <= i < |nodes| ==> other[i].parent == nodes[i].parent
    ensures Path(other, n) == Path(nodes, n)
    decreases if n.Some? then n.value + 1 else 0
  {
    if n.Some? {
      PathFrame(nodes, other, nodes[n.value].parent);
    }
  }

  /**
   * `backpropagate(n, result)`: updates `n` with `result`, its parent with
   * `-result`, and so on up to the root. Links and payloads stay as they are.
   */
  function Backprop<S, C>(nodes: seq<Vertex<S, C>>, n: Option<nat>, result: int): (out: seq<Vertex<S, C>>)
    requires ParentsBelow(nodes) && InArena(nodes, n)
    ensures |out| == |nodes|
    decreases if n.Some? then n.value + 1 else 0
  {
    if n.None? then nodes
    else
      var i := n.value;
      Backprop(nodes[i := Update(nodes[i], result)], nodes[i].parent, -result)
  }

  /** Backpropagation only touches counters: payloads and links stay as they are. */
  lemma {:induction false} BackpropKeepsLinks<S, C>(nodes: seq<Vertex<S, C>>, n: Option<nat>, result: int)
    requires ParentsBelow(nodes) && InArena(nodes, n)
    ensures var out := Backprop(nodes, n, result);
      && ParentsBelow(out)
      && forall i :: 0 <= i < |nodes| ==>
           out[i].data == nodes[i].data && out[i].parent == nodes[i].parent && out[i].children == nodes[i].children
    decreases if n.Some? then n.value + 1 else 0
  {
    if n.Some? {
      var i := n.value;
      BackpropKeepsLinks(nodes[i := Update(nodes[i], result)], nodes[i].parent, -result);
    }
  }

  /** One step of `Backprop`: update the start node, then carry on from its parent with the sign flipped. */
  lemma BackpropUnfold<S, C>(nodes: seq<Vertex<S, C>>, s: nat, result: int)
    requires ParentsBelow(nodes) && s < |nodes|
    ensures ParentsBelow(nodes[s := Update(nodes[s], result)])
    ensures Backprop(nodes, Some(s), result) ==
      Backprop(nodes[s := Update(nodes[s], result)], nodes[s].parent, -result)
    ensures Path(nodes, Some(s)) == [s] + Path(nodes, nodes[s].parent)
    ensures Path(nodes[s := Update(nodes[s], result)], nodes[s].parent) == Path(nodes, nodes[s].parent)
  {
    PathFrame(nodes, nodes[s := Update(nodes[s], result)], nodes[s].parent);
  }

  /** The k-th ancestor of the start node gains one visit and result * (-1)^k wins. */
  lemma {:induction false} BackpropOnPath<S, C>(nodes: seq<Vertex<S, C>>, n: Option<nat>, result: int, k: nat)
    requires ParentsBelow(nodes) && InArena(nodes, n) && k < |Path(nodes, n)|
    ensures Backprop(nodes, n, result)[Path(nodes, n)[k]] == Update(nodes[Path(nodes, n)[k]], Alternating(result, k))
    decreases k
  {
    var s := n.value;
    if k == 0 {
      BackpropAtStart(nodes, s, result);
    } else {
      var up := nodes[s].parent;
      var bumped := nodes[s := Update(nodes[s], result)];
      var q := Path(nodes, up);
      assert && ParentsBelow(bumped)
             && Backprop(nodes, n, result) == Backprop(bumped, up, -result)
             && Path(nodes, n) == [s] + q
             && Path(bumped, up) == q by {
        BackpropUnfold(nodes, s, result);
      }
      var i := q[k - 1];
      assert bumped[i] == nodes[i] by {
        assert i <= up.value < s;
      }
      BackpropOnPath(bumped, up, -result, k - 1);
      AlternatingShift(result, k);
    }
  }

  /** The start node itself gains one visit and `result` wins. */
  lemma BackpropAtStart<S, C>(nodes: seq<Vertex<S, C>>, s: nat, result: int)
    requires ParentsBelow(nodes) && s < |nodes|
    ensures Backprop(nodes, Some(s), result)[s] == Update(nodes[s], result)
  {
    var up := nodes[s].parent;
    var bumped := nodes[s := Update(nodes[s], result)];
    BackpropUnfold(nodes, s, result);
    assert s !in Path(bumped, up);
    BackpropOffPath(bumped, up, -result, s);
  }

  /** Every node off the path from the start node to the root is left unchanged. */
  lemma {:induction false} BackpropOffPath<S, C>(nodes: seq<Vertex<S, C>>, n: Option<nat>, result: int, i: nat)
    requires ParentsBelow(nodes) && InArena(nodes, n)
    requires i < |nodes| && i !in Path(nodes, n)
    ensures Backprop(nodes, n, result)[i] == nodes[i]
    decreases if n.Some? then n.value + 1 else 0
  {
    if n.Some? {
      var s := n.value;
      var up := nodes[s].parent;
      var bumped := nodes[s := Update(nodes[s], result)];
      BackpropUnfold(nodes, s, result);
      BackpropOffPath(bumped, up, -result, i);
    }
  }

  /** Both halves together: the update on the path, nothing elsewhere. */
  lemma BackpropEffect<S, C>(nodes: seq<Vertex<S, C>>, n: Option<nat>, result: int)
    requires ParentsBelow(nodes) && InArena(nodes, n)
    ensures forall k :: 0 <= k < |Path(nodes, n)| ==>
      Backprop(nodes, n, result)[Path(nodes, n)[k]] == Update(nodes[Path(nodes, n)[k]], Alternating(result, k))
    ensures forall i :: 0 <= i < |nodes| && i !in Path(nodes, n) ==> Backprop(nodes, n, result)[i] == nodes[i]
  {
    forall k | 0 <= k < |Path(nodes, n)|
      ensures Backprop(nodes, n, result)[Path(nodes, n)[k]] == Update(nodes[Path(nodes, n)[k]], Alternating(result, k))
    {
      BackpropOnPath(nodes, n, result, k);
    }
    forall i | 0 <= i < |nodes| && i !in Path(nodes, n)
      ensures Backprop(nodes, n, result)[i] == nodes[i]
    {
      BackpropOffPath(nodes, n, result, i);
    }
  }

  /** Backpropagation never lowers a visit count, and raises the start node's. */
  lemma BackpropVisitsGrow<S, C>(nodes: seq<Vertex<S, C>>, n: Option<nat>, result: int)
    requires ParentsBelow(nodes) && InArena(nodes, n)
    ensures forall i :: 0 <= i < |nodes| ==> Backprop(nodes, n, result)[i].visits >= nodes[i].visits
    ensures n.Some? ==> Backprop(nodes, n, result)[n.value].visits == nodes[n.value].visits + 1
  {
    BackpropEffect(nodes, n, result);
    var p := Path(nodes, n);
    forall i | 0 <= i < |nodes|
      ensures Backprop(nodes, n, result)[i].visits >= nodes[i].visits
    {
      if i in p {
        var k :| 0 <= k < |p| && p[k] == i;
      }
    }
    if n.Some? {
      assert p[0] == n.value;
    }
  }
}
