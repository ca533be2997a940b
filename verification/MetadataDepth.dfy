/** The bounded worklist walk that measures how deep a metadata value nests, on arbitrary value graphs. */
module MetadataDepth {
  import opened Prelude

  type NodeId = nat

  /** An object or array by its children in `Object.values` order; anything else is a leaf. */
  datatype Node = Leaf | Branch(children: seq<NodeId>)

  type Graph = map<NodeId, Node>

  /** Every child is a node of the graph. Cycles and sharing are allowed. */
  ghost predicate Closed(g: Graph) {
    forall n :: n in g && g[n].Branch? ==> forall i :: 0 <= i < |g[n].children| ==> g[n].children[i] in g
  }

  /** The finite unfolding of a node, if it has one. */
  datatype Tree = LeafTree | BranchTree(children: seq<Tree>)

  ghost predicate Unfolds(g: Graph, n: NodeId, t: Tree)
    decreases t
  {
    n in g &&
    match g[n]
    case Leaf => t == LeafTree
    case Branch(cs) =>
      t.BranchTree? && |t.children| == |cs| && forall i :: 0 <= i < |cs| ==> Unfolds(g, cs[i], t.children[i])
  }

  ghost predicate Finite(g: Graph, n: NodeId) {
    exists t :: Unfolds(g, n, t)
  }

  function Size(t: Tree): nat
    decreases t, 0
  {
    if t.LeafTree? then 1 else 1 + TotalSize(t.children)
  }

  function TotalSize(ts: seq<Tree>): nat
    decreases ts, 0
  {
    if ts == [] then 0 else TotalSize(ts[..|ts| - 1]) + Size(ts[|ts| - 1])
  }

  /** Nodes on the longest path, a leaf counting as one. */
  function Height(t: Tree): nat
    decreases t, 0
  {
    if t.LeafTree? then 1 else 1 + MaxHeight(t.children)
  }

  function MaxHeight(ts: seq<Tree>): nat
    decreases ts, 0
  {
    if ts == [] then 0 else Max(MaxHeight(ts[..|ts| - 1]), Height(ts[|ts| - 1]))
  }

  // ----- unfoldings

  lemma {:induction false} UnfoldingUnique(g: Graph, n: NodeId, t: Tree, u: Tree)
    requires Unfolds(g, n, t) && Unfolds(g, n, u)
    ensures t == u
    decreases t
  {
    if g[n].Branch? {
      forall i | 0 <= i < |t.children|
        ensures t.children[i] == u.children[i]
      {
        UnfoldingUnique(g, g[n].children[i], t.children[i], u.children[i]);
      }
    }
  }

  lemma {:induction false} UnfoldAll(g: Graph, ns: seq<NodeId>) returns (ts: seq<Tree>)
    requires forall i :: 0 <= i < |ns| ==> Finite(g, ns[i])
    ensures |ts| == |ns| && forall i :: 0 <= i < |ns| ==> Unfolds(g, ns[i], ts[i])
    decreases |ns|
  {
    if ns == [] {
      ts := [];
    } else {
      var rest := UnfoldAll(g, ns[1..]);
      var t :| Unfolds(g, ns[0], t);
      ts := [t] + rest;
    }
  }

  /** A branch whose children all unfold, unfolds. */
  lemma FiniteChildrenFiniteNode(g: Graph, n: NodeId)
    requires n in g && g[n].Branch? && forall i :: 0 <= i < |g[n].children| ==> Finite(g, g[n].children[i])
    ensures Finite(g, n)
  {
    var ts := UnfoldAll(g, g[n].children);
    assert Unfolds(g, n, BranchTree(ts));
  }

  // ----- accounting for the worklist

  /** How deep the subtrees still on the stack reach, given their depths. */
  ghost function Reach(depths: seq<nat>, ts: seq<Tree>): nat
    requires |depths| == |ts| && forall i :: 0 <= i < |depths| ==> depths[i] >= 1
  {
    if ts == [] then 0
    else Max(Reach(depths[..|ts| - 1], ts[..|ts| - 1]), depths[|ts| - 1] - 1 + Height(ts[|ts| - 1]))
  }

  lemma {:induction false} TotalSizeConcat(a: seq<Tree>, b: seq<Tree>)
    ensures TotalSize(a + b) == TotalSize(a) + TotalSize(b)
    decreases |b|
  {
    if b == [] {
      assert a + b == a;
    } else {
      assert (a + b)[..|a + b| - 1] == a + b[..|b| - 1];
      TotalSizeConcat(a, b[..|b| - 1]);
    }
  }

  lemma {:induction false} ReachOfPushed(depths: seq<nat>, ts: seq<Tree>, d: nat, cs: seq<Tree>)
    requires |depths| == |ts| && forall i :: 0 <= i < |depths| ==> depths[i] >= 1
    ensures Reach(depths + seq(|cs|, i => d + 1), ts + cs)
         == Max(Reach(depths, ts), if cs == [] then 0 else d + MaxHeight(cs))
    decreases |cs|
  {
    if cs == [] {
      assert depths + seq(|cs|, i => d + 1) == depths && ts + cs == ts;
    } else {
      var front := cs[..|cs| - 1];
      ReachOfPushed(depths, ts, d, front);
      var allDepths, all := depths + seq(|cs|, i => d + 1), ts + cs;
      assert allDepths[..|all| - 1] == depths + seq(|front|, i => d + 1);
      assert all[..|all| - 1] == ts + front;
    }
  }

  // ----- the walk

  const VISIT_LIMIT: nat := 5001

  datatype Depth = FiniteDepth(depth: nat) | Infinite

  datatype Entry = Entry(node: NodeId, depth: nat)

  ghost function DepthsOf(stack: seq<Entry>): seq<nat> {
    seq(|stack|, i requires 0 <= i < |stack| => stack[i].depth)
  }

  /** The stack holds the roots of `ts`, and the walk's account of the whole tree is complete. */
  ghost predicate Accounted(g: Graph, whole: Tree, stack: seq<Entry>, ts: seq<Tree>, max: nat, visited: nat) {
    && |ts| == |stack|
    && (forall i :: 0 <= i < |stack| ==> stack[i].depth >= 1 && Unfolds(g, stack[i].node, ts[i]))
    && visited + TotalSize(ts) == Size(whole)
    && Max(max, Reach(DepthsOf(stack), ts)) == Height(whole)
  }

  function Pushed(front: seq<Entry>, cs: seq<NodeId>, d: nat): seq<Entry> {
    front + seq(|cs|, i requires 0 <= i < |cs| => Entry(cs[i], d + 1))
  }

  ghost function ChildTrees(t: Tree): seq<Tree> {
    if t.LeafTree? then [] else t.children
  }

  function ChildrenOf(n: Node): seq<NodeId> {
    if n.Leaf? then [] else n.children
  }

  lemma PopKeepsUnfolding(g: Graph, stack: seq<Entry>, ts: seq<Tree>)
    requires |ts| == |stack| > 0
    requires forall i :: 0 <= i < |stack| ==> stack[i].depth >= 1 && Unfolds(g, stack[i].node, ts[i])
    ensures var k := |stack| - 1;
      && stack[k].node in g && |ChildrenOf(g[stack[k].node])| == |ChildTrees(ts[k])|
      && var next, us := Pushed(stack[..k], ChildrenOf(g[stack[k].node]), stack[k].depth), ts[..k] + ChildTrees(ts[k]);
         |us| == |next| && forall i :: 0 <= i < |next| ==> next[i].depth >= 1 && Unfolds(g, next[i].node, us[i])
  {
    var k := |stack| - 1;
    assert Unfolds(g, stack[k].node, ts[k]);
  }

  lemma PopKeepsReach(stack: seq<Entry>, ts: seq<Tree>, cs: seq<NodeId>)
    requires |ts| == |stack| > 0 && |cs| == |ChildTrees(ts[|ts| - 1])|
    requires forall i :: 0 <= i < |stack| ==> stack[i].depth >= 1
    ensures var k := |stack| - 1; var d := stack[k].depth;
      Max(d, Reach(DepthsOf(Pushed(stack[..k], cs, d)), ts[..k] + ChildTrees(ts[k])))
      == Max(d, Reach(DepthsOf(stack), ts))
  {
    var k := |stack| - 1;
    var d, t, us := stack[k].depth, ts[k], ChildTrees(ts[k]);
    assert DepthsOf(stack)[..k] == DepthsOf(stack[..k]);
    assert DepthsOf(Pushed(stack[..k], cs, d)) == DepthsOf(stack[..k]) + seq(|us|, i => d + 1);
    ReachOfPushed(DepthsOf(stack[..k]), ts[..k], d, us);
    assert Height(t) == 1 + MaxHeight(us);
  }

  lemma TopReached(stack: seq<Entry>, ts: seq<Tree>)
    requires |ts| == |stack| > 0
    requires forall i :: 0 <= i < |stack| ==> stack[i].depth >= 1
    ensures stack[|stack| - 1].depth <= Reach(DepthsOf(stack), ts)
  {
  }

  lemma PopKeepsAccount(g: Graph, whole: Tree, stack: seq<Entry>, ts: seq<Tree>, max: nat, visited: nat)
    requires Accounted(g, whole, stack, ts, max, visited) && stack != []
    ensures var k := |stack| - 1;
      stack[k].node in g &&
      Accounted(g, whole, Pushed(stack[..k], ChildrenOf(g[stack[k].node]), stack[k].depth),
                ts[..k] + ChildTrees(ts[k]), Max(max, stack[k].depth), visited + 1)
  {
    var k := |stack| - 1;
    PopKeepsUnfolding(g, stack, ts);
    PopKeepsReach(stack, ts, ChildrenOf(g[stack[k].node]));
    TopReached(stack, ts);
    TotalSizeConcat(ts[..k], ChildTrees(ts[k]));
    assert Size(ts[k]) == 1 + TotalSize(ChildTrees(ts[k]));
  }

  /** Some entry of the stack has no finite unfolding. */
  ghost predicate Unbounded(g: Graph, stack: seq<Entry>) {
    exists i :: 0 <= i < |stack| && !Finite(g, stack[i].node)
  }

  lemma PopKeepsUnbounded(g: Graph, stack: seq<Entry>)
    requires Closed(g) && stack != [] && stack[|stack| - 1].node in g && Unbounded(g, stack)
    ensures var k := |stack| - 1; Unbounded(g, Pushed(stack[..k], ChildrenOf(g[stack[k].node]), stack[k].depth))
  {
    var k := |stack| - 1;
    var cs := ChildrenOf(g[stack[k].node]);
    var next := Pushed(stack[..k], cs, stack[k].depth);
    var i :| 0 <= i < |stack| && !Finite(g, stack[i].node);
    if i < k {
      assert next[i] == stack[i];
    } else {
      if g[stack[k].node].Leaf? {
        assert Unfolds(g, stack[k].node, LeafTree);
      }
      assert g[stack[k].node].Branch?;
      if forall j :: 0 <= j < |cs| ==> Finite(g, cs[j]) {
        FiniteChildrenFiniteNode(g, stack[k].node);
      }
      var j :| 0 <= j < |cs| && !Finite(g, cs[j]);
      assert next[k + j].node == cs[j];
    }
  }

  /** What holds whenever the walk looks at its stack. */
  ghost predicate Walk(g: Graph, root: NodeId, stack: seq<Entry>, max: nat, visited: nat) {
    && (forall i :: 0 <= i < |stack| ==> stack[i].node in g)
    && if Finite(g, root) then
         exists whole, ts :: Unfolds(g, root, whole) && Accounted(g, whole, stack, ts, max, visited)
       else Unbounded(g, stack)
  }

  /**
   * Terminates on every graph. A leaf measures 0. A branch measures its height when it has
   * a finite unfolding of at most 5001 nodes, and is infinite in every other case.
   */
  method MeasureDepth(g: Graph, root: NodeId) returns (r: Depth)
    requires Closed(g) && root in g
    ensures g[root].Leaf? ==> r == FiniteDepth(0)
    ensures g[root].Branch? ==> (r.FiniteDepth? <==> exists t :: Unfolds(g, root, t) && Size(t) <= VISIT_LIMIT)
    ensures g[root].Branch? && r.FiniteDepth? ==> exists t :: Unfolds(g, root, t) && Height(t) == r.depth
  {
    if g[root].Leaf? {
      return FiniteDepth(0);
    }
    var stack := [Entry(root, 1)];
    var max, visited := 0, 0;
    WalkBegins(g, root);
    while stack != []
      invariant visited <= VISIT_LIMIT
      invariant Walk(g, root, stack, max, visited)
      decreases VISIT_LIMIT + 1 - visited
    {
      if visited > 5000 {
        TooManyNodes(g, root, stack, max, visited);
        return Infinite;
      }
      WalkAdvances(g, root, stack, max, visited);
      visited := visited + 1;
      var top := stack[|stack| - 1];
      if top.depth > max {
        max := top.depth;
      }
      stack := Pushed(stack[..|stack| - 1], ChildrenOf(g[top.node]), top.depth);
    }
    WalkEnds(g, root, max, visited);
    return FiniteDepth(max);
  }

  lemma StartAccounted(g: Graph, root: NodeId, whole: Tree)
    requires Unfolds(g, root, whole)
    ensures Accounted(g, whole, [Entry(root, 1)], [whole], 0, 0)
  {
    assert TotalSize([whole]) == TotalSize([]) + Size(whole);
    var depths := DepthsOf([Entry(root, 1)]);
    assert Reach(depths, [whole]) == Max(Reach(depths[..0], [whole][..0]), Height(whole));
  }

  lemma WalkBegins(g: Graph, root: NodeId)
    requires root in g
    ensures Walk(g, root, [Entry(root, 1)], 0, 0)
  {
    if Finite(g, root) {
      var whole :| Unfolds(g, root, whole);
      StartAccounted(g, root, whole);
    } else {
      assert !Finite(g, [Entry(root, 1)][0].node);
    }
  }

  lemma WalkAdvances(g: Graph, root: NodeId, stack: seq<Entry>, max: nat, visited: nat)
    requires Closed(g) && Walk(g, root, stack, max, visited) && stack != []
    ensures var top := stack[|stack| - 1];
      Walk(g, root, Pushed(stack[..|stack| - 1], ChildrenOf(g[top.node]), top.depth), Max(max, top.depth), visited + 1)
  {
    if Finite(g, root) {
      var whole, ts :| Unfolds(g, root, whole) && Accounted(g, whole, stack, ts, max, visited);
      PopKeepsAccount(g, whole, stack, ts, max, visited);
    } else {
      PopKeepsUnbounded(g, stack);
    }
  }

  lemma WalkEnds(g: Graph, root: NodeId, max: nat, visited: nat)
    requires Walk(g, root, [], max, visited)
    ensures exists t :: Unfolds(g, root, t) && Size(t) == visited && Height(t) == max
  {
    assert Finite(g, root);
    var whole, ts :| Unfolds(g, root, whole) && Accounted(g, whole, [], ts, max, visited);
    assert Size(whole) == visited && Height(whole) == max;
  }

  /** Nodes still on the stack after the last permitted visit make every unfolding too large. */
  lemma TooManyNodes(g: Graph, root: NodeId, stack: seq<Entry>, max: nat, visited: nat)
    requires Walk(g, root, stack, max, visited) && stack != [] && visited >= VISIT_LIMIT
    ensures !exists t :: Unfolds(g, root, t) && Size(t) <= VISIT_LIMIT
  {
    if Finite(g, root) {
      var whole, ts :| Unfolds(g, root, whole) && Accounted(g, whole, stack, ts, max, visited);
      NonEmptySize(ts);
      forall t | Unfolds(g, root, t)
        ensures Size(t) > VISIT_LIMIT
      {
        UnfoldingUnique(g, root, t, whole);
      }
    }
  }

  lemma NonEmptySize(ts: seq<Tree>)
    requires ts != []
    ensures TotalSize(ts) >= 1
  {
  }
}
