/** Moving along a path: `find` records the descent towards a key,
    `find_predecessor` extends a path to the in-order predecessor, and the
    three `clone_path` overloads rebuild the ancestors on a path bottom-up
    around a replacement subtree, popping them as they go. */
module Navigate {
  import opened RedBlack
  import opened Paths
  import opened Search
  import opened Cursor

  /** `find` (both overloads): pushes every node of the descent from `root`
      towards `key` onto `p` and reports whether it ended on `key`. */
  method Find<V>(root: Tree<V>, p: Path<V>, key: int) returns (found: bool)
    modifies p
    ensures p.nodes == old(p.nodes) + SearchPath(root, key)
    ensures found <==> Hit(SearchPath(root, key), key)
  {
    if root.Leaf? {
      return false;
    }
    var node := root;
    while node.Node?
      invariant p.nodes + SearchPath(node, key) == old(p.nodes) + SearchPath(root, key)
      invariant Hit(SearchPath(root, key), key) <==> Hit(SearchPath(node, key), key)
      decreases node
    {
      p.Push(node);
      if node.key == key {
        return true;
      }
      var next := if node.key > key then node.left else node.right;
      assert p.nodes + SearchPath(next, key) == old(p.nodes) + SearchPath(root, key) &&
             (Hit(SearchPath(root, key), key) <==> Hit(SearchPath(next, key), key)) by {
        assert SearchPath(node, key) == [node] + SearchPath(next, key);
        HitStep(node, SearchPath(next, key), key);
      }
      node := next;
    }
    return false;
  }

  lemma {:induction false} HitStep<V>(t: Tree<V>, q: seq<Tree<V>>, key: int)
    requires t.Node? && t.key != key && AllNodes(q)
    ensures AllNodes([t] + q) && (Hit([t] + q, key) <==> Hit(q, key))
  {
    if |q| > 0 {
      assert Last([t] + q) == Last(q);
    }
  }

  /** The nodes `find_predecessor` pushes: from `t` down its right spine. */
  function RightSpine<V>(t: Tree<V>): (s: seq<Tree<V>>)
    ensures AllNodes(s) && (|s| > 0 <==> t.Node?) && (|s| > 0 ==> s[0] == t)
    ensures |s| > 0 ==> Last(s).right == Leaf
    decreases t
  {
    match t
    case Leaf => []
    case Node(_, _, _, _, r) => [t] + RightSpine(r)
  }

  /** `find_predecessor`: extends the path from the current node to the
      largest node of its left subtree. */
  method FindPredecessor<V>(p: Path<V>)
    modifies p
    requires |p.nodes| > 0 && Last(p.nodes).Node?
    ensures p.nodes == old(p.nodes) + RightSpine(Last(old(p.nodes)).left)
  {
    var node := p.GetNode().left;
    while node.Node?
      invariant p.nodes + RightSpine(node) == old(p.nodes) + RightSpine(Last(old(p.nodes)).left)
      decreases node
    {
      p.Push(node);
      assert RightSpine(node) == [node] + RightSpine(node.right);
      node := node.right;
    }
  }

  /** `clone_path(p, n)`: attaches `n` below the deepest node of `p` on the
      side its key points to, then does the same with each clone one level
      up until the path is empty; the result is the tree the path's frames
      give with `n` in their hole. */
  method ClonePath<V>(p: Path<V>, n: Tree<V>) returns (r: Tree<V>)
    modifies p
    requires AllNodes(p.nodes) && n.Node?
    ensures p.nodes == []
    ensures r == PlugF(Frames(old(p.nodes), KeySide(old(p.nodes), n)), n)
  {
    r := n;
    var parent := p.GetNode();
    while parent.Node?
      invariant AllNodes(p.nodes) && r.Node?
      invariant parent == p.GetNode()
      invariant PlugF(Frames(p.nodes, KeySide(p.nodes, r)), r) == PlugF(Frames(old(p.nodes), KeySide(old(p.nodes), n)), n)
      decreases |p.nodes|
    {
      var newParent := if parent.key > r.key then WithChild(parent, Left, r) else WithChild(parent, Right, r);
      ClonePathStep(p.nodes, r);
      r := newParent;
      p.Pop();
      parent := p.GetNode();
    }
  }

  function Min(a: int, b: int): int { if a < b then a else b }

  /** `clone_path(p, n, depth)`: the same, stopping once `depth` nodes are
      left on the path. */
  method ClonePathDepth<V>(p: Path<V>, n: Tree<V>, depth: nat) returns (r: Tree<V>)
    modifies p
    requires AllNodes(p.nodes) && n.Node?
    ensures var d := Min(depth, |old(p.nodes)|);
      p.nodes == old(p.nodes)[..d] &&
      r == PlugF(Frames(old(p.nodes)[d..], KeySide(old(p.nodes)[d..], n)), n)
  {
    ghost var P := p.nodes;
    ghost var d := Min(depth, |P|);
    ghost var goal := PlugF(Frames(P[d..], KeySide(P[d..], n)), n);
    r := n;
    while p.Size() > depth
      invariant d <= |p.nodes| <= |P| && p.nodes == P[..|p.nodes|] && r.Node?
      invariant PlugF(Frames(p.nodes[d..], KeySide(p.nodes[d..], r)), r) == goal
      decreases |p.nodes|
    {
      ghost var Q := p.nodes;
      var parent := p.GetNode();
      var newParent := if parent.key > r.key then WithChild(parent, Left, r) else WithChild(parent, Right, r);
      assert newParent == WithChild(Last(Q), Dir(Last(Q).key, r.key), r);
      ClonePathDepthStep(Q, d, r);
      r := newParent;
      p.Pop();
      assert p.nodes == Init(Q) == P[..|Q| - 1];
    }
    assert p.nodes[d..] == [];
  }

  /** One step of `clone_path(p, n, depth)` above `depth`: the same as a
      step of `clone_path`, on the part of the path below `depth`. */
  lemma {:induction false} ClonePathDepthStep<V>(Q: seq<Tree<V>>, d: nat, x: Tree<V>)
    requires AllNodes(Q) && d < |Q| && x.Node?
    ensures AllNodes(Init(Q))
    ensures var y := WithChild(Last(Q), Dir(Last(Q).key, x.key), x);
      PlugF(Frames(Q[d..], KeySide(Q[d..], x)), x) == PlugF(Frames(Init(Q)[d..], KeySide(Init(Q)[d..], y)), y)
  {
    var q := Q[d..];
    ClonePathStep(q, x);
    assert Init(q) == Init(Q)[d..] && Last(q) == Last(Q);
  }

  /** `clone_path(p, n, side, depth)`: attaches `n` on the given side of the
      deepest node (`n` may be empty), then continues upwards by keys, until
      `depth` nodes are left on the path. */
  method ClonePathSide<V>(p: Path<V>, n: Tree<V>, side: Side, depth: nat) returns (r: Tree<V>)
    modifies p
    requires depth > 0 && AllNodes(p.nodes)
    ensures var d := Min(depth, |old(p.nodes)|);
      p.nodes == old(p.nodes)[..d] && r == PlugF(Frames(old(p.nodes)[d..], side), n)
    decreases |p.nodes|
  {
    ghost var P := p.nodes;
    if p.Size() > depth {
      var parent := p.GetNode();
      var grandParent := p.GetParent();
      var newParent := WithChild(parent, side, n);
      p.Pop();
      var parentSide := if grandParent.key > parent.key then Left else Right;
      r := ClonePathSide(p, newParent, parentSide, depth);
      ClonePathSideStep(P, depth, side, n);
    } else {
      r := n;
      assert P[|P|..] == [];
    }
  }

  /** One step of `clone_path(p, n, side, depth)` above `depth`: attaching
      `x` on side `s` of the last node and continuing from its parent, on
      the side the keys point to, rebuilds the same tree. */
  lemma {:induction false} ClonePathSideStep<V>(P: seq<Tree<V>>, d: nat, s: Side, x: Tree<V>)
    requires AllNodes(P) && 0 < d < |P|
    ensures AllNodes(Init(P)) && Init(P)[..d] == P[..d]
    ensures PlugF(Frames(P[d..], s), x) ==
            PlugF(Frames(Init(P)[d..], Dir(P[|P| - 2].key, Last(P).key)), WithChild(Last(P), s, x))
  {
    var q := P[d..];
    PlugUp(q, s, x);
    assert Init(q) == Init(P)[d..];
    if |q| > 1 {
      assert UpSide(q) == Dir(P[|P| - 2].key, Last(P).key);
    } else {
      assert Frames(Init(q), UpSide(q)) == [] == Frames(Init(q), Dir(P[|P| - 2].key, Last(P).key));
    }
  }

}
