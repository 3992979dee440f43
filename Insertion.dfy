/** Insertion of a new pair: `insert_imp(kvp, p)` hangs a red node where
    `find` stopped and `insert_fix` restores the red-black rules on the way
    back up, recolouring below a red uncle and rotating below a black one. */
module Insertion {
  import opened RedBlack
  import opened Paths
  import opened Search
  import opened Cursor
  import opened Navigate

  /** `insert_imp(kvp, p)`: after `find` missed `key` and left its descent
      on `p`, builds the tree with the pair added: a black root on an empty
      tree, otherwise a red leaf passed to `insert_fix`. The result is a
      valid red-black tree whose pairs are those of `root` with `(key,
      value)` in its ordered place. */
  method InsertAtPath<V>(root: Tree<V>, key: int, value: V, p: Path<V>) returns (r: Tree<V>)
    modifies p
    requires IsRB(root) && Sorted(InOrder(root))
    requires p.nodes == SearchPath(root, key) && !Hit(p.nodes, key)
    ensures p.nodes == []
    ensures IsRB(r)
    ensures InOrder(r) == CtxL(Hole(old(p.nodes), Node(Red, key, value, Leaf, Leaf))) + [(key, value)] +
                         CtxR(Hole(old(p.nodes), Node(Red, key, value, Leaf, Leaf)))
    ensures InOrder(root) == CtxL(Hole(old(p.nodes), Node(Red, key, value, Leaf, Leaf))) +
                            CtxR(Hole(old(p.nodes), Node(Red, key, value, Leaf, Leaf)))
    ensures Sorted(InOrder(r))
  {
    if root.Leaf? {
      r := Node(Black, key, value, Leaf, Leaf);
      return;
    }
    var n := Node(Red, key, value, Leaf, Leaf);
    ghost var G := Hole(p.nodes, n);
    SearchMissPlug(root, key, value);
    PlugRBInv(G, Leaf);
    PlugInOrder(G, n);
    assert InOrder(n) == [(key, value)];
    r := InsertFix(p, n);
  }

  /** `insert_fix`: `n` is a red red-black subtree whose black depth fits
      the path's context and whose only possible fault is a red parent. The
      result is a valid red-black tree holding the pairs of the tree the
      path and `n` describe, in the same order. */
  method InsertFix<V>(p: Path<V>, n: Tree<V>) returns (r: Tree<V>)
    modifies p
    requires AllNodes(p.nodes) && n.Node? && n.color == Red && RBT(n)
    requires ContextOK(Hole(p.nodes, n), BH(n))
    requires Sorted(InOrder(PlugF(Hole(p.nodes, n), n)))
    ensures p.nodes == []
    ensures IsRB(r)
    ensures InOrder(r) == InOrder(PlugF(Hole(old(p.nodes), n), n))
    decreases |p.nodes|
  {
    ghost var P := p.nodes;
    ghost var G := Hole(P, n);
    if p.Empty() {
      r := WithColor(n, Black);
      return;
    }
    var parent := p.GetNode();
    if parent.color == Black {
      assert Last(G) == FrameOf(parent, KeySide(P, n));
      r := ClonePath(p, n);
      PlugRB(G, n);
      return;
    }
    LocalFacts(P, n);
    var grandParent := p.GetParent();
    var parentSide := if grandParent.key > parent.key then Left else Right;
    var nodeSide := if parent.key > n.key then Left else Right;
    var uncle := Child(grandParent, Other(parentSide));
    if IsRed(uncle) {
      var newParent := WithChild(WithColor(parent, Black), nodeSide, n);
      var newUncle := WithColor(uncle, Black);
      var newGrandParent := WithChild(WithChild(WithColor(grandParent, Red), parentSide, newParent), Other(parentSide), newUncle);
      p.Pop();
      p.Pop();
      assert AllNodes(p.nodes) && RBT(newGrandParent) && newGrandParent.color == Red &&
             ContextOK(Hole(p.nodes, newGrandParent), BH(newGrandParent)) &&
             InOrder(PlugF(Hole(p.nodes, newGrandParent), newGrandParent)) == InOrder(PlugF(G, n)) &&
             Sorted(InOrder(PlugF(Hole(p.nodes, newGrandParent), newGrandParent))) by {
        RedUncle(grandParent, parent, n, parentSide, nodeSide);
        Recoloured(P, n, newGrandParent);
      }
      r := InsertFix(p, newGrandParent);
    } else {
      r := InsertRotate(p, n);
    }
  }

  /** The black-uncle half of `insert_fix`: one rotation when `n` hangs on
      the same side of its parent as the parent of the grandparent, two
      otherwise. The new root of the local subtree is black and the rest of
      the path is cloned above it. */
  method InsertRotate<V>(p: Path<V>, n: Tree<V>) returns (r: Tree<V>)
    modifies p
    requires AllNodes(p.nodes) && n.Node? && n.color == Red && RBT(n)
    requires ContextOK(Hole(p.nodes, n), BH(n))
    requires Sorted(InOrder(PlugF(Hole(p.nodes, n), n)))
    requires |p.nodes| >= 2 && Last(p.nodes).color == Red
    requires var gp := p.nodes[|p.nodes| - 2];
      !IsRed(Child(gp, Other(Dir(gp.key, Last(p.nodes).key))))
    ensures p.nodes == []
    ensures IsRB(r)
    ensures InOrder(r) == InOrder(PlugF(Hole(old(p.nodes), n), n))
  {
    ghost var P := p.nodes;
    ghost var G := Hole(P, n);
    LocalFacts(P, n);
    var parent := p.GetNode();
    var grandParent := p.GetParent();
    var parentSide := if grandParent.key > parent.key then Left else Right;
    var nodeSide := if parent.key > n.key then Left else Right;
    if parentSide != nodeSide {
      var newParent := WithChild(parent, nodeSide, Child(n, parentSide));
      var newGrandParent := WithColor(WithChild(grandParent, parentSide, Child(n, nodeSide)), Red);
      var newNode := WithColor(WithChild(WithChild(n, parentSide, newParent), nodeSide, newGrandParent), Black);
      p.Pop();
      p.Pop();
      assert AllNodes(p.nodes) && Hole(p.nodes, newNode) == Up(Init(P)) &&
             IsRB(PlugF(Up(Init(P)), newNode)) && InOrder(PlugF(Up(Init(P)), newNode)) == InOrder(PlugF(G, n)) by {
        ZigZag(grandParent, parent, n, parentSide);
        Rotated(P, n, newNode);
      }
      r := ClonePath(p, newNode);
    } else {
      var newGrandParent := WithColor(WithChild(grandParent, parentSide, Child(parent, Other(parentSide))), Red);
      var newParent := WithColor(WithChild(WithChild(parent, Other(parentSide), newGrandParent), parentSide, n), Black);
      p.Pop();
      p.Pop();
      assert AllNodes(p.nodes) && Hole(p.nodes, newParent) == Up(Init(P)) &&
             IsRB(PlugF(Up(Init(P)), newParent)) && InOrder(PlugF(Up(Init(P)), newParent)) == InOrder(PlugF(G, n)) by {
        Straight(grandParent, parent, n, parentSide);
        Rotated(P, n, newParent);
      }
      r := ClonePath(p, newParent);
    }
  }

  /** Below a red parent, the subtree rooted at the grandparent with `n` in
      place. */
  ghost function Local<V>(P: seq<Tree<V>>, n: Tree<V>): Tree<V>
    requires AllNodes(P) && |P| >= 2 && n.Node?
  {
    var parent, gp := P[|P| - 1], P[|P| - 2];
    WithChild(gp, Dir(gp.key, parent.key), WithChild(parent, Dir(parent.key, n.key), n))
  }

  /** What `insert_fix` may rely on below a red parent: the grandparent
      exists and is black, the parent's other child and the uncle are
      red-black and as deep as `n`, the parent's other child is not red,
      and the frames above the grandparent are sound for one more level. */
  lemma {:induction false} LocalFacts<V>(P: seq<Tree<V>>, n: Tree<V>)
    requires AllNodes(P) && |P| > 0 && n.Node? && n.color == Red && RBT(n)
    requires ContextOK(Hole(P, n), BH(n)) && Last(P).color == Red
    ensures |P| >= 2 && AllNodes(Init(P)) && AllNodes(Init(Init(P)))
    ensures var parent, gp := P[|P| - 1], P[|P| - 2];
      var ps, ns := Dir(gp.key, parent.key), Dir(parent.key, n.key);
      gp.color == Black &&
      RBT(Child(parent, Other(ns))) && BH(Child(parent, Other(ns))) == BH(n) && !IsRed(Child(parent, Other(ns))) &&
      RBT(Child(gp, Other(ps))) && BH(Child(gp, Other(ps))) == BH(n) &&
      ContextOK(Up(Init(P)), BH(n) + 1) &&
      PlugF(Hole(P, n), n) == PlugF(Up(Init(P)), Local(P, n))
  {
    var G := Hole(P, n);
    var parent := Last(P);
    assert Last(G) == FrameOf(parent, KeySide(P, n));
    assert |P| >= 2;
    var gp := P[|P| - 2];
    PlugUp(P, KeySide(P, n), n);
    PlugUp(Init(P), UpSide(P), WithChild(parent, KeySide(P, n), n));
    assert Init(G) == Frames(Init(P), UpSide(P));
    assert Last(Init(G)) == FrameOf(gp, UpSide(P));
    assert Init(Init(G)) == Up(Init(P));
  }

  /** After recolouring below a red uncle, the grandparent (same key) is
      passed up in the frames above it. */
  lemma {:induction false} Recoloured<V>(P: seq<Tree<V>>, n: Tree<V>, R: Tree<V>)
    requires AllNodes(P) && |P| >= 2 && n.Node? && R.Node? && R.key == P[|P| - 2].key
    requires Sorted(InOrder(PlugF(Up(Init(P)), Local(P, n))))
    requires InOrder(R) == InOrder(Local(P, n))
    ensures AllNodes(Init(Init(P))) && Hole(Init(Init(P)), R) == Up(Init(P))
    ensures InOrder(PlugF(Up(Init(P)), R)) == InOrder(PlugF(Up(Init(P)), Local(P, n)))
  {
    SameKeySameFrames(Init(P), R);
    SameInOrderInHole(Up(Init(P)), Local(P, n), R);
  }

  /** After a rotation, the new black root of the local subtree goes into
      the same hole, and the tree is valid. */
  lemma {:induction false} Rotated<V>(P: seq<Tree<V>>, n: Tree<V>, R: Tree<V>)
    requires AllNodes(P) && |P| >= 2 && n.Node? && R.Node?
    requires Sorted(InOrder(PlugF(Up(Init(P)), Local(P, n))))
    requires ContextOK(Up(Init(P)), BH(n) + 1)
    requires RBT(R) && R.color == Black && BH(R) == BH(n) + 1 && InOrder(R) == InOrder(Local(P, n))
    ensures AllNodes(Init(Init(P))) && Hole(Init(Init(P)), R) == Up(Init(P))
    ensures IsRB(PlugF(Up(Init(P)), R))
    ensures InOrder(PlugF(Up(Init(P)), R)) == InOrder(PlugF(Up(Init(P)), Local(P, n)))
  {
    var T0 := Local(P, n);
    var Q := Init(Init(P));
    SameKeySameFrames(Init(P), T0);
    assert InOrder(T0)[|InOrder(R.left)|] == (R.key, R.value);
    KeySideStable(Q, T0, R, |InOrder(R.left)|);
    PlugRB(Up(Init(P)), R);
    SameInOrderInHole(Up(Init(P)), T0, R);
  }

  // ----- the three local repairs of `insert_fix` -----

  /** Red uncle: parent and uncle turn black and the grandparent red; the
      subtree keeps its pairs and one black level more than `n`, and the
      only possible fault moves up to the grandparent. */
  lemma {:induction false} RedUncle<V>(gp: Tree<V>, parent: Tree<V>, n: Tree<V>, ps: Side, ns: Side)
    requires gp.Node? && parent.Node? && n.Node? && gp.color == Black && n.color == Red && RBT(n)
    requires RBT(Child(parent, Other(ns))) && BH(Child(parent, Other(ns))) == BH(n) && !IsRed(Child(parent, Other(ns)))
    requires RBT(Child(gp, Other(ps))) && BH(Child(gp, Other(ps))) == BH(n) && IsRed(Child(gp, Other(ps)))
    ensures var newParent := WithChild(WithColor(parent, Black), ns, n);
      var newUncle := WithColor(Child(gp, Other(ps)), Black);
      var R := WithChild(WithChild(WithColor(gp, Red), ps, newParent), Other(ps), newUncle);
      RBT(R) && R.Node? && R.color == Red && R.key == gp.key && BH(R) == BH(n) + 1 &&
      InOrder(R) == InOrder(WithChild(gp, ps, WithChild(parent, ns, n)))
  {
    var u := Child(gp, Other(ps));
    var s := Child(parent, Other(ns));
    var newParent := WithChild(WithColor(parent, Black), ns, n);
    var newUncle := WithColor(u, Black);
    assert RBT(u.left) && RBT(u.right) && BH(u.left) == BH(u.right) && !IsRed(u.left) && !IsRed(u.right);
    assert RBT(newUncle) && BH(newUncle) == BH(n) + 1 && InOrder(newUncle) == InOrder(u);
    if ns == Left {
      assert newParent == Node(Black, parent.key, parent.value, n, s);
    } else {
      assert newParent == Node(Black, parent.key, parent.value, s, n);
    }
    assert RBT(newParent) && BH(newParent) == BH(n) + 1;
    assert InOrder(newParent) == InOrder(WithChild(parent, ns, n));
    if ps == Left {
      assert WithChild(WithChild(WithColor(gp, Red), ps, newParent), Other(ps), newUncle) ==
        Node(Red, gp.key, gp.value, newParent, newUncle);
    } else {
      assert WithChild(WithChild(WithColor(gp, Red), ps, newParent), Other(ps), newUncle) ==
        Node(Red, gp.key, gp.value, newUncle, newParent);
    }
  }

  /** Black uncle, `n` on the inner side: `n` is rotated up twice and
      becomes the black root of the subtree, with the parent and the
      reddened grandparent as its children. */
  lemma {:induction false} ZigZag<V>(gp: Tree<V>, parent: Tree<V>, n: Tree<V>, ps: Side)
    requires gp.Node? && parent.Node? && n.Node? && gp.color == Black && parent.color == Red
    requires n.color == Red && RBT(n)
    requires RBT(Child(parent, ps)) && BH(Child(parent, ps)) == BH(n) && !IsRed(Child(parent, ps))
    requires RBT(Child(gp, Other(ps))) && BH(Child(gp, Other(ps))) == BH(n) && !IsRed(Child(gp, Other(ps)))
    ensures var ns := Other(ps);
      var newParent := WithChild(parent, ns, Child(n, ps));
      var newGrandParent := WithColor(WithChild(gp, ps, Child(n, ns)), Red);
      var R := WithColor(WithChild(WithChild(n, ps, newParent), ns, newGrandParent), Black);
      RBT(R) && R.Node? && R.color == Black && BH(R) == BH(n) + 1 &&
      InOrder(R) == InOrder(WithChild(gp, ps, WithChild(parent, ns, n)))
  {
    var u := Child(gp, Other(ps));
    var a := Child(parent, ps);
    if ps == Left {
      var R := Node(Black, n.key, n.value, Node(Red, parent.key, parent.value, a, n.left), Node(Red, gp.key, gp.value, n.right, u));
      assert WithColor(WithChild(WithChild(n, Left, WithChild(parent, Right, n.left)), Right,
        WithColor(WithChild(gp, Left, n.right), Red)), Black) == R;
      assert WithChild(gp, Left, WithChild(parent, Right, n)) ==
        Node(Black, gp.key, gp.value, Node(Red, parent.key, parent.value, a, n), u);
      ZigZagLeft(gp.key, gp.value, parent.key, parent.value, a, n, u);
    } else {
      var R := Node(Black, n.key, n.value, Node(Red, gp.key, gp.value, u, n.left), Node(Red, parent.key, parent.value, n.right, a));
      assert WithColor(WithChild(WithChild(n, Right, WithChild(parent, Left, n.right)), Left,
        WithColor(WithChild(gp, Right, n.left), Red)), Black) == R;
      assert WithChild(gp, Right, WithChild(parent, Left, n)) ==
        Node(Black, gp.key, gp.value, u, Node(Red, parent.key, parent.value, n, a));
      ZigZagRight(gp.key, gp.value, parent.key, parent.value, a, n, u);
    }
  }

  /** The double rotation on concrete shapes: grandparent `(gk, gv)` with
      uncle `u`, red parent `(pk, pv)` with outer child `a`, red `n` on the
      inner side. */
  lemma {:induction false} ZigZagLeft<V>(gk: int, gv: V, pk: int, pv: V, a: Tree<V>, n: Tree<V>, u: Tree<V>)
    requires n.Node? && n.color == Red && RBT(n)
    requires RBT(a) && BH(a) == BH(n) && !IsRed(a) && RBT(u) && BH(u) == BH(n) && !IsRed(u)
    ensures var R := Node(Black, n.key, n.value, Node(Red, pk, pv, a, n.left), Node(Red, gk, gv, n.right, u));
      RBT(R) && BH(R) == BH(n) + 1 &&
      InOrder(R) == InOrder(Node(Black, gk, gv, Node(Red, pk, pv, a, n), u))
  {
    assert RBT(n.left) && RBT(n.right) && BH(n.left) == BH(n.right) && BH(n) == BH(n.left);
    var A, P, NL, N, NR, G, U := InOrder(a), [(pk, pv)], InOrder(n.left), [(n.key, n.value)], InOrder(n.right),
      [(gk, gv)], InOrder(u);
    assert InOrder(n) == NL + N + NR;
    assert InOrder(Node(Black, gk, gv, Node(Red, pk, pv, a, n), u)) == (A + P + (NL + N + NR)) + G + U;
    assert InOrder(Node(Black, n.key, n.value, Node(Red, pk, pv, a, n.left), Node(Red, gk, gv, n.right, u))) ==
      (A + P + NL) + N + (NR + G + U);
  }

  lemma {:induction false} ZigZagRight<V>(gk: int, gv: V, pk: int, pv: V, a: Tree<V>, n: Tree<V>, u: Tree<V>)
    requires n.Node? && n.color == Red && RBT(n)
    requires RBT(a) && BH(a) == BH(n) && !IsRed(a) && RBT(u) && BH(u) == BH(n) && !IsRed(u)
    ensures var R := Node(Black, n.key, n.value, Node(Red, gk, gv, u, n.left), Node(Red, pk, pv, n.right, a));
      RBT(R) && BH(R) == BH(n) + 1 &&
      InOrder(R) == InOrder(Node(Black, gk, gv, u, Node(Red, pk, pv, n, a)))
  {
    assert RBT(n.left) && RBT(n.right) && BH(n.left) == BH(n.right) && BH(n) == BH(n.left);
    var A, P, NL, N, NR, G, U := InOrder(a), [(pk, pv)], InOrder(n.left), [(n.key, n.value)], InOrder(n.right),
      [(gk, gv)], InOrder(u);
    assert InOrder(n) == NL + N + NR;
    assert InOrder(Node(Black, gk, gv, u, Node(Red, pk, pv, n, a))) == U + G + ((NL + N + NR) + P + A);
    assert InOrder(Node(Black, n.key, n.value, Node(Red, gk, gv, u, n.left), Node(Red, pk, pv, n.right, a))) ==
      (U + G + NL) + N + (NR + P + A);
  }

  /** Black uncle, `n` on the outer side: the parent is rotated up and
      becomes the black root of the subtree, with `n` and the reddened
      grandparent as its children. */
  lemma {:induction false} Straight<V>(gp: Tree<V>, parent: Tree<V>, n: Tree<V>, ps: Side)
    requires gp.Node? && parent.Node? && n.Node? && gp.color == Black && parent.color == Red
    requires n.color == Red && RBT(n)
    requires RBT(Child(parent, Other(ps))) && BH(Child(parent, Other(ps))) == BH(n) && !IsRed(Child(parent, Other(ps)))
    requires RBT(Child(gp, Other(ps))) && BH(Child(gp, Other(ps))) == BH(n) && !IsRed(Child(gp, Other(ps)))
    ensures var newGrandParent := WithColor(WithChild(gp, ps, Child(parent, Other(ps))), Red);
      var R := WithColor(WithChild(WithChild(parent, Other(ps), newGrandParent), ps, n), Black);
      RBT(R) && R.Node? && R.color == Black && BH(R) == BH(n) + 1 &&
      InOrder(R) == InOrder(WithChild(gp, ps, WithChild(parent, ps, n)))
  {
    var u := Child(gp, Other(ps));
    var b := Child(parent, Other(ps));
    var G, P, NN, B, U := [(gp.key, gp.value)], [(parent.key, parent.value)], InOrder(n), InOrder(b), InOrder(u);
    if ps == Left {
      var ng := Node(Red, gp.key, gp.value, b, u);
      var R := Node(Black, parent.key, parent.value, n, ng);
      assert WithColor(WithChild(WithChild(parent, Right, WithColor(WithChild(gp, Left, b), Red)), Left, n), Black) == R;
      assert RBT(ng) && BH(ng) == BH(n);
      var T := Node(Black, gp.key, gp.value, Node(Red, parent.key, parent.value, n, b), u);
      assert WithChild(gp, Left, WithChild(parent, Left, n)) == T;
      assert InOrder(T) == (NN + P + B) + G + U;
      assert InOrder(R) == NN + P + (B + G + U);
    } else {
      var ng := Node(Red, gp.key, gp.value, u, b);
      var R := Node(Black, parent.key, parent.value, ng, n);
      assert WithColor(WithChild(WithChild(parent, Left, WithColor(WithChild(gp, Right, b), Red)), Right, n), Black) == R;
      assert RBT(ng) && BH(ng) == BH(n);
      var T := Node(Black, gp.key, gp.value, u, Node(Red, parent.key, parent.value, b, n));
      assert WithChild(gp, Right, WithChild(parent, Right, n)) == T;
      assert InOrder(T) == U + G + (B + P + NN);
      assert InOrder(R) == (U + G + B) + P + NN;
    }
  }
}
