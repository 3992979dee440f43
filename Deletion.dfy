/** Removal of a pair: `erase_imp` takes the node `find` stopped on off the
    tree (replacing a node with two children by its in-order predecessor in
    `erase_intermediate_node`), and `delete_fixup` restores the black depth
    when a black node disappears, climbing the path while the deficit
    persists. */
module Deletion {
  import opened RedBlack
  import opened Paths
  import opened Search
  import opened Cursor
  import opened Navigate
  import opened Fixup

  /** `delete_fixup(p, parent, side)`: the subtree on `side` of `parent` is
      one black level short, and the path holds the ancestors of `parent`.
      The result is a valid red-black tree holding the pairs of the tree the
      path and `parent` describe, in the same order. */
  method DeleteFixup<V>(p: Path<V>, parent: Tree<V>, side: Side) returns (r: Tree<V>)
    modifies p
    requires FixupReady(p.nodes, parent, side)
    ensures p.nodes == []
    ensures IsRB(r)
    ensures InOrder(r) == InOrder(PlugF(Hole(old(p.nodes), parent), parent))
    decreases |p.nodes|
  {
    ghost var P := p.nodes;
    DeficitSibling(parent, side);
    if HasBlackSiblingWithRedChild(parent, side) {
      var newParent := DeleteFixup1(parent, side);
      DeleteFixup1Correct(parent, side);
      Repaired(P, parent, newParent);
      r := ClonePath(p, newParent);
    } else if HasBlackSiblingWithBlackChildren(parent, side) {
      var parentColor := parent.color;
      var newParent := DeleteFixup2(parent, side);
      DeleteFixup2Correct(parent, side);
      if parentColor == Black && p.Size() > 0 {
        var grandParent := p.GetNode();
        var parentSide := if grandParent.key > parent.key then Left else Right;
        var newGrandParent := WithChild(grandParent, parentSide, newParent);
        p.Pop();
        Propagated(P, parent, side, newParent);
        r := DeleteFixup(p, newGrandParent, parentSide);
      } else {
        Repaired(P, parent, newParent);
        r := ClonePath(p, newParent);
      }
    } else {
      SiblingCases(parent, side);
      var newParent := DeleteFixup3(parent, side);
      DeleteFixup3Correct(parent, side);
      Repaired(P, parent, newParent);
      r := ClonePath(p, newParent);
    }
  }

  /** What `delete_fixup` is called with: `parent` is deficient on `side`,
      the path holds its ancestors, whose frames are sound for it (one
      black level more than its sibling when it is black), and the tree the
      path and `parent` describe is ordered. */
  ghost predicate FixupReady<V>(P: seq<Tree<V>>, parent: Tree<V>, side: Side)
  {
    AllNodes(P) && Deficit(parent, side) &&
    ContextOK(Hole(P, parent), BH(Child(parent, Other(side))) + Blk(parent.color)) &&
    Allows(Hole(P, parent), parent) &&
    Sorted(InOrder(PlugF(Hole(P, parent), parent)))
  }

  /** A repaired subtree `y` with the pairs of `x` goes back into the hole
      `x` came from; when it fits the context there, the tree is valid. */
  lemma {:induction false} Repaired<V>(P: seq<Tree<V>>, x: Tree<V>, y: Tree<V>)
    requires AllNodes(P) && x.Node? && y.Node?
    requires Sorted(InOrder(PlugF(Hole(P, x), x)))
    requires RBT(y) && InOrder(y) == InOrder(x)
    requires ContextOK(Hole(P, x), BH(y)) && Allows(Hole(P, x), y)
    ensures Hole(P, y) == Hole(P, x)
    ensures IsRB(PlugF(Hole(P, x), y))
    ensures InOrder(PlugF(Hole(P, x), y)) == InOrder(PlugF(Hole(P, x), x))
  {
    assert InOrder(x)[|InOrder(y.left)|] == (y.key, y.value);
    KeySideStable(P, x, y, |InOrder(y.left)|);
    PlugRB(Hole(P, x), y);
    SameInOrderInHole(Hole(P, x), x, y);
  }

  /** Recolouring below a black parent moves the deficit one level up: the
      grandparent with the recoloured subtree in place is deficient on the
      parent's side, in a context sound for it. */
  lemma {:induction false} Propagated<V>(P: seq<Tree<V>>, parent: Tree<V>, side: Side, np: Tree<V>)
    requires AllNodes(P) && |P| > 0 && Deficit(parent, side) && parent.color == Black
    requires ContextOK(Hole(P, parent), BH(Child(parent, Other(side))) + 1)
    requires Sorted(InOrder(PlugF(Hole(P, parent), parent)))
    requires np.Node? && RBT(np) && np.color == Black && np.key == parent.key
    requires BH(np) == BH(Child(parent, Other(side))) && InOrder(np) == InOrder(parent)
    ensures AllNodes(Init(P))
    ensures var gp := Last(P);
      var ps := Dir(gp.key, parent.key);
      var ngp := WithChild(gp, ps, np);
      FixupReady(Init(P), ngp, ps) &&
      InOrder(PlugF(Hole(Init(P), ngp), ngp)) == InOrder(PlugF(Hole(P, parent), parent))
  {
    var G := Hole(P, parent);
    var gp := Last(P);
    var ps := Dir(gp.key, parent.key);
    var ngp := WithChild(gp, ps, np);
    assert KeySide(P, parent) == ps;
    assert Last(G) == FrameOf(gp, ps);
    assert Init(G) == Frames(Init(P), UpSide(P));
    SameKeySameFrames(P, ngp);
    PlugUp(P, ps, np);
    SameInOrderInHole(G, parent, np);
  }

  // ----- erase_imp -----

  /** What `erase_imp` starts from: the descent `find` left from a valid,
      ordered root to the node holding the key. */
  ghost predicate ErasePath<V>(P: seq<Tree<V>>)
  {
    IsPath(P) && |P| > 0 && IsRB(P[0]) && Sorted(InOrder(P[0]))
  }

  /** The pairs of the tree the path describes with the last node's own
      pair left out. */
  ghost function Erased<V>(P: seq<Tree<V>>): seq<Pair<V>>
    requires AllNodes(P) && |P| > 0
  {
    var z := Last(P);
    CtxL(Up(P)) + InOrder(z.left) + InOrder(z.right) + CtxR(Up(P))
  }

  /** `erase_imp(p)`: removes the node at the end of the path. A node with
      two children gives way to its predecessor; a single child (necessarily
      a red leaf) takes its place painted black; a red leaf is simply cut
      off; a black leaf leaves a deficit that `delete_fixup` repairs, unless
      it is the root. The result is a valid red-black tree whose pairs are
      the old ones without the removed pair, in the same order. */
  method EraseImp<V>(p: Path<V>) returns (r: Tree<V>)
    modifies p
    requires ErasePath(p.nodes)
    ensures IsRB(r)
    ensures InOrder(r) == Erased(old(p.nodes))
    ensures |old(p.nodes)| == 1 && old(p.nodes)[0].left.Leaf? && old(p.nodes)[0].right.Leaf? ==>
              p.nodes == old(p.nodes)
    ensures !(|old(p.nodes)| == 1 && old(p.nodes)[0].left.Leaf? && old(p.nodes)[0].right.Leaf?) ==>
              p.nodes == []
  {
    ghost var P := p.nodes;
    var n := p.GetNode();
    var hasLeftChild := n.left.Node?;
    var hasRightChild := n.right.Node?;
    if hasLeftChild && hasRightChild {
      r := EraseIntermediateNode(p);
    } else if hasLeftChild {
      var newChild := WithColor(n.left, Black);
      p.Pop();
      assert AllNodes(p.nodes) && Frames(p.nodes, KeySide(p.nodes, newChild)) == Up(P) &&
             IsRB(PlugF(Up(P), newChild)) && InOrder(PlugF(Up(P), newChild)) == Erased(P) by {
        OnlyChild(P, Left);
      }
      r := ClonePath(p, newChild);
    } else if hasRightChild {
      var newChild := WithColor(n.right, Black);
      p.Pop();
      assert AllNodes(p.nodes) && Frames(p.nodes, KeySide(p.nodes, newChild)) == Up(P) &&
             IsRB(PlugF(Up(P), newChild)) && InOrder(PlugF(Up(P), newChild)) == Erased(P) by {
        OnlyChild(P, Right);
      }
      r := ClonePath(p, newChild);
    } else {
      r := EraseLeaf(p);
    }
  }

  /** The leaf cases of `erase_imp(p)`: a red leaf is cut off its parent, a
      black root leaves the empty tree, and any other black leaf leaves its
      parent deficient on its side for `delete_fixup`. */
  method EraseLeaf<V>(p: Path<V>) returns (r: Tree<V>)
    modifies p
    requires ErasePath(p.nodes) && Last(p.nodes).left.Leaf? && Last(p.nodes).right.Leaf?
    ensures IsRB(r)
    ensures InOrder(r) == Erased(old(p.nodes))
    ensures |old(p.nodes)| == 1 ==> p.nodes == old(p.nodes)
    ensures |old(p.nodes)| > 1 ==> p.nodes == []
  {
    ghost var P := p.nodes;
    var n := p.GetNode();
    if n.color == Red {
      assert |P| >= 2;
      var parent := p.GetParent();
      var parentSide := if parent.key > n.key then Left else Right;
      var newParent := WithChild(parent, parentSide, Leaf);
      p.Pop();
      p.Pop();
      assert AllNodes(p.nodes) && Frames(p.nodes, KeySide(p.nodes, newParent)) == Up(Init(P)) &&
             IsRB(PlugF(Up(Init(P)), newParent)) && InOrder(PlugF(Up(Init(P)), newParent)) == Erased(P) by {
        assert newParent == Pruned(P);
        LeafRemoved(P);
      }
      r := ClonePath(p, newParent);
    } else if p.Size() == 1 {
      r := Leaf;
      assert Erased(P) == [];
    } else {
      var parent := p.GetParent();
      var parentSide := if parent.key > n.key then Left else Right;
      var newParent := WithChild(parent, parentSide, Leaf);
      p.Pop();
      p.Pop();
      assert FixupReady(p.nodes, newParent, parentSide) &&
             InOrder(PlugF(Hole(p.nodes, newParent), newParent)) == Erased(P) by {
        assert newParent == Pruned(P) && parentSide == UpSide(P);
        LeafRemoved(P);
      }
      r := DeleteFixup(p, newParent, parentSide);
    }
  }

  /** The tree is the frames above the path's last node plugged with it,
      and those frames are sound for it. */
  lemma {:induction false} Base<V>(P: seq<Tree<V>>)
    requires ErasePath(P)
    ensures AllNodes(Init(P)) && UpSide(P) == KeySide(Init(P), Last(P))
    ensures PlugF(Up(P), Last(P)) == P[0]
    ensures RBT(Last(P)) && ContextOK(Up(P), BH(Last(P))) && Allows(Up(P), Last(P))
    ensures InOrder(P[0]) == CtxL(Up(P)) + InOrder(Last(P)) + CtxR(Up(P))
    ensures Sorted(Erased(P))
  {
    UpSound(P);
    UpSideIsKeySide(P);
    ErasedSorted(P);
  }

  /** The frames above the last node of a valid descent rebuild the tree
      around it and are sound for it. */
  lemma {:induction false} UpSound<V>(P: seq<Tree<V>>)
    requires ErasePath(P)
    ensures AllNodes(Init(P)) && PlugF(Up(P), Last(P)) == P[0]
    ensures RBT(Last(P)) && ContextOK(Up(P), BH(Last(P))) && Allows(Up(P), Last(P))
  {
    PathPlugLast(P);
    PlugRBInv(Up(P), Last(P));
  }

  /** The pairs of the tree come as those left of the last node, its own,
      and those right of it; leaving out its own pair keeps them sorted. */
  lemma {:induction false} ErasedSorted<V>(P: seq<Tree<V>>)
    requires ErasePath(P)
    ensures AllNodes(Init(P)) && InOrder(P[0]) == CtxL(Up(P)) + InOrder(Last(P)) + CtxR(Up(P))
    ensures Sorted(Erased(P))
  {
    var z := Last(P);
    var U := Up(P);
    assert AllNodes(Init(P)) && PlugF(U, z) == P[0] by {
      PathPlugLast(P);
    }
    PlugInOrder(U, z);
    var A, B := CtxL(U), CtxR(U);
    var L, m, R := InOrder(z.left), [(z.key, z.value)], InOrder(z.right);
    RegroupedMid(A, L, m, R, B);
    SortedDrop(A + L, m, R + B);
    Regrouped(A, L, R, B);
  }

  /** Dropping a middle part keeps a sequence sorted. */
  lemma {:induction false} SortedDrop<V>(a: seq<Pair<V>>, m: seq<Pair<V>>, b: seq<Pair<V>>)
    requires Sorted(a + m + b)
    ensures Sorted(a + b)
  {
    SortedAppend(a + m, b);
    SortedAppend(a, m);
    SortedAppend(a, b);
    forall i, j | 0 <= i < |a| && 0 <= j < |b| ensures a[i].0 < b[j].0 {
      assert (a + m)[i] == a[i];
    }
  }

  /** A node with a single child: that child is a red leaf below a black
      node, so the child painted black goes into the node's hole and the
      tree stays valid without the node's pair. */
  lemma {:induction false} OnlyChild<V>(P: seq<Tree<V>>, s: Side)
    requires ErasePath(P) && Child(Last(P), s).Node? && Child(Last(P), Other(s)).Leaf?
    ensures AllNodes(Init(P))
    ensures var y := WithColor(Child(Last(P), s), Black);
      Frames(Init(P), KeySide(Init(P), y)) == Up(P) &&
      IsRB(PlugF(Up(P), y)) && InOrder(PlugF(Up(P), y)) == Erased(P)
  {
    Base(P);
    var z := Last(P);
    var c := Child(z, s);
    var y := WithColor(c, Black);
    assert BH(c) == 0;
    assert BH(y) == BH(z) == 1;
    var i := if s == Left then |InOrder(c.left)| else 1 + |InOrder(c.left)|;
    assert InOrder(z)[i] == (c.key, c.value);
    KeySideStable(Init(P), z, y, i);
    PlugRB(Up(P), y);
    PlugInOrder(Up(P), y);
    assert InOrder(y) == InOrder(z.left) + InOrder(z.right);
    Regrouped(CtxL(Up(P)), InOrder(z.left), InOrder(z.right), CtxR(Up(P)));
  }

  /** Regrouping concatenations, proved apart from any context. */
  lemma {:induction false} Regrouped<T>(a: seq<T>, b: seq<T>, c: seq<T>, d: seq<T>)
    ensures a + (b + c) + d == a + b + c + d
    ensures a + b + c + d == (a + b) + (c + d)
  {
  }

  lemma {:induction false} RegroupedMid<T>(a: seq<T>, b: seq<T>, m: seq<T>, c: seq<T>, d: seq<T>)
    ensures a + (b + m + c) + d == (a + b) + m + (c + d)
  {
  }

  /** The parent of a removed leaf with that leaf cut off. */
  ghost function Pruned<V>(P: seq<Tree<V>>): Tree<V>
    requires AllNodes(P) && |P| >= 2
  {
    WithChild(P[|P| - 2], UpSide(P), Leaf)
  }

  /** Cutting off a leaf: its parent without it goes into the parent's
      hole. A red leaf leaves a valid tree; a black one leaves the parent
      deficient on that side, in a context sound for the repair. */
  lemma {:induction false} LeafRemoved<V>(P: seq<Tree<V>>)
    requires ErasePath(P) && |P| >= 2 && Last(P).left.Leaf? && Last(P).right.Leaf?
    ensures AllNodes(Init(P)) && AllNodes(Init(Init(P)))
    ensures var np, ps := Pruned(P), UpSide(P);
      var G := Up(Init(P));
      Hole(Init(Init(P)), np) == G &&
      InOrder(PlugF(G, np)) == Erased(P) && Sorted(Erased(P)) &&
      (Last(P).color == Red ==> IsRB(PlugF(G, np))) &&
      (Last(P).color == Black ==> FixupReady(Init(Init(P)), np, ps))
  {
    LeafPlug(P);
    var F := Up(P);
    assert InOrder(PlugF(F, Leaf)) == Erased(P) && Sorted(Erased(P)) by {
      ErasedLeaf(P);
      ErasedSorted(P);
    }
    assert ContextOK(F, BH(Last(P))) && Allows(F, Last(P)) by {
      UpSound(P);
    }
    if Last(P).color == Red {
      PlugRB(F, Leaf);
    } else {
      LeafDeficit(F);
    }
  }

  /** Cutting off the last node of a path leaves its parent, without that
      child, in the parent's own hole one level up. */
  lemma {:induction false} LeafPlug<V>(P: seq<Tree<V>>)
    requires AllNodes(P) && |P| >= 2
    ensures AllNodes(Init(P)) && AllNodes(Init(Init(P))) && |Up(P)| > 0
    ensures var np := Pruned(P);
      Hole(Init(Init(P)), np) == Up(Init(P)) == Init(Up(P)) &&
      Attach(Last(Up(P)), Leaf) == np &&
      PlugF(Up(Init(P)), np) == PlugF(Up(P), Leaf)
  {
    var np, ps := Pruned(P), UpSide(P);
    AllNodesInit(Init(P));
    SameKeySameFrames(Init(P), np);
    PlugUp(Init(P), ps, Leaf);
    assert Last(Up(P)) == FrameOf(P[|P| - 2], ps);
  }

  /** With a leaf at the end of the path, the pairs left once it is gone are
      those of the tree with an empty hole in its place. */
  lemma {:induction false} ErasedLeaf<V>(P: seq<Tree<V>>)
    requires AllNodes(P) && |P| > 0 && Last(P).left.Leaf? && Last(P).right.Leaf?
    ensures InOrder(PlugF(Up(P), Leaf)) == Erased(P)
  {
    var F := Up(P);
    PlugInOrder(F, Leaf);
    assert InOrder(Last(P).left) == [] == InOrder(Last(P).right);
    assert CtxL(F) + [] + [] + CtxR(F) == CtxL(F) + [] + CtxR(F);
  }

  // ----- erase_intermediate_node -----

  /** The nodes `find_predecessor` pushes below the last node of a path:
      the right spine of its left subtree. */
  ghost function Spine<V>(P: seq<Tree<V>>): seq<Tree<V>>
    requires AllNodes(P) && |P| > 0
  {
    RightSpine(Last(P).left)
  }

  /** The in-order predecessor of the last node of a path. */
  ghost function Pred<V>(P: seq<Tree<V>>): Tree<V>
    requires AllNodes(P) && |P| > 0 && Last(P).left.Node?
  {
    Last(Spine(P))
  }

  /** The frames from the left child of the erased node down to the
      predecessor's parent; every one takes its right-hand side. */
  ghost function SpineFrames<V>(P: seq<Tree<V>>): seq<Frame<V>>
    requires AllNodes(P) && |P| > 0 && Last(P).left.Node?
  {
    SpineCtx(Last(P).left)
  }

  /** The replacement for the erased node: the predecessor's pair in the
      erased node's colour, over the rebuilt left subtree with `y` where
      the predecessor was, and the erased node's right subtree. */
  ghost function PredNode<V>(P: seq<Tree<V>>, y: Tree<V>): Tree<V>
    requires AllNodes(P) && |P| > 0 && Last(P).left.Node?
  {
    var z, q := Last(P), Pred(P);
    Node(z.color, q.key, q.value, PlugF(SpineFrames(P), y), z.right)
  }

  /** The context of the predecessor's place once the predecessor's pair
      has moved up into the erased node's place. */
  ghost function PredContext<V>(P: seq<Tree<V>>): seq<Frame<V>>
    requires AllNodes(P) && |P| > 0 && Last(P).left.Node?
  {
    var z, q := Last(P), Pred(P);
    Up(P) + [Frame(z.color, q.key, q.value, Left, z.right)] + SpineFrames(P)
  }

  /** `erase_intermediate_node(p)`: the last node of the path has two
      children. Its pair is replaced by that of its predecessor, which is
      removed from the left subtree: a red predecessor is cut off, a black
      one with a (red) left child is replaced by that child painted black,
      and a black leaf leaves a deficit that `delete_fixup` repairs after
      the ancestors of the deficient node have been found again in the
      rebuilt tree. */
  method EraseIntermediateNode<V>(p: Path<V>) returns (r: Tree<V>)
    modifies p
    requires ErasePath(p.nodes) && Last(p.nodes).left.Node? && Last(p.nodes).right.Node?
    ensures p.nodes == []
    ensures IsRB(r) && InOrder(r) == Erased(old(p.nodes))
  {
    ghost var P := p.nodes;
    var erasedNode := p.GetNode();
    var nodeColor := erasedNode.color;
    var depth := p.Size();
    FindPredecessor(p);
    ghost var S := Spine(P);
    assert |S| > 0 && AllNodes(P + Init(S)) && Last(p.nodes) == Last(S) by {
      assert Last(P + S) == Last(S);
      assert forall j :: 0 <= j < |P + Init(S)| ==> (P + Init(S))[j] == (P + S)[j];
    }
    var predecessor := p.GetNode();
    var predecessorDepth := p.Size();
    var predecessorSide := if predecessorDepth - depth > 1 then Right else Left;
    var predecessorColor := predecessor.color;
    var newNode := WithColor(predecessor, nodeColor);
    assert Init(p.nodes) == P + Init(S);
    assert AtPredecessor(P, p.nodes, erasedNode, depth, predecessorSide, newNode);
    if predecessorColor == Red {
      r := RemoveRedPredecessor(p, P, erasedNode, depth, predecessorSide, newNode);
    } else if predecessor.left.Node? {
      r := RemoveBlackPredecessorWithChild(p, P, erasedNode, depth, predecessorSide, newNode);
    } else {
      r := RemoveBlackLeafPredecessor(p, P, erasedNode, depth, predecessorSide, newNode);
    }
  }

  /** The state `erase_intermediate_node` reaches once `find_predecessor`
      has run on the path `P` to the erased node: the path now runs on down
      the right spine of the erased node's left subtree, and the new node is
      the predecessor recoloured with the erased node's colour. */
  ghost predicate AtPredecessor<V>(P: seq<Tree<V>>, nodes: seq<Tree<V>>, erasedNode: Tree<V>,
                                   depth: int, side: Side, newNode: Tree<V>)
  {
    ErasePath(P) && Last(P).left.Node? && Last(P).right.Node? &&
    |Spine(P)| > 0 && AllNodes(P + Init(Spine(P))) &&
    |nodes| > 0 && Init(nodes) == P + Init(Spine(P)) && Last(nodes) == Pred(P) &&
    erasedNode == Last(P) && depth == |P| &&
    side == (if |Spine(P)| > 1 then Right else Left) &&
    newNode == WithColor(Pred(P), Last(P).color)
  }

  lemma {:induction false} Split<T>(a: seq<T>, b: seq<T>)
    ensures (a + b)[..|a|] == a && (a + b)[|a|..] == b
  {
  }

  /** The predecessor is red: it is dropped from the spine, and the new node
      takes the erased node's place. */
  method RemoveRedPredecessor<V>(p: Path<V>, ghost P: seq<Tree<V>>, erasedNode: Tree<V>, depth: int,
                                 predecessorSide: Side, newNode: Tree<V>) returns (r: Tree<V>)
    modifies p
    requires AtPredecessor(P, p.nodes, erasedNode, depth, predecessorSide, newNode)
    requires Pred(P).color == Red
    ensures p.nodes == []
    ensures IsRB(r) && InOrder(r) == Erased(P)
  {
    ghost var S := Spine(P);
    p.Pop();
    assert p.nodes == P + Init(S) && Min(depth, |P + Init(S)|) == |P|;
    Split(P, Init(S));
    var subTree := ClonePathSide(p, Leaf, predecessorSide, depth);
    assert subTree == PlugF(Frames(Init(S), predecessorSide), Leaf) && p.nodes == P;
    assert subTree == PlugF(SpineFrames(P), Leaf) by { PredRed(P); }
    var node := WithChild(WithChild(newNode, Left, subTree), Right, erasedNode.right);
    p.Pop();
    assert node == PredNode(P, Leaf);
    assert Frames(Init(P), KeySide(Init(P), node)) == Up(P) &&
           IsRB(PlugF(Up(P), node)) && InOrder(PlugF(Up(P), node)) == Erased(P) by { PredRed(P); }
    r := ClonePath(p, node);
  }

  /** The predecessor is black with a (red) left child: the child, made
      black, takes the predecessor's place, and the new node the erased
      node's. */
  method RemoveBlackPredecessorWithChild<V>(p: Path<V>, ghost P: seq<Tree<V>>, erasedNode: Tree<V>, depth: int,
                                            predecessorSide: Side, newNode: Tree<V>) returns (r: Tree<V>)
    modifies p
    requires AtPredecessor(P, p.nodes, erasedNode, depth, predecessorSide, newNode)
    requires Pred(P).color == Black && Pred(P).left.Node?
    ensures p.nodes == []
    ensures IsRB(r) && InOrder(r) == Erased(P)
  {
    ghost var S := Spine(P);
    var newChild := WithColor(Last(p.nodes).left, Black);
    p.Pop();
    assert p.nodes == P + Init(S) && Min(depth, |P + Init(S)|) == |P|;
    Split(P, Init(S));
    var subTree := ClonePathDepth(p, newChild, depth);
    assert subTree == PlugF(Frames(Init(S), KeySide(Init(S), newChild)), newChild) && p.nodes == P;
    assert subTree == PlugF(SpineFrames(P), newChild) by { PredBlackWithChild(P); }
    var node := WithChild(WithChild(newNode, Left, subTree), Right, erasedNode.right);
    p.Pop();
    assert node == PredNode(P, newChild);
    assert Frames(Init(P), KeySide(Init(P), node)) == Up(P) &&
           IsRB(PlugF(Up(P), node)) && InOrder(PlugF(Up(P), node)) == Erased(P) by { PredBlackWithChild(P); }
    r := ClonePath(p, node);
  }

  /** The predecessor is a black leaf: removing it leaves its parent one
      black short on that side. The tree with the new node in the erased
      node's place is rebuilt, and the deficit is repaired in it. */
  method RemoveBlackLeafPredecessor<V>(p: Path<V>, ghost P: seq<Tree<V>>, erasedNode: Tree<V>, depth: int,
                                       predecessorSide: Side, newNode: Tree<V>) returns (r: Tree<V>)
    modifies p
    requires AtPredecessor(P, p.nodes, erasedNode, depth, predecessorSide, newNode)
    requires Pred(P).color == Black && Pred(P).left.Leaf?
    ensures p.nodes == []
    ensures IsRB(r) && InOrder(r) == Erased(P)
  {
    ghost var S := Spine(P);
    var predecessor := p.GetNode();
    p.Pop();
    ghost var FF := PredContext(P);
    assert |FF| > 0 && Last(FF).side == predecessorSide &&
           (if predecessorSide == Left then predecessor.key else Last(p.nodes).key) == Last(FF).key by {
      PredBlackLeaf(P);
      if |S| > 1 {
        assert Last(P + Init(S)) == S[|S| - 2];
      }
    }
    var key := if predecessorSide == Left then predecessor.key else p.GetNode().key;
    assert p.nodes == P + Init(S) && Min(depth, |P + Init(S)|) == |P|;
    var subTree := ClonePathSide(p, Leaf, predecessorSide, depth);
    assert subTree == PlugF(SpineFrames(P), Leaf) && p.nodes == P by {
      Split(P, Init(S));
      PredBlackLeaf(P);
    }
    var node := WithChild(WithChild(newNode, Left, subTree), Right, erasedNode.right);
    p.Pop();
    assert node == PredNode(P, Leaf);
    var tempRoot := ClonePath(p, node);
    assert tempRoot == PlugF(FF, Leaf) && ContextOK(FF, 1) &&
           Sorted(InOrder(PlugF(FF, Leaf))) && InOrder(PlugF(FF, Leaf)) == Erased(P) by {
      PredBlackLeaf(P);
    }
    r := FixLeafDeficit(p, tempRoot, key, predecessorSide, FF);
  }

  /** The tail of `erase_intermediate_node` for a black leaf predecessor:
      `tempRoot` is an ordered tree whose only flaw is a leaf one black
      short in the hole of `FF`; the path to the leaf's parent is found
      again by its key, and `delete_fixup` repairs the deficit. */
  method FixLeafDeficit<V>(p: Path<V>, tempRoot: Tree<V>, key: int, side: Side,
                           ghost FF: seq<Frame<V>>) returns (r: Tree<V>)
    modifies p
    requires p.nodes == []
    requires |FF| > 0 && ContextOK(FF, 1) && Sorted(InOrder(PlugF(FF, Leaf)))
    requires tempRoot == PlugF(FF, Leaf) && key == Last(FF).key && side == Last(FF).side
    ensures p.nodes == []
    ensures IsRB(r) && InOrder(r) == InOrder(tempRoot)
  {
    ghost var np := Attach(Last(FF), Leaf);
    ghost var q := PathOf(Init(FF), np);
    Retraced(FF);
    var _ := Find(tempRoot, p, key);
    assert p.nodes == q + [np];
    var newParent := p.GetNode();
    p.Pop();
    assert newParent == np && p.nodes == q by {
      assert p.nodes == (q + [np])[..|q|];
    }
    r := DeleteFixup(p, newParent, side);
  }

  /** The right spine of an ordered subtree goes right at every step, and
      every subtree on it is ordered. */
  lemma {:induction false} SpineFacts<V>(t: Tree<V>)
    requires Sorted(InOrder(t))
    ensures forall j :: 0 <= j < |RightSpine(t)| ==> Sorted(InOrder(RightSpine(t)[j]))
    ensures forall j :: 0 <= j < |RightSpine(t)| - 1 ==>
      Dir(RightSpine(t)[j].key, RightSpine(t)[j + 1].key) == Right
    ensures IsPath(RightSpine(t))
    decreases t
  {
    if t.Node? {
      SortedAppend(InOrder(t.left) + [(t.key, t.value)], InOrder(t.right));
      SpineFacts(t.right);
      var S := RightSpine(t);
      var R := RightSpine(t.right);
      assert S == [t] + R;
      if t.right.Node? {
        ChildSide(t, Right);
      }
      forall j | 0 <= j < |S| ensures Sorted(InOrder(S[j])) {
        if j > 0 { assert S[j] == R[j - 1]; }
      }
      forall j | 0 <= j < |S| - 1 ensures Dir(S[j].key, S[j + 1].key) == Right {
        if j > 0 { assert S[j] == R[j - 1] && S[j + 1] == R[j]; }
      }
      forall i | 0 < i < |S| ensures Linked(S, i) {
        if i > 1 {
          assert Linked(R, i - 1) && S[i] == R[i - 1] && S[i - 1] == R[i - 2];
        } else {
          assert S[1] == R[0] == t.right;
        }
      }
    }
  }

  /** The frames of the right spine of `t` down to its last node. */
  ghost function SpineCtx<V>(t: Tree<V>): seq<Frame<V>>
    requires t.Node?
  {
    Frames(Init(RightSpine(t)), Right)
  }

  /** Each frame of the right spine of an ordered subtree is its node
      seen from the right. */
  lemma {:induction false} SpineCtxAt<V>(t: Tree<V>)
    requires t.Node? && Sorted(InOrder(t))
    ensures AllNodes(RightSpine(t)) && |RightSpine(t)| > 0
    ensures forall j :: 0 <= j < |SpineCtx(t)| ==> SpineCtx(t)[j] == FrameOf(RightSpine(t)[j], Right)
  {
    var S := RightSpine(t);
    var B := SpineCtx(t);
    SpineFacts(t);
    forall j | 0 <= j < |B| ensures B[j] == FrameOf(S[j], Right) {
      FramesAt(Init(S), Right, j);
      if j < |B| - 1 {
        assert Init(S)[j] == S[j] && Init(S)[j + 1] == S[j + 1];
      }
    }
  }

  /** An ordered subtree is its right spine's frames, all going right,
      plugged with the spine's last node, whose pair comes last. */
  lemma {:induction false} SpineCtxFacts<V>(t: Tree<V>)
    requires t.Node? && Sorted(InOrder(t))
    ensures AllNodes(RightSpine(t)) && |RightSpine(t)| > 0
    ensures var q := Last(RightSpine(t));
      PlugF(SpineCtx(t), q) == t && CtxR(SpineCtx(t)) == [] &&
      InOrder(t) == CtxL(SpineCtx(t)) + InOrder(q.left) + [(q.key, q.value)] &&
      (|RightSpine(t)| > 1 ==> KeySide(Init(RightSpine(t)), q) == Right)
  {
    var S := RightSpine(t);
    var q := Last(S);
    var B := SpineCtx(t);
    SpineCtxAt(t);
    assert CtxR(B) == [] by {
      assert forall j :: 0 <= j < |B| ==> B[j].side == Right;
      AllRightCtxR(B);
    }
    assert PlugF(B, q) == t && (|S| > 1 ==> KeySide(Init(S), q) == Right) by {
      SpineFacts(t);
      PathPlugLast(S);
      if |S| > 1 {
        assert UpSide(S) == Right;
      }
    }
    PlugInOrder(B, q);
  }

  lemma {:induction false} PlugMid<V>(U: seq<Frame<V>>, f: Frame<V>, B: seq<Frame<V>>, y: Tree<V>)
    ensures PlugF(U + [f] + B, y) == PlugF(U, Attach(f, PlugF(B, y)))
  {
    PlugAppend(U + [f], B, y);
    PlugSnoc(U, f, PlugF(B, y));
  }

  /** Changing the pair of one frame leaves the context as sound. */
  lemma {:induction false} ContextSwap<V>(U: seq<Frame<V>>, f: Frame<V>, g: Frame<V>, B: seq<Frame<V>>, h: nat)
    requires f.color == g.color && f.sibling == g.sibling && ContextOK(U + [f] + B, h)
    ensures ContextOK(U + [g] + B, h)
  {
    var F, G := U + [f] + B, U + [g] + B;
    forall i | 0 <= i < |F| ensures F[i].color == G[i].color && F[i].sibling == G[i].sibling {
      if i < |U| {
        assert F[i] == U[i] == G[i];
      } else if i > |U| {
        assert F[i] == B[i - |U| - 1] == G[i];
      }
    }
    ContextOKShape(F, G, h);
  }

  /** What `find_predecessor` leaves: the predecessor is the last node of
      the spine and has no right child, its pair is the last of the left
      subtree, and with its pair moved up it sits in a context as sound as
      before. */
  lemma {:induction false} Predecessor<V>(P: seq<Tree<V>>)
    requires ErasePath(P) && Last(P).left.Node? && Last(P).right.Node?
    ensures |Spine(P)| > 0 && AllNodes(Spine(P)) && AllNodes(Init(P))
    ensures forall j :: 0 <= j < |SpineFrames(P)| ==> SpineFrames(P)[j] == FrameOf(Spine(P)[j], Right)
    ensures var S := Spine(P);
      Pred(P).right.Leaf? && RBT(Pred(P)) && ContextOK(PredContext(P), BH(Pred(P))) &&
      PlugF(SpineFrames(P), Pred(P)) == Last(P).left && Sorted(InOrder(Last(P).left)) &&
      CtxR(SpineFrames(P)) == [] &&
      InOrder(Last(P).left) == CtxL(SpineFrames(P)) + InOrder(Pred(P).left) + [(Pred(P).key, Pred(P).value)] &&
      (|S| > 1 ==> KeySide(Init(S), Pred(P)) == Right)
  {
    Base(P);
    var z := Last(P);
    var q := Pred(P);
    var B := SpineFrames(P);
    var U := Up(P);
    PlugSortedHole(U, z);
    SortedAppend(InOrder(z.left) + [(z.key, z.value)], InOrder(z.right));
    SortedAppend(InOrder(z.left), [(z.key, z.value)]);
    SpineCtxAt(z.left);
    SpineCtxFacts(z.left);
    var f := FrameOf(z, Left);
    PlugMid(U, f, B, q);
    assert Attach(f, z.left) == z;
    PlugRBInv(U + [f] + B, q);
    ContextSwap(U, f, Frame(z.color, q.key, q.value, Left, z.right), B, BH(q));
  }

  /** The predecessor's key sends `clone_path` into the erased node's
      hole. */
  lemma {:induction false} PredKeySide<V>(P: seq<Tree<V>>, y: Tree<V>)
    requires ErasePath(P) && Last(P).left.Node? && Last(P).right.Node?
    ensures AllNodes(Init(P))
    ensures Frames(Init(P), KeySide(Init(P), PredNode(P, y))) == Up(P)
  {
    Base(P);
    Predecessor(P);
    var z, q := Last(P), Pred(P);
    var i := |InOrder(z.left)| - 1;
    assert InOrder(z)[i] == (q.key, q.value);
    KeySideStable(Init(P), z, PredNode(P, y), i);
  }

  /** Putting `y` where the predecessor was and the predecessor's pair in
      place of the erased node's pair: the new node goes into the erased
      node's hole, and when `y` holds what the predecessor's left subtree
      held, the tree holds exactly the pairs without the erased one. */
  lemma {:induction false} PredPlug<V>(P: seq<Tree<V>>, y: Tree<V>)
    requires ErasePath(P) && Last(P).left.Node? && Last(P).right.Node?
    ensures AllNodes(Init(P))
    ensures Frames(Init(P), KeySide(Init(P), PredNode(P, y))) == Up(P)
    ensures PlugF(PredContext(P), y) == PlugF(Up(P), PredNode(P, y))
    ensures InOrder(y) == InOrder(Pred(P).left) ==> InOrder(PlugF(Up(P), PredNode(P, y))) == Erased(P)
  {
    PredKeySide(P, y);
    var z, q := Last(P), Pred(P);
    var f := Frame(z.color, q.key, q.value, Left, z.right);
    PlugMid(Up(P), f, SpineFrames(P), y);
    assert Attach(f, PlugF(SpineFrames(P), y)) == PredNode(P, y);
    if InOrder(y) == InOrder(Pred(P).left) {
      PredInOrder(P, y);
    }
  }

  lemma {:induction false} PredInOrder<V>(P: seq<Tree<V>>, y: Tree<V>)
    requires ErasePath(P) && Last(P).left.Node? && Last(P).right.Node?
    requires InOrder(y) == InOrder(Pred(P).left)
    ensures InOrder(PlugF(Up(P), PredNode(P, y))) == Erased(P)
  {
    Predecessor(P);
    var z, q := Last(P), Pred(P);
    var U, B := Up(P), SpineFrames(P);
    var nn := PredNode(P, y);
    var A, C, L, Y, m, R := CtxL(U), CtxR(U), CtxL(B), InOrder(y), [(q.key, q.value)], InOrder(z.right);
    PlugInOrder(B, y);
    assert InOrder(PlugF(B, y)) == L + Y;
    assert InOrder(nn) == (L + Y) + m + R;
    assert InOrder(z.left) == L + Y + m;
    PlugInOrder(U, nn);
    assert Erased(P) == A + (L + Y + m) + R + C;
  }

  /** A red predecessor is a leaf and can simply be cut off. */
  lemma {:induction false} PredRed<V>(P: seq<Tree<V>>)
    requires ErasePath(P) && Last(P).left.Node? && Last(P).right.Node? && Pred(P).color == Red
    ensures AllNodes(Init(P)) && AllNodes(Spine(P)) && |Spine(P)| > 0
    ensures Frames(Init(Spine(P)), if |Spine(P)| > 1 then Right else Left) == SpineFrames(P)
    ensures Frames(Init(P), KeySide(Init(P), PredNode(P, Leaf))) == Up(P)
    ensures IsRB(PlugF(Up(P), PredNode(P, Leaf)))
    ensures InOrder(PlugF(Up(P), PredNode(P, Leaf))) == Erased(P)
  {
    Predecessor(P);
    PredPlug(P, Leaf);
    assert Pred(P).left.Leaf?;
    PlugRB(PredContext(P), Leaf);
  }

  /** A black predecessor with a child: the child is a red leaf and takes
      the predecessor's place painted black. */
  lemma {:induction false} PredBlackWithChild<V>(P: seq<Tree<V>>)
    requires ErasePath(P) && Last(P).left.Node? && Last(P).right.Node?
    requires Pred(P).color == Black && Pred(P).left.Node?
    ensures AllNodes(Init(P)) && AllNodes(Spine(P)) && |Spine(P)| > 0
    ensures var y := WithColor(Pred(P).left, Black);
      Frames(Init(Spine(P)), KeySide(Init(Spine(P)), y)) == SpineFrames(P) &&
      Frames(Init(P), KeySide(Init(P), PredNode(P, y))) == Up(P) &&
      IsRB(PlugF(Up(P), PredNode(P, y))) &&
      InOrder(PlugF(Up(P), PredNode(P, y))) == Erased(P)
  {
    Predecessor(P);
    var q, S := Pred(P), Spine(P);
    var y := WithColor(q.left, Black);
    assert BH(q.left) == 0 && BH(y) == 1 == BH(q);
    if |S| > 1 {
      assert InOrder(q)[|InOrder(q.left.left)|] == (y.key, y.value);
      KeySideStable(Init(S), q, y, |InOrder(q.left.left)|);
    }
    PredPlug(P, y);
    PlugRB(PredContext(P), y);
  }

  /** A black leaf predecessor: cutting it off leaves its parent deficient.
      The tree rebuilt with the predecessor's place empty holds the pairs
      without the erased one, in a context sound for one black level, whose
      last frame is the predecessor's parent (the erased node itself when
      the predecessor is its left child). */
  lemma {:induction false} PredBlackLeaf<V>(P: seq<Tree<V>>)
    requires ErasePath(P) && Last(P).left.Node? && Last(P).right.Node?
    requires Pred(P).color == Black && Pred(P).left.Leaf?
    ensures AllNodes(Init(P)) && AllNodes(Spine(P)) && |Spine(P)| > 0
    ensures Frames(Init(Spine(P)), if |Spine(P)| > 1 then Right else Left) == SpineFrames(P)
    ensures Frames(Init(P), KeySide(Init(P), PredNode(P, Leaf))) == Up(P)
    ensures var FF, S := PredContext(P), Spine(P);
      |FF| > 0 && ContextOK(FF, 1) &&
      PlugF(FF, Leaf) == PlugF(Up(P), PredNode(P, Leaf)) &&
      InOrder(PlugF(FF, Leaf)) == Erased(P) && Sorted(Erased(P)) &&
      Last(FF).key == (if |S| > 1 then S[|S| - 2].key else Pred(P).key) &&
      Last(FF).side == (if |S| > 1 then Right else Left)
  {
    Base(P);
    Predecessor(P);
    PredPlug(P, Leaf);
    var S, B := Spine(P), SpineFrames(P);
    if |S| > 1 {
      assert Last(PredContext(P)) == B[|B| - 1] == FrameOf(S[|S| - 2], Right);
    }
  }

  /** Looking up the key of the last frame in the tree rebuilt with an
      empty hole retraces the frames; the node found is the deficient
      parent, and the nodes above it are a path whose frames are the rest
      of the context, sound for the repair. */
  lemma {:induction false} Retraced<V>(FF: seq<Frame<V>>)
    requires |FF| > 0 && ContextOK(FF, 1) && Sorted(InOrder(PlugF(FF, Leaf)))
    ensures var f := Last(FF);
      var np := Attach(f, Leaf);
      var q := PathOf(Init(FF), np);
      SearchPath(PlugF(FF, Leaf), f.key) == q + [np] &&
      Hole(q, np) == Init(FF) &&
      PlugF(Init(FF), np) == PlugF(FF, Leaf) &&
      FixupReady(q, np, f.side)
  {
    var f := Last(FF);
    var np := Attach(f, Leaf);
    var q := PathOf(Init(FF), np);
    SearchPlug(FF, Leaf);
    SortedKeyConsistent(FF, Leaf);
    LeafDeficit(FF);
    if |FF| > 1 {
      assert KeyConsistent(Init(FF));
      FramesOfPathOf(Init(FF), np);
      assert Last(q) == Attach(Last(Init(FF)), np);
      assert FF[|FF| - 2] == Last(Init(FF));
      assert KeySide(q, np) == Last(Init(FF)).side;
    }
  }
}
