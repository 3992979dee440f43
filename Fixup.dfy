/** The three repairs `delete_fixup` chooses between once a black node has
    been removed from below `parent`, and the tests that choose them. Each
    repair rebuilds the subtree rooted at `parent` out of clones and leaves
    the rest of the tree alone. */
module Fixup {
  import opened RedBlack

  /** The situation a repair starts from: the subtree on `side` of `parent`
      has one black level fewer than its sibling, it is not red, and
      otherwise both subtrees are red-black with no red-red pair at
      `parent`. */
  predicate Deficit<V>(parent: Tree<V>, side: Side)
  {
    parent.Node? &&
    var d, s := Child(parent, side), Child(parent, Other(side));
    RBT(d) && RBT(s) && !IsRed(d) && BH(d) + 1 == BH(s) &&
    (parent.color == Red ==> !IsRed(s))
  }

  /** The deficient side has a sibling: it holds at least one black level. */
  lemma {:induction false} DeficitSibling<V>(parent: Tree<V>, side: Side)
    requires Deficit(parent, side)
    ensures Child(parent, Other(side)).Node?
  {
  }

  /** `has_black_sibling_with_red_child`. */
  predicate HasBlackSiblingWithRedChild<V>(parent: Tree<V>, side: Side)
    requires parent.Node? && Child(parent, Other(side)).Node?
  {
    var s := Child(parent, Other(side));
    s.color != Red && HasRedChild(s)
  }

  /** `has_black_sibling_with_black_children`. */
  predicate HasBlackSiblingWithBlackChildren<V>(parent: Tree<V>, side: Side)
    requires parent.Node? && Child(parent, Other(side)).Node?
  {
    var s := Child(parent, Other(side));
    s.color != Red && !HasRedChild(s)
  }

  /** Exactly one of the two tests holds or the sibling is red: the three
      branches of `delete_fixup` cover every sibling. */
  lemma {:induction false} SiblingCases<V>(parent: Tree<V>, side: Side)
    requires parent.Node? && Child(parent, Other(side)).Node?
    ensures HasBlackSiblingWithRedChild(parent, side) || HasBlackSiblingWithBlackChildren(parent, side) ||
            IsRed(Child(parent, Other(side)))
    ensures !(HasBlackSiblingWithRedChild(parent, side) && HasBlackSiblingWithBlackChildren(parent, side))
    ensures IsRed(Child(parent, Other(side))) ==>
            !HasBlackSiblingWithRedChild(parent, side) && !HasBlackSiblingWithBlackChildren(parent, side)
  {
  }

  /** `delete_fixup_1`: a black sibling with a red child. One or two
      rotations move a node across the root, the new root takes the old
      root's colour, and the deficient side regains its black level. */
  function DeleteFixup1<V>(parent: Tree<V>, side: Side): Tree<V>
    requires parent.Node? && Child(parent, Other(side)).Node? && HasBlackSiblingWithRedChild(parent, side)
  {
    var pc := parent.color;
    var sibling := Child(parent, Other(side));
    var child1 := Child(sibling, side);
    if IsRed(child1) then
      var newParent := WithChild(WithColor(parent, Black), Other(side), Child(child1, side));
      var newSibling := WithChild(sibling, side, Child(child1, Other(side)));
      WithChild(WithChild(WithColor(child1, pc), side, newParent), Other(side), newSibling)
    else
      var child2 := Child(sibling, Other(side));
      var newParent := WithChild(WithColor(parent, Black), Other(side), child1);
      WithChild(WithChild(WithColor(sibling, pc), side, newParent), Other(side), WithColor(child2, Black))
  }

  /** `delete_fixup_1` repairs the deficit: the rebuilt subtree is
      red-black, has the colour of `parent` and the black depth of the
      sibling's side, and holds the same pairs in the same order. */
  lemma {:induction false} DeleteFixup1Correct<V>(parent: Tree<V>, side: Side)
    requires Deficit(parent, side)
    requires Child(parent, Other(side)).Node? && HasBlackSiblingWithRedChild(parent, side)
    ensures var r := DeleteFixup1(parent, side);
      RBT(r) && r.Node? && r.color == parent.color &&
      BH(r) == BH(Child(parent, Other(side))) + Blk(parent.color) && InOrder(r) == InOrder(parent)
  {
    var r := DeleteFixup1(parent, side);
    var pc, pk, pv := parent.color, parent.key, parent.value;
    var s := Child(parent, Other(side));
    var d := Child(parent, side);
    if side == Left {
      assert parent == Node(pc, pk, pv, d, s);
      if IsRed(s.left) {
        var c := s.left;
        assert r == Node(pc, c.key, c.value, Node(Black, pk, pv, d, c.left), Node(s.color, s.key, s.value, c.right, s.right));
        NearNephewLeft(pc, pk, pv, d, s);
      } else {
        var c2 := s.right;
        assert r == Node(pc, s.key, s.value, Node(Black, pk, pv, d, s.left), Node(Black, c2.key, c2.value, c2.left, c2.right));
        FarNephewLeft(pc, pk, pv, d, s);
      }
    } else {
      assert parent == Node(pc, pk, pv, s, d);
      if IsRed(s.right) {
        var c := s.right;
        assert r == Node(pc, c.key, c.value, Node(s.color, s.key, s.value, s.left, c.left), Node(Black, pk, pv, c.right, d));
        NearNephewRight(pc, pk, pv, d, s);
      } else {
        var c2 := s.left;
        assert r == Node(pc, s.key, s.value, Node(Black, c2.key, c2.value, c2.left, c2.right), Node(Black, pk, pv, s.right, d));
        FarNephewRight(pc, pk, pv, d, s);
      }
    }
  }

  /** The rotations of `delete_fixup_1` on concrete shapes: deficient side
      `d`, black sibling `s` whose child nearest to `d` (near nephew) or
      farthest from it (far nephew) is red. */
  lemma {:induction false} NearNephewLeft<V>(pc: Color, pk: int, pv: V, d: Tree<V>, s: Tree<V>)
    requires RBT(d) && RBT(s) && s.Node? && s.color == Black && BH(d) + 1 == BH(s) && IsRed(s.left)
    ensures var c := s.left;
      var r := Node(pc, c.key, c.value, Node(Black, pk, pv, d, c.left), Node(s.color, s.key, s.value, c.right, s.right));
      RBT(r) && BH(r) == BH(s) + Blk(pc) && InOrder(r) == InOrder(Node(pc, pk, pv, d, s))
  {
    var c := s.left;
    assert RBT(c) && BH(c.left) == BH(c.right) && BH(s) == BH(c.left) + 1 && BH(s.right) == BH(c);
    var D, P, A, C, B, S, R := InOrder(d), [(pk, pv)], InOrder(c.left), [(c.key, c.value)], InOrder(c.right),
      [(s.key, s.value)], InOrder(s.right);
    assert InOrder(c) == A + C + B;
    assert InOrder(s) == InOrder(c) + S + R;
    assert InOrder(Node(pc, pk, pv, d, s)) == D + P + ((A + C + B) + S + R);
    var r := Node(pc, c.key, c.value, Node(Black, pk, pv, d, c.left), Node(s.color, s.key, s.value, c.right, s.right));
    assert InOrder(r) == (D + P + A) + C + (B + S + R);
    assert D + P + ((A + C + B) + S + R) == (D + P + A) + C + (B + S + R);
  }

  lemma {:induction false} FarNephewLeft<V>(pc: Color, pk: int, pv: V, d: Tree<V>, s: Tree<V>)
    requires RBT(d) && RBT(s) && s.Node? && s.color == Black && BH(d) + 1 == BH(s)
    requires !IsRed(s.left) && IsRed(s.right)
    ensures var c2 := s.right;
      var r := Node(pc, s.key, s.value, Node(Black, pk, pv, d, s.left), Node(Black, c2.key, c2.value, c2.left, c2.right));
      RBT(r) && BH(r) == BH(s) + Blk(pc) && InOrder(r) == InOrder(Node(pc, pk, pv, d, s))
  {
    var c2 := s.right;
    assert RBT(c2) && BH(c2.left) == BH(c2.right) && BH(s) == BH(s.left) + 1 && BH(s.left) == BH(c2);
    assert InOrder(Node(Black, c2.key, c2.value, c2.left, c2.right)) == InOrder(c2);
    var D, P, L, S, C := InOrder(d), [(pk, pv)], InOrder(s.left), [(s.key, s.value)], InOrder(c2);
    assert InOrder(Node(pc, pk, pv, d, s)) == D + P + (L + S + C);
    var r := Node(pc, s.key, s.value, Node(Black, pk, pv, d, s.left), Node(Black, c2.key, c2.value, c2.left, c2.right));
    assert InOrder(r) == (D + P + L) + S + C;
    assert D + P + (L + S + C) == (D + P + L) + S + C;
  }

  lemma {:induction false} NearNephewRight<V>(pc: Color, pk: int, pv: V, d: Tree<V>, s: Tree<V>)
    requires RBT(d) && RBT(s) && s.Node? && s.color == Black && BH(d) + 1 == BH(s) && IsRed(s.right)
    ensures var c := s.right;
      var r := Node(pc, c.key, c.value, Node(s.color, s.key, s.value, s.left, c.left), Node(Black, pk, pv, c.right, d));
      RBT(r) && BH(r) == BH(s) + Blk(pc) && InOrder(r) == InOrder(Node(pc, pk, pv, s, d))
  {
    var c := s.right;
    assert RBT(c) && BH(c.left) == BH(c.right) && BH(s) == BH(s.left) + 1 && BH(s.left) == BH(c);
    var D, P, A, C, B, S, L := InOrder(d), [(pk, pv)], InOrder(c.left), [(c.key, c.value)], InOrder(c.right),
      [(s.key, s.value)], InOrder(s.left);
    assert InOrder(c) == A + C + B;
    assert InOrder(s) == L + S + InOrder(c);
    assert InOrder(Node(pc, pk, pv, s, d)) == (L + S + (A + C + B)) + P + D;
    var r := Node(pc, c.key, c.value, Node(s.color, s.key, s.value, s.left, c.left), Node(Black, pk, pv, c.right, d));
    assert InOrder(r) == (L + S + A) + C + (B + P + D);
    assert (L + S + (A + C + B)) + P + D == (L + S + A) + C + (B + P + D);
  }

  lemma {:induction false} FarNephewRight<V>(pc: Color, pk: int, pv: V, d: Tree<V>, s: Tree<V>)
    requires RBT(d) && RBT(s) && s.Node? && s.color == Black && BH(d) + 1 == BH(s)
    requires !IsRed(s.right) && IsRed(s.left)
    ensures var c2 := s.left;
      var r := Node(pc, s.key, s.value, Node(Black, c2.key, c2.value, c2.left, c2.right), Node(Black, pk, pv, s.right, d));
      RBT(r) && BH(r) == BH(s) + Blk(pc) && InOrder(r) == InOrder(Node(pc, pk, pv, s, d))
  {
    var c2 := s.left;
    assert RBT(c2) && BH(c2.left) == BH(c2.right) && BH(s) == BH(s.left) + 1 && BH(s.left) == BH(c2);
    assert InOrder(Node(Black, c2.key, c2.value, c2.left, c2.right)) == InOrder(c2);
    var D, P, R, S, C := InOrder(d), [(pk, pv)], InOrder(s.right), [(s.key, s.value)], InOrder(c2);
    assert InOrder(Node(pc, pk, pv, s, d)) == (C + S + R) + P + D;
    var r := Node(pc, s.key, s.value, Node(Black, c2.key, c2.value, c2.left, c2.right), Node(Black, pk, pv, s.right, d));
    assert InOrder(r) == C + S + (R + P + D);
    assert (C + S + R) + P + D == C + S + (R + P + D);
  }

  /** `delete_fixup_2`: a black sibling with no red child is recoloured
      red, which takes one black level off the sibling's side too, and the
      parent becomes black. */
  function DeleteFixup2<V>(parent: Tree<V>, side: Side): Tree<V>
    requires parent.Node? && Child(parent, Other(side)).Node?
  {
    var sibling := Child(parent, Other(side));
    WithChild(WithColor(parent, Black), Other(side), WithColor(sibling, Red))
  }

  /** The recolouring leaves a black red-black subtree with the parent's
      pair at its root, the same pairs in the same order, and the black
      depth of the old sibling: the deficit is gone when the parent was red
      and has moved up one level when it was black. */
  lemma {:induction false} DeleteFixup2Correct<V>(parent: Tree<V>, side: Side)
    requires Deficit(parent, side)
    requires Child(parent, Other(side)).Node? && HasBlackSiblingWithBlackChildren(parent, side)
    ensures var r := DeleteFixup2(parent, side);
      RBT(r) && r.Node? && r.color == Black && r.key == parent.key &&
      BH(r) == BH(Child(parent, Other(side))) && InOrder(r) == InOrder(parent)
  {
    var s := Child(parent, Other(side));
    var s' := WithColor(s, Red);
    assert RBT(s.left) && RBT(s.right) && BH(s.left) == BH(s.right) && BH(s) == BH(s.left) + 1;
    assert RBT(s') && BH(s') == BH(s.left) && InOrder(s') == InOrder(s);
    if side == Left {
      assert DeleteFixup2(parent, side) == Node(Black, parent.key, parent.value, parent.left, s');
    } else {
      assert DeleteFixup2(parent, side) == Node(Black, parent.key, parent.value, s', parent.right);
    }
  }

  /** `delete_fixup_3`: a red sibling is rotated above the parent, which
      turns red and keeps the deficit below it, now with a black sibling;
      that is repaired by `delete_fixup_1` or `delete_fixup_2`. */
  function DeleteFixup3<V>(parent: Tree<V>, side: Side): Tree<V>
    requires parent.Node? && Child(parent, Other(side)).Node?
    requires Child(Child(parent, Other(side)), side).Node?
  {
    var sibling := Child(parent, Other(side));
    var newParent := WithChild(WithColor(parent, Red), Other(side), Child(sibling, side));
    var newSibling := WithChild(WithColor(sibling, parent.color), side, newParent);
    if HasBlackSiblingWithRedChild(newParent, side) then
      WithChild(newSibling, side, DeleteFixup1(newParent, side))
    else if HasBlackSiblingWithBlackChildren(newParent, side) then
      WithChild(newSibling, side, DeleteFixup2(newParent, side))
    else
      newSibling
  }

  /** With a red sibling the parent is black, and after the rotation the
      red parent is deficient below a black sibling, so the last branch
      of `delete_fixup_3` is never taken; the result is a black red-black
      subtree one black level deeper than the old sibling, with the same
      pairs in the same order. */
  lemma {:induction false} DeleteFixup3Correct<V>(parent: Tree<V>, side: Side)
    requires Deficit(parent, side) && IsRed(Child(parent, Other(side)))
    ensures Child(Child(parent, Other(side)), side).Node?
    ensures var r := DeleteFixup3(parent, side);
      RBT(r) && r.Node? && r.color == Black &&
      BH(r) == BH(Child(parent, Other(side))) + 1 && InOrder(r) == InOrder(parent)
  {
    var s := Child(parent, Other(side));
    var d := Child(parent, side);
    var near, far := Child(s, side), Child(s, Other(side));
    RedSibling(parent, side);
    var np := WithChild(WithColor(parent, Red), Other(side), near);
    var ns := WithChild(WithColor(s, parent.color), side, np);
    var fixed: Tree<V>;
    if HasBlackSiblingWithRedChild(np, side) {
      DeleteFixup1Correct(np, side);
      fixed := DeleteFixup1(np, side);
    } else {
      DeleteFixup2Correct(np, side);
      fixed := DeleteFixup2(np, side);
    }
    assert DeleteFixup3(parent, side) == WithChild(ns, side, fixed);
    RedSiblingAssemble(parent, side, fixed);
  }

  /** Below a red sibling: the parent is black, the sibling's children are
      black, non-empty and as deep as the sibling, and the rotated parent,
      turned red, is deficient below the near child. */
  lemma {:induction false} RedSibling<V>(parent: Tree<V>, side: Side)
    requires Deficit(parent, side) && IsRed(Child(parent, Other(side)))
    ensures var s := Child(parent, Other(side));
      parent.color == Black && Child(s, side).Node? && Child(s, Other(side)).Node? &&
      !IsRed(Child(s, side)) && !IsRed(Child(s, Other(side))) &&
      RBT(Child(s, Other(side))) && BH(Child(s, Other(side))) == BH(s) && BH(Child(s, side)) == BH(s) &&
      Deficit(WithChild(WithColor(parent, Red), Other(side), Child(s, side)), side)
  {
    var s := Child(parent, Other(side));
    assert RBT(s.left) && RBT(s.right) && BH(s.left) == BH(s.right) && BH(s) == BH(s.left);
    assert BH(s) >= 1;
    var np := WithChild(WithColor(parent, Red), Other(side), Child(s, side));
    assert Child(np, side) == Child(parent, side) && Child(np, Other(side)) == Child(s, side);
  }

  /** The red sibling, recoloured as the parent and rotated to the top, over
      the repaired subtree on the deficient side. */
  lemma {:induction false} RedSiblingAssemble<V>(parent: Tree<V>, side: Side, fixed: Tree<V>)
    requires parent.Node? && Child(parent, Other(side)).Node? && parent.color == Black
    requires var s := Child(parent, Other(side));
      RBT(Child(s, Other(side))) && BH(Child(s, Other(side))) == BH(s) && BH(Child(s, side)) == BH(s) &&
      RBT(fixed) && BH(fixed) == BH(s) &&
      InOrder(fixed) == InOrder(WithChild(WithColor(parent, Red), Other(side), Child(s, side)))
    ensures var s := Child(parent, Other(side));
      var r := WithChild(WithChild(WithColor(s, parent.color), side, WithChild(WithColor(parent, Red), Other(side), Child(s, side))), side, fixed);
      RBT(r) && r.Node? && r.color == Black && BH(r) == BH(s) + 1 && InOrder(r) == InOrder(parent)
  {
    var s := Child(parent, Other(side));
    var np := WithChild(WithColor(parent, Red), Other(side), Child(s, side));
    var r := WithChild(WithChild(WithColor(s, parent.color), side, np), side, fixed);
    if side == Left {
      assert r == Node(Black, s.key, s.value, fixed, s.right);
      RotatedUp(parent.left, parent.key, parent.value, s.left, s.key, s.value, s.right, fixed);
    } else {
      assert r == Node(Black, s.key, s.value, s.left, fixed);
      RotatedUpMirror(parent.right, parent.key, parent.value, s.right, s.key, s.value, s.left, fixed);
    }
  }

  /** Rotating `d (k) (near (sk) far)` to `(d (k) near) (sk) far` and then
      replacing the left subtree by `fixed` of the same pairs keeps the
      pairs in order. */
  lemma {:induction false} RotatedUp<V>(d: Tree<V>, k: int, v: V, near: Tree<V>, sk: int, sv: V, far: Tree<V>, fixed: Tree<V>)
    requires InOrder(fixed) == InOrder(d) + [(k, v)] + InOrder(near)
    ensures InOrder(Node(Black, sk, sv, fixed, far)) ==
            InOrder(d) + [(k, v)] + (InOrder(near) + [(sk, sv)] + InOrder(far))
  {
  }

  /** The mirror image of `RotatedUp`. */
  lemma {:induction false} RotatedUpMirror<V>(d: Tree<V>, k: int, v: V, near: Tree<V>, sk: int, sv: V, far: Tree<V>, fixed: Tree<V>)
    requires InOrder(fixed) == InOrder(near) + [(k, v)] + InOrder(d)
    ensures InOrder(Node(Black, sk, sv, far, fixed)) ==
            (InOrder(far) + [(sk, sv)] + InOrder(near)) + [(k, v)] + InOrder(d)
  {
  }

}
