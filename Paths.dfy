/** The path cursor of the source (a stack of ancestors from the root down
    to a target) and the facts that let a path be rebuilt bottom-up: a path
    seen as a sequence of frames (colour, pair, side taken, sibling
    subtree) into which a new subtree is plugged. */
module Paths {
  import opened RedBlack

  function Last<T>(s: seq<T>): T
    requires |s| > 0
  {
    s[|s| - 1]
  }

  function Init<T>(s: seq<T>): seq<T>
    requires |s| > 0
  {
    s[..|s| - 1]
  }

  predicate AllNodes<V>(p: seq<Tree<V>>)
  {
    forall i :: 0 <= i < |p| ==> p[i].Node?
  }

  /** The side on which the last node of `p` hangs below the one above it,
      decided by keys as `clone_path` decides it. */
  function UpSide<V>(p: seq<Tree<V>>): Side
    requires AllNodes(p)
  {
    if |p| >= 2 then Dir(p[|p| - 2].key, p[|p| - 1].key) else Left
  }

  /** The side `clone_path` attaches `x` on below the last node of `p`. */
  function KeySide<V>(p: seq<Tree<V>>, x: Tree<V>): Side
    requires AllNodes(p)
  {
    if |p| > 0 && x.Node? then Dir(Last(p).key, x.key) else Left
  }

  /** Each node of `p` is the child of the one above it on the side its key
      points to: a root-to-target descent. */
  ghost predicate IsPath<V>(p: seq<Tree<V>>)
  {
    AllNodes(p) &&
    forall i :: 0 < i < |p| ==> Linked(p, i)
  }

  /** The node at index `i` is the child of the one before it on the side
      its key points to. */
  ghost predicate Linked<V>(p: seq<Tree<V>>, i: int)
    requires AllNodes(p) && 0 < i < |p|
  {
    p[i] == Child(p[i - 1], Dir(p[i - 1].key, p[i].key))
  }

  /** One level of a path: the ancestor's colour and pair, the side the path
      takes below it, and the subtree on the other side. */
  datatype Frame<V> = Frame(color: Color, key: int, value: V, side: Side, sibling: Tree<V>)

  /** The ancestor of a frame, rebuilt with `x` on the frame's side. */
  function Attach<V>(f: Frame<V>, x: Tree<V>): (r: Tree<V>)
    ensures r.Node? && r.color == f.color && r.key == f.key && r.value == f.value
    ensures Child(r, f.side) == x && Child(r, Other(f.side)) == f.sibling
  {
    if f.side == Left then Node(f.color, f.key, f.value, x, f.sibling)
    else Node(f.color, f.key, f.value, f.sibling, x)
  }

  function FrameOf<V>(t: Tree<V>, s: Side): Frame<V>
    requires t.Node?
  {
    Frame(t.color, t.key, t.value, s, Child(t, Other(s)))
  }

  /** The frames of path `p` whose hole lies on side `s` of its last node. */
  function Frames<V>(p: seq<Tree<V>>, s: Side): (F: seq<Frame<V>>)
    requires AllNodes(p)
    ensures |F| == |p|
    decreases |p|
  {
    if |p| == 0 then [] else Frames(Init(p), UpSide(p)) + [FrameOf(Last(p), s)]
  }

  /** The tree obtained by plugging `x` into the hole below the frames and
      rebuilding every ancestor bottom-up. */
  function PlugF<V>(F: seq<Frame<V>>, x: Tree<V>): Tree<V>
    decreases |F|
  {
    if |F| == 0 then x else PlugF(Init(F), Attach(Last(F), x))
  }

  /** The pairs `foreach` visits before the hole. */
  function CtxL<V>(F: seq<Frame<V>>): seq<Pair<V>>
    decreases |F|
  {
    if |F| == 0 then []
    else
      var f := Last(F);
      CtxL(Init(F)) + (if f.side == Right then InOrder(f.sibling) + [(f.key, f.value)] else [])
  }

  /** The pairs `foreach` visits after the hole. */
  function CtxR<V>(F: seq<Frame<V>>): seq<Pair<V>>
    decreases |F|
  {
    if |F| == 0 then []
    else
      var f := Last(F);
      (if f.side == Left then [(f.key, f.value)] + InOrder(f.sibling) else []) + CtxR(Init(F))
  }

  // ----- plugging -----

  lemma {:induction false} AllNodesInit<V>(p: seq<Tree<V>>)
    requires AllNodes(p) && |p| > 0
    ensures AllNodes(Init(p))
  {
  }

  /** Whatever is plugged into the hole, `foreach` visits it between the same
      two context sequences. */
  lemma {:induction false} PlugInOrder<V>(F: seq<Frame<V>>, x: Tree<V>)
    ensures InOrder(PlugF(F, x)) == CtxL(F) + InOrder(x) + CtxR(F)
    decreases |F|
  {
    if |F| > 0 {
      PlugInOrder(Init(F), Attach(Last(F), x));
    }
  }

  lemma {:induction false} PlugAppend<V>(A: seq<Frame<V>>, B: seq<Frame<V>>, x: Tree<V>)
    ensures PlugF(A + B, x) == PlugF(A, PlugF(B, x))
    decreases |B|
  {
    if |B| == 0 {
      assert A + B == A;
    } else {
      assert Init(A + B) == A + Init(B) && Last(A + B) == Last(B);
      PlugAppend(A, Init(B), Attach(Last(B), x));
    }
  }

  lemma {:induction false} PlugOne<V>(f: Frame<V>, x: Tree<V>)
    ensures PlugF([f], x) == Attach(f, x)
  {
    assert Init([f]) == [];
  }

  lemma {:induction false} FramesAppend<V>(A: seq<Tree<V>>, B: seq<Tree<V>>, s: Side)
    requires AllNodes(A) && AllNodes(B) && |A| > 0 && |B| > 0
    ensures AllNodes(A + B)
    ensures Frames(A + B, s) == Frames(A, Dir(Last(A).key, B[0].key)) + Frames(B, s)
    decreases |B|
  {
    var AB := A + B;
    if |B| == 1 {
      assert Init(AB) == A && Last(AB) == B[0];
      assert Init(B) == [];
    } else {
      assert Init(AB) == A + Init(B) && Last(AB) == Last(B);
      assert UpSide(AB) == UpSide(B);
      FramesAppend(A, Init(B), UpSide(B));
    }
  }

  /** Plugging the subtree that already hangs in the hole of a descent gives
      back the tree the descent started from. */
  lemma {:induction false} PathPlug<V>(p: seq<Tree<V>>, s: Side)
    requires IsPath(p) && |p| > 0
    ensures PlugF(Frames(p, s), Child(Last(p), s)) == p[0]
    decreases |p|
  {
    var f := FrameOf(Last(p), s);
    assert Attach(f, Child(Last(p), s)) == Last(p);
    assert Init(Frames(p, s)) == Frames(Init(p), UpSide(p));
    if |p| > 1 {
      assert Linked(p, |p| - 1);
      assert Last(p) == Child(Last(Init(p)), UpSide(p));
      PathInit(p);
      PathPlug(Init(p), UpSide(p));
    } else {
      assert Frames(Init(p), UpSide(p)) == [];
    }
  }

  // ----- colours along a path -----

  /** A red subtree may hang below the frames only under a black parent
      (and never as the root). */
  predicate Allows<V>(F: seq<Frame<V>>, z: Tree<V>)
  {
    !IsRed(z) || (|F| > 0 && Last(F).color == Black)
  }

  /** Every sibling along the path is a red-black subtree whose black depth
      matches what plugging a subtree of black depth `h` needs, no red frame
      has a red sibling or a red parent, and the root frame is black. */
  predicate ContextOK<V>(F: seq<Frame<V>>, h: nat)
    decreases |F|
  {
    |F| == 0 ||
    (var f := Last(F);
     RBT(f.sibling) && BH(f.sibling) == h &&
     (f.color == Red ==> !IsRed(f.sibling) && |F| > 1 && F[|F| - 2].color == Black) &&
     ContextOK(Init(F), h + Blk(f.color)))
  }

  /** Plugging a red-black subtree of the right black depth and an allowed
      colour into a sound context gives a valid red-black tree. */
  lemma {:induction false} PlugRB<V>(F: seq<Frame<V>>, z: Tree<V>)
    requires ContextOK(F, BH(z)) && RBT(z) && Allows(F, z)
    ensures IsRB(PlugF(F, z))
    decreases |F|
  {
    if |F| > 0 {
      PlugRB(Init(F), Attach(Last(F), z));
    }
  }

  /** Conversely, every frame context of a valid red-black tree is sound for
      the subtree in its hole. */
  lemma {:induction false} PlugRBInv<V>(F: seq<Frame<V>>, z: Tree<V>)
    requires IsRB(PlugF(F, z))
    ensures RBT(z) && ContextOK(F, BH(z)) && Allows(F, z)
    decreases |F|
  {
    if |F| > 0 {
      PlugRBInv(Init(F), Attach(Last(F), z));
    }
  }

  /** Soundness of a context looks only at colours and siblings. */
  lemma {:induction false} ContextOKShape<V>(F: seq<Frame<V>>, G: seq<Frame<V>>, h: nat)
    requires |F| == |G|
    requires forall i :: 0 <= i < |F| ==> F[i].color == G[i].color && F[i].sibling == G[i].sibling
    requires ContextOK(F, h)
    ensures ContextOK(G, h)
    decreases |F|
  {
    if |F| > 0 {
      ContextOKShape(Init(F), Init(G), h + Blk(Last(F).color));
    }
  }

  // ----- keys along a path -----

  /** What the hole holds lies on the side of the last frame the frame says. */
  lemma {:induction false} HoleSide<V>(F: seq<Frame<V>>, x: Tree<V>, i: int)
    requires |F| > 0 && Sorted(InOrder(PlugF(F, x))) && 0 <= i < |InOrder(x)|
    ensures Dir(Last(F).key, InOrder(x)[i].0) == Last(F).side
    ensures Last(F).key != InOrder(x)[i].0
  {
    var a, b := HolePositions(F, x, i);
  }

  /** Where the last frame's pair and the `i`-th pair of the hole sit in the
      in-order sequence of the plugged tree: the frame's pair comes first
      exactly when the hole is on its right. */
  lemma {:induction false} HolePositions<V>(F: seq<Frame<V>>, x: Tree<V>, i: int) returns (a: int, b: int)
    requires |F| > 0 && 0 <= i < |InOrder(x)|
    ensures 0 <= a < |InOrder(PlugF(F, x))| && 0 <= b < |InOrder(PlugF(F, x))|
    ensures InOrder(PlugF(F, x))[a] == (Last(F).key, Last(F).value)
    ensures InOrder(PlugF(F, x))[b] == InOrder(x)[i]
    ensures Last(F).side == Right ==> a < b
    ensures Last(F).side == Left ==> b < a
  {
    var f := Last(F);
    var A, X, B := CtxL(Init(F)), InOrder(x), CtxR(Init(F));
    PlugInOrder(F, x);
    var pr := [(f.key, f.value)];
    if f.side == Right {
      var L := A + InOrder(f.sibling) + pr;
      assert CtxL(F) == L;
      assert InOrder(PlugF(F, x)) == L + X + B;
      a, b := |L| - 1, |L| + i;
      assert (L + X + B)[a] == (f.key, f.value);
      assert (L + X + B)[b] == X[i];
    } else {
      var R := pr + InOrder(f.sibling) + B;
      assert CtxR(F) == R;
      assert InOrder(PlugF(F, x)) == A + X + R;
      a, b := |A| + |X|, |A| + i;
      assert (A + X + R)[a] == (f.key, f.value);
      assert (A + X + R)[b] == X[i];
    }
  }

  /** A subtree plugged into an ordered tree is ordered. */
  lemma {:induction false} PlugSortedHole<V>(F: seq<Frame<V>>, x: Tree<V>)
    requires Sorted(InOrder(PlugF(F, x)))
    ensures Sorted(InOrder(x))
  {
    PlugInOrder(F, x);
    SortedAppend(CtxL(F) + InOrder(x), CtxR(F));
    SortedAppend(CtxL(F), InOrder(x));
  }

  /** The children of an ordered node lie on the sides their keys point to. */
  lemma {:induction false} ChildSide<V>(t: Tree<V>, d: Side)
    requires t.Node? && Child(t, d).Node? && Sorted(InOrder(t))
    ensures Dir(t.key, Child(t, d).key) == d
  {
    var c := Child(t, d);
    var F := [FrameOf(t, d)];
    PlugOne(FrameOf(t, d), c);
    assert PlugF(F, c) == t;
    assert InOrder(c)[|InOrder(c.left)|] == (c.key, c.value);
    HoleSide(F, c, |InOrder(c.left)|);
  }

  // ----- rebuilding one level -----

  lemma {:induction false} PlugSnoc<V>(F: seq<Frame<V>>, f: Frame<V>, x: Tree<V>)
    ensures PlugF(F + [f], x) == PlugF(F, Attach(f, x))
  {
    assert Init(F + [f]) == F;
  }

  lemma {:induction false} CtxAppend<V>(F: seq<Frame<V>>, G: seq<Frame<V>>)
    ensures CtxL(F + G) == CtxL(F) + CtxL(G)
    ensures CtxR(F + G) == CtxR(G) + CtxR(F)
  {
    CtxLAppend(F, G);
    CtxRAppend(F, G);
  }

  lemma {:induction false} CtxLAppend<V>(F: seq<Frame<V>>, G: seq<Frame<V>>)
    ensures CtxL(F + G) == CtxL(F) + CtxL(G)
    decreases |G|
  {
    if |G| == 0 {
      assert F + G == F;
    } else {
      var f := Last(G);
      assert Init(F + G) == F + Init(G) && Last(F + G) == f;
      CtxLAppend(F, Init(G));
      var e := if f.side == Right then InOrder(f.sibling) + [(f.key, f.value)] else [];
      assert CtxL(F + G) == CtxL(F + Init(G)) + e;
      assert CtxL(G) == CtxL(Init(G)) + e;
    }
  }

  lemma {:induction false} CtxRAppend<V>(F: seq<Frame<V>>, G: seq<Frame<V>>)
    ensures CtxR(F + G) == CtxR(G) + CtxR(F)
    decreases |G|
  {
    if |G| == 0 {
      assert F + G == F;
    } else {
      var f := Last(G);
      assert Init(F + G) == F + Init(G) && Last(F + G) == f;
      CtxRAppend(F, Init(G));
      var e := if f.side == Left then [(f.key, f.value)] + InOrder(f.sibling) else [];
      assert CtxR(F + G) == e + CtxR(F + Init(G));
      assert CtxR(G) == e + CtxR(Init(G));
    }
  }

  /** The side of the last node of a path is the side its own key points to
      from the node above it. */
  lemma {:induction false} UpSideIsKeySide<V>(p: seq<Tree<V>>)
    requires AllNodes(p) && |p| > 0
    ensures AllNodes(Init(p)) && UpSide(p) == KeySide(Init(p), Last(p))
  {
  }

  /** Plugging `x` below the last node of `p` is plugging the clone of that
      node, with `x` as its child on side `s`, one level higher. */
  lemma {:induction false} PlugUp<V>(p: seq<Tree<V>>, s: Side, x: Tree<V>)
    requires AllNodes(p) && |p| > 0
    ensures AllNodes(Init(p))
    ensures PlugF(Frames(p, s), x) == PlugF(Frames(Init(p), UpSide(p)), WithChild(Last(p), s, x))
  {
    PlugSnoc(Frames(Init(p), UpSide(p)), FrameOf(Last(p), s), x);
  }

  /** A clone of the last node of a path (same key) hangs on the same side
      of the level above it. */
  lemma {:induction false} SameKeySameFrames<V>(p: seq<Tree<V>>, y: Tree<V>)
    requires AllNodes(p) && |p| > 0 && y.Node? && y.key == Last(p).key
    ensures AllNodes(Init(p))
    ensures Frames(Init(p), KeySide(Init(p), y)) == Frames(Init(p), UpSide(p))
  {
    if |p| == 1 {
      assert Frames(Init(p), KeySide(Init(p), y)) == [];
      assert Frames(Init(p), UpSide(p)) == [];
    }
  }

  /** One step of `clone_path`: attaching `x` below the last node of `p` on
      the side its key points to, then moving one level up, keeps the tree
      being rebuilt. */
  lemma {:induction false} ClonePathStep<V>(p: seq<Tree<V>>, x: Tree<V>)
    requires AllNodes(p) && |p| > 0 && x.Node?
    ensures AllNodes(Init(p))
    ensures var y := WithChild(Last(p), Dir(Last(p).key, x.key), x);
      PlugF(Frames(p, KeySide(p, x)), x) == PlugF(Frames(Init(p), KeySide(Init(p), y)), y)
  {
    var y := WithChild(Last(p), Dir(Last(p).key, x.key), x);
    PlugUp(p, KeySide(p, x), x);
    SameKeySameFrames(p, y);
  }

  // ----- keys along a context -----

  /** Every key of the hole lies, for every frame, on that frame's side. */
  lemma {:induction false} HoleSideAll<V>(F: seq<Frame<V>>, x: Tree<V>, i: int)
    requires Sorted(InOrder(PlugF(F, x))) && 0 <= i < |InOrder(x)|
    ensures forall j :: 0 <= j < |F| ==>
      F[j].side == Dir(F[j].key, InOrder(x)[i].0) && F[j].key != InOrder(x)[i].0
    decreases |F|
  {
    if |F| > 0 {
      var f := Last(F);
      var y := Attach(f, x);
      HoleSide(F, x, i);
      var i' := if f.side == Left then i else |InOrder(f.sibling)| + 1 + i;
      assert InOrder(y)[i'] == InOrder(x)[i];
      HoleSideAll(Init(F), y, i');
      assert forall j :: 0 <= j < |F| - 1 ==> F[j] == Init(F)[j];
    }
  }

  /** Each frame takes the side towards the key of the frame below it. */
  ghost predicate KeyConsistent<V>(F: seq<Frame<V>>)
  {
    forall j :: 0 <= j < |F| - 1 ==> F[j].side == Dir(F[j].key, F[j + 1].key)
  }

  lemma {:induction false} SortedKeyConsistent<V>(F: seq<Frame<V>>, x: Tree<V>)
    requires Sorted(InOrder(PlugF(F, x)))
    ensures KeyConsistent(F)
    decreases |F|
  {
    if |F| > 1 {
      var f := Last(F);
      var y := Attach(f, x);
      var i := if f.side == Left then |InOrder(x)| else |InOrder(f.sibling)|;
      assert InOrder(y)[i] == (f.key, f.value);
      HoleSideAll(Init(F), y, i);
      SortedKeyConsistent(Init(F), y);
      assert forall j :: 0 <= j < |F| - 1 ==> F[j] == Init(F)[j];
    }
  }

  /** A key the descent heads for through every frame: the keys visited
      before the hole are below it, those after it above it. */
  lemma {:induction false} HoleBounds<V>(F: seq<Frame<V>>, x: Tree<V>, key: int)
    requires Sorted(InOrder(PlugF(F, x)))
    requires forall j :: 0 <= j < |F| ==> F[j].side == Dir(F[j].key, key) && F[j].key != key
    ensures forall i :: 0 <= i < |CtxL(F)| ==> CtxL(F)[i].0 < key
    ensures forall i :: 0 <= i < |CtxR(F)| ==> key < CtxR(F)[i].0
    decreases |F|
  {
    if |F| > 0 {
      var f := Last(F);
      var y := Attach(f, x);
      assert forall j :: 0 <= j < |F| - 1 ==> F[j] == Init(F)[j];
      HoleBounds(Init(F), y, key);
      PlugSortedHole(Init(F), y);
      var s, m := InOrder(f.sibling), [(f.key, f.value)];
      if f.side == Right {
        SortedAppend(s + m, InOrder(x));
        SortedAppend(s, m);
        assert CtxL(F) == CtxL(Init(F)) + (s + m);
        forall i | 0 <= i < |s + m| ensures (s + m)[i].0 < key {
          if i < |s| { assert s[i].0 < m[0].0; }
        }
      } else {
        SortedAppend(InOrder(x) + m, s);
        SortedAppend(InOrder(x), m);
        assert CtxR(F) == (m + s) + CtxR(Init(F));
        forall i | 0 <= i < |m + s| ensures key < (m + s)[i].0 {
          if i > 0 {
            assert (InOrder(x) + m)[|InOrder(x)|] == m[0];
            assert m[0].0 < s[i - 1].0;
          }
        }
      }
    }
  }

  /** `clone_path` keeps the frames of the path when what it attaches holds
      a key of the subtree that hung there. */
  lemma {:induction false} KeySideStable<V>(p: seq<Tree<V>>, x: Tree<V>, y: Tree<V>, i: int)
    requires AllNodes(p) && x.Node? && y.Node?
    requires Sorted(InOrder(PlugF(Frames(p, KeySide(p, x)), x)))
    requires 0 <= i < |InOrder(x)| && InOrder(x)[i].0 == y.key
    ensures KeySide(p, y) == KeySide(p, x)
  {
    if |p| > 0 {
      var F := Frames(p, KeySide(p, x));
      assert Last(F) == FrameOf(Last(p), KeySide(p, x));
      HoleSide(F, x, i);
    }
  }

  // ----- the nodes of a plugged context -----

  /** The nodes from the root down to the hole's parent when `x` is plugged
      into `F`. */
  function PathOf<V>(F: seq<Frame<V>>, x: Tree<V>): (p: seq<Tree<V>>)
    ensures |p| == |F| && AllNodes(p)
    decreases |F|
  {
    if |F| == 0 then [] else PathOf(Init(F), Attach(Last(F), x)) + [Attach(Last(F), x)]
  }

  /** The frames of those nodes are the context itself. */
  lemma {:induction false} FramesOfPathOf<V>(F: seq<Frame<V>>, x: Tree<V>)
    requires |F| > 0 && KeyConsistent(F)
    ensures Frames(PathOf(F, x), Last(F).side) == F
    decreases |F|
  {
    var y := Attach(Last(F), x);
    var P := PathOf(F, x);
    assert Init(P) == PathOf(Init(F), y) && Last(P) == y;
    assert FrameOf(y, Last(F).side) == Last(F);
    if |F| > 1 {
      assert Last(PathOf(Init(F), y)) == Attach(Last(Init(F)), y);
      assert UpSide(P) == Last(Init(F)).side;
      assert KeyConsistent(Init(F));
      FramesOfPathOf(Init(F), y);
    }
    assert F == Init(F) + [Last(F)];
  }

  /** The frame at each level of a path: the node there and the side of
      the node below it (or `s` at the bottom). */
  lemma {:induction false} FramesAt<V>(p: seq<Tree<V>>, s: Side, j: int)
    requires AllNodes(p) && 0 <= j < |p|
    ensures Frames(p, s)[j] == FrameOf(p[j], if j == |p| - 1 then s else Dir(p[j].key, p[j + 1].key))
    decreases |p|
  {
    if j < |p| - 1 {
      FramesAt(Init(p), UpSide(p), j);
    }
  }

  /** A descent is the frames above its last node plugged with that node. */
  lemma {:induction false} PathPlugLast<V>(p: seq<Tree<V>>)
    requires IsPath(p) && |p| > 0
    ensures AllNodes(Init(p))
    ensures PlugF(Frames(Init(p), UpSide(p)), Last(p)) == p[0]
  {
    if |p| > 1 {
      assert Linked(p, |p| - 1);
      PathInit(p);
      PathPlug(Init(p), UpSide(p));
    }
  }

  /** A descent without its last node is still a descent. */
  lemma {:induction false} PathInit<V>(p: seq<Tree<V>>)
    requires IsPath(p) && |p| > 0
    ensures IsPath(Init(p))
  {
    var q := Init(p);
    forall i | 0 < i < |q| ensures Linked(q, i) {
      assert Linked(p, i) && q[i] == p[i] && q[i - 1] == p[i - 1];
    }
  }

  /** The context of the hole `clone_path` puts `n` into below path `p`. */
  ghost function Hole<V>(p: seq<Tree<V>>, n: Tree<V>): seq<Frame<V>>
    requires AllNodes(p)
  {
    Frames(p, KeySide(p, n))
  }

  /** The frames above the last node of a path: its hole as seen from its
      parent, with the side decided by keys. */
  ghost function Up<V>(P: seq<Tree<V>>): seq<Frame<V>>
    requires AllNodes(P) && |P| > 0
  {
    Frames(Init(P), UpSide(P))
  }

  /** Replacing the subtree in a hole by one with the same pairs keeps the
      pairs of the whole tree. */
  lemma {:induction false} SameInOrderInHole<V>(F: seq<Frame<V>>, x: Tree<V>, y: Tree<V>)
    requires InOrder(x) == InOrder(y)
    ensures InOrder(PlugF(F, x)) == InOrder(PlugF(F, y))
  {
    PlugInOrder(F, x);
    PlugInOrder(F, y);
  }

  /** Frames that all take the right-hand side contribute nothing after
      the hole. */
  lemma {:induction false} AllRightCtxR<V>(F: seq<Frame<V>>)
    requires forall j :: 0 <= j < |F| ==> F[j].side == Right
    ensures CtxR(F) == []
    decreases |F|
  {
    if |F| > 0 {
      assert forall j :: 0 <= j < |F| - 1 ==> Init(F)[j] == F[j];
      AllRightCtxR(Init(F));
    }
  }

  /** Below a black leaf (one black level) in a sound context, the parent
      with that leaf removed is deficient on the leaf's side, and the frames
      above it are sound for it. */
  lemma {:induction false} LeafDeficit<V>(F: seq<Frame<V>>)
    requires |F| > 0 && ContextOK(F, 1)
    ensures var f := Last(F);
      RBT(f.sibling) && BH(f.sibling) == 1 && (f.color == Red ==> !IsRed(f.sibling)) &&
      ContextOK(Init(F), BH(f.sibling) + Blk(f.color)) && Allows(Init(F), Attach(f, Leaf))
  {
  }
}
