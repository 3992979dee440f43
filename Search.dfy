/** The descent `find` performs from a root towards a key, and what the path
    it leaves behind says about the tree. */
module Search {
  import opened RedBlack
  import opened Paths

  /** The nodes `find` pushes while looking for `key` below `t`: it goes left
      when a node's key is greater than `key`, right otherwise, and stops at
      the node holding `key` or below a leaf. */
  function SearchPath<V>(t: Tree<V>, key: int): (p: seq<Tree<V>>)
    ensures AllNodes(p) && (|p| > 0 <==> t.Node?) && (|p| > 0 ==> p[0] == t)
    ensures forall i :: 0 <= i < |p| - 1 ==> p[i].key != key
    ensures |p| > 0 && Last(p).key != key ==> Child(Last(p), Dir(Last(p).key, key)) == Leaf
    decreases t
  {
    match t
    case Leaf => []
    case Node(_, k, _, l, r) =>
      if k == key then [t]
      else if k > key then [t] + SearchPath(l, key)
      else [t] + SearchPath(r, key)
  }

  /** The search ended on the node holding `key`. */
  predicate Hit<V>(p: seq<Tree<V>>, key: int)
    requires AllNodes(p)
  {
    |p| > 0 && Last(p).key == key
  }

  /** In an ordered tree the search hits exactly when the key is present. */
  lemma {:induction false} SearchFound<V>(t: Tree<V>, key: int)
    requires Sorted(InOrder(t))
    ensures Hit(SearchPath(t, key), key) <==> key in ToMap(t)
  {
    OrderedIffSorted(t);
    SearchFoundOrdered(t, key);
  }

  lemma {:induction false} SearchFoundOrdered<V>(t: Tree<V>, key: int)
    requires Ordered(t)
    ensures Hit(SearchPath(t, key), key) <==> key in ToMap(t)
    decreases t
  {
    if t.Node? && t.key != key {
      var c := if t.key > key then t.left else t.right;
      SearchFoundOrdered(c, key);
      var q := SearchPath(c, key);
      assert SearchPath(t, key) == [t] + q;
      if |q| > 0 {
        assert Last([t] + q) == Last(q);
      }
    }
  }

  /** Every node of `p` but the last takes the side towards `key`. */
  predicate HeadsFor<V>(p: seq<Tree<V>>, key: int)
    requires AllNodes(p)
  {
    forall j :: 0 <= j < |p| - 1 ==> Dir(p[j].key, p[j + 1].key) == Dir(p[j].key, key)
  }

  /** In an ordered tree the search path is a root-to-target descent whose
      every node heads towards `key`, and every node on it is ordered. */
  lemma {:induction false} SearchPathFacts<V>(t: Tree<V>, key: int)
    requires Sorted(InOrder(t))
    ensures IsPath(SearchPath(t, key))
    ensures HeadsFor(SearchPath(t, key), key)
    ensures forall j :: 0 <= j < |SearchPath(t, key)| ==> Sorted(InOrder(SearchPath(t, key)[j]))
    decreases t
  {
    if t.Node? && t.key != key {
      var d := Dir(t.key, key);
      var c := Child(t, d);
      PlugOne(FrameOf(t, d), c);
      PlugSortedHole([FrameOf(t, d)], c);
      SearchPathFacts(c, key);
      var q := SearchPath(c, key);
      var p := [t] + q;
      assert SearchPath(t, key) == p;
      assert forall j :: 0 <= j < |q| ==> Sorted(InOrder(q[j]));

      if c.Node? {
        ChildSide(t, d);
      }
      forall i | 0 < i < |p| ensures Linked(p, i) {
        if i > 1 {
          assert Linked(q, i - 1) && p[i] == q[i - 1] && p[i - 1] == q[i - 2];
        }
      }
      assert HeadsFor(q, key);
      forall j | 0 <= j < |p| - 1 ensures Dir(p[j].key, p[j + 1].key) == Dir(p[j].key, key) {
        if j > 0 {
          assert p[j] == q[j - 1] && p[j + 1] == q[j];
        } else {
          assert p[0] == t && p[1] == q[0] == c;
        }
      }
      forall j | 0 <= j < |p| ensures Sorted(InOrder(p[j])) {
        if j > 0 {
          assert p[j] == q[j - 1];
        }
      }
    }
  }

  /** When the search hits, the tree is the frames above the found node
      plugged with that node. */
  lemma {:induction false} SearchHitPlug<V>(t: Tree<V>, key: int)
    requires Sorted(InOrder(t)) && Hit(SearchPath(t, key), key)
    ensures var p := SearchPath(t, key);
      IsPath(p) && AllNodes(Init(p)) && PlugF(Frames(Init(p), UpSide(p)), Last(p)) == t
  {
    SearchPathFacts(t, key);
    PathPlugLast(SearchPath(t, key));
  }

  /** When the search misses, the tree is its frames plugged with the empty
      leaf where `find` stopped, and a pair with `key` fits in that hole
      without breaking the ordering. */
  lemma {:induction false} SearchMissPlug<V>(t: Tree<V>, key: int, v: V)
    requires Sorted(InOrder(t)) && t.Node? && !Hit(SearchPath(t, key), key)
    ensures var p := SearchPath(t, key);
      var F := Frames(p, Dir(Last(p).key, key));
      PlugF(F, Leaf) == t && InOrder(t) == CtxL(F) + CtxR(F) &&
      Sorted(CtxL(F) + [(key, v)] + CtxR(F))
  {
    var p := SearchPath(t, key);
    var s := Dir(Last(p).key, key);
    var F := Frames(p, s);
    SearchPathFacts(t, key);
    PathPlug(p, s);
    PlugInOrder(F, Leaf);
    forall j | 0 <= j < |F| ensures F[j].side == Dir(F[j].key, key) && F[j].key != key {
      FramesAt(p, s, j);
    }
    HoleBounds(F, Leaf, key);
    var A, B := CtxL(F), CtxR(F);
    assert InOrder(t) == A + B;
    SortedAppend(A, B);
    SortedAppend(A, [(key, v)]);
    SortedAppend(A + [(key, v)], B);
  }

  /** Following a key through every frame of a context leads the search
      along the nodes of the context and on into the plugged subtree; this
      is how `find` on a freshly rebuilt tree retraces a known path. */
  lemma {:induction false} SearchThrough<V>(F: seq<Frame<V>>, x: Tree<V>, key: int)
    requires forall j :: 0 <= j < |F| ==> F[j].side == Dir(F[j].key, key) && F[j].key != key
    ensures SearchPath(PlugF(F, x), key) == PathOf(F, x) + SearchPath(x, key)
    decreases |F|
  {
    if |F| > 0 {
      var f := Last(F);
      var y := Attach(f, x);
      assert forall j :: 0 <= j < |F| - 1 ==> F[j] == Init(F)[j];
      SearchThrough(Init(F), y, key);
      assert SearchPath(y, key) == [y] + SearchPath(x, key);
    }
  }

  /** In an ordered tree, searching for the key of the last frame of a
      context retraces exactly the nodes of the context. */
  lemma {:induction false} SearchPlug<V>(F: seq<Frame<V>>, x: Tree<V>)
    requires |F| > 0 && Sorted(InOrder(PlugF(F, x)))
    ensures SearchPath(PlugF(F, x), Last(F).key) == PathOf(F, x)
  {
    var f := Last(F);
    var y := Attach(f, x);
    var i := if f.side == Left then |InOrder(x)| else |InOrder(f.sibling)|;
    assert InOrder(y)[i] == (f.key, f.value);
    HoleSideAll(Init(F), y, i);
    SearchThrough(Init(F), y, f.key);
    assert SearchPath(y, f.key) == [y];
  }
}
