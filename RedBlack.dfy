/** Nodes of the persistent red-black tree, the invariants that `validate`
    checks, and the abstract meaning of a tree: its in-order sequence of
    pairs (what `foreach` visits) and the map it denotes. */
module RedBlack {

  datatype Color = Red | Black
  datatype Side = Left | Right

  /** `1 - side` in the source. */
  function Other(s: Side): Side { if s == Left then Right else Left }

  /** The side a descent towards `key` takes below a node holding `nodeKey`:
      left when the node's key is greater, right otherwise. */
  function Dir(nodeKey: int, key: int): Side { if nodeKey > key then Left else Right }

  /** A node holds a key/value pair, a colour and two children indexed by a
      side; `Leaf` stands for an absent child (a null reference). */
  datatype Tree<V> = Leaf | Node(color: Color, key: int, value: V, left: Tree<V>, right: Tree<V>)

  type Pair<V> = (int, V)

  function Child<V>(t: Tree<V>, s: Side): Tree<V>
    requires t.Node?
  {
    if s == Left then t.left else t.right
  }

  /** A clone of `t` whose child on side `s` is `c` (`clone` then `set_child`). */
  function WithChild<V>(t: Tree<V>, s: Side, c: Tree<V>): (r: Tree<V>)
    requires t.Node?
    ensures r.Node? && r.color == t.color && r.key == t.key && r.value == t.value
    ensures Child(r, s) == c && Child(r, Other(s)) == Child(t, Other(s))
  {
    if s == Left then t.(left := c) else t.(right := c)
  }

  /** A clone of `t` with colour `c` (`clone` then `set_color`). */
  function WithColor<V>(t: Tree<V>, c: Color): (r: Tree<V>)
    requires t.Node?
    ensures r.Node? && r.color == c && r.key == t.key && r.value == t.value
    ensures r.left == t.left && r.right == t.right
  {
    t.(color := c)
  }

  /** A clone of `t` holding the pair `(k, v)` (`clone` then `set_pair`). */
  function WithPair<V>(t: Tree<V>, k: int, v: V): (r: Tree<V>)
    requires t.Node?
    ensures r.Node? && r.color == t.color && r.key == k && r.value == v
    ensures r.left == t.left && r.right == t.right
  {
    t.(key := k, value := v)
  }

  predicate IsRed<V>(t: Tree<V>) { t.Node? && t.color == Red }

  /** `has_red_child`: some child exists and is red. */
  predicate HasRedChild<V>(t: Tree<V>)
    requires t.Node?
  {
    IsRed(t.left) || IsRed(t.right)
  }

  /** What a node of colour `c` adds to the black depth. */
  function Blk(c: Color): nat { if c == Black then 1 else 0 }

  /** Black depth measured along the left spine, as `validate` counts it. */
  function BH<V>(t: Tree<V>): nat
  {
    match t
    case Leaf => 0
    case Node(c, _, _, l, _) => BH(l) + Blk(c)
  }

  /** No red node has a red child and both children of every node have the
      same black depth (the colour of the root is free). */
  predicate RBT<V>(t: Tree<V>)
  {
    match t
    case Leaf => true
    case Node(c, _, _, l, r) =>
      RBT(l) && RBT(r) && BH(l) == BH(r) && (c == Red ==> !IsRed(l) && !IsRed(r))
  }

  /** The invariant a published root satisfies. */
  predicate IsRB<V>(t: Tree<V>) { RBT(t) && !IsRed(t) }

  /** The pairs of `t` in the order `node::foreach` visits them: left
      subtree, the node's pair, right subtree. */
  function InOrder<V>(t: Tree<V>): seq<Pair<V>>
  {
    match t
    case Leaf => []
    case Node(_, k, v, l, r) => InOrder(l) + [(k, v)] + InOrder(r)
  }

  /** Keys strictly ascending. */
  predicate Sorted<V>(s: seq<Pair<V>>)
  {
    forall i, j :: 0 <= i < j < |s| ==> s[i].0 < s[j].0
  }

  /** The map a sequence of pairs denotes (a later pair wins). */
  function SeqToMap<V>(s: seq<Pair<V>>): map<int, V>
  {
    if |s| == 0 then map[] else SeqToMap(s[..|s| - 1])[s[|s| - 1].0 := s[|s| - 1].1]
  }

  /** The map a tree denotes. */
  function ToMap<V>(t: Tree<V>): map<int, V>
  {
    match t
    case Leaf => map[]
    case Node(_, k, v, l, r) => ToMap(l) + map[k := v] + ToMap(r)
  }

  /** Binary-search-tree ordering: every key of the left subtree is smaller
      and every key of the right subtree greater than the node's key. */
  predicate Ordered<V>(t: Tree<V>)
  {
    match t
    case Leaf => true
    case Node(_, k, _, l, r) =>
      Ordered(l) && Ordered(r) &&
      (forall x :: x in ToMap(l) ==> x < k) &&
      (forall x :: x in ToMap(r) ==> k < x)
  }

  // ----- sequences of pairs -----

  lemma {:induction false} SortedAppend<V>(a: seq<Pair<V>>, b: seq<Pair<V>>)
    ensures Sorted(a + b) <==>
      Sorted(a) && Sorted(b) && forall i, j :: 0 <= i < |a| && 0 <= j < |b| ==> a[i].0 < b[j].0
  {
    if Sorted(a + b) {
      forall i, j | 0 <= i < |a| && 0 <= j < |b| ensures a[i].0 < b[j].0 {
        assert (a + b)[i] == a[i] && (a + b)[|a| + j] == b[j];
      }
      forall i, j | 0 <= i < j < |a| ensures a[i].0 < a[j].0 {
        assert (a + b)[i] == a[i] && (a + b)[j] == a[j];
      }
      forall i, j | 0 <= i < j < |b| ensures b[i].0 < b[j].0 {
        assert (a + b)[|a| + i] == b[i] && (a + b)[|a| + j] == b[j];
      }
    }
  }

  lemma {:induction false} SeqToMapAppend<V>(a: seq<Pair<V>>, b: seq<Pair<V>>)
    ensures SeqToMap(a + b) == SeqToMap(a) + SeqToMap(b)
    decreases |b|
  {
    if |b| == 0 {
      assert a + b == a;
    } else {
      var b' := b[..|b| - 1];
      assert (a + b)[..|a + b| - 1] == a + b';
      SeqToMapAppend(a, b');
    }
  }

  lemma {:induction false} SeqToMapKeys<V>(s: seq<Pair<V>>, k: int)
    ensures k in SeqToMap(s) <==> exists i :: 0 <= i < |s| && s[i].0 == k
    decreases |s|
  {
    if |s| > 0 {
      var s' := s[..|s| - 1];
      SeqToMapKeys(s', k);
      if k in SeqToMap(s') {
        var i :| 0 <= i < |s'| && s'[i].0 == k;
        assert s[i].0 == k;
      }
      if exists i :: 0 <= i < |s| && s[i].0 == k {
        var i :| 0 <= i < |s| && s[i].0 == k;
        if i < |s| - 1 { assert s'[i].0 == k; }
      }
    }
  }

  /** In a sorted sequence every pair is what the map gives for its key. */
  lemma {:induction false} SeqToMapAt<V>(s: seq<Pair<V>>, i: int)
    requires Sorted(s) && 0 <= i < |s|
    ensures s[i].0 in SeqToMap(s) && SeqToMap(s)[s[i].0] == s[i].1
    decreases |s|
  {
    if i < |s| - 1 {
      var s' := s[..|s| - 1];
      assert s'[i] == s[i];
      SeqToMapAt(s', i);
    }
  }

  /** A sorted sequence of pairs is determined by the map it denotes: two
      sorted sequences with the same map are equal. */
  lemma {:induction false} SortedUnique<V>(s: seq<Pair<V>>, t: seq<Pair<V>>)
    requires Sorted(s) && Sorted(t) && SeqToMap(s) == SeqToMap(t)
    ensures s == t
    decreases |s| + |t|
  {
    if |s| == 0 {
      if |t| > 0 {
        SeqToMapAt(t, 0);
        assert false;
      }
    } else if |t| == 0 {
      SeqToMapAt(s, 0);
      assert false;
    } else {
      var a, b := s[|s| - 1], t[|t| - 1];
      assert a == b by { SameLast(s, t); }
      var s', t' := s[..|s| - 1], t[..|t| - 1];
      SeqToMapDropLast(s);
      SeqToMapDropLast(t);
      SortedUnique(s', t');
      assert s == s' + [a] && t == t' + [b];
    }
  }

  /** Two non-empty sorted sequences with the same map end in the same pair:
      the one with the largest key. */
  lemma {:induction false} SameLast<V>(s: seq<Pair<V>>, t: seq<Pair<V>>)
    requires Sorted(s) && Sorted(t) && SeqToMap(s) == SeqToMap(t) && |s| > 0 && |t| > 0
    ensures s[|s| - 1] == t[|t| - 1]
  {
    var a, b := s[|s| - 1], t[|t| - 1];
    SeqToMapAt(s, |s| - 1);
    SeqToMapAt(t, |t| - 1);
    SeqToMapKeys(t, a.0);
    SeqToMapKeys(s, b.0);
  }

  /** Dropping the last pair of a sorted sequence drops its key from the map. */
  lemma {:induction false} SeqToMapDropLast<V>(s: seq<Pair<V>>)
    requires Sorted(s) && |s| > 0
    ensures Sorted(s[..|s| - 1])
    ensures SeqToMap(s[..|s| - 1]) == SeqToMap(s) - {s[|s| - 1].0}
  {
    var s' := s[..|s| - 1];
    SeqToMapKeys(s', s[|s| - 1].0);
  }

  /** A sorted sequence of pairs has as many pairs as its map has keys. */
  lemma {:induction false} SeqToMapCard<V>(s: seq<Pair<V>>)
    requires Sorted(s)
    ensures |SeqToMap(s)| == |s|
    decreases |s|
  {
    if |s| > 0 {
      var s' := s[..|s| - 1];
      SeqToMapCard(s');
      var last := s[|s| - 1].0;
      SeqToMapKeys(s', last);
      assert SeqToMap(s).Keys == SeqToMap(s').Keys + {last};
    }
  }

  // ----- trees and their abstraction -----

  /** `foreach` and the map agree: the map of a tree is the map of the
      sequence `foreach` visits. */
  lemma {:induction false} ToMapInOrder<V>(t: Tree<V>)
    ensures ToMap(t) == SeqToMap(InOrder(t))
  {
    if t.Node? {
      ToMapInOrder(t.left);
      ToMapInOrder(t.right);
      SeqToMapAppend(InOrder(t.left) + [(t.key, t.value)], InOrder(t.right));
      SeqToMapAppend(InOrder(t.left), [(t.key, t.value)]);
      assert SeqToMap([(t.key, t.value)]) == map[t.key := t.value] by {
        assert [(t.key, t.value)][..0] == [];
      }
    }
  }

  lemma {:induction false} KeyInOrder<V>(t: Tree<V>, k: int)
    ensures k in ToMap(t) <==> exists i :: 0 <= i < |InOrder(t)| && InOrder(t)[i].0 == k
  {
    ToMapInOrder(t);
    SeqToMapKeys(InOrder(t), k);
  }

  /** The binary-search-tree ordering holds exactly when `foreach` visits
      keys in strictly ascending order. */
  lemma {:induction false} OrderedIffSorted<V>(t: Tree<V>)
    ensures Ordered(t) <==> Sorted(InOrder(t))
  {
    if t.Node? {
      var l, r := InOrder(t.left), InOrder(t.right);
      var m := [(t.key, t.value)];
      OrderedIffSorted(t.left);
      OrderedIffSorted(t.right);
      SortedAppend(l + m, r);
      SortedAppend(l, m);
      if Sorted(InOrder(t)) {
        forall x | x in ToMap(t.left) ensures x < t.key {
          KeyInOrder(t.left, x);
          var i :| 0 <= i < |l| && l[i].0 == x;
          assert (l + m)[i] == l[i] && (l + m)[|l|] == (t.key, t.value);
        }
        forall x | x in ToMap(t.right) ensures t.key < x {
          KeyInOrder(t.right, x);
          var j :| 0 <= j < |r| && r[j].0 == x;
          assert (l + m)[|l|] == (t.key, t.value);
        }
      }
      if Ordered(t) {
        forall i, j | 0 <= i < |l| && 0 <= j < |m| ensures l[i].0 < m[j].0 {
          KeyInOrder(t.left, l[i].0);
        }
        forall i, j | 0 <= i < |l + m| && 0 <= j < |r| ensures (l + m)[i].0 < r[j].0 {
          KeyInOrder(t.right, r[j].0);
          if i < |l| { KeyInOrder(t.left, l[i].0); }
        }
      }
    }
  }

  // ----- validate -----

  datatype Violation = RootIsRed | RedNodeWithRedChild | InvalidBlackDepth

  /** What `node::validate` produces: the black depth of the subtree, or
      the first violation it throws. */
  datatype Checked = Depth(depth: nat) | Violated(why: Violation)

  /** `node::validate`: first the red node's children, then the left
      subtree, then the right one, then equal black depths. */
  function ValidateNode<V>(t: Tree<V>): (r: Checked)
    requires t.Node?
    ensures r.Depth? <==> RBT(t)
    ensures r.Depth? ==> r.depth == BH(t)
  {
    var depth := if t.color == Red then 0 else 1;
    if t.color == Red && (IsRed(t.left) || IsRed(t.right)) then Violated(RedNodeWithRedChild)
    else
      var d1 := if t.left.Node? then ValidateNode(t.left) else Depth(0);
      if d1.Violated? then d1
      else
        var d2 := if t.right.Node? then ValidateNode(t.right) else Depth(0);
        if d2.Violated? then d2
        else if d1.depth != d2.depth then Violated(InvalidBlackDepth)
        else Depth(d1.depth + depth)
  }
}
