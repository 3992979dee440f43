/** The public face of `immutable_map`: a root and a pair count. `insert`
    and `erase` return a new map built from clones of the nodes on one
    descent and share everything else with the old map, which stays as it
    was (here maps are values, so the old map cannot change). */
module ImmutableMaps {
  import opened RedBlack
  import opened Paths
  import opened Search
  import opened Cursor
  import opened Navigate
  import opened Insertion
  import opened Deletion

  datatype ImmutableMap<V> = ImmutableMap(root: Tree<V>, size: nat)

  /** What every map the class hands out satisfies: its root is a valid
      red-black tree, ordered by key, and `size` counts its pairs. */
  ghost predicate Valid<V>(m: ImmutableMap<V>)
  {
    IsRB(m.root) && Sorted(InOrder(m.root)) && m.size == |InOrder(m.root)|
  }

  /** The key/value map a map stands for. */
  ghost function Contents<V>(m: ImmutableMap<V>): map<int, V>
  {
    ToMap(m.root)
  }

  /** The default constructor: no root and no pairs. */
  function EmptyMap<V>(): (m: ImmutableMap<V>)
    ensures Valid(m) && Contents(m) == map[] && m.size == 0
  {
    ImmutableMap(Leaf, 0)
  }

  function Size<V>(m: ImmutableMap<V>): nat
  {
    m.size
  }

  /** `empty`: the pair count is zero. */
  function IsEmpty<V>(m: ImmutableMap<V>): (r: bool)
  {
    m.size == 0
  }

  /** `size` is the number of keys the map holds. */
  lemma {:induction false} SizeIsCount<V>(m: ImmutableMap<V>)
    requires Valid(m)
    ensures Size(m) == |Contents(m)|
  {
    ToMapInOrder(m.root);
    SeqToMapCard(InOrder(m.root));
  }

  /** `empty` holds exactly when the map holds no key. */
  lemma {:induction false} EmptyIffNoKeys<V>(m: ImmutableMap<V>)
    requires Valid(m)
    ensures IsEmpty(m) <==> Contents(m) == map[]
  {
    SizeIsCount(m);
    if Contents(m) != map[] {
      var k :| k in Contents(m);
      assert k in Contents(m).Keys;
    }
  }

  /** `foreach`: the pairs `f` is called with, in the order of the calls. */
  function Foreach<V>(m: ImmutableMap<V>): seq<Pair<V>>
  {
    if m.root.Node? then InOrder(m.root) else []
  }

  /** `foreach` visits every pair of the map once, in ascending key order,
      and each with the value the map holds for its key. */
  lemma {:induction false} ForeachVisitsAll<V>(m: ImmutableMap<V>)
    requires Valid(m)
    ensures var s := Foreach(m);
      Sorted(s) && |s| == m.size && SeqToMap(s) == Contents(m) &&
      (forall i :: 0 <= i < |s| ==> s[i].0 in Contents(m) && Contents(m)[s[i].0] == s[i].1) &&
      (forall k :: k in Contents(m) ==> exists i :: 0 <= i < |s| && s[i].0 == k)
  {
    var s := Foreach(m);
    assert s == InOrder(m.root);
    ToMapInOrder(m.root);
    forall i | 0 <= i < |s| ensures s[i].0 in Contents(m) && Contents(m)[s[i].0] == s[i].1 {
      SeqToMapAt(s, i);
    }
    forall k | k in Contents(m) ensures exists i :: 0 <= i < |s| && s[i].0 == k {
      SeqToMapKeys(s, k);
    }
  }

  datatype Verdict = Passed | Failed(why: Violation)

  /** `validate`: a red root fails first, then the checks of
      `node::validate` run on the root; the empty map passes. */
  function Validate<V>(m: ImmutableMap<V>): (r: Verdict)
    ensures r.Passed? <==> IsRB(m.root)
    ensures IsRed(m.root) ==> r == Failed(RootIsRed)
  {
    if IsRed(m.root) then Failed(RootIsRed)
    else if m.root.Leaf? then Passed
    else match ValidateNode(m.root)
      case Depth(_) => Passed
      case Violated(why) => Failed(why)
  }

  /** `contains`: `find` hits the key exactly when the map holds it. */
  method Contains<V>(m: ImmutableMap<V>, key: int) returns (b: bool)
    requires Valid(m)
    ensures b <==> key in Contents(m)
  {
    var p := new Path();
    b := Find(m.root, p, key);
    SearchFound(m.root, key);
  }

  /** What `at` gives back: the value, or the `out_of_range` it throws. */
  datatype Lookup<V> = Found(value: V) | KeyNotFound

  /** `at`: the value of the node `find` stopped on, when it holds the key. */
  method At<V>(m: ImmutableMap<V>, key: int) returns (r: Lookup<V>)
    requires Valid(m)
    ensures r.KeyNotFound? <==> key !in Contents(m)
    ensures r.Found? ==> key in Contents(m) && Contents(m)[key] == r.value
  {
    var p := new Path();
    var found := Find(m.root, p, key);
    SearchFound(m.root, key);
    if !found {
      return KeyNotFound;
    }
    HitValue(m.root, key);
    r := Found(p.GetNode().value);
  }

  /** `insert` (through `insert_imp(kvp)`): a key already present gets the
      new pair in a clone of its node and the ancestors are cloned above it;
      a new key goes in through `insert_imp(kvp, p)` and the count grows by
      one. Either way the result passes `validate`. */
  method Insert<V>(m: ImmutableMap<V>, key: int, value: V) returns (r: ImmutableMap<V>)
    requires Valid(m)
    ensures Valid(r) && Validate(r).Passed?
    ensures Contents(r) == Contents(m)[key := value]
    ensures r.size == if key in Contents(m) then m.size else m.size + 1
  {
    var p := new Path();
    var found := Find(m.root, p, key);
    SearchFound(m.root, key);
    if found {
      assert p.nodes == SearchPath(m.root, key);
      var newNode := WithPair(p.GetNode(), key, value);
      p.Pop();
      Replaced(m.root, key, value);
      var newRoot := ClonePath(p, newNode);
      r := ImmutableMap(newRoot, m.size);
    } else {
      ghost var G := Hole(p.nodes, Node(Red, key, value, Leaf, Leaf));
      var newRoot := InsertAtPath(m.root, key, value, p);
      Added(m.root, newRoot, CtxL(G), key, value, CtxR(G));
      r := ImmutableMap(newRoot, m.size + 1);
    }
  }

  /** `erase`: an absent key gives back the same map; otherwise
      `erase_imp` removes the node `find` stopped on and the count drops by
      one. Either way the result passes `validate`. */
  method Erase<V>(m: ImmutableMap<V>, key: int) returns (r: ImmutableMap<V>)
    requires Valid(m)
    ensures Valid(r) && Validate(r).Passed?
    ensures Contents(r) == Contents(m) - {key}
    ensures r.size == if key in Contents(m) then m.size - 1 else m.size
    ensures key !in Contents(m) ==> r == m
  {
    var p := new Path();
    var found := Find(m.root, p, key);
    SearchFound(m.root, key);
    if !found {
      assert Contents(m) - {key} == Contents(m);
      return m;
    }
    ghost var P := p.nodes;
    assert P == SearchPath(m.root, key);
    assert ErasePath(P) by {
      SearchPathFacts(m.root, key);
    }
    var newRoot := EraseImp(p);
    Removed(P, key);
    ToMapInOrder(newRoot);
    r := ImmutableMap(newRoot, m.size - 1);
  }

  // ----- laws of the map -----

  /** Two valid maps that hold the same keys and values have the same size
      and `foreach` visits the same pairs in the same order, whatever the
      shape of their trees. */
  lemma {:induction false} SameContentsSameForeach<V>(m1: ImmutableMap<V>, m2: ImmutableMap<V>)
    requires Valid(m1) && Valid(m2) && Contents(m1) == Contents(m2)
    ensures m1.size == m2.size && Foreach(m1) == Foreach(m2)
  {
    ForeachVisitsAll(m1);
    ForeachVisitsAll(m2);
    SortedUnique(Foreach(m1), Foreach(m2));
  }

  /** Erasing a key just inserted into a map that did not hold it gives back
      a map of the same size whose `foreach` visits the same pairs. */
  method EraseInsertRoundTrip<V>(m: ImmutableMap<V>, key: int, value: V) returns (r: ImmutableMap<V>)
    requires Valid(m) && key !in Contents(m)
    ensures Valid(r) && Contents(r) == Contents(m)
    ensures r.size == m.size && Foreach(r) == Foreach(m)
  {
    var grown := Insert(m, key, value);
    r := Erase(grown, key);
    assert Contents(r) == Contents(m);
    SameContentsSameForeach(r, m);
  }

  /** Inserting a key twice: the second value wins, and the size is that of
      the map after the first insert. */
  method InsertTwice<V>(m: ImmutableMap<V>, key: int, v1: V, v2: V) returns (once: ImmutableMap<V>, twice: ImmutableMap<V>, got: Lookup<V>)
    requires Valid(m)
    ensures Valid(once) && Valid(twice)
    ensures twice.size == once.size && got == Found(v2)
  {
    once := Insert(m, key, v1);
    twice := Insert(once, key, v2);
    got := At(twice, key);
  }

  /** The pairs (10, 3.14), (15, 6.28) and (20, 3.14) go into the empty map
      and 15 is erased again: the last map has two pairs, in key order, and
      the map before the erase still holds all three. */
  method Scenario() returns (map3: ImmutableMap<real>, map4: ImmutableMap<real>,
                             has11: bool, at10: Lookup<real>, has15: bool)
    ensures map4.size == 2 && !has11 && at10 == Found(3.14)
    ensures Foreach(map4) == [(10, 3.14), (20, 3.14)]
    ensures map3.size == 3 && has15
  {
    var map0 := EmptyMap();
    var map1 := Insert(map0, 10, 3.14);
    assert Contents(map1) == map[10 := 3.14];
    var map2 := Insert(map1, 15, 6.28);
    assert Contents(map2) == map[10 := 3.14, 15 := 6.28];
    map3 := Insert(map2, 20, 3.14);
    assert Contents(map3) == map[10 := 3.14, 15 := 6.28, 20 := 3.14];
    map4 := Erase(map3, 15);
    assert Contents(map4) == map[10 := 3.14, 20 := 3.14];
    has11 := Contains(map4, 11);
    at10 := At(map4, 10);
    has15 := Contains(map3, 15);
    TwoPairs(map4);
  }

  /** A valid map holding exactly 10 -> 3.14 and 20 -> 3.14 is visited as
      those two pairs, in that order. */
  lemma {:induction false} TwoPairs(m: ImmutableMap<real>)
    requires Valid(m) && Contents(m) == map[10 := 3.14, 20 := 3.14]
    ensures Foreach(m) == [(10, 3.14), (20, 3.14)]
  {
    var s: seq<Pair<real>> := [(10, 3.14), (20, 3.14)];
    assert SeqToMap(s) == map[10 := 3.14, 20 := 3.14] by {
      assert s[..1] == [(10, 3.14)] && s[..1][..0] == [];
    }
    ForeachVisitsAll(m);
    SortedUnique(Foreach(m), s);
  }

  // ----- what the operations do to the map -----

  /** When `find` hits the key, the node it stopped on holds the value the
      map gives for that key. */
  lemma {:induction false} HitValue<V>(t: Tree<V>, key: int)
    requires Sorted(InOrder(t)) && Hit(SearchPath(t, key), key)
    ensures key in ToMap(t) && ToMap(t)[key] == Last(SearchPath(t, key)).value
  {
    var P := SearchPath(t, key);
    var z := Last(P);
    SearchHitPlug(t, key);
    var U := Frames(Init(P), UpSide(P));
    PlugInOrder(U, z);
    var A, B := CtxL(U) + InOrder(z.left), InOrder(z.right) + CtxR(U);
    RegroupedMid(CtxL(U), InOrder(z.left), [(z.key, z.value)], InOrder(z.right), CtxR(U));
    assert InOrder(t) == A + [(key, z.value)] + B;
    assert InOrder(t)[|A|] == (key, z.value);
    SeqToMapAt(InOrder(t), |A|);
    ToMapInOrder(t);
  }

  /** Replacing the pair of the node `find` hit and cloning the path above
      it gives a valid, ordered tree with as many pairs, whose map is the
      old one with the key bound to the new value. */
  lemma {:induction false} Replaced<V>(t: Tree<V>, key: int, value: V)
    requires IsRB(t) && Sorted(InOrder(t)) && Hit(SearchPath(t, key), key)
    ensures AllNodes(Init(SearchPath(t, key)))
    ensures var P := SearchPath(t, key);
      var y := WithPair(Last(P), key, value);
      var u := PlugF(Frames(Init(P), KeySide(Init(P), y)), y);
      IsRB(u) && Sorted(InOrder(u)) && |InOrder(u)| == |InOrder(t)| &&
      ToMap(u) == ToMap(t)[key := value]
  {
    var P := SearchPath(t, key);
    var z := Last(P);
    var y := WithPair(z, key, value);
    SearchHitPlug(t, key);
    var U := Frames(Init(P), UpSide(P));
    SameKeySameFrames(P, y);
    assert RBT(z) && ContextOK(U, BH(z)) && Allows(U, z) by {
      PlugRBInv(U, z);
    }
    PlugRB(U, y);
    PlugInOrder(U, z);
    PlugInOrder(U, y);
    var A, B := CtxL(U) + InOrder(z.left), InOrder(z.right) + CtxR(U);
    RegroupedMid(CtxL(U), InOrder(z.left), [(z.key, z.value)], InOrder(z.right), CtxR(U));
    RegroupedMid(CtxL(U), InOrder(z.left), [(key, value)], InOrder(z.right), CtxR(U));
    var u := PlugF(U, y);
    assert InOrder(t) == A + [(key, z.value)] + B;
    assert InOrder(u) == A + [(key, value)] + B;
    MapReplaced(A, key, z.value, value, B);
    ToMapInOrder(t);
    ToMapInOrder(u);
  }

  /** `insert_imp(kvp, p)` on a miss: the map gains the key and the tree one
      pair. */
  lemma {:induction false} Added<V>(t: Tree<V>, u: Tree<V>, A: seq<Pair<V>>, key: int, value: V, B: seq<Pair<V>>)
    requires InOrder(t) == A + B && InOrder(u) == A + [(key, value)] + B && Sorted(InOrder(u))
    ensures key !in ToMap(t) && ToMap(u) == ToMap(t)[key := value]
    ensures |InOrder(u)| == |InOrder(t)| + 1
  {
    MapInserted(A, key, value, B);
    ToMapInOrder(t);
    ToMapInOrder(u);
  }

  /** `erase_imp` on the path `find` left: the pairs left are the old ones
      without the key, one fewer, and still ordered. */
  lemma {:induction false} Removed<V>(P: seq<Tree<V>>, key: int)
    requires ErasePath(P) && Last(P).key == key
    ensures Sorted(Erased(P)) && |Erased(P)| + 1 == |InOrder(P[0])|
    ensures SeqToMap(Erased(P)) == ToMap(P[0]) - {key}
  {
    var z := Last(P);
    Base(P);
    var U := Up(P);
    var A, B := CtxL(U) + InOrder(z.left), InOrder(z.right) + CtxR(U);
    RegroupedMid(CtxL(U), InOrder(z.left), [(z.key, z.value)], InOrder(z.right), CtxR(U));
    Regrouped(CtxL(U), InOrder(z.left), InOrder(z.right), CtxR(U));
    assert InOrder(P[0]) == A + [(key, z.value)] + B;
    assert Erased(P) == A + B;
    MapRemoved(A, key, z.value, B);
    ToMapInOrder(P[0]);
  }

  // ----- maps of sorted sequences -----

  /** In a sorted sequence a pair's key occurs nowhere before or after it. */
  lemma {:induction false} SplitMap<V>(A: seq<Pair<V>>, k: int, v: V, B: seq<Pair<V>>)
    requires Sorted(A + [(k, v)] + B)
    ensures SeqToMap(A + [(k, v)] + B) == SeqToMap(A) + map[k := v] + SeqToMap(B)
    ensures SeqToMap(A + B) == SeqToMap(A) + SeqToMap(B)
    ensures k !in SeqToMap(A) && k !in SeqToMap(B)
  {
    var s := A + [(k, v)] + B;
    SeqToMapAppend(A + [(k, v)], B);
    SeqToMapAppend(A, [(k, v)]);
    SeqToMapAppend(A, B);
    assert SeqToMap([(k, v)]) == map[k := v] by {
      assert [(k, v)][..0] == [];
    }
    forall i | 0 <= i < |A| ensures A[i].0 < k {
      assert s[i] == A[i] && s[|A|] == (k, v);
    }
    forall j | 0 <= j < |B| ensures k < B[j].0 {
      assert s[|A| + 1 + j] == B[j] && s[|A|] == (k, v);
    }
    SeqToMapKeys(A, k);
    SeqToMapKeys(B, k);
  }

  /** A new value for a key keeps the order and rebinds only that key. */
  lemma {:induction false} MapReplaced<V>(A: seq<Pair<V>>, k: int, v0: V, v: V, B: seq<Pair<V>>)
    requires Sorted(A + [(k, v0)] + B)
    ensures Sorted(A + [(k, v)] + B)
    ensures SeqToMap(A + [(k, v)] + B) == SeqToMap(A + [(k, v0)] + B)[k := v]
  {
    var s0, s := A + [(k, v0)] + B, A + [(k, v)] + B;
    assert forall i :: 0 <= i < |s| ==> s[i].0 == s0[i].0;
    SplitMap(A, k, v0, B);
    SplitMap(A, k, v, B);
    Rebound(SeqToMap(A), k, v0, v, SeqToMap(B));
  }

  lemma {:induction false} Rebound<V>(a: map<int, V>, k: int, v0: V, v: V, b: map<int, V>)
    requires k !in b
    ensures a + map[k := v] + b == (a + map[k := v0] + b)[k := v]
  {
  }

  /** A pair placed in order adds its key to the map of the rest. */
  lemma {:induction false} MapInserted<V>(A: seq<Pair<V>>, k: int, v: V, B: seq<Pair<V>>)
    requires Sorted(A + [(k, v)] + B)
    ensures k !in SeqToMap(A + B)
    ensures SeqToMap(A + [(k, v)] + B) == SeqToMap(A + B)[k := v]
  {
    SplitMap(A, k, v, B);
  }

  /** Dropping a pair of a sorted sequence removes just its key. */
  lemma {:induction false} MapRemoved<V>(A: seq<Pair<V>>, k: int, v: V, B: seq<Pair<V>>)
    requires Sorted(A + [(k, v)] + B)
    ensures SeqToMap(A + B) == SeqToMap(A + [(k, v)] + B) - {k}
  {
    SplitMap(A, k, v, B);
  }
}
