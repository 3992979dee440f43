/** The `path` class of the source: a stack of the nodes visited from the
    root down to the current node. */
module Cursor {
  import opened RedBlack

  /** The stack is an unbounded sequence; the source keeps it in a fixed
      array of `sizeof(size_t) * 16` slots. An absent node is `Leaf`, the
      model of `nullptr`. */
  class Path<V> {
    var nodes: seq<Tree<V>>

    constructor()
      ensures nodes == []
    {
      nodes := [];
    }

    /** The current (deepest) node, or none on an empty path. */
    function GetNode(): (r: Tree<V>)
      reads this
      ensures |nodes| > 0 ==> r == nodes[|nodes| - 1]
      ensures |nodes| == 0 ==> r == Leaf
    {
      if |nodes| > 0 then nodes[|nodes| - 1] else Leaf
    }

    /** The node above the current one, or none. */
    function GetParent(): (r: Tree<V>)
      reads this
      ensures |nodes| > 1 ==> r == nodes[|nodes| - 2]
      ensures |nodes| <= 1 ==> r == Leaf
    {
      if |nodes| > 1 then nodes[|nodes| - 2] else Leaf
    }

    /** The node two levels above the current one, or none. */
    function GetGrandParent(): (r: Tree<V>)
      reads this
      ensures |nodes| > 2 ==> r == nodes[|nodes| - 3]
      ensures |nodes| <= 2 ==> r == Leaf
    {
      if |nodes| > 2 then nodes[|nodes| - 3] else Leaf
    }

    /** The node at depth `n` (the root is at depth 0); the slots above the
        current node hold none. */
    function Get(n: nat): (r: Tree<V>)
      reads this
      ensures n < |nodes| ==> r == nodes[n]
      ensures n >= |nodes| ==> r == Leaf
    {
      if n < |nodes| then nodes[n] else Leaf
    }

    method Push(t: Tree<V>)
      modifies this
      ensures nodes == old(nodes) + [t]
    {
      nodes := nodes + [t];
    }

    method Pop()
      modifies this
      requires |nodes| > 0
      ensures nodes == old(nodes)[..|old(nodes)| - 1]
    {
      nodes := nodes[..|nodes| - 1];
    }

    function Empty(): (r: bool)
      reads this
      ensures r <==> |nodes| == 0
    {
      |nodes| == 0
    }

    function Size(): (r: nat)
      reads this
      ensures r == |nodes|
    {
      |nodes|
    }
  }
}
