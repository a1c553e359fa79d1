/**
 The free functions `node_range(parent, name)` and `attribute_range(node, name)`,
 as written and as their documentation describes them.

 As written, the begin state is the raw first child (first attribute), so the
 first element is yielded whether or not its name passes the filter; only the
 steps after it filter. `FilteredNodeRange` and `FilteredAttributeRange` start
 at the first matching element instead, and yield exactly the filtered view.
 */
module RangeBuilders {
  import opened Wrappers
  import opened Chains
  import opened Ranges

  /** `node_range(parent, name)` as written: begins at the raw first child. */
  function NodeRange(parent: Node, name: string): (r: Range)
    ensures Valid(parent.children, r.begin) && r.begin.name == name
    ensures r.begin.current.None? <==> |parent.children| == 0
    ensures r.begin.current.Some? ==> r.begin.current.value == 0
  {
    Range(RangeBegin(First(parent.children), name))
  }

  /** `attribute_range(node, name)` as written: begins at the raw first attribute. */
  function AttributeRange(node: Node, name: string): (r: Range)
    ensures Valid(node.attributes, r.begin) && r.begin.name == name
    ensures r.begin.current.None? <==> |node.attributes| == 0
    ensures r.begin.current.Some? ==> r.begin.current.value == 0
  {
    Range(RangeBegin(First(node.attributes), name))
  }

  /**
   What `node_range(parent, name)` yields: nothing for a childless node
   whatever the filter; otherwise the first child, unfiltered, then the later
   children that pass the filter, in order.
   */
  lemma NodeRangeYields(parent: Node, name: string)
    ensures |parent.children| == 0 ==> Yield(parent.children, NodeRange(parent, name).begin) == []
    ensures |parent.children| > 0 ==>
      Yield(parent.children, NodeRange(parent, name).begin) == [0] + Matching(parent.children, name, 1)
  {
    if |parent.children| > 0 {
      YieldFrom(parent.children, 0, name);
    }
  }

  /** The attribute analogue of `NodeRangeYields`. */
  lemma AttributeRangeYields(node: Node, name: string)
    ensures |node.attributes| == 0 ==> Yield(node.attributes, AttributeRange(node, name).begin) == []
    ensures |node.attributes| > 0 ==>
      Yield(node.attributes, AttributeRange(node, name).begin) == [0] + Matching(node.attributes, name, 1)
  {
    if |node.attributes| > 0 {
      YieldFrom(node.attributes, 0, name);
    }
  }

  /** With an empty filter, `node_range` yields every child, in chain order. */
  lemma NodeRangeUnfiltered(parent: Node)
    ensures Yield(parent.children, NodeRange(parent, "").begin) == seq(|parent.children|, k => k)
  {
    NodeRangeYields(parent, "");
    MatchingUnfiltered(parent.children, 0);
    if |parent.children| > 0 {
      assert Matching(parent.children, "", 0) == [0] + Matching(parent.children, "", 1);
    }
  }

  /** With an empty filter, `attribute_range` yields every attribute, in chain order. */
  lemma AttributeRangeUnfiltered(node: Node)
    ensures Yield(node.attributes, AttributeRange(node, "").begin) == seq(|node.attributes|, k => k)
  {
    AttributeRangeYields(node, "");
    MatchingUnfiltered(node.attributes, 0);
    if |node.attributes| > 0 {
      assert Matching(node.attributes, "", 0) == [0] + Matching(node.attributes, "", 1);
    }
  }

  /**
   The as-written range is the filtered view of the documentation iff the
   node is childless, the filter is empty, or the first child's name matches.
   */
  lemma {:induction false} NodeRangeFilteredIff(parent: Node, name: string)
    ensures Yield(parent.children, NodeRange(parent, name).begin) == Matching(parent.children, name, 0)
      <==> |parent.children| == 0 || Matches(parent.children[0], name)
  {
    NodeRangeYields(parent, name);
    var c := parent.children;
    if |c| > 0 {
      if Matches(c[0], name) {
        assert Matching(c, name, 0) == [0] + Matching(c, name, 1);
      } else {
        assert Matching(c, name, 0) == Matching(c, name, 1);
        MatchingMembership(c, name, 1, 0);
        assert 0 in [0] + Matching(c, name, 1);
      }
    }
  }

  /** The attribute analogue of `NodeRangeFilteredIff`. */
  lemma {:induction false} AttributeRangeFilteredIff(node: Node, name: string)
    ensures Yield(node.attributes, AttributeRange(node, name).begin) == Matching(node.attributes, name, 0)
      <==> |node.attributes| == 0 || Matches(node.attributes[0], name)
  {
    AttributeRangeYields(node, name);
    var c := node.attributes;
    if |c| > 0 {
      if Matches(c[0], name) {
        assert Matching(c, name, 0) == [0] + Matching(c, name, 1);
      } else {
        assert Matching(c, name, 0) == Matching(c, name, 1);
        MatchingMembership(c, name, 1, 0);
        assert 0 in [0] + Matching(c, name, 1);
      }
    }
  }

  /**
   A concrete input on which `node_range` is not filtered: for `<r><b/><a/></r>`
   and the filter "a", the range yields the `b` child as well as the `a` child.
   */
  lemma NodeRangeFilterCounterexample()
    ensures var parent := Node([Element(1, "b"), Element(2, "a")], []);
      && Yield(parent.children, NodeRange(parent, "a").begin) == [0, 1]
      && Matching(parent.children, "a", 0) == [1]
  {
    var parent := Node([Element(1, "b"), Element(2, "a")], []);
    NodeRangeYields(parent, "a");
    assert Matching(parent.children, "a", 2) == [];
    assert Matching(parent.children, "a", 1) == [1];
    assert Matching(parent.children, "a", 0) == [1];
  }

  /**
   A concrete input on which `attribute_range` is not filtered: for
   `<r b="" a=""/>` and the filter "a", the range yields the `b` attribute too.
   */
  lemma AttributeRangeFilterCounterexample()
    ensures var node := Node([], [Element(1, "b"), Element(2, "a")]);
      && Yield(node.attributes, AttributeRange(node, "a").begin) == [0, 1]
      && Matching(node.attributes, "a", 0) == [1]
  {
    var node := Node([], [Element(1, "b"), Element(2, "a")]);
    AttributeRangeYields(node, "a");
    assert Matching(node.attributes, "a", 2) == [];
    assert Matching(node.attributes, "a", 1) == [1];
    assert Matching(node.attributes, "a", 0) == [1];
  }

  /** The first element that passes the filter, or null. */
  function FirstMatching(chain: Chain, name: string): (r: Option<nat>)
    ensures r.Some? ==> r.value < |chain| && Matches(chain[r.value], name)
    ensures r.Some? ==> forall k :: 0 <= k < r.value ==> !Matches(chain[k], name)
    ensures r.None? ==> forall k :: 0 <= k < |chain| ==> !Matches(chain[k], name)
  {
    if |chain| == 0 then None
    else if Matches(chain[0], name) then Some(0)
    else NextNamed(chain, 0, name)
  }

  /** `node_range` as documented: begins at the first child that passes the filter. */
  function FilteredNodeRange(parent: Node, name: string): (r: Range)
    ensures Valid(parent.children, r.begin) && r.begin.name == name
    ensures r.begin.current.Some? ==> Matches(parent.children[r.begin.current.value], name)
  {
    Range(RangeBegin(FirstMatching(parent.children, name), name))
  }

  /** `attribute_range` as documented: begins at the first attribute that passes the filter. */
  function FilteredAttributeRange(node: Node, name: string): (r: Range)
    ensures Valid(node.attributes, r.begin) && r.begin.name == name
    ensures r.begin.current.Some? ==> Matches(node.attributes[r.begin.current.value], name)
  {
    Range(RangeBegin(FirstMatching(node.attributes, name), name))
  }

  /** The range that begins at the first matching element yields exactly the filtered view. */
  lemma {:induction false} FromFirstMatchingYieldsMatching(chain: Chain, name: string)
    ensures Yield(chain, RangeBegin(FirstMatching(chain, name), name)) == Matching(chain, name, 0)
  {
    var f := FirstMatching(chain, name);
    match f
    case None =>
      MatchingSkip(chain, name, 0, |chain|);
    case Some(j) =>
      YieldFrom(chain, j, name);
      MatchingSkip(chain, name, 0, j);
      assert Matching(chain, name, j) == [j] + Matching(chain, name, j + 1);
  }

  /** The corrected `node_range` yields exactly the children that pass the filter, in order. */
  lemma FilteredNodeRangeYieldsMatching(parent: Node, name: string)
    ensures Yield(parent.children, FilteredNodeRange(parent, name).begin) == Matching(parent.children, name, 0)
  {
    FromFirstMatchingYieldsMatching(parent.children, name);
  }

  /** The corrected `attribute_range` yields exactly the attributes that pass the filter, in order. */
  lemma FilteredAttributeRangeYieldsMatching(node: Node, name: string)
    ensures Yield(node.attributes, FilteredAttributeRange(node, name).begin) == Matching(node.attributes, name, 0)
  {
    FromFirstMatchingYieldsMatching(node.attributes, name);
  }

  /**
   For `<r><a/><b/><a/></r>`, the filter "a" yields the first and third
   children and the empty filter yields all three, in document order.
   */
  lemma FilteredChildrenExample()
    ensures var r := Node([Element(1, "a"), Element(2, "b"), Element(3, "a")], []);
      && Yield(r.children, NodeRange(r, "a").begin) == [0, 2]
      && Yield(r.children, FilteredNodeRange(r, "a").begin) == [0, 2]
      && Yield(r.children, NodeRange(r, "").begin) == [0, 1, 2]
  {
    var r := Node([Element(1, "a"), Element(2, "b"), Element(3, "a")], []);
    assert Matching(r.children, "a", 1) == [2] by {
      assert Matching(r.children, "a", 3) == [];
      assert Matching(r.children, "a", 2) == [2];
    }
    assert Matching(r.children, "a", 0) == [0, 2];
    NodeRangeYields(r, "a");
    FilteredNodeRangeYieldsMatching(r, "a");
    NodeRangeUnfiltered(r);
  }

  /** A node with no attributes gives an empty attribute range, whatever the filter. */
  lemma EmptyAttributeRange(node: Node, name: string)
    requires |node.attributes| == 0
    ensures !NotEqualEnd(Begin(AttributeRange(node, name)), End(AttributeRange(node, name)))
    ensures Yield(node.attributes, AttributeRange(node, name).begin) == []
  {
  }
}
