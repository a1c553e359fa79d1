# RapidXml iterators and ranges, modelled in Dafny

This project models `rapidxml_iterators.hpp` from RapidXml. The file holds four
non-owning ways to walk an already-built XML tree:

- `node_iterator` is a bidirectional cursor over a node's children.
- `attribute_iterator` is the same cursor over a node's attributes.
- `node_range(parent, name)` is a range over children, filtered by name. It is
  built from `internal::node_begin`, `node_end` and `node_range`.
- `attribute_range(node, name)` is the attribute analogue.

A sibling chain is an immutable `seq<Element>` in document order. An element is
an identity plus a name. A pointer into the chain is an index; the null pointer
is `None`. The tree's navigation primitives come from `rapidxml.hpp`, which is
not part of this model. They are modelled in `Chains` by their documented
behaviour:

- `First` models `first_node()` / `first_attribute()`.
- `Next` and `Previous` model the plain sibling links.
- `NextNamed` models `next_sibling(name)` / `next_attribute(name)`. It returns
  the nearest following element with that name, or the plain next element when
  the name is empty.

Files:

- `wrappers.dfy`: `Option`.
- `chains.dfy`: elements, chains, nodes, and the navigation primitives.
- `iterators.dfy`: `node_iterator` and `attribute_iterator`. They run the same
  code on different chains, so the steps are written once over a chain.
- `ranges.dfy`: the begin state, the end sentinel, the range, the range-based
  `for` loop, and the reference "filtered view" `Matching`.
- `range_builders.dfy`: `node_range` / `attribute_range` as written, and the
  corrected builders.

C++ `assert`s become `requires` clauses. A postfix operator returns the pair
(returned copy, iterator afterwards). Everything is a value, so a copy is
independent of its original. `range.begin()` returns the stored begin state,
so a second loop restarts from the same element.

## Model

| member | source | states |
|---|---|---|
| Chains.NextNamed | rapidxml_iterators.hpp:263 | the filtered step returns the nearest following element whose name equals the filter, or null if no later element matches; with an empty filter every element matches |
| Chains.NextNamedUnfiltered | rapidxml_iterators.hpp:274 | with an empty name the filtered step is the plain next-element step |
| Chains.LinksConsistent | rapidxml_iterators.hpp:64-65 | `next` reaches j from i exactly when `previous` reaches i from j |
| Chains.First | rapidxml_iterators.hpp:32 | the first element is null iff the chain is empty, and otherwise is the head of the chain |
| Chains.Next | rapidxml_iterators.hpp:51 | the plain next element of i is i + 1, and null exactly at the last element |
| Chains.Previous | rapidxml_iterators.hpp:65 | the previous element of i is i - 1, and null exactly at the first element |
| Iterators.Default | rapidxml_iterators.hpp:26-29 | a default-constructed iterator refers to none and compares equal to exactly the null iterators |
| Iterators.NodeIterator | rapidxml_iterators.hpp:31-34 | the iterator built from a node refers to its first child, or to none iff it has no children |
| Iterators.AttributeIterator | rapidxml_iterators.hpp:107-110 | the iterator built from a node refers to its first attribute, or to none iff it has no attributes |
| Iterators.Deref | rapidxml_iterators.hpp:36-40 | dereference requires a non-null iterator and returns the chain element it refers to |
| Iterators.Increment | rapidxml_iterators.hpp:48-53 | `++` requires a non-null iterator and moves it to the next element; it becomes null exactly when leaving the last element |
| Iterators.Decrement | rapidxml_iterators.hpp:62-67 | `--` requires a non-null iterator with a previous element, and moves to that element; nothing is clamped |
| Iterators.PostIncrement | rapidxml_iterators.hpp:55-60 | postfix `++` returns a copy of the pre-step iterator, and leaves the iterator where prefix `++` does; stepping back from there gives the copy |
| Iterators.PostDecrement | rapidxml_iterators.hpp:69-74 | postfix `--` returns a copy of the pre-step iterator and leaves the iterator where prefix `--` does; stepping forward from there gives the copy |
| Iterators.NotEqual | rapidxml_iterators.hpp:81-84 | `!=` is exactly the negation of `==` |
| Iterators.EqualIsIdentity | rapidxml_iterators.hpp:76-79 | over a chain of distinct elements, two iterators are equal iff they refer to the same element, both-none included |
| Iterators.IncrementPastLastIsDefault | rapidxml_iterators.hpp:48-53 | `++` from the last element gives an iterator equal to, and not unequal to, a default-constructed one |
| Iterators.IncrementThenDecrement | rapidxml_iterators.hpp:48-67 | `++` then `--` returns to the original element whenever a next element exists |
| Iterators.DecrementThenIncrement | rapidxml_iterators.hpp:48-67 | `--` then `++` always returns to the original element |
| Iterators.AttributeIteratorMirrors | rapidxml_iterators.hpp:124-150 | over the attribute chain, `++` then `--` and `--` then `++` round-trip, and `++` from the last attribute equals the default iterator |
| Iterators.Traverse | rapidxml_iterators.hpp:26-84 | the loop from the constructed iterator until it equals the default one visits every element once, in chain order |
| Iterators.IterateChildren | rapidxml_iterators.hpp:31-53 | iterating `node_iterator(parent)` yields exactly the children, in order |
| Iterators.IterateAttributes | rapidxml_iterators.hpp:107-129 | iterating `attribute_iterator(node)` yields exactly the attributes, in order |
| Ranges.Deref | rapidxml_iterators.hpp:184-187 | range dereference returns the current handle, which is non-null exactly when the begin state differs from the end |
| Ranges.NotEqualEndIffNonEmpty | rapidxml_iterators.hpp:179-182 | the begin state differs from the end sentinel iff the loop has an element left to yield |
| Ranges.Step | rapidxml_iterators.hpp:189-192 | range `++` requires a non-null handle and moves to the nearest following element that passes the filter, skipping only non-matching ones, or to null; the filter is kept |
| Ranges.Yield | rapidxml_iterators.hpp:179-192 | the handles a loop sees are in strictly increasing chain order, within the chain, start at the current handle, and every one after the first passes the filter |
| Ranges.MatchingMembership | rapidxml_iterators.hpp:263 | the filtered view holds an index iff its element is in range and passes the filter |
| Ranges.YieldFrom | rapidxml_iterators.hpp:189-192 | a begin state at element i yields i, then exactly the later elements that pass the filter, in order; no matching element is skipped |
| Ranges.ForEach | rapidxml_iterators.hpp:204-211 | the range-based loop over `begin()`/`end()` yields the first handle, then the later matching elements, or nothing when the first handle is null |
| RangeBuilders.NodeRange | rapidxml_iterators.hpp:266-270 | `node_range` begins at the raw first child, null iff the node is childless, and keeps the filter |
| RangeBuilders.AttributeRange | rapidxml_iterators.hpp:277-281 | `attribute_range` begins at the raw first attribute, null iff the node has no attributes, and keeps the filter |
| RangeBuilders.NodeRangeYields | rapidxml_iterators.hpp:266-270 | `node_range` yields nothing for a childless node whatever the filter; otherwise it yields the first child, then the later children that pass the filter |
| RangeBuilders.AttributeRangeYields | rapidxml_iterators.hpp:277-281 | `attribute_range` yields nothing for a node without attributes whatever the filter; otherwise it yields the first attribute, then the later matching ones |
| RangeBuilders.NodeRangeUnfiltered | rapidxml_iterators.hpp:263 | with an empty filter `node_range` yields every child, in order |
| RangeBuilders.AttributeRangeUnfiltered | rapidxml_iterators.hpp:274 | with an empty filter `attribute_range` yields every attribute, in order |
| RangeBuilders.NodeRangeFilteredIff | rapidxml_iterators.hpp:262-269 | `node_range` yields exactly the children passing the filter iff the node is childless, the filter is empty, or the first child's name matches |
| RangeBuilders.AttributeRangeFilteredIff | rapidxml_iterators.hpp:273-280 | `attribute_range` yields exactly the attributes passing the filter iff there are none, the filter is empty, or the first attribute's name matches |
| RangeBuilders.NodeRangeFilterCounterexample | rapidxml_iterators.hpp:269 | for `<r><b/><a/></r>` and filter "a", `node_range` yields both children while the filtered view is the second child alone |
| RangeBuilders.AttributeRangeFilterCounterexample | rapidxml_iterators.hpp:280 | for `<r b="" a=""/>` and filter "a", `attribute_range` yields both attributes while the filtered view is the second alone |
| RangeBuilders.FilteredNodeRange | rapidxml_iterators.hpp:262-263 | the corrected node range begins at a child that passes the filter, or at null |
| RangeBuilders.FilteredAttributeRange | rapidxml_iterators.hpp:273-274 | the corrected attribute range begins at an attribute that passes the filter, or at null |
| RangeBuilders.FilteredNodeRangeYieldsMatching | rapidxml_iterators.hpp:262-263 | the corrected node range yields exactly the children that pass the filter, in order |
| RangeBuilders.FilteredAttributeRangeYieldsMatching | rapidxml_iterators.hpp:273-274 | the corrected attribute range yields exactly the attributes that pass the filter, in order |
| RangeBuilders.FilteredChildrenExample | rapidxml_iterators.hpp:262-269 | for `<r><a/><b/><a/></r>`, filter "a" yields the first and third children, and the empty filter yields all three |
| RangeBuilders.EmptyAttributeRange | rapidxml_iterators.hpp:224-227 | a node without attributes gives a range whose begin state equals the end at once, whatever the filter |

## Left out

- The internals of `xml_node` and `xml_attribute` are left out. This covers name storage, values, the memory pool and the tree links. They live in `rapidxml.hpp`, which is not part of this model. Only the navigation primitives in `Chains` stand for them.
- The character type `Ch` is left out. So are `basic_string_view` comparison details such as case sensitivity and length-limited names. Names are `string` compared with `==`.
- `operator->` is left out. It has the same precondition and result as `operator*`.
- The `std::iterator` typedefs and `noexcept` are left out. They are C++ protocol boilerplate.
- Tree mutation during iteration and dangling pointers are left out. Chains are fixed values with distinct elements and consistent links.
- Comparing iterators built over different chains is left out. Handles are chain-relative indices.
- The range's `operator*` has no `requires`, because the source does not assert there. It returns the possibly-null handle. A non-null-only precondition on range dereference is stricter than the code.

## Findings

| source | as written | input that shows it | evidently intended | confidence | as-written member | corrected member |
|---|---|---|---|---|---|---|
| rapidxml_iterators.hpp:269 | `node_range` begins at `parent->first_node()`, and that first child is never checked against `name` | children `b`, `a` with filter "a": the range yields `b` and `a` | a range of the children filtered by `name`, as documented at lines 262-263: here, `a` alone | high (not executed) | RangeBuilders.NodeRangeFilterCounterexample | RangeBuilders.FilteredNodeRangeYieldsMatching |
| rapidxml_iterators.hpp:280 | `attribute_range` begins at `node->first_attribute()`, and that first attribute is never checked against `name` | attributes `b`, `a` with filter "a": the range yields `b` and `a` | a range of the attributes filtered by `name`, as documented at lines 273-274: here, `a` alone | high (not executed) | RangeBuilders.AttributeRangeFilterCounterexample | RangeBuilders.FilteredAttributeRangeYieldsMatching |

`RangeBuilders.NodeRangeFilteredIff` and `RangeBuilders.AttributeRangeFilteredIff` give the exact condition under which the code as written matches its documentation. The corrected builders start at the first matching element, found by checking the first element and then using `NextNamed`. Their yield is proved equal to the reference filtered view `Matching`.
