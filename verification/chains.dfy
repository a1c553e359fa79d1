/**
 The read-only navigation that the iterators consume from the tree.

 A sibling chain (a node's children, or a node's attributes) is an immutable
 sequence of elements in document order. A pointer into the chain is an index,
 and the null pointer is `None`. The doubly-linked `next`/`previous` links of the
 tree are implied by the order of the sequence, so they are consistent by
 construction. The tree itself (names, storage, ownership) is not part of this
 model: only the navigation primitives below are.
 */
module Chains {
  import opened Wrappers

  /** A child node or an attribute as navigation sees it: an identity and a name. */
  datatype Element = Element(id: nat, name: string)

  type Chain = seq<Element>

  /** A node as far as iteration is concerned: its child chain and its attribute chain. */
  datatype Node = Node(children: Chain, attributes: Chain)

  /** No element appears twice in a chain. */
  predicate Distinct(chain: Chain)
  {
    forall i, j :: 0 <= i < j < |chain| ==> chain[i].id != chain[j].id
  }

  /** True iff `e` passes the name filter; the empty filter passes everything. */
  predicate Matches(e: Element, name: string)
  {
    |name| == 0 || e.name == name
  }

  /** `first_node()` / `first_attribute()`: the head of the chain, or null. */
  function First(chain: Chain): (r: Option<nat>)
    ensures r.Some? <==> |chain| > 0
    ensures r.Some? ==> r.value == 0
  {
    if |chain| == 0 then None else Some(0)
  }

  /** `next_sibling()` / `next_attribute()`: the element after `i`, or null after the last. */
  function Next(chain: Chain, i: nat): (r: Option<nat>)
    requires i < |chain|
    ensures r.None? <==> i == |chain| - 1
    ensures r.Some? ==> r.value == i + 1
  {
    if i + 1 < |chain| then Some(i + 1) else None
  }

  /** `previous_sibling()` / `previous_attribute()`: the element before `i`, or null before the first. */
  function Previous(chain: Chain, i: nat): (r: Option<nat>)
    requires i < |chain|
    ensures r.None? <==> i == 0
    ensures r.Some? ==> r.value + 1 == i
  {
    if i == 0 then None else Some(i - 1)
  }

  /**
   `next_sibling(name)` / `next_attribute(name)`: the nearest element after `i`
   whose name equals `name`, or null when there is none; with an empty `name`,
   simply the next element.
   */
  function NextNamed(chain: Chain, i: nat, name: string): (r: Option<nat>)
    requires i < |chain|
    ensures r.Some? ==> i < r.value < |chain| && Matches(chain[r.value], name)
    ensures r.Some? ==> forall k :: i < k < r.value ==> !Matches(chain[k], name)
    ensures r.None? ==> forall k :: i < k < |chain| ==> !Matches(chain[k], name)
    decreases |chain| - i
  {
    if i + 1 == |chain| then None
    else if Matches(chain[i + 1], name) then Some(i + 1)
    else NextNamed(chain, i + 1, name)
  }

  /** The next and previous links of a chain are inverse to each other. */
  lemma LinksConsistent(chain: Chain, i: nat, j: nat)
    requires i < |chain| && j < |chain|
    ensures Next(chain, i) == Some(j) <==> Previous(chain, j) == Some(i)
  {
  }

  /** With an empty name the filtered step is the plain step. */
  lemma NextNamedUnfiltered(chain: Chain, i: nat)
    requires i < |chain|
    ensures NextNamed(chain, i, "") == Next(chain, i)
  {
  }
}
