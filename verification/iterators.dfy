/**
 `node_iterator` and `attribute_iterator`: bidirectional cursors over a sibling
 chain. The two classes run the same code on different chains (the child chain
 through `first_node`/`next_sibling`/`previous_sibling`, the attribute chain
 through `first_attribute`/`next_attribute`/`previous_attribute`), so the steps
 below are written once over a chain, and only the constructors pick the chain.

 A cursor holds only its current handle. Copying it is copying the value, so a
 step on a copy never affects the original. A cursor is stepped within the chain
 it was built from, as C++ iterators are only compared and stepped within one
 sequence.
 */
module Iterators {
  import opened Wrappers
  import opened Chains

  /** The iterator's single field: `m_node` / `m_attribute`. */
  datatype Cursor = Cursor(current: Option<nat>)

  /** The handle is null or refers to an element of `chain`. */
  predicate Valid(chain: Chain, c: Cursor)
  {
    c.current.None? || c.current.value < |chain|
  }

  /** The identity of the element a cursor refers to, or `None` for the null handle. */
  function Target(chain: Chain, c: Cursor): Option<nat>
    requires Valid(chain, c)
  {
    match c.current
    case None => None
    case Some(i) => Some(chain[i].id)
  }

  /** The default constructor: refers to nothing, and equals exactly the null cursors. */
  function Default(): (r: Cursor)
    ensures r.current.None?
    ensures forall c :: Equal(r, c) <==> c.current.None?
  {
    Cursor(None)
  }

  /** `node_iterator(node)`: the first child of `parent`, or null if it has none. */
  function NodeIterator(parent: Node): (r: Cursor)
    ensures Valid(parent.children, r)
    ensures r.current.None? <==> |parent.children| == 0
    ensures r.current.Some? ==> Target(parent.children, r) == Some(parent.children[0].id)
  {
    Cursor(First(parent.children))
  }

  /** `attribute_iterator(node)`: the first attribute of `node`, or null if it has none. */
  function AttributeIterator(node: Node): (r: Cursor)
    ensures Valid(node.attributes, r)
    ensures r.current.None? <==> |node.attributes| == 0
    ensures r.current.Some? ==> Target(node.attributes, r) == Some(node.attributes[0].id)
  {
    Cursor(First(node.attributes))
  }

  /** `operator*`: the element referred to; dereferencing null is a contract violation. */
  function Deref(chain: Chain, c: Cursor): (r: Element)
    requires Valid(chain, c) && c.current.Some?
    ensures r in chain
    ensures Target(chain, c) == Some(r.id)
  {
    chain[c.current.value]
  }

  /** Prefix `operator++`: moves to the next element; stepping from the last one gives null. */
  function Increment(chain: Chain, c: Cursor): (r: Cursor)
    requires Valid(chain, c) && c.current.Some?
    ensures Valid(chain, r)
    ensures r.current.None? <==> c.current.value == |chain| - 1
    ensures r.current.Some? ==> r.current.value == c.current.value + 1
  {
    Cursor(Next(chain, c.current.value))
  }

  /**
   Prefix `operator--`: moves to the previous element. It is a contract
   violation on a null cursor and on the first element; nothing is clamped.
   */
  function Decrement(chain: Chain, c: Cursor): (r: Cursor)
    requires Valid(chain, c) && c.current.Some? && Previous(chain, c.current.value).Some?
    ensures Valid(chain, r) && r.current.Some?
    ensures r.current.value + 1 == c.current.value
  {
    Cursor(Previous(chain, c.current.value))
  }

  /**
   Postfix `operator++(int)`: the pair (returned copy, iterator afterwards). The
   copy still refers to the pre-step element, and the iterator ends where the
   prefix form leaves it.
   */
  function PostIncrement(chain: Chain, c: Cursor): (r: (Cursor, Cursor))
    requires Valid(chain, c) && c.current.Some?
    ensures r.0 == c
    ensures r.1 == Increment(chain, c)
    ensures r.1.current.Some? ==> Decrement(chain, r.1) == r.0
  {
    var tmp := c;
    (tmp, Increment(chain, c))
  }

  /**
   Postfix `operator--(int)`: the pair (returned copy, iterator afterwards), with
   the same precondition as the prefix form.
   */
  function PostDecrement(chain: Chain, c: Cursor): (r: (Cursor, Cursor))
    requires Valid(chain, c) && c.current.Some? && Previous(chain, c.current.value).Some?
    ensures r.0 == c
    ensures r.1 == Decrement(chain, c)
    ensures Increment(chain, r.1) == r.0
  {
    var tmp := c;
    (tmp, Decrement(chain, c))
  }

  /** `operator==`: the two handles are the same pointer. */
  predicate Equal(a: Cursor, b: Cursor)
  {
    a.current == b.current
  }

  /** `operator!=`: exactly the negation of `operator==`. */
  function NotEqual(a: Cursor, b: Cursor): (r: bool)
    ensures r <==> !Equal(a, b)
  {
    a.current != b.current
  }

  /**
   Equality is identity: over a chain of distinct elements, two cursors are
   equal iff they refer to the same element, or both to none.
   */
  lemma EqualIsIdentity(chain: Chain, a: Cursor, b: Cursor)
    requires Distinct(chain) && Valid(chain, a) && Valid(chain, b)
    ensures Equal(a, b) <==> Target(chain, a) == Target(chain, b)
  {
  }

  /** `++` from the last element gives a cursor equal to a default-constructed one. */
  lemma IncrementPastLastIsDefault(chain: Chain, c: Cursor)
    requires |chain| > 0 && c.current == Some(|chain| - 1)
    ensures Equal(Increment(chain, c), Default())
    ensures !NotEqual(Increment(chain, c), Default())
  {
  }

  /** `++` then `--` returns to the original element whenever a next element exists. */
  lemma IncrementThenDecrement(chain: Chain, c: Cursor)
    requires Valid(chain, c) && c.current.Some? && c.current.value + 1 < |chain|
    ensures Increment(chain, c).current.Some?
    ensures Decrement(chain, Increment(chain, c)) == c
  {
  }

  /** `--` then `++` always returns to the original element. */
  lemma DecrementThenIncrement(chain: Chain, c: Cursor)
    requires Valid(chain, c) && c.current.Some? && Previous(chain, c.current.value).Some?
    ensures Increment(chain, Decrement(chain, c)) == c
  {
  }

  /**
   `attribute_iterator` satisfies the same construction and round-trip
   properties as `node_iterator`, over the attribute chain.
   */
  lemma AttributeIteratorMirrors(node: Node, c: Cursor)
    requires Valid(node.attributes, c) && c.current.Some?
    ensures c.current.value == |node.attributes| - 1 ==>
      Equal(Increment(node.attributes, c), Default())
    ensures c.current.value + 1 < |node.attributes| ==>
      Decrement(node.attributes, Increment(node.attributes, c)) == c
    ensures c.current.value > 0 ==>
      Increment(node.attributes, Decrement(node.attributes, c)) == c
  {
    if c.current.value + 1 < |node.attributes| {
      IncrementThenDecrement(node.attributes, c);
    }
    if c.current.value > 0 {
      DecrementThenIncrement(node.attributes, c);
    }
  }

  /**
   The unfiltered loop `for (it = node_iterator(p); it != node_iterator(); ++it)`
   over a chain visits every element once, in chain order.
   */
  method Traverse(chain: Chain, start: Cursor) returns (visited: seq<Element>)
    requires start.current == First(chain)
    ensures visited == chain
  {
    var it := start;
    visited := [];
    while NotEqual(it, Default())
      invariant Valid(chain, it)
      invariant |visited| <= |chain|
      invariant visited == chain[..|visited|]
      invariant it.current.Some? <==> |visited| < |chain|
      invariant it.current.Some? ==> it.current.value == |visited|
      decreases |chain| - |visited|
    {
      visited := visited + [Deref(chain, it)];
      it := Increment(chain, it);
    }
  }

  /** Iterating `node_iterator(parent)` to the default iterator yields all children in order. */
  method IterateChildren(parent: Node) returns (visited: seq<Element>)
    ensures visited == parent.children
  {
    visited := Traverse(parent.children, NodeIterator(parent));
  }

  /** Iterating `attribute_iterator(node)` to the default iterator yields all attributes in order. */
  method IterateAttributes(node: Node) returns (visited: seq<Element>)
    ensures visited == node.attributes
  {
    visited := Traverse(node.attributes, AttributeIterator(node));
  }
}
