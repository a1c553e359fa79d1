/**
 `internal::node_begin` / `node_end` / `node_range` and their attribute
 analogues. The node and attribute versions are the same code over different
 chains (`next_sibling(name)` versus `next_attribute(name)`), so they are
 written once over a chain here.

 The begin state holds the current handle and the name filter. The end is a
 stateless sentinel, and the loop test `begin != end` only asks whether the
 handle is non-null. Filtering happens in the step, which delegates to the
 name-aware `NextNamed` primitive.
 */
module Ranges {
  import opened Wrappers
  import opened Chains

  /** `node_begin` / `attribute_begin`: the current handle and the filter name. */
  datatype RangeBegin = RangeBegin(current: Option<nat>, name: string)

  /** `node_end` / `attribute_end`: a sentinel with no data. */
  datatype RangeEnd = RangeEnd

  /** `node_range` / `attribute_range`: holds only the begin state. */
  datatype Range = Range(begin: RangeBegin)

  /** The handle is null or refers to an element of `chain`. */
  predicate Valid(chain: Chain, b: RangeBegin)
  {
    b.current.None? || b.current.value < |chain|
  }

  /** How many elements remain from a handle to the end of the chain. */
  function Remaining(chain: Chain, current: Option<nat>): nat
  {
    match current
    case None => 0
    case Some(i) => if i < |chain| then |chain| - i else 0
  }

  /** `operator!=(node_end)`: true iff the current handle is non-null. */
  predicate NotEqualEnd(b: RangeBegin, e: RangeEnd)
  {
    b.current.Some?
  }

  /**
   `operator*`: the current handle itself. The source does not assert here, so
   the result may be null; it is non-null exactly when the loop test passes.
   */
  function Deref(b: RangeBegin): (r: Option<nat>)
    ensures r.Some? <==> NotEqualEnd(b, RangeEnd)
  {
    b.current
  }

  /**
   `operator++`: moves to the nearest following element whose name equals the
   filter (any next element when the filter is empty), or to null. The source
   dereferences the handle, so it must be non-null.
   */
  function Step(chain: Chain, b: RangeBegin): (r: RangeBegin)
    requires Valid(chain, b) && b.current.Some?
    ensures Valid(chain, r) && r.name == b.name
    ensures r.current.Some? ==> b.current.value < r.current.value && Matches(chain[r.current.value], b.name)
    ensures r.current.Some? ==>
      forall k :: b.current.value < k < r.current.value ==> !Matches(chain[k], b.name)
    ensures r.current.None? ==>
      forall k :: b.current.value < k < |chain| ==> !Matches(chain[k], b.name)
  {
    RangeBegin(NextNamed(chain, b.current.value, b.name), b.name)
  }

  /**
   The sentinel test is the whole termination story: the begin state differs
   from the end iff the loop still has a handle to yield.
   */
  lemma NotEqualEndIffNonEmpty(chain: Chain, b: RangeBegin)
    requires Valid(chain, b)
    ensures NotEqualEnd(b, RangeEnd) <==> |Yield(chain, b)| > 0
  {
  }

  /** `range.begin()`: a copy of the stored begin state, so every call restarts. */
  function Begin(r: Range): RangeBegin
  {
    r.begin
  }

  /** `range.end()`: the sentinel. */
  function End(r: Range): RangeEnd
  {
    RangeEnd
  }

  /** True iff the indices strictly increase, that is, they follow chain order. */
  predicate Increasing(s: seq<nat>)
  {
    forall i, j :: 0 <= i < j < |s| ==> s[i] < s[j]
  }

  /**
   The handles a range-based `for` loop sees, starting from `b`: the current
   handle while it is non-null, then whatever the step reaches. The first one is
   yielded as is; every later one has passed the filter.
   */
  function Yield(chain: Chain, b: RangeBegin): (r: seq<nat>)
    requires Valid(chain, b)
    ensures |r| == 0 <==> b.current.None?
    ensures |r| > 0 ==> r[0] == b.current.value
    ensures forall k :: 0 <= k < |r| ==> r[k] < |chain|
    ensures forall k :: 0 < k < |r| ==> Matches(chain[r[k]], b.name)
    ensures Increasing(r)
    decreases Remaining(chain, b.current)
  {
    if NotEqualEnd(b, RangeEnd) then [Deref(b).value] + Yield(chain, Step(chain, b)) else []
  }

  /**
   The reference definition of a filtered view: the indices from `from` on, in
   chain order, of the elements that pass the filter.
   */
  function Matching(chain: Chain, name: string, from: nat): (r: seq<nat>)
    requires from <= |chain|
    decreases |chain| - from
  {
    if from == |chain| then []
    else (if Matches(chain[from], name) then [from] else []) + Matching(chain, name, from + 1)
  }

  /** An index is in `Matching` iff it lies in range and its element passes the filter. */
  lemma {:induction false} MatchingMembership(chain: Chain, name: string, from: nat, k: nat)
    requires from <= |chain|
    ensures k in Matching(chain, name, from) <==> from <= k < |chain| && Matches(chain[k], name)
    decreases |chain| - from
  {
    if from < |chain| {
      MatchingMembership(chain, name, from + 1, k);
    }
  }

  /** `Matching` lists indices in strictly increasing order. */
  lemma {:induction false} MatchingIncreasing(chain: Chain, name: string, from: nat)
    requires from <= |chain|
    ensures Increasing(Matching(chain, name, from))
    ensures forall k :: 0 <= k < |Matching(chain, name, from)| ==> from <= Matching(chain, name, from)[k]
    decreases |chain| - from
  {
    if from < |chain| {
      MatchingIncreasing(chain, name, from + 1);
    }
  }

  /** Elements that fail the filter contribute nothing to `Matching`. */
  lemma {:induction false} MatchingSkip(chain: Chain, name: string, from: nat, to: nat)
    requires from <= to <= |chain|
    requires forall k :: from <= k < to ==> !Matches(chain[k], name)
    ensures Matching(chain, name, from) == Matching(chain, name, to)
    decreases |chain| - from
  {
    if from < to {
      MatchingSkip(chain, name, from + 1, to);
    }
  }

  /** With an empty filter, `Matching` is every index from `from` on. */
  lemma {:induction false} MatchingUnfiltered(chain: Chain, from: nat)
    requires from <= |chain|
    ensures Matching(chain, "", from) == seq(|chain| - from, k => from + k)
    decreases |chain| - from
  {
    if from < |chain| {
      MatchingUnfiltered(chain, from + 1);
      var rest := seq(|chain| - (from + 1), k => from + 1 + k);
      assert Matching(chain, "", from) == [from] + rest;
      assert [from] + rest == seq(|chain| - from, k => from + k);
    }
  }

  /**
   What a begin state at element `i` yields: `i` itself, then exactly the
   elements after `i` that pass the filter, in chain order. No matching
   element after the first is skipped.
   */
  lemma {:induction false} YieldFrom(chain: Chain, i: nat, name: string)
    requires i < |chain|
    ensures Yield(chain, RangeBegin(Some(i), name)) == [i] + Matching(chain, name, i + 1)
    decreases |chain| - i
  {
    var b := RangeBegin(Some(i), name);
    var s := Step(chain, b);
    assert Yield(chain, b) == [i] + Yield(chain, s);
    match s.current
    case None =>
      MatchingSkip(chain, name, i + 1, |chain|);
    case Some(j) =>
      YieldFrom(chain, j, name);
      MatchingSkip(chain, name, i + 1, j);
      assert Matching(chain, name, j) == [j] + Matching(chain, name, j + 1);
  }

  /**
   The range-based `for (auto p : range)` loop: takes `begin()`, and while it
   is `!= end()` records `*it` and steps. It yields the first handle, then the
   following elements that pass the filter, and leaves the range unchanged.
   */
  method ForEach(chain: Chain, r: Range) returns (visited: seq<nat>)
    requires Valid(chain, r.begin)
    ensures r.begin.current.None? ==> visited == []
    ensures r.begin.current.Some? ==>
      visited == [r.begin.current.value] + Matching(chain, r.begin.name, r.begin.current.value + 1)
  {
    var it := Begin(r);
    var e := End(r);
    visited := [];
    while NotEqualEnd(it, e)
      invariant Valid(chain, it) && it.name == r.begin.name
      invariant visited + Yield(chain, it) == Yield(chain, r.begin)
      decreases Remaining(chain, it.current)
    {
      visited := visited + [Deref(it).value];
      it := Step(chain, it);
    }
    if r.begin.current.Some? {
      YieldFrom(chain, r.begin.current.value, r.begin.name);
    }
  }
}
