/**
 * `HashSetElementMarker` (src/element_marker/hash_set_marker.rs, and the
 * identical copy in src/element_marker.rs): a marker that remembers the set
 * of unused indices, so every index it has not been told about is used.
 */
module HashSetMarkers {

  import opened Wrappers
  import opened ElementMarkers

  class HashSetElementMarker {
    var unusedIndices: set<nat>

    /** The indices the marker reports as used. */
    ghost function Used(): iset<nat>
      reads this
    {
      iset i: nat | i !in unusedIndices
    }

    /** `with_element_capacity` (hash_set_marker.rs:14-16): the capacity is
        ignored, and a fresh marker reports every index as used. */
    constructor WithElementCapacity(size: nat)
      ensures unusedIndices == {}
      ensures forall i: nat :: i in Used()
    {
      unusedIndices := {};
    }

    /** `element_is_used` (hash_set_marker.rs:28-30). */
    function ElementIsUsed(index: nat): (b: bool)
      reads this
      ensures b <==> index in Used()
    {
      index !in unusedIndices
    }

    /** `mark_element_used` (hash_set_marker.rs:18-26) with the result its doc
        comment and the trait promise: whether the index was used before.
        The result the code returns is `MarkResultAsWritten`. */
    method MarkElementUsed(index: nat, used: bool) returns (wasUsed: bool)
      modifies this
      ensures unusedIndices == if used then old(unusedIndices) - {index} else old(unusedIndices) + {index}
      ensures MarkContract(old(Used()), Used(), index, used, wasUsed)
    {
      wasUsed := index !in unusedIndices;
      if used {
        unusedIndices := unusedIndices - {index};
      } else {
        unusedIndices := unusedIndices + {index};
      }
    }

    /** `unused_element_count` (hash_set_marker.rs:43-45). */
    function UnusedElementCount(): (n: nat)
      reads this
      ensures n == |unusedIndices|
    {
      |unusedIndices|
    }

    /** `reserve_elements` (hash_set_marker.rs:47-49): nothing to reserve. */
    method ReserveElements(elementCount: nat)
      modifies this
      ensures unusedIndices == old(unusedIndices)
    {
    }

    /** `shrink_to_fit` (hash_set_marker.rs:51-53): only the allocation
        changes. */
    method ShrinkToFit()
      modifies this
      ensures unusedIndices == old(unusedIndices)
    {
    }

    /** `clear` (hash_set_marker.rs:55-57): every index is used again. */
    method Clear()
      modifies this
      ensures unusedIndices == {}
      ensures forall i: nat :: i in Used()
    {
      unusedIndices := {};
    }

    /** `unused_elements` (hash_set_marker.rs:33-38): an iterator over a
        copy of the unused set. */
    method UnusedElements() returns (it: ClonedHashSetMarkerIter)
      ensures fresh(it) && it.remaining == unusedIndices
    {
      it := new ClonedHashSetMarkerIter(unusedIndices);
    }
  }

  /** `ClonedHashSetMarkerIter` (hash_set_marker.rs:60-79): drains a copy of
      the unused set in the set's own order, which is left open here. */
  class ClonedHashSetMarkerIter {
    var remaining: set<nat>

    constructor (indices: set<nat>)
      ensures remaining == indices
    {
      remaining := indices;
    }

    /** `next` (hash_set_marker.rs:72-74): some index not yet yielded. */
    method Next() returns (r: Option<nat>)
      modifies this
      ensures old(remaining) == {} ==> r == None && remaining == {}
      ensures old(remaining) != {} ==>
        && r.Some? && r.value in old(remaining)
        && remaining == old(remaining) - {r.value}
    {
      if remaining == {} {
        r := None;
      } else {
        var index :| index in remaining;
        r := Some(index);
        remaining := remaining - {index};
      }
    }

    /** `size_hint` (hash_set_marker.rs:76-78): exact, as for any hash-set
        iterator. */
    function SizeHint(): (h: (nat, Option<nat>))
      reads this
      ensures h == (|remaining|, Some(|remaining|))
    {
      (|remaining|, Some(|remaining|))
    }
  }

  /** Taking one element out of a set leaves one fewer. */
  lemma RemoveOne(s: set<nat>, x: nat)
    requires x in s
    ensures |s - {x}| == |s| - 1
  {
  }

  /** Draining `unused_elements()` lists every index the marker reports as
      unused exactly once, and as many as `unused_element_count` and the
      iterator's first size hint announce. */
  method CollectUnused(m: HashSetElementMarker) returns (s: seq<nat>)
    ensures EnumeratesUnused(m.Used(), s)
    ensures |s| == m.UnusedElementCount()
  {
    var it := m.UnusedElements();
    var hint := it.SizeHint();
    s := [];
    var next := it.Next();
    if next.Some? {
      RemoveOne(m.unusedIndices, next.value);
    }
    while next.Some?
      invariant it.remaining <= m.unusedIndices
      invariant forall k, l :: 0 <= k < l < |s| ==> s[k] != s[l]
      invariant forall i :: i in s ==> i in m.unusedIndices && i !in it.remaining
      invariant next.Some? ==> next.value in m.unusedIndices && next.value !in it.remaining && next.value !in s
      invariant forall i :: i in m.unusedIndices ==> i in s || i in it.remaining || next == Some(i)
      invariant next.None? ==> it.remaining == {}
      invariant |s| + |it.remaining| + (if next.Some? then 1 else 0) == hint.0
      decreases |it.remaining|, next.Some?
    {
      s := s + [next.value];
      if it.remaining != {} {
        var before := it.remaining;
        next := it.Next();
        RemoveOne(before, next.value);
      } else {
        next := it.Next();
      }
    }
    forall i: nat
      ensures i !in m.Used() <==> i in s
    {
      assert i !in m.Used() <==> i in m.unusedIndices;
    }
  }

  /** The result `mark_element_used` actually returns (hash_set_marker.rs:
      19-26, element_marker.rs:44-51): that of `HashSet::remove` when marking
      used and of `HashSet::insert` when marking unused, both of which tell
      whether the call changed the index's state. */
  function MarkResultAsWritten(unusedIndices: set<nat>, index: nat, used: bool): (changed: bool)
    ensures changed <==> ((index !in unusedIndices) != used)
  {
    if used then index in unusedIndices else index !in unusedIndices
  }

  /** The returned value is the previous state only when marking unused; when
      marking used it is the negation of the previous state. */
  lemma MarkResultInverted(unusedIndices: set<nat>, index: nat)
    ensures MarkResultAsWritten(unusedIndices, index, false) == (index !in unusedIndices)
    ensures MarkResultAsWritten(unusedIndices, index, true) == !(index !in unusedIndices)
  {
  }

  /** Marking used an index that is used already, such as index 0 of a
      fresh marker, returns `false`, so the marker breaks the trait's
      promise whatever the states before and after. */
  lemma MarkResultCounterexample(unusedIndices: set<nat>, index: nat, before: iset<nat>, after: iset<nat>)
    requires index !in unusedIndices && index in before
    ensures !MarkContract(before, after, index, true, MarkResultAsWritten(unusedIndices, index, true))
  {
  }
}
