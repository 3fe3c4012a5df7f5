/**
 * The iterators of src/vec.rs.
 *
 * `Iter`, `ElementIter` and `IdIter` borrow an arena and walk the window
 * [front, back) of its slots from either end; `OwnedIdIter` walks the same
 * window over its own copy of the dead-slot set, so the arena may change
 * meanwhile.  `IntoElements` consumes an arena and `DrainElements` empties
 * one; both yield the alive elements front to back.
 */
module IdVecIters {

  import opened Wrappers
  import opened Ids
  import opened Slots
  import opened IdVecs

  /** A fresh window over the whole arena lists its ids in ascending order. */
  lemma {:induction false} WholeWindow<T>(v: IdVec<T>)
    requires v.Valid()
    ensures var s := AliveIn(v.unusedIndices, 0, |v.elements|);
      && (forall k :: 0 <= k < |s| ==> s[k] in v.Contents())
      && (forall i :: i in v.Contents() ==> i in s)
      && (forall k, l :: 0 <= k < l < |s| ==> s[k] < s[l])
      && |s| == v.Len()
  {
    AliveInSpec(v.unusedIndices, 0, |v.elements|);
    AliveInCount(v.unusedIndices, 0, |v.elements|);
    AliveCount(|v.elements|, v.unusedIndices);
  }

  /** `Iter` (vec.rs:492-531), created by `IdVec::iter` (vec.rs:286-293). */
  class Iter<T> {
    const storage: IdVec<T>
    var front: nat
    var back: nat

    ghost predicate Valid()
      reads this, storage
    {
      storage.Valid() && back <= |storage.elements|
    }

    /** The indices still to be yielded, in the order `next` yields them. */
    function Remaining(): seq<nat>
      reads this, storage
    {
      AliveIn(storage.unusedIndices, front, back)
    }

    constructor (storage: IdVec<T>)
      requires storage.Valid()
      ensures Valid() && this.storage == storage
      ensures front == 0 && back == |storage.elements|
      ensures Remaining() == AliveIn(storage.unusedIndices, 0, |storage.elements|)
    {
      this.storage := storage;
      front := 0;
      back := |storage.elements|;
    }

    /** `next` (vec.rs:501-510): the lowest remaining alive id with its element. */
    method Next() returns (r: Option<(Id, T)>)
      requires Valid()
      modifies this
      ensures Valid() && back == old(back)
      ensures old(Remaining()) == [] ==> r == None && Remaining() == []
      ensures old(Remaining()) != [] ==>
        var index := old(Remaining())[0];
        && index in storage.Contents()
        && r == Some((FromIndex(index), storage.Contents()[index]))
        && Remaining() == old(Remaining())[1..]
    {
      var index;
      index, front := IterNext(front, back, storage.unusedIndices);
      if index.Some? {
        var id := FromIndex(index.value);
        r := Some((id, storage.Index(id)));
      } else {
        r := None;
      }
    }

    /** `next_back` (vec.rs:520-531): the highest remaining alive id with its
        element. */
    method NextBack() returns (r: Option<(Id, T)>)
      requires Valid()
      modifies this
      ensures Valid() && front == old(front)
      ensures old(Remaining()) == [] ==> r == None && Remaining() == []
      ensures old(Remaining()) != [] ==>
        var index := old(Remaining())[|old(Remaining())| - 1];
        && index in storage.Contents()
        && r == Some((FromIndex(index), storage.Contents()[index]))
        && Remaining() == old(Remaining())[..|old(Remaining())| - 1]
    {
      var index;
      index, back := IterNextBack(front, back, storage.unusedIndices);
      if index.Some? {
        var id := FromIndex(index.value);
        r := Some((id, storage.Index(id)));
      } else {
        r := None;
      }
    }

    /** `size_hint` (vec.rs:512-517), with the window width saturating at
        zero once `next` has run past the back. */
    function SizeHint(): (h: (nat, Option<nat>))
      reads this, storage
      ensures h.1.Some? && h.0 <= |Remaining()| <= h.1.value
    {
      SizeHintBrackets(storage.unusedIndices, front, back);
      Slots.SizeHint(front, back, |storage.unusedIndices|)
    }
  }

  /** `ElementIter` (vec.rs:535-555), created by `IdVec::elements`
      (vec.rs:316-319): `Iter` without the ids. */
  class ElementIter<T> {
    const iter: Iter<T>

    ghost predicate Valid()
      reads this, iter, iter.storage
    {
      iter.Valid()
    }

    /** The elements still to be yielded, in the order `next` yields them. */
    function Remaining(): seq<T>
      reads this, iter, iter.storage
      requires Valid()
    {
      ValuesAt(iter.storage.elements, iter.Remaining())
    }

    constructor (storage: IdVec<T>)
      requires storage.Valid()
      ensures Valid() && iter.storage == storage && fresh(iter)
      ensures Remaining() == ValuesAt(storage.elements, AliveIn(storage.unusedIndices, 0, |storage.elements|))
    {
      iter := new Iter(storage);
    }

    method Next() returns (r: Option<T>)
      requires Valid()
      modifies iter
      ensures Valid()
      ensures old(Remaining()) == [] ==> r == None && Remaining() == []
      ensures old(Remaining()) != [] ==> r == Some(old(Remaining())[0]) && Remaining() == old(Remaining())[1..]
    {
      var item := iter.Next();
      r := if item.Some? then Some(item.value.1) else None;
    }

    method NextBack() returns (r: Option<T>)
      requires Valid()
      modifies iter
      ensures Valid()
      ensures old(Remaining()) == [] ==> r == None && Remaining() == []
      ensures old(Remaining()) != [] ==>
        && r == Some(old(Remaining())[|old(Remaining())| - 1])
        && Remaining() == old(Remaining())[..|old(Remaining())| - 1]
    {
      var item := iter.NextBack();
      r := if item.Some? then Some(item.value.1) else None;
    }

    function SizeHint(): (h: (nat, Option<nat>))
      reads this, iter, iter.storage
      requires Valid()
      ensures h.1.Some? && h.0 <= |Remaining()| <= h.1.value
    {
      iter.SizeHint()
    }
  }

  /** `IdIter` (vec.rs:638-658), created by `IdVec::ids` (vec.rs:321-324):
      `Iter` without the elements. */
  class IdIter<T> {
    const iter: Iter<T>

    ghost predicate Valid()
      reads this, iter, iter.storage
    {
      iter.Valid()
    }

    /** The indices of the ids still to be yielded, in the order `next`
        yields them. */
    function Remaining(): seq<nat>
      reads this, iter, iter.storage
    {
      iter.Remaining()
    }

    constructor (storage: IdVec<T>)
      requires storage.Valid()
      ensures Valid() && iter.storage == storage && fresh(iter)
      ensures Remaining() == AliveIn(storage.unusedIndices, 0, |storage.elements|)
    {
      iter := new Iter(storage);
    }

    method Next() returns (r: Option<Id>)
      requires Valid()
      modifies iter
      ensures Valid()
      ensures old(Remaining()) == [] ==> r == None && Remaining() == []
      ensures old(Remaining()) != [] ==>
        && r == Some(FromIndex(old(Remaining())[0]))
        && r.value.index in iter.storage.Contents()
        && Remaining() == old(Remaining())[1..]
    {
      var item := iter.Next();
      r := if item.Some? then Some(item.value.0) else None;
    }

    method NextBack() returns (r: Option<Id>)
      requires Valid()
      modifies iter
      ensures Valid()
      ensures old(Remaining()) == [] ==> r == None && Remaining() == []
      ensures old(Remaining()) != [] ==>
        && r == Some(FromIndex(old(Remaining())[|old(Remaining())| - 1]))
        && r.value.index in iter.storage.Contents()
        && Remaining() == old(Remaining())[..|old(Remaining())| - 1]
    {
      var item := iter.NextBack();
      r := if item.Some? then Some(item.value.0) else None;
    }

    function SizeHint(): (h: (nat, Option<nat>))
      reads this, iter, iter.storage
      ensures h.1.Some? && h.0 <= |Remaining()| <= h.1.value
    {
      iter.SizeHint()
    }
  }

  /** `OwnedIdIter` (vec.rs:665-703), created by `IdVec::get_ids`
      (vec.rs:326-337): the window and a copy of the dead-slot set, so the
      arena stays free to change while the ids are walked. */
  class OwnedIdIter<T> {
    var front: nat
    var back: nat
    var unusedIds: set<nat>

    /** The indices still to be yielded, in the order `next` yields them. */
    function Remaining(): seq<nat>
      reads this
    {
      AliveIn(unusedIds, front, back)
    }

    constructor (v: IdVec<T>)
      requires v.Valid()
      ensures unusedIds == v.unusedIndices
      ensures Remaining() == AliveIn(v.unusedIndices, 0, |v.elements|)
    {
      front := 0;
      back := |v.elements|;
      unusedIds := v.unusedIndices;
    }

    /** `next` (vec.rs:675-683). */
    method Next() returns (r: Option<Id>)
      modifies this
      ensures unusedIds == old(unusedIds) && back == old(back)
      ensures old(Remaining()) == [] ==> r == None && Remaining() == []
      ensures old(Remaining()) != [] ==>
        r == Some(FromIndex(old(Remaining())[0])) && Remaining() == old(Remaining())[1..]
    {
      var index;
      index, front := IterNext(front, back, unusedIds);
      r := if index.Some? then Some(FromIndex(index.value)) else None;
    }

    /** `next_back` (vec.rs:693-703). */
    method NextBack() returns (r: Option<Id>)
      modifies this
      ensures unusedIds == old(unusedIds) && front == old(front)
      ensures old(Remaining()) == [] ==> r == None && Remaining() == []
      ensures old(Remaining()) != [] ==>
        && r == Some(FromIndex(old(Remaining())[|old(Remaining())| - 1]))
        && Remaining() == old(Remaining())[..|old(Remaining())| - 1]
    {
      var index;
      index, back := IterNextBack(front, back, unusedIds);
      r := if index.Some? then Some(FromIndex(index.value)) else None;
    }

    /** `size_hint` (vec.rs:685-690), saturating like `Iter::size_hint`. */
    function SizeHint(): (h: (nat, Option<nat>))
      reads this
      ensures h.1.Some? && h.0 <= |Remaining()| <= h.1.value
    {
      SizeHintBrackets(unusedIds, front, back);
      Slots.SizeHint(front, back, |unusedIds|)
    }
  }

  /** The dead slots still ahead of a consuming cursor all lie in the window
      [next, max). */
  ghost predicate AheadOf(unused: set<nat>, next: nat, max: nat)
  {
    forall i :: i in unused ==> next <= i < max
  }

  /** One skip of the consuming iterators: forgetting a dead slot at the front
      of the window and stepping past it leaves the enumeration unchanged. */
  lemma SkipDead(unused: set<nat>, next: nat, max: nat)
    requires next in unused
    ensures AliveIn(unused - {next}, next + 1, max) == AliveIn(unused, next, max)
  {
    AliveInFrame(unused - {next}, unused, next + 1, max);
  }

  /** The exact size hint of the consuming iterators: the window width minus
      the dead slots still ahead is the number of elements still to come. */
  lemma ExactCount(unused: set<nat>, next: nat, max: nat)
    requires next <= max && AheadOf(unused, next, max)
    ensures |unused| <= max - next
    ensures |AliveIn(unused, next, max)| == (max - next) - |unused|
  {
    AliveInCount(unused, next, max);
    WindowCount(unused, next, max);
    assert unused <= Interval(next, max);
  }

  /** `IntoElements` (vec.rs:557-591), created by `IdVec::into_elements`
      (vec.rs:298-305).  It walks the slots front to back, although its doc
      comment (vec.rs:558) says backwards; each dead slot it passes is
      removed from its copy of the dead-slot set. */
  class IntoElements<T> {
    var elements: seq<T>
    var unusedIds: set<nat>
    var exclusiveMaxIndex: nat
    var nextIndex: nat

    ghost predicate Valid()
      reads this
    {
      |elements| == exclusiveMaxIndex && nextIndex <= exclusiveMaxIndex
      && AheadOf(unusedIds, nextIndex, exclusiveMaxIndex)
    }

    /** The elements still to be yielded, in the order `next` yields them. */
    function Remaining(): seq<T>
      reads this
      requires Valid()
    {
      AliveInSpec(unusedIds, nextIndex, exclusiveMaxIndex);
      ValuesAt(elements, AliveIn(unusedIds, nextIndex, exclusiveMaxIndex))
    }

    constructor (v: IdVec<T>)
      requires v.Valid()
      ensures Valid()
      ensures Remaining() == ValuesAt(v.elements, AliveIn(v.unusedIndices, 0, |v.elements|))
      ensures |Remaining()| == v.Len()
    {
      exclusiveMaxIndex := |v.elements|;
      unusedIds := v.unusedIndices;
      elements := v.elements;
      nextIndex := 0;
      new;
      WholeWindow(v);
    }

    /** `next` (vec.rs:571-584). */
    method Next() returns (r: Option<T>)
      requires Valid()
      modifies this
      ensures Valid() && elements == old(elements)
      ensures old(Remaining()) == [] ==> r == None && Remaining() == []
      ensures old(Remaining()) != [] ==> r == Some(old(Remaining())[0]) && Remaining() == old(Remaining())[1..]
    {
      while nextIndex in unusedIds
        invariant Valid() && elements == old(elements) && exclusiveMaxIndex == old(exclusiveMaxIndex)
        invariant AliveIn(unusedIds, nextIndex, exclusiveMaxIndex)
               == AliveIn(old(unusedIds), old(nextIndex), exclusiveMaxIndex)
        decreases exclusiveMaxIndex - nextIndex
      {
        SkipDead(unusedIds, nextIndex, exclusiveMaxIndex);
        unusedIds := unusedIds - {nextIndex};
        nextIndex := nextIndex + 1;
      }
      if nextIndex < exclusiveMaxIndex {
        nextIndex := nextIndex + 1;
        r := Some(elements[nextIndex - 1]);
      } else {
        r := None;
      }
    }

    /** `size_hint` (vec.rs:586-590): exact. */
    function SizeHint(): (h: (nat, Option<nat>))
      reads this
      requires Valid()
      ensures h == (|Remaining()|, Some(|Remaining()|))
    {
      ExactCount(unusedIds, nextIndex, exclusiveMaxIndex);
      var remaining := exclusiveMaxIndex - nextIndex;
      var used := remaining - |unusedIds|;
      (used, Some(used))
    }
  }

  /** `DrainElements` (vec.rs:593-633), created by `IdVec::drain_elements`
      (vec.rs:307-314).  The arena's slots are taken out at once; its
      dead-slot set is shared and shrinks as the drain passes dead slots, and
      is cleared when the drain is dropped.  Like `IntoElements` it walks
      front to back despite its doc comment (vec.rs:594). */
  class DrainElements<T> {
    const vec: IdVec<T>
    var elements: seq<T>
    var exclusiveMaxIndex: nat
    var nextIndex: nat

    ghost predicate Valid()
      reads this, vec
    {
      vec.elements == []
      && |elements| == exclusiveMaxIndex && nextIndex <= exclusiveMaxIndex
      && AheadOf(vec.unusedIndices, nextIndex, exclusiveMaxIndex)
    }

    /** The elements still to be yielded, in the order `next` yields them. */
    function Remaining(): seq<T>
      reads this, vec
      requires Valid()
    {
      AliveInSpec(vec.unusedIndices, nextIndex, exclusiveMaxIndex);
      ValuesAt(elements, AliveIn(vec.unusedIndices, nextIndex, exclusiveMaxIndex))
    }

    constructor (v: IdVec<T>)
      requires v.Valid()
      modifies v
      ensures Valid() && vec == v
      ensures v.elements == [] && v.unusedIndices == old(v.unusedIndices)
      ensures Remaining() == ValuesAt(old(v.elements), AliveIn(old(v.unusedIndices), 0, |old(v.elements)|))
      ensures |Remaining()| == old(v.Len())
    {
      WholeWindow(v);
      vec := v;
      exclusiveMaxIndex := |v.elements|;
      elements := v.elements;
      nextIndex := 0;
      new;
      v.elements := [];
    }

    /** `next` (vec.rs:606-619). */
    method Next() returns (r: Option<T>)
      requires Valid()
      modifies this, vec
      ensures Valid() && elements == old(elements)
      ensures old(Remaining()) == [] ==> r == None && Remaining() == []
      ensures old(Remaining()) != [] ==> r == Some(old(Remaining())[0]) && Remaining() == old(Remaining())[1..]
    {
      while nextIndex in vec.unusedIndices
        invariant Valid() && elements == old(elements) && exclusiveMaxIndex == old(exclusiveMaxIndex)
        invariant AliveIn(vec.unusedIndices, nextIndex, exclusiveMaxIndex)
               == AliveIn(old(vec.unusedIndices), old(nextIndex), exclusiveMaxIndex)
        decreases exclusiveMaxIndex - nextIndex
      {
        SkipDead(vec.unusedIndices, nextIndex, exclusiveMaxIndex);
        vec.unusedIndices := vec.unusedIndices - {nextIndex};
        nextIndex := nextIndex + 1;
      }
      if nextIndex < exclusiveMaxIndex {
        nextIndex := nextIndex + 1;
        r := Some(elements[nextIndex - 1]);
      } else {
        r := None;
      }
    }

    /** `size_hint` (vec.rs:621-625): exact. */
    function SizeHint(): (h: (nat, Option<nat>))
      reads this, vec
      requires Valid()
      ensures h == (|Remaining()|, Some(|Remaining()|))
    {
      ExactCount(vec.unusedIndices, nextIndex, exclusiveMaxIndex);
      var remaining := exclusiveMaxIndex - nextIndex;
      var used := remaining - |vec.unusedIndices|;
      (used, Some(used))
    }

    /** `drop` (vec.rs:628-633): whatever was not yielded is gone, and the
        arena is left empty and valid. */
    method Drop()
      requires Valid()
      modifies vec
      ensures vec.Valid() && vec.elements == [] && vec.unusedIndices == {}
      ensures vec.Contents() == map[]
    {
      vec.unusedIndices := {};
    }
  }
}
