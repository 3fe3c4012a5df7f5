/**
 * The older arena `IdMap<T>` of src/map.rs.
 *
 * Like `IdVec` it keeps a dense sequence of slots and a set of dead
 * ("unused") indices, but removal only marks a slot dead: the sequence never
 * shrinks, so the last slot may be dead too.  The abstract value is again
 * `Contents()`, alive index to element.
 */
module IdMaps {

  import opened Wrappers
  import opened Ids
  import opened Slots

  class IdMap<T> {
    /** Alive and dead slots (map.rs:15). */
    var elements: seq<T>
    /** The dead slots, free to be overwritten (map.rs:18). */
    var currentlyUnusedIds: set<nat>

    /** Every dead slot lies inside `elements`: `len` (map.rs:131-133)
        subtracts their count and `insert` (map.rs:75-87) writes into them. */
    ghost predicate Valid()
      reads this
    {
      InRange(|elements|, currentlyUnusedIds)
    }

    /** The elements reachable through an id: alive index to element. */
    function Contents(): map<nat, T>
      reads this
    {
      ContentsOf(elements, currentlyUnusedIds)
    }

    /** `new` (map.rs:25-27): an empty arena. */
    constructor New()
      ensures Valid() && elements == [] && currentlyUnusedIds == {}
      ensures Contents() == map[]
    {
      elements := [];
      currentlyUnusedIds := {};
    }

    /** `with_capacity` (map.rs:29-34): the capacity is an allocation hint
        only. */
    constructor WithCapacity(capacity: nat)
      ensures Valid() && elements == [] && currentlyUnusedIds == {}
      ensures Contents() == map[]
    {
      elements := [];
      currentlyUnusedIds := {};
    }

    /** `contains` (map.rs:36-39, 45-47): in range and not dead. */
    function Contains(id: Id): (b: bool)
      reads this
      ensures b <==> id.index in Contents()
    {
      IndexValue(id) < |elements| && IndexValue(id) !in currentlyUnusedIds
    }

    /** `is_packed` (map.rs:41-43): no dead slot, so every slot is alive. */
    function IsPacked(): (b: bool)
      reads this
      requires Valid()
      ensures b <==> forall i :: 0 <= i < |elements| ==> i in Contents()
    {
      assert forall i :: i in currentlyUnusedIds ==> i < |elements| && i !in Contents();
      currentlyUnusedIds == {}
    }

    /** `len` (map.rs:131-133): the slot count minus the dead-slot count is
        the number of alive elements. */
    function Len(): (n: nat)
      reads this
      requires Valid()
      ensures n == |Contents()|
    {
      AliveCount(|elements|, currentlyUnusedIds);
      ContentsKeys(elements, currentlyUnusedIds);
      |elements| - |currentlyUnusedIds|
    }

    /** `mark_unused` (map.rs:68-71): the slot turns dead and stays in
        place; nothing else changes. */
    method MarkUnused(id: Id)
      requires Valid() && Contains(id)
      modifies this
      ensures Valid() && elements == old(elements)
      ensures currentlyUnusedIds == old(currentlyUnusedIds) + {id.index}
      ensures Contents() == old(Contents()) - {id.index}
      ensures Len() == old(Len()) - 1
    {
      RemoveCount(Contents(), id.index);
      ContentsKill(elements, currentlyUnusedIds, id.index);
      currentlyUnusedIds := currentlyUnusedIds + {IndexValue(id)};
    }

    /** `insert` (map.rs:75-87): overwrite some dead slot if there is one
        (the hash set decides which), otherwise append. */
    method Insert(element: T) returns (id: Id)
      requires Valid()
      modifies this
      ensures Valid()
      ensures id.index !in old(Contents())
      ensures Contents() == old(Contents())[id.index := element]
      ensures Get(id) == Some(element)
      ensures Len() == old(Len()) + 1
      ensures old(currentlyUnusedIds) != {} ==>
        && id.index in old(currentlyUnusedIds)
        && currentlyUnusedIds == old(currentlyUnusedIds) - {id.index}
        && elements == old(elements)[id.index := element]
      ensures old(currentlyUnusedIds) == {} ==>
        && id.index == |old(elements)|
        && currentlyUnusedIds == {}
        && elements == old(elements) + [element]
    {
      AddCount(Contents(), |elements|, element);
      var index: nat;
      if currentlyUnusedIds != {} {
        var previouslyUnused :| previouslyUnused in currentlyUnusedIds;
        AddCount(Contents(), previouslyUnused, element);
        ContentsRevive(elements, currentlyUnusedIds, previouslyUnused, element);
        currentlyUnusedIds := currentlyUnusedIds - {previouslyUnused};
        elements := elements[previouslyUnused := element];
        index := previouslyUnused;
      } else {
        ContentsPush(elements, currentlyUnusedIds, element);
        elements := elements + [element];
        index := |elements| - 1;
      }
      id := FromIndex(index);
    }

    /** `get` (map.rs:89-93): `None` for a dead or out-of-range id. */
    function Get(id: Id): (r: Option<T>)
      reads this
      ensures r.Some? <==> id.index in Contents()
      ensures r.Some? ==> r.value == Contents()[id.index]
    {
      var index := IndexValue(id);
      if index !in currentlyUnusedIds then
        if index < |elements| then Some(elements[index]) else None
      else None
    }

    /** Indexing `map[id]` (map.rs:352-358) requires a valid id. */
    function Index(id: Id): (element: T)
      reads this
      requires Contains(id)
      ensures Get(id) == Some(element)
    {
      elements[IndexValue(id)]
    }

    /** `get_mut` (map.rs:95-99) followed by a write through the returned
        reference: `found` tells whether a reference was returned. */
    method GetMut(id: Id, value: T) returns (found: bool)
      requires Valid()
      modifies this
      ensures Valid() && currentlyUnusedIds == old(currentlyUnusedIds) && |elements| == |old(elements)|
      ensures found <==> id.index in old(Contents())
      ensures Contents() == if found then old(Contents())[id.index := value] else old(Contents())
    {
      var index := IndexValue(id);
      found := index !in currentlyUnusedIds && index < |elements|;
      if found {
        elements := elements[index := value];
      }
    }

    /** Indexing `map[id] = value` (map.rs:360-365) requires a valid id. */
    method IndexMut(id: Id, value: T)
      requires Valid() && Contains(id)
      modifies this
      ensures Valid() && currentlyUnusedIds == old(currentlyUnusedIds)
      ensures elements == old(elements)[id.index := value]
      ensures Contents() == old(Contents())[id.index := value]
    {
      elements := elements[IndexValue(id) := value];
    }

    /** `packed_vec` (map.rs:137-147): the alive elements in ascending id
        order, and for each alive id the position its element landed at.
        The positions keep the order of the ids, so no two ids share one. */
    method PackedVec() returns (vec: seq<T>, remap: map<Id, nat>)
      requires Valid()
      ensures |vec| == Len()
      ensures forall id :: id in remap <==> id.index in Contents()
      ensures forall id :: id in remap ==> remap[id] < |vec| && vec[remap[id]] == Contents()[id.index]
      ensures forall a, b :: a in remap && b in remap && a.index < b.index ==> remap[a] < remap[b]
    {
      var it := new Iter(this);
      ghost var all := it.Remaining();
      AliveAscending(currentlyUnusedIds, 0, |elements|);
      vec, remap := CollectAll(it);
      PackedDone(this, all, vec, remap);
    }
  }

  /** The loop of `packed_vec`: drains the iterator, appending each element
      and recording the position it landed at under its id. */
  method CollectAll<T>(it: Iter<T>) returns (vec: seq<T>, remap: map<Id, nat>)
    requires it.Valid() && Ascending(it.Remaining())
    modifies it
    ensures var all := old(it.Remaining());
      |vec| == |all| && Collected(all, it.storage.elements, vec, remap)
  {
    ghost var all := it.Remaining();
    vec := [];
    remap := map[];
    var next := it.Next();
    while next.Some?
      invariant it.Valid()
      invariant Collected(all, it.storage.elements, vec, remap)
      invariant next.Some? ==>
        && |vec| < |all| && all[|vec|] < |it.storage.elements|
        && next.value == (FromIndex(all[|vec|]), it.storage.elements[all[|vec|]])
        && it.Remaining() == all[|vec| + 1..]
      invariant next.None? ==> |vec| == |all|
      decreases |all| - |vec|
    {
      CollectStep(all, it.storage.elements, vec, remap, next.value.1);
      remap := remap[next.value.0 := |vec|];
      vec := vec + [next.value.1];
      if |vec| < |all| {
        TailOfSlice(all, |vec|);
      }
      next := it.Next();
    }
  }

  /** Strictly ascending. */
  ghost predicate Ascending(s: seq<nat>)
  {
    forall k, l :: 0 <= k < l < |s| ==> s[k] < s[l]
  }

  /** A window enumerates its alive ids in ascending order. */
  lemma AliveAscending(unused: set<nat>, front: nat, back: nat)
    ensures Ascending(AliveIn(unused, front, back))
  {
    AliveInSpec(unused, front, back);
  }

  /** The first |vec| indices of `all` have been collected: their elements
      are `vec`, in order, and `remap` sends each of their ids to its
      position. */
  ghost predicate Collected<T>(all: seq<nat>, elements: seq<T>, vec: seq<T>, remap: map<Id, nat>)
  {
    && |vec| <= |all|
    && (forall k :: 0 <= k < |vec| ==> all[k] < |elements| && vec[k] == elements[all[k]])
    && (forall id :: id in remap ==> remap[id] < |vec| && all[remap[id]] == id.index)
    && (forall k :: 0 <= k < |vec| ==> FromIndex(all[k]) in remap && remap[FromIndex(all[k])] == k)
  }

  /** Collecting the next index keeps `Collected`: as the indices are
      distinct, the new id overwrites no earlier entry. */
  lemma CollectStep<T>(all: seq<nat>, elements: seq<T>, vec: seq<T>, remap: map<Id, nat>, x: T)
    requires Ascending(all) && Collected(all, elements, vec, remap)
    requires |vec| < |all| && all[|vec|] < |elements| && x == elements[all[|vec|]]
    ensures Collected(all, elements, vec + [x], remap[FromIndex(all[|vec|]) := |vec|])
  {
    var id := FromIndex(all[|vec|]);
    assert id !in remap;
    var remap' := remap[id := |vec|];
    forall k | 0 <= k < |vec| + 1
      ensures FromIndex(all[k]) in remap' && remap'[FromIndex(all[k])] == k
    {
      if k < |vec| {
        assert all[k] < all[|vec|];
      }
    }
  }

  /** Once every alive id is visited, the collected positions are those of
      the ascending enumeration. */
  lemma PackedDone<T>(m: IdMap<T>, all: seq<nat>, vec: seq<T>, remap: map<Id, nat>)
    requires m.Valid() && all == AliveIn(m.currentlyUnusedIds, 0, |m.elements|)
    requires |vec| == |all| && Collected(all, m.elements, vec, remap)
    ensures |vec| == m.Len()
    ensures forall id :: id in remap <==> id.index in m.Contents()
    ensures forall id :: id in remap ==> remap[id] < |vec| && vec[remap[id]] == m.Contents()[id.index]
    ensures forall a, b :: a in remap && b in remap && a.index < b.index ==> remap[a] < remap[b]
  {
    AliveInSpec(m.currentlyUnusedIds, 0, |m.elements|);
    AliveInCount(m.currentlyUnusedIds, 0, |m.elements|);
    AliveCount(|m.elements|, m.currentlyUnusedIds);
    ContentsKeys(m.elements, m.currentlyUnusedIds);
    forall id: Id | id.index in m.Contents()
      ensures id in remap
    {
      assert id.index in all;
      var k :| 0 <= k < |all| && all[k] == id.index;
      assert FromIndex(all[k]) == id;
    }
    CollectedOrder(all, m.elements, vec, remap);
  }

  /** Positions handed out along an ascending enumeration keep the order of
      the ids. */
  lemma CollectedOrder<T>(all: seq<nat>, elements: seq<T>, vec: seq<T>, remap: map<Id, nat>)
    requires Ascending(all) && Collected(all, elements, vec, remap)
    ensures forall a, b :: a in remap && b in remap && a.index < b.index ==> remap[a] < remap[b]
  {
  }

  /** `Iter` (map.rs:216-255), created by `IdMap::iter` (map.rs:102-108). */
  class Iter<T> {
    const storage: IdMap<T>
    var front: nat
    var back: nat

    ghost predicate Valid()
      reads this, storage
    {
      storage.Valid() && back <= |storage.elements|
    }

    /** The indices still to be yielded, in the order `next` yields them. */
    function Remaining(): seq<nat>
      reads this, storage
    {
      AliveIn(storage.currentlyUnusedIds, front, back)
    }

    constructor (storage: IdMap<T>)
      requires storage.Valid()
      ensures Valid() && this.storage == storage
      ensures front == 0 && back == |storage.elements|
      ensures Remaining() == AliveIn(storage.currentlyUnusedIds, 0, |storage.elements|)
    {
      this.storage := storage;
      front := 0;
      back := |storage.elements|;
    }

    /** `next` (map.rs:225-234), stepping with `iter_next` (map.rs:175-193),
        which is the step of src/vec.rs: the lowest remaining alive id with
        its element. */
    method Next() returns (r: Option<(Id, T)>)
      requires Valid()
      modifies this
      ensures Valid() && back == old(back)
      ensures old(Remaining()) == [] ==> r == None && Remaining() == []
      ensures old(Remaining()) != [] ==>
        var index := old(Remaining())[0];
        && index in storage.Contents()
        && r == Some((FromIndex(index), storage.Contents()[index]))
        && Remaining() == old(Remaining())[1..]
    {
      var index;
      index, front := IterNext(front, back, storage.currentlyUnusedIds);
      if index.Some? {
        var id := FromIndex(index.value);
        r := Some((id, storage.Index(id)));
      } else {
        r := None;
      }
    }

    /** `next_back` (map.rs:245-254) with the corrected step `IterNextBack`:
        the highest remaining alive id with its element.  The step as
        written in map.rs is `IterNextBackAsWritten`. */
    method NextBack() returns (r: Option<(Id, T)>)
      requires Valid()
      modifies this
      ensures Valid() && front == old(front)
      ensures old(Remaining()) == [] ==> r == None && Remaining() == []
      ensures old(Remaining()) != [] ==>
        var index := old(Remaining())[|old(Remaining())| - 1];
        && index in storage.Contents()
        && r == Some((FromIndex(index), storage.Contents()[index]))
        && Remaining() == old(Remaining())[..|old(Remaining())| - 1]
    {
      var index;
      index, back := IterNextBack(front, back, storage.currentlyUnusedIds);
      if index.Some? {
        var id := FromIndex(index.value);
        r := Some((id, storage.Index(id)));
      } else {
        r := None;
      }
    }

    /** `size_hint` (map.rs:236-241), with the window width saturating at
        zero once `next` has run past the back. */
    function SizeHint(): (h: (nat, Option<nat>))
      reads this, storage
      ensures h.1.Some? && h.0 <= |Remaining()| <= h.1.value
    {
      SizeHintBrackets(storage.currentlyUnusedIds, front, back);
      Slots.SizeHint(front, back, |storage.currentlyUnusedIds|)
    }
  }

  /** `ElementIter` (map.rs:259-279), created by `IdMap::elements`
      (map.rs:111-113): `Iter` without the ids. */
  class ElementIter<T> {
    const iter: Iter<T>

    ghost predicate Valid()
      reads this, iter, iter.storage
    {
      iter.Valid()
    }

    /** The elements still to be yielded, in the order `next` yields them. */
    function Remaining(): seq<T>
      reads this, iter, iter.storage
      requires Valid()
    {
      ValuesAt(iter.storage.elements, iter.Remaining())
    }

    constructor (storage: IdMap<T>)
      requires storage.Valid()
      ensures Valid() && iter.storage == storage && fresh(iter)
      ensures Remaining() == ValuesAt(storage.elements, AliveIn(storage.currentlyUnusedIds, 0, |storage.elements|))
    {
      iter := new Iter(storage);
    }

    method Next() returns (r: Option<T>)
      requires Valid()
      modifies iter
      ensures Valid()
      ensures old(Remaining()) == [] ==> r == None && Remaining() == []
      ensures old(Remaining()) != [] ==> r == Some(old(Remaining())[0]) && Remaining() == old(Remaining())[1..]
    {
      var item := iter.Next();
      r := if item.Some? then Some(item.value.1) else None;
    }

    method NextBack() returns (r: Option<T>)
      requires Valid()
      modifies iter
      ensures Valid()
      ensures old(Remaining()) == [] ==> r == None && Remaining() == []
      ensures old(Remaining()) != [] ==>
        && r == Some(old(Remaining())[|old(Remaining())| - 1])
        && Remaining() == old(Remaining())[..|old(Remaining())| - 1]
    {
      var item := iter.NextBack();
      r := if item.Some? then Some(item.value.1) else None;
    }

    function SizeHint(): (h: (nat, Option<nat>))
      reads this, iter, iter.storage
      requires Valid()
      ensures h.1.Some? && h.0 <= |Remaining()| <= h.1.value
    {
      iter.SizeHint()
    }
  }

  /** `IdIter` (map.rs:283-303), created by `IdMap::ids` (map.rs:116-118):
      `Iter` without the elements. */
  class IdIter<T> {
    const iter: Iter<T>

    ghost predicate Valid()
      reads this, iter, iter.storage
    {
      iter.Valid()
    }

    /** The indices of the ids still to be yielded, in the order `next`
        yields them. */
    function Remaining(): seq<nat>
      reads this, iter, iter.storage
    {
      iter.Remaining()
    }

    constructor (storage: IdMap<T>)
      requires storage.Valid()
      ensures Valid() && iter.storage == storage && fresh(iter)
      ensures Remaining() == AliveIn(storage.currentlyUnusedIds, 0, |storage.elements|)
    {
      iter := new Iter(storage);
    }

    method Next() returns (r: Option<Id>)
      requires Valid()
      modifies iter
      ensures Valid()
      ensures old(Remaining()) == [] ==> r == None && Remaining() == []
      ensures old(Remaining()) != [] ==>
        && r == Some(FromIndex(old(Remaining())[0]))
        && r.value.index in iter.storage.Contents()
        && Remaining() == old(Remaining())[1..]
    {
      var item := iter.Next();
      r := if item.Some? then Some(item.value.0) else None;
    }

    method NextBack() returns (r: Option<Id>)
      requires Valid()
      modifies iter
      ensures Valid()
      ensures old(Remaining()) == [] ==> r == None && Remaining() == []
      ensures old(Remaining()) != [] ==>
        && r == Some(FromIndex(old(Remaining())[|old(Remaining())| - 1]))
        && r.value.index in iter.storage.Contents()
        && Remaining() == old(Remaining())[..|old(Remaining())| - 1]
    {
      var item := iter.NextBack();
      r := if item.Some? then Some(item.value.0) else None;
    }

    function SizeHint(): (h: (nat, Option<nat>))
      reads this, iter, iter.storage
      ensures h.1.Some? && h.0 <= |Remaining()| <= h.1.value
    {
      iter.SizeHint()
    }
  }

  /** `IdIterMut` (map.rs:310-348), created by `IdMap::ids_mut`
      (map.rs:122-129): the window and a copy of the dead-slot set, so the
      arena stays free to change while the ids are walked. */
  class IdIterMut<T> {
    var front: nat
    var back: nat
    var unusedIds: set<nat>

    /** The indices still to be yielded, in the order `next` yields them. */
    function Remaining(): seq<nat>
      reads this
    {
      AliveIn(unusedIds, front, back)
    }

    constructor (m: IdMap<T>)
      ensures unusedIds == m.currentlyUnusedIds
      ensures Remaining() == AliveIn(m.currentlyUnusedIds, 0, |m.elements|)
    {
      front := 0;
      back := |m.elements|;
      unusedIds := m.currentlyUnusedIds;
    }

    /** `next` (map.rs:320-328). */
    method Next() returns (r: Option<Id>)
      modifies this
      ensures unusedIds == old(unusedIds) && back == old(back)
      ensures old(Remaining()) == [] ==> r == None && Remaining() == []
      ensures old(Remaining()) != [] ==>
        r == Some(FromIndex(old(Remaining())[0])) && Remaining() == old(Remaining())[1..]
    {
      var index;
      index, front := IterNext(front, back, unusedIds);
      r := if index.Some? then Some(FromIndex(index.value)) else None;
    }

    /** `next_back` (map.rs:338-348) with the corrected step. */
    method NextBack() returns (r: Option<Id>)
      modifies this
      ensures unusedIds == old(unusedIds) && front == old(front)
      ensures old(Remaining()) == [] ==> r == None && Remaining() == []
      ensures old(Remaining()) != [] ==>
        && r == Some(FromIndex(old(Remaining())[|old(Remaining())| - 1]))
        && Remaining() == old(Remaining())[..|old(Remaining())| - 1]
    {
      var index;
      index, back := IterNextBack(front, back, unusedIds);
      r := if index.Some? then Some(FromIndex(index.value)) else None;
    }

    /** `size_hint` (map.rs:330-335), saturating like `Iter::size_hint`. */
    function SizeHint(): (h: (nat, Option<nat>))
      reads this
      ensures h.1.Some? && h.0 <= |Remaining()| <= h.1.value
    {
      SizeHintBrackets(unusedIds, front, back);
      Slots.SizeHint(front, back, |unusedIds|)
    }
  }

  /** `iter_next_back` as written in map.rs (195-211): the skip loop tests
      the back index itself rather than the slot just below it, then
      consumes `back - 1` whatever state that slot is in. */
  method IterNextBackAsWritten(front: nat, back: nat, unused: set<nat>) returns (r: Option<nat>, newBack: nat)
    ensures newBack <= back
    ensures r.Some? ==>
      && front <= r.value < back && newBack == r.value
      && r.value + 1 !in unused
      && forall j :: r.value + 1 < j <= back ==> j in unused
    ensures r.None? ==> newBack <= front && forall j :: front < j <= back ==> j in unused
  {
    var b: nat := back;
    while b > front && b in unused
      invariant b <= back
      invariant forall j :: b < j <= back ==> j in unused
    {
      b := b - 1;
    }
    if b > front {
      b := b - 1;
      r := Some(b);
    } else {
      r := None;
    }
    newBack := b;
  }

  /** Over the window [0, 1) whose only slot is dead, the step as written
      yields that dead slot, while the corrected step yields nothing. */
  method NextBackCounterexample(unused: set<nat>) returns (r: Option<nat>, fixed: Option<nat>)
    requires unused == {0}
    ensures r == Some(0) && 0 in unused
    ensures fixed == None
  {
    var b;
    r, b := IterNextBackAsWritten(0, 1, unused);
    assert 1 !in unused;
    fixed, b := IterNextBack(0, 1, unused);
    assert AliveIn(unused, 0, 1) == [];
  }
}
