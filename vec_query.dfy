/**
 * The whole-arena queries of src/vec.rs that walk an iterator:
 * `find_id_of_element`, `contains_element`, `ids_eq`, `elements_eq` and the
 * `PartialEq` implementation.
 */
module IdVecQueries {

  import opened Wrappers
  import opened Ids
  import opened Slots
  import opened IdVecs
  import opened IdVecIters

  /** The alive elements of an arena with the given slots and dead slots, in
      ascending id order. */
  function AliveValues<T>(elements: seq<T>, unused: set<nat>): seq<T>
  {
    ValuesAt(elements, AliveIn(unused, 0, |elements|))
  }

  /** An arena enumerates as many ids as it holds. */
  lemma EnumerationLength<T>(v: IdVec<T>)
    requires v.Valid()
    ensures |AliveIn(v.unusedIndices, 0, |v.elements|)| == v.Len()
  {
    AliveInCount(v.unusedIndices, 0, |v.elements|);
    AliveCount(|v.elements|, v.unusedIndices);
  }

  /** Two arenas hold the same ids with the same elements exactly when they
      enumerate the same ids and the same element under each. */
  lemma SameContents<T>(a: IdVec<T>, b: IdVec<T>)
    requires a.Valid() && b.Valid()
    ensures var s := AliveIn(a.unusedIndices, 0, |a.elements|);
      (a.Contents() == b.Contents()) <==>
        (&& s == AliveIn(b.unusedIndices, 0, |b.elements|)
         && forall k :: 0 <= k < |s| ==> a.elements[s[k]] == b.elements[s[k]])
  {
    var s := AliveIn(a.unusedIndices, 0, |a.elements|);
    if a.Contents() == b.Contents() {
      SameContentsEnumerate(a, b);
      AliveInSpec(a.unusedIndices, 0, |a.elements|);
      forall k | 0 <= k < |s|
        ensures a.elements[s[k]] == b.elements[s[k]]
      {
        assert s[k] in a.Contents();
      }
    } else if && s == AliveIn(b.unusedIndices, 0, |b.elements|)
              && forall k :: 0 <= k < |s| ==> a.elements[s[k]] == b.elements[s[k]]
    {
      SameEnumerationContents(a, b);
    }
  }

  /** Arenas with the same contents enumerate the same ids. */
  lemma SameContentsEnumerate<T>(a: IdVec<T>, b: IdVec<T>)
    requires a.Valid() && b.Valid()
    requires a.Contents() == b.Contents()
    ensures AliveIn(a.unusedIndices, 0, |a.elements|) == AliveIn(b.unusedIndices, 0, |b.elements|)
  {
    var n := |a.elements|;
    SameLength(a, b);
    SameLength(b, a);
    forall i | 0 <= i < n
      ensures i in a.unusedIndices <==> i in b.unusedIndices
    {
      assert i in a.unusedIndices <==> i !in a.Contents();
      assert i in b.unusedIndices <==> i !in b.Contents();
    }
    AliveInFrame(a.unusedIndices, b.unusedIndices, 0, n);
  }

  /** An arena is no longer than the last alive id of another arena with
      the same contents allows: its own last slot is alive. */
  lemma SameLength<T>(a: IdVec<T>, b: IdVec<T>)
    requires a.Valid() && b.Valid()
    requires a.Contents() == b.Contents()
    ensures |a.elements| <= |b.elements|
  {
    if |a.elements| > 0 {
      assert |a.elements| - 1 in a.Contents();
    }
  }

  /** Arenas that enumerate the same ids, with the same element under each,
      have the same contents. */
  lemma SameEnumerationContents<T>(a: IdVec<T>, b: IdVec<T>)
    requires a.Valid() && b.Valid()
    requires AliveIn(a.unusedIndices, 0, |a.elements|) == AliveIn(b.unusedIndices, 0, |b.elements|)
    requires var s := AliveIn(a.unusedIndices, 0, |a.elements|);
      forall k :: 0 <= k < |s| ==> a.elements[s[k]] == b.elements[s[k]]
    ensures a.Contents() == b.Contents()
  {
    EnumeratedIn(a, b);
    EnumeratedIn(b, a);
    assert a.Contents().Keys == b.Contents().Keys;
  }

  /** Every alive id of an arena is alive in an arena that enumerates the
      same ids, with the same element under each. */
  lemma EnumeratedIn<T>(a: IdVec<T>, b: IdVec<T>)
    requires a.Valid() && b.Valid()
    requires AliveIn(a.unusedIndices, 0, |a.elements|) == AliveIn(b.unusedIndices, 0, |b.elements|)
    requires var s := AliveIn(a.unusedIndices, 0, |a.elements|);
      forall k :: 0 <= k < |s| ==> a.elements[s[k]] == b.elements[s[k]]
    ensures forall i :: i in a.Contents() ==> i in b.Contents() && a.Contents()[i] == b.Contents()[i]
  {
    var s := AliveIn(a.unusedIndices, 0, |a.elements|);
    AliveInSpec(a.unusedIndices, 0, |a.elements|);
    AliveInSpec(b.unusedIndices, 0, |b.elements|);
    forall i | i in a.Contents()
      ensures i in b.Contents() && a.Contents()[i] == b.Contents()[i]
    {
      assert i in s;
      var k :| 0 <= k < |s| && s[k] == i;
    }
  }

  /** `find_id_of_element` (vec.rs:361-365): the lowest alive id whose
      element equals the given one, if any. */
  method FindIdOfElement<T(==)>(v: IdVec<T>, element: T) returns (r: Option<Id>)
    requires v.Valid()
    ensures r.Some? ==> r.value.index in v.Contents() && v.Contents()[r.value.index] == element
    ensures r.Some? ==> forall i :: i in v.Contents() && i < r.value.index ==> v.Contents()[i] != element
    ensures r.None? <==> element !in v.Contents().Values
  {
    ghost var all := AliveIn(v.unusedIndices, 0, |v.elements|);
    var it := new Iter(v);
    ghost var done := 0;
    var item := it.Next();
    while item.Some? && item.value.1 != element
      invariant it.Valid() && it.storage == v
      invariant done <= |all|
      invariant item.Some? ==>
        && done < |all|
        && item.value == (FromIndex(all[done]), v.elements[all[done]])
        && it.Remaining() == all[done + 1..]
      invariant item.None? ==> done == |all|
      invariant forall k :: 0 <= k < done ==> v.elements[all[k]] != element
      decreases |all| - done
    {
      if done + 1 < |all| {
        TailOfSlice(all, done + 1);
      }
      done := done + 1;
      item := it.Next();
    }
    r := if item.Some? then Some(item.value.0) else None;
    FirstMatch(v, all, done, element, r);
  }

  /** What a search that passed over the first `done` alive ids without a
      match, and stopped at the next one or at the end, has found. */
  lemma FirstMatch<T>(v: IdVec<T>, all: seq<nat>, done: nat, element: T, r: Option<Id>)
    requires v.Valid() && all == AliveIn(v.unusedIndices, 0, |v.elements|)
    requires done <= |all|
    requires forall k :: 0 <= k < done ==> v.elements[all[k]] != element
    requires r == if done < |all| then Some(FromIndex(all[done])) else None
    requires done < |all| ==> v.elements[all[done]] == element
    ensures r.Some? ==> r.value.index in v.Contents() && v.Contents()[r.value.index] == element
    ensures r.Some? ==> forall i :: i in v.Contents() && i < r.value.index ==> v.Contents()[i] != element
    ensures r.None? <==> element !in v.Contents().Values
  {
    AliveInSpec(v.unusedIndices, 0, |v.elements|);
    if done < |all| {
      assert all[done] in v.Contents() && v.Contents()[all[done]] == element;
    }
    forall i | i in v.Contents() && (done < |all| ==> i < all[done])
      ensures v.Contents()[i] != element
    {
      assert i in all;
      var k :| 0 <= k < |all| && all[k] == i;
      if done < |all| {
        assert k < done;
      }
    }
  }

  /** `contains_element` (vec.rs:355-359). */
  method ContainsElement<T(==)>(v: IdVec<T>, element: T) returns (r: bool)
    requires v.Valid()
    ensures r <==> element in v.Contents().Values
  {
    var found := FindIdOfElement(v, element);
    r := found.Some?;
  }

  /** A set inside another one of the same size is that set. */
  lemma SubsetOfSameSize(s: set<nat>, t: set<nat>)
    requires s <= t && |s| == |t|
    ensures s == t
  {
    assert |t - s| == |t| - |s|;
  }

  /** `ids_eq` (vec.rs:340-345): equal lengths, and every id of `a` is an id
      of `b`. */
  method IdsEq<T>(a: IdVec<T>, b: IdVec<T>) returns (r: bool)
    requires a.Valid() && b.Valid()
    ensures r <==> a.Contents().Keys == b.Contents().Keys
  {
    r := a.Len() == b.Len();
    if !r {
      assert |a.Contents().Keys| != |b.Contents().Keys|;
    } else {
      ghost var all := AliveIn(a.unusedIndices, 0, |a.elements|);
      var it := new IdIter(a);
      ghost var done := 0;
      var id := it.Next();
      while id.Some? && b.ContainsId(id.value)
        invariant it.Valid() && it.iter.storage == a
        invariant done <= |all|
        invariant id.Some? ==>
          && done < |all|
          && id.value == FromIndex(all[done])
          && id.value.index in a.Contents()
          && it.Remaining() == all[done + 1..]
        invariant id.None? ==> done == |all|
        invariant forall k :: 0 <= k < done ==> all[k] in b.Contents()
        decreases |all| - done
      {
        if done + 1 < |all| {
          TailOfSlice(all, done + 1);
        }
        done := done + 1;
        id := it.Next();
      }
      r := id.None?;
      if r {
        AllIdsContained(a, b);
      }
    }
  }

  /** Every id of `a` is an id of `b` once each alive id `a` enumerates is, so
      with equal lengths the two id sets agree. */
  lemma AllIdsContained<T>(a: IdVec<T>, b: IdVec<T>)
    requires a.Valid() && b.Valid() && |a.Contents()| == |b.Contents()|
    requires var all := AliveIn(a.unusedIndices, 0, |a.elements|);
      forall k :: 0 <= k < |all| ==> all[k] in b.Contents()
    ensures a.Contents().Keys == b.Contents().Keys
  {
    var all := AliveIn(a.unusedIndices, 0, |a.elements|);
    AliveInSpec(a.unusedIndices, 0, |a.elements|);
    forall i | i in a.Contents()
      ensures i in b.Contents()
    {
      var k :| 0 <= k < |all| && all[k] == i;
    }
    SubsetOfSameSize(a.Contents().Keys, b.Contents().Keys);
  }

  /** Whether every alive element of `a` also occurs among the alive elements
      of `b`, with both arenas of one length: what `elements_eq` decides. */
  ghost predicate ElementsIncluded<T>(a: map<nat, T>, b: map<nat, T>)
  {
    |a| == |b| && forall i :: i in a ==> a[i] in b.Values
  }

  /** `elements_eq` (vec.rs:347-353) as written: equal lengths, and every alive
      element of `a` occurs somewhere in `b`. */
  method ElementsEq<T(==)>(a: IdVec<T>, b: IdVec<T>) returns (r: bool)
    requires a.Valid() && b.Valid()
    ensures r <==> ElementsIncluded(a.Contents(), b.Contents())
  {
    r := a.Len() == b.Len();
    if r {
      var it := new ElementIter(a);
      assert it.Remaining() == AliveValues(a.elements, a.unusedIndices);
      r := AllContained(it, b);
      Included(a, b, r);
    }
  }

  /** Walks an element iterator until an element does not occur in `b`:
      whether every element still to come occurs there. */
  method AllContained<T(==)>(it: ElementIter<T>, b: IdVec<T>) returns (r: bool)
    requires it.Valid() && b.Valid()
    modifies it.iter
    ensures var values := old(it.Remaining());
      r <==> forall k :: 0 <= k < |values| ==> values[k] in b.Contents().Values
  {
    ghost var values := it.Remaining();
    ghost var done := 0;
    var element := it.Next();
    while element.Some?
      invariant it.Valid()
      invariant done <= |values|
      invariant element.Some? ==>
        && done < |values|
        && element.value == values[done]
        && it.Remaining() == values[done + 1..]
      invariant element.None? ==> done == |values|
      invariant forall k :: 0 <= k < done ==> values[k] in b.Contents().Values
      decreases |values| - done
    {
      var contained := ContainsElement(b, element.value);
      if !contained {
        return false;
      }
      if done + 1 < |values| {
        TailOfSlice(values, done + 1);
      }
      done := done + 1;
      element := it.Next();
    }
    r := true;
  }

  /** The verdict of `elements_eq` once the walk over the alive elements of
      `a` has told whether all of them occur in `b`. */
  lemma Included<T>(a: IdVec<T>, b: IdVec<T>, r: bool)
    requires a.Valid() && |a.Contents()| == |b.Contents()|
    requires var values := AliveValues(a.elements, a.unusedIndices);
      r <==> forall k :: 0 <= k < |values| ==> values[k] in b.Contents().Values
    ensures r <==> ElementsIncluded(a.Contents(), b.Contents())
  {
    var values := AliveValues(a.elements, a.unusedIndices);
    var all := AliveIn(a.unusedIndices, 0, |a.elements|);
    AliveInSpec(a.unusedIndices, 0, |a.elements|);
    if r {
      forall i | i in a.Contents()
        ensures a.Contents()[i] in b.Contents().Values
      {
        var k :| 0 <= k < |all| && all[k] == i;
        assert values[k] == a.elements[i];
      }
    } else {
      var k :| 0 <= k < |values| && values[k] !in b.Contents().Values;
      assert all[k] in a.Contents() && a.Contents()[all[k]] == values[k];
    }
  }

  /** Without dead slots the alive elements are all the slots. */
  lemma NoneDeadValues<T>(elements: seq<T>)
    ensures AliveValues(elements, {}) == elements
  {
    AliveInNoneDead(0, |elements|);
  }

  /** `elements_eq` does not decide what its doc comment promises: an arena
      holding 1, 1, 2 counts as element-equal to one holding 1, 2, 3, though
      the two do not hold the same elements. */
  lemma ElementsEqCounterexample(a: seq<int>, b: seq<int>)
    requires a == [1, 1, 2] && b == [1, 2, 3]
    ensures ElementsIncluded(ContentsOf(a, {}), ContentsOf(b, {}))
    ensures multiset(AliveValues(a, {})) != multiset(AliveValues(b, {}))
  {
    var ma := ContentsOf(a, {});
    var mb := ContentsOf(b, {});
    assert 0 in mb && mb[0] == 1 && 1 in mb && mb[1] == 2;
    assert |ma| == 3 by { assert ma.Keys == {0, 1, 2}; }
    assert |mb| == 3 by { assert mb.Keys == {0, 1, 2}; }
    NoneDeadValues(a);
    NoneDeadValues(b);
    assert multiset(a)[3] == 0 && multiset(b)[3] == 1;
  }

  /** A sequence's multiset is its head's plus its tail's. */
  lemma HeadTail<X>(s: seq<X>)
    requires s != []
    ensures multiset(s) == multiset{s[0]} + multiset(s[1..])
  {
    assert s == [s[0]] + s[1..];
  }

  /** The multiset of the alive elements, gathered by walking `elements()`. */
  method CollectElements<T>(v: IdVec<T>) returns (m: multiset<T>)
    requires v.Valid()
    ensures m == multiset(AliveValues(v.elements, v.unusedIndices))
  {
    var it := new ElementIter(v);
    m := multiset{};
    ghost var total := multiset(it.Remaining());
    ghost var before := it.Remaining();
    if before != [] {
      HeadTail(before);
    }
    var element := it.Next();
    while element.Some?
      invariant it.Valid() && it.iter.storage == v
      invariant element.Some? ==> m + multiset{element.value} + multiset(it.Remaining()) == total
      invariant element.None? ==> m == total
      decreases |it.Remaining()|, element.Some?
    {
      m := m + multiset{element.value};
      before := it.Remaining();
      if before != [] {
        HeadTail(before);
      }
      element := it.Next();
    }
  }

  /** `elements_eq` as its doc comment describes it: the two arenas hold the
      same elements, each as often, whatever their ids. */
  method SameElements<T(==)>(a: IdVec<T>, b: IdVec<T>) returns (r: bool)
    requires a.Valid() && b.Valid()
    ensures r <==> (multiset(AliveValues(a.elements, a.unusedIndices))
                    == multiset(AliveValues(b.elements, b.unusedIndices)))
  {
    var ma := CollectElements(a);
    var mb := CollectElements(b);
    r := ma == mb;
  }

  /** `eq` of `PartialEq` (vec.rs:410-421): equal lengths, and walking both
      arenas side by side meets the same id with an equal element at every
      step. Two arenas are equal exactly when they map the same ids to the
      same elements, whatever their tombstones. */
  method Equal<T(==)>(a: IdVec<T>, b: IdVec<T>) returns (r: bool)
    requires a.Valid() && b.Valid()
    ensures r <==> a.Contents() == b.Contents()
  {
    r := a.Len() == b.Len();
    if !r {
      return;
    }
    EnumerationLength(a);
    EnumerationLength(b);
    var itA := new Iter(a);
    var itB := new Iter(b);
    r := SameSteps(itA, itB);
    EqualWhenSameSteps(a, b, r);
  }

  /** Walks two iterators of equal length side by side until they yield
      different ids or different elements: whether they never do. */
  method SameSteps<T(==)>(itA: Iter<T>, itB: Iter<T>) returns (r: bool)
    requires itA.Valid() && itB.Valid() && itA != itB
    requires |itA.Remaining()| == |itB.Remaining()|
    modifies itA, itB
    ensures var sa := old(itA.Remaining());
      var sb := old(itB.Remaining());
      r <==> forall k :: 0 <= k < |sa| ==>
        sa[k] == sb[k] && itA.storage.elements[sa[k]] == itB.storage.elements[sb[k]]
  {
    ghost var sa := itA.Remaining();
    ghost var sb := itB.Remaining();
    ghost var done := 0;
    var x := itA.Next();
    var y := itB.Next();
    while x.Some? && y.Some? && x.value == y.value
      invariant itA.Valid() && itB.Valid()
      invariant done <= |sa| == |sb|
      invariant x.Some? <==> done < |sa|
      invariant y.Some? <==> done < |sb|
      invariant x.Some? ==>
        && x.value == (FromIndex(sa[done]), itA.storage.elements[sa[done]])
        && itA.Remaining() == sa[done + 1..]
      invariant y.Some? ==>
        && y.value == (FromIndex(sb[done]), itB.storage.elements[sb[done]])
        && itB.Remaining() == sb[done + 1..]
      invariant forall k :: 0 <= k < done ==>
        sa[k] == sb[k] && itA.storage.elements[sa[k]] == itB.storage.elements[sb[k]]
      decreases |sa| - done
    {
      if done + 1 < |sa| {
        TailOfSlice(sa, done + 1);
        TailOfSlice(sb, done + 1);
      }
      done := done + 1;
      x := itA.Next();
      y := itB.Next();
    }
    r := x.None?;
  }

  /** The verdict of `eq` once the side-by-side walk has told whether the two
      enumerations agree step by step. */
  lemma EqualWhenSameSteps<T>(a: IdVec<T>, b: IdVec<T>, r: bool)
    requires a.Valid() && b.Valid()
    requires var sa := AliveIn(a.unusedIndices, 0, |a.elements|);
      var sb := AliveIn(b.unusedIndices, 0, |b.elements|);
      && |sa| == |sb|
      && (r <==> forall k :: 0 <= k < |sa| ==> sa[k] == sb[k] && a.elements[sa[k]] == b.elements[sb[k]])
    ensures r <==> a.Contents() == b.Contents()
  {
    var sa := AliveIn(a.unusedIndices, 0, |a.elements|);
    var sb := AliveIn(b.unusedIndices, 0, |b.elements|);
    SameContents(a, b);
    if r {
      assert sa == sb;
    }
  }
}
