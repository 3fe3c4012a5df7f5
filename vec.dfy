/**
 * The arena `IdVec<T>` of src/vec.rs.
 *
 * An `IdVec` stores its elements in a dense sequence and remembers the
 * indices of removed ("unused") slots in a set, so that an `Id` handed out by
 * `insert` stays valid until it is removed.  Unused slots are reused by later
 * inserts; the last slot is never unused, because removing the last element
 * pops it directly and then pops every dead slot it guarded.
 *
 * The abstract value of an arena is `Contents()`: the map from each alive
 * index to the element stored there.
 */
module IdVecs {

  import opened Wrappers
  import opened Ids
  import opened Slots

  /** Where an element that sat at `index` before `pack` ends up: the moves
      `(old, new)` that `pack` reports to its `remap` callback (vec.rs:267),
      applied in the order they were reported. */
  function Renamed(log: seq<(Id, Id)>, index: nat): nat
  {
    if log == [] then index
    else
      var before := Renamed(log[..|log| - 1], index);
      if log[|log| - 1].0.index == before then log[|log| - 1].1.index else before
  }

  lemma RenamedStep(log: seq<(Id, Id)>, move: (Id, Id), index: nat)
    ensures Renamed(log + [move], index)
         == if move.0.index == Renamed(log, index) then move.1.index else Renamed(log, index)
  {
    assert (log + [move])[..|log|] == log;
  }

  class IdVec<T> {
    /** Alive and dead slots (vec.rs:24). */
    var elements: seq<T>
    /** The dead slots, free to be overwritten (vec.rs:28). */
    var unusedIndices: set<nat>

    /** Every dead slot lies inside `elements`, and the last slot is alive
        (vec.rs:21-28, 77-84). */
    ghost predicate Valid()
      reads this
    {
      WellFormed(|elements|, unusedIndices)
    }

    /** The elements reachable through an id: alive index to element. */
    function Contents(): map<nat, T>
      reads this
    {
      ContentsOf(elements, unusedIndices)
    }

    /** `new` (vec.rs:37-39): an empty arena. */
    constructor New()
      ensures Valid() && elements == [] && unusedIndices == {}
      ensures Contents() == map[]
    {
      elements := [];
      unusedIndices := {};
    }

    /** `with_capacity` (vec.rs:41-43): the capacity is an allocation hint only. */
    constructor WithCapacity(capacity: nat)
      ensures Valid() && elements == [] && unusedIndices == {}
      ensures Contents() == map[]
    {
      elements := [];
      unusedIndices := {};
    }

    /** `from_vec` (vec.rs:48-53): every given element is alive, under the id
        of its position. */
    constructor FromVec(elements: seq<T>)
      ensures Valid() && this.elements == elements && unusedIndices == {}
      ensures forall i :: 0 <= i < |elements| ==> i in Contents() && Contents()[i] == elements[i]
    {
      this.elements := elements;
      unusedIndices := {};
    }

    /** `len` (vec.rs:88-91): the slot count minus the dead-slot count is the
        number of alive elements. */
    function Len(): (n: nat)
      reads this
      requires Valid()
      ensures n == |Contents()|
    {
      AliveCount(|elements|, unusedIndices);
      ContentsKeys(elements, unusedIndices);
      |elements| - |unusedIndices|
    }

    /** `is_empty` (vec.rs:93-95). */
    function IsEmpty(): (b: bool)
      reads this
      requires Valid()
      ensures b <==> Contents() == map[]
    {
      Len() == 0
    }

    /** `contains_id` (vec.rs:58-66, 97-101): the index is in range and either
        the last one or not dead. */
    function ContainsId(id: Id): (b: bool)
      reads this
      requires Valid()
      ensures b <==> id.index in Contents()
    {
      var index := IndexValue(id);
      index < |elements| && (index + 1 == |elements| || index !in unusedIndices)
    }

    /** `is_packed` (vec.rs:103-106): no dead slot, so every slot is alive. */
    function IsPacked(): (b: bool)
      reads this
      requires Valid()
      ensures b <==> forall i :: 0 <= i < |elements| ==> i in Contents()
      ensures b ==> Len() == |elements|
    {
      assert forall i :: i in unusedIndices ==> i < |elements| && i !in Contents();
      unusedIndices == {}
    }

    /** `get` (vec.rs:195-200). */
    function Get(id: Id): (r: Option<T>)
      reads this
      requires Valid()
      ensures r.Some? <==> id.index in Contents()
      ensures r.Some? ==> r.value == Contents()[id.index]
    {
      var index := IndexValue(id);
      if index + 1 == |elements| || index !in unusedIndices then
        if index < |elements| then Some(elements[index]) else None
      else None
    }

    /** Indexing `vec[id]` (vec.rs:394-400) requires a valid id. */
    function Index(id: Id): (element: T)
      reads this
      requires Valid() && ContainsId(id)
      ensures Get(id) == Some(element)
    {
      elements[IndexValue(id)]
    }

    /** `get_mut` (vec.rs:202-207) followed by a write through the returned
        reference: `found` tells whether a reference was returned. */
    method GetMut(id: Id, value: T) returns (found: bool)
      requires Valid()
      modifies this
      ensures Valid() && unusedIndices == old(unusedIndices) && |elements| == |old(elements)|
      ensures found <==> id.index in old(Contents())
      ensures Contents() == if found then old(Contents())[id.index := value] else old(Contents())
    {
      var index := IndexValue(id);
      found := (index + 1 == |elements| || index !in unusedIndices) && index < |elements|;
      if found {
        elements := elements[index := value];
      }
    }

    /** Indexing `vec[id] = value` (vec.rs:402-407) requires a valid id. */
    method IndexMut(id: Id, value: T)
      requires Valid() && ContainsId(id)
      modifies this
      ensures Valid() && unusedIndices == old(unusedIndices)
      ensures elements == old(elements)[id.index := value]
      ensures Contents() == old(Contents())[id.index := value]
    {
      elements := elements[IndexValue(id) := value];
    }

    /** `clear` (vec.rs:217-222). */
    method Clear()
      modifies this
      ensures Valid() && elements == [] && unusedIndices == {}
      ensures Contents() == map[]
    {
      elements := [];
      unusedIndices := {};
    }

    /** `shrink_to_fit` (vec.rs:224-229): frees spare capacity only. */
    method ShrinkToFit()
      requires Valid()
      modifies this
      ensures Valid() && unchanged(this)
    {
    }

    /** `reserve` (vec.rs:231-234): grows capacity only. */
    method Reserve(additional: nat)
      requires Valid()
      modifies this
      ensures Valid() && unchanged(this)
    {
    }

    /** `pop_back_unused` (vec.rs:156-171): cut off the dead tail.  When every
        slot is dead the arena is cleared at once; otherwise dead slots are
        popped from the back one at a time. */
    method PopBackUnused()
      requires InRange(|elements|, unusedIndices)
      modifies this
      ensures Valid()
      ensures elements == old(elements)[..TrimmedLength(|old(elements)|, old(unusedIndices))]
      ensures unusedIndices == Below(old(unusedIndices), |elements|)
      ensures Contents() == old(Contents())
    {
      TrimKeepsContents(elements, unusedIndices);
      if |elements| == |unusedIndices| {
        AllDead(|elements|, unusedIndices);
        Clear();
      } else {
        while |elements| > 0 && |elements| - 1 in unusedIndices
          invariant |elements| <= |old(elements)|
          invariant elements == old(elements)[..|elements|]
          invariant unusedIndices == Below(old(unusedIndices), |elements|)
          invariant TrimmedLength(|elements|, old(unusedIndices))
                 == TrimmedLength(|old(elements)|, old(unusedIndices))
        {
          unusedIndices := unusedIndices - {|elements| - 1};
          elements := elements[..|elements| - 1];
        }
      }
    }

    /** `remove` (vec.rs:110-134): ignores ids out of range; the last slot is
        popped together with the dead tail it guarded, any other slot becomes
        dead. */
    method Remove(id: Id)
      requires Valid()
      modifies this
      ensures Valid()
      ensures Contents() == old(Contents()) - {id.index}
      ensures !ContainsId(id) && Get(id) == None
      ensures Len() == if id.index in old(Contents()) then old(Len()) - 1 else old(Len())
      ensures id.index !in old(Contents()) ==> elements == old(elements) && unusedIndices == old(unusedIndices)
    {
      RemoveCount(Contents(), id.index);
      ghost var remaining := Contents() - {id.index};
      var index := IndexValue(id);
      if index < |elements| {
        if index + 1 == |elements| {
          // the steps of `pop`: drop the last slot, then the dead tail
          assert index in Contents();
          var popped := Pop();
        } else {
          MarkDead(index);
        }
      } else {
        assert index !in Contents();
        assert Contents() == remaining;
      }
    }

    /** Tombstones a slot below the last one, which may be dead already. */
    method MarkDead(index: nat)
      requires Valid() && index + 1 < |elements|
      modifies this
      ensures Valid() && elements == old(elements)
      ensures unusedIndices == old(unusedIndices) + {index}
      ensures Contents() == old(Contents()) - {index}
      ensures index !in old(Contents()) ==> unusedIndices == old(unusedIndices)
    {
      ContentsKill(elements, unusedIndices, index);
      unusedIndices := unusedIndices + {index};
    }

    /** `pop` (vec.rs:136-147): removes the last slot, which is always alive,
        reports it with its id, and cuts off the dead tail it guarded. */
    method Pop() returns (popped: Option<(Id, T)>)
      requires Valid()
      modifies this
      ensures Valid()
      ensures unusedIndices <= old(unusedIndices)
      ensures popped.None? <==> old(Contents()) == map[]
      ensures popped.None? ==> elements == [] && unusedIndices == {}
      ensures popped.Some? ==>
        var last := |old(elements)| - 1;
        && popped.value.0 == FromIndex(last)
        && last in old(Contents())
        && popped.value.1 == old(Contents())[last]
        && Contents() == old(Contents()) - {last}
    {
      if elements == [] {
        popped := None;
      } else {
        var last := elements[|elements| - 1];
        elements := elements[..|elements| - 1];
        popped := Some((FromIndex(|elements|), last));
      }
      PopBackUnused();
    }

    /** `pop_element` (vec.rs:149-154): `pop` without the id. */
    method PopElement() returns (popped: Option<T>)
      requires Valid()
      modifies this
      ensures Valid()
      ensures popped.None? <==> old(Contents()) == map[]
      ensures popped.Some? ==>
        var last := |old(elements)| - 1;
        && last in old(Contents())
        && popped.value == old(Contents())[last]
        && Contents() == old(Contents()) - {last}
    {
      var r := Pop();
      popped := if r.Some? then Some(r.value.1) else None;
    }

    /** `insert` (vec.rs:173-191): overwrite some dead slot if there is one
        (the hash set decides which), otherwise append. */
    method Insert(element: T) returns (id: Id)
      requires Valid()
      modifies this
      ensures Valid()
      ensures id.index !in old(Contents())
      ensures Contents() == old(Contents())[id.index := element]
      ensures Get(id) == Some(element)
      ensures Len() == old(Len()) + 1
      ensures old(unusedIndices) != {} ==>
        && id.index in old(unusedIndices)
        && unusedIndices == old(unusedIndices) - {id.index}
        && elements == old(elements)[id.index := element]
      ensures old(unusedIndices) == {} ==>
        && id.index == |old(elements)|
        && unusedIndices == {}
        && elements == old(elements) + [element]
    {
      AddCount(Contents(), |elements|, element);
      var index: nat;
      if unusedIndices != {} {
        var previouslyUnused :| previouslyUnused in unusedIndices;
        AddCount(Contents(), previouslyUnused, element);
        unusedIndices := unusedIndices - {previouslyUnused};
        elements := elements[previouslyUnused := element];
        index := previouslyUnused;
      } else {
        elements := elements + [element];
        index := |elements| - 1;
      }
      id := FromIndex(index);
    }

    /** `swap_elements` (vec.rs:210-215) requires two valid ids. */
    method SwapElements(id1: Id, id2: Id)
      requires Valid() && ContainsId(id1) && ContainsId(id2)
      modifies this
      ensures Valid() && unusedIndices == old(unusedIndices)
      ensures elements == old(elements)[id1.index := old(elements)[id2.index]][id2.index := old(elements)[id1.index]]
      ensures Contents()
           == old(Contents())[id1.index := old(Contents())[id2.index]][id2.index := old(Contents())[id1.index]]
    {
      var i, j := IndexValue(id1), IndexValue(id2);
      elements := elements[i := elements[j]][j := elements[i]];
    }

    /** `retain` (vec.rs:236-248): visits the slots in ascending order and
        kills every alive element on which the predicate holds, then cuts off
        the dead tail.  (The predicate selects what is removed.) */
    method Retain(pred: (Id, T) -> bool)
      requires Valid()
      modifies this
      ensures Valid()
      ensures Contents()
           == map i | i in old(Contents()) && !pred(FromIndex(i), old(Contents())[i]) :: old(Contents())[i]
      ensures elements == old(elements)[..|elements|]
    {
      var index := 0;
      while index < |elements|
        invariant index <= |elements| == |old(elements)|
        invariant elements == old(elements)
        invariant unusedIndices
               == old(unusedIndices)
                + (set i: nat | i < index && i !in old(unusedIndices) && pred(FromIndex(i), elements[i]))
      {
        var id := FromIndex(index);
        if index !in unusedIndices && pred(id, elements[index]) {
          unusedIndices := unusedIndices + {index};
        }
        index := index + 1;
      }
      PopBackUnused();
    }

    /** `pack` (vec.rs:250-281): fill every dead slot with the element of the
        then-last slot, popping the dead tail as it goes, until no dead slot
        is left.  Each move is reported as `(old id, new id)`; the reports are
        returned instead of being passed to a callback. */
    method Pack() returns (log: seq<(Id, Id)>)
      requires Valid()
      modifies this
      ensures Valid() && unusedIndices == {}
      ensures |elements| == old(Len()) && Len() == old(Len())
      ensures forall i :: i in old(Contents()) ==>
        Renamed(log, i) < |elements| && elements[Renamed(log, i)] == old(Contents())[i]
      ensures forall i, j :: i in old(Contents()) && j in old(Contents()) && i != j ==>
        Renamed(log, i) != Renamed(log, j)
      ensures forall k :: 0 <= k < |log| ==>
        log[k].1.index in old(unusedIndices) && log[k].1.index < log[k].0.index
      ensures forall k :: 0 < k < |log| ==> log[k].0.index < log[k - 1].0.index
    {
      ghost var contents := Contents();
      ghost var unused0 := unusedIndices;
      ghost var len0 := |elements| - |unusedIndices|;
      var pending: set<nat> := unusedIndices;
      unusedIndices := {};
      log := [];
      while pending != {}
        invariant unusedIndices == {}
        invariant pending <= unused0
        invariant WellFormed(|elements|, pending)
        invariant |elements| - |pending| == len0
        invariant Placed(contents, elements, pending, log)
        invariant Distinct(contents, log)
        invariant MovesInto(unused0, log, |elements|)
        decreases |pending|
      {
        var unusedIndex :| unusedIndex in pending;
        if unusedIndex < |elements| {
          var move;
          elements, pending, move := FillHole(elements, pending, unusedIndex, contents, unused0, log, len0);
          log := log + [move];
        } else {
          assert false;
        }
      }
      PackDone(contents, unused0, elements, log);
      ShrinkToFit();
    }
  }

  /** One round of the loop of `pack` (vec.rs:262-277) for a pending dead slot
      `hole`: the then-last element is swapped into it and the move is
      reported; the last slot is popped, and so is every pending dead slot
      that the moved element guarded. */
  method FillHole<T>(slots: seq<T>, pending: set<nat>, hole: nat,
                     ghost contents: map<nat, T>, ghost unused0: set<nat>,
                     ghost log: seq<(Id, Id)>, ghost len0: int)
    returns (filled: seq<T>, rest: set<nat>, move: (Id, Id))
    requires hole in pending && pending <= unused0
    requires WellFormed(|slots|, pending)
    requires |slots| - |pending| == len0
    requires Placed(contents, slots, pending, log)
    requires Distinct(contents, log)
    requires MovesInto(unused0, log, |slots|)
    ensures move == (FromIndex(|slots| - 1), FromIndex(hole))
    ensures hole < |filled| < |slots| && rest <= pending - {hole}
    ensures WellFormed(|filled|, rest)
    ensures |filled| - |rest| == len0
    ensures Placed(contents, filled, rest, log + [move])
    ensures Distinct(contents, log + [move])
    ensures MovesInto(unused0, log + [move], |filled|)
  {
    var last := |slots| - 1;
    PackMove(contents, unused0, slots, pending, log, hole);
    filled := slots[last := slots[hole]][hole := slots[last]];
    move := (FromIndex(last), FromIndex(hole));
    rest := pending - {hole};
    filled := filled[..last];
    filled, rest := PopGuarded(filled, rest, hole, contents, unused0, log + [move], len0);
  }

  /** Every element alive before `pack` sits, after the moves reported so
      far, at a live slot of the current sequence. */
  ghost predicate Placed<T>(contents: map<nat, T>, elements: seq<T>, pending: set<nat>, log: seq<(Id, Id)>)
  {
    forall i :: i in contents ==>
      Renamed(log, i) < |elements| && Renamed(log, i) !in pending
      && elements[Renamed(log, i)] == contents[i]
  }

  /** No two elements end up at the same slot. */
  ghost predicate Distinct<T>(contents: map<nat, T>, log: seq<(Id, Id)>)
  {
    forall i, j :: i in contents && j in contents && i != j ==> Renamed(log, i) != Renamed(log, j)
  }

  /** Each reported move goes down into an originally dead slot, from a slot
      at or beyond the current length, and the sources strictly decrease. */
  ghost predicate MovesInto(unused0: set<nat>, log: seq<(Id, Id)>, n: nat)
  {
    && (forall k :: 0 <= k < |log| ==>
          log[k].1.index in unused0 && log[k].1.index < log[k].0.index && n <= log[k].0.index)
    && (forall k :: 0 < k < |log| ==> log[k].0.index < log[k - 1].0.index)
  }

  /** One move of `pack` (vec.rs:263-271): the then-last element goes into the
      dead slot `hole`, and the last slot is popped. */
  lemma PackMove<T>(contents: map<nat, T>, unused0: set<nat>, elements: seq<T>,
                    pending: set<nat>, log: seq<(Id, Id)>, hole: nat)
    requires hole in pending && pending <= unused0
    requires WellFormed(|elements|, pending)
    requires Placed(contents, elements, pending, log)
    requires Distinct(contents, log)
    requires MovesInto(unused0, log, |elements|)
    ensures var last := |elements| - 1;
      var moved := elements[last := elements[hole]][hole := elements[last]][..last];
      var log' := log + [(FromIndex(last), FromIndex(hole))];
      && hole < last
      && |pending - {hole}| == |pending| - 1
      && InRange(last, pending - {hole})
      && Placed(contents, moved, pending - {hole}, log')
      && Distinct(contents, log')
      && MovesInto(unused0, log', last)
  {
    var last := |elements| - 1;
    var moved := elements[last := elements[hole]][hole := elements[last]][..last];
    var move := (FromIndex(last), FromIndex(hole));
    var log' := log + [move];
    assert hole < last;
    PackMoveStep(contents, log, move);
    forall i | i in contents
      ensures Renamed(log', i) < |moved| && Renamed(log', i) !in pending - {hole}
      ensures moved[Renamed(log', i)] == contents[i]
    {
      var j := Renamed(log, i);
      if j == last {
        assert Renamed(log', i) == hole;
      } else {
        assert Renamed(log', i) == j;
        assert j != hole;
      }
    }
    assert Placed(contents, moved, pending - {hole}, log');
    forall i, j | i in contents && j in contents && i != j
      ensures Renamed(log', i) != Renamed(log', j)
    {
    }
    assert MovesInto(unused0, log', last) by {
      forall k | 0 <= k < |log'|
        ensures log'[k].1.index in unused0 && log'[k].1.index < log'[k].0.index && last <= log'[k].0.index
      {
        if k < |log| {
          assert log'[k] == log[k];
        }
      }
      forall k | 0 < k < |log'|
        ensures log'[k].0.index < log'[k - 1].0.index
      {
        if k < |log| {
          assert log'[k] == log[k] && log'[k - 1] == log[k - 1];
        } else {
          assert log'[k - 1] == log[k - 1];
        }
      }
    }
  }

  /** The inner loop of `pack` (vec.rs:273-276): pop every pending dead slot
      at the back; the slot `keep`, which was just filled, stops it. */
  method PopGuarded<T>(slots: seq<T>, pending: set<nat>, keep: nat,
                       ghost contents: map<nat, T>, ghost unused0: set<nat>,
                       ghost log: seq<(Id, Id)>, ghost len0: int)
    returns (trimmed: seq<T>, rest: set<nat>)
    requires keep < |slots| && keep !in pending
    requires pending <= unused0 && InRange(|slots|, pending)
    requires |slots| - |pending| == len0
    requires Placed(contents, slots, pending, log)
    requires MovesInto(unused0, log, |slots|)
    ensures keep < |trimmed| == TrimmedLength(|slots|, pending) && trimmed == slots[..|trimmed|]
    ensures rest == Below(pending, |trimmed|) && rest <= pending && WellFormed(|trimmed|, rest)
    ensures |trimmed| - |rest| == len0
    ensures Placed(contents, trimmed, rest, log)
    ensures MovesInto(unused0, log, |trimmed|)
  {
    trimmed, rest := slots, pending;
    while |trimmed| - 1 in rest
      invariant keep < |trimmed| <= |slots| && trimmed == slots[..|trimmed|]
      invariant keep !in rest
      invariant rest == Below(pending, |trimmed|)
      invariant TrimmedLength(|trimmed|, pending) == TrimmedLength(|slots|, pending)
      invariant |trimmed| - |rest| == len0
      invariant Placed(contents, trimmed, rest, log)
      invariant MovesInto(unused0, log, |trimmed|)
      decreases |trimmed|
    {
      PackPop(contents, unused0, trimmed, rest, log);
      rest := rest - {|trimmed| - 1};
      trimmed := trimmed[..|trimmed| - 1];
    }
  }

  /** Once no dead slot is pending, the placement facts read as the outcome
      of `pack`. */
  lemma PackDone<T>(contents: map<nat, T>, unused0: set<nat>, elements: seq<T>, log: seq<(Id, Id)>)
    requires Placed(contents, elements, {}, log)
    requires Distinct(contents, log)
    requires MovesInto(unused0, log, |elements|)
    ensures forall i :: i in contents ==>
      Renamed(log, i) < |elements| && elements[Renamed(log, i)] == contents[i]
    ensures forall i, j :: i in contents && j in contents && i != j ==>
      Renamed(log, i) != Renamed(log, j)
    ensures forall k :: 0 <= k < |log| ==>
      log[k].1.index in unused0 && log[k].1.index < log[k].0.index
    ensures forall k :: 0 < k < |log| ==> log[k].0.index < log[k - 1].0.index
  {
  }

  /** Popping a dead last slot (vec.rs:274-276) keeps every element in place. */
  lemma PackPop<T>(contents: map<nat, T>, unused0: set<nat>, elements: seq<T>,
                   pending: set<nat>, log: seq<(Id, Id)>)
    requires |elements| > 0 && |elements| - 1 in pending
    requires Placed(contents, elements, pending, log)
    requires MovesInto(unused0, log, |elements|)
    ensures var n := |elements| - 1;
      && |pending - {n}| == |pending| - 1
      && Placed(contents, elements[..n], pending - {n}, log)
      && MovesInto(unused0, log, n)
  {
  }

  /** How one move of `pack` changes where each element is found. */
  lemma PackMoveStep<T>(contents: map<nat, T>, log: seq<(Id, Id)>, move: (Id, Id))
    ensures forall i :: i in contents ==>
      Renamed(log + [move], i)
        == if move.0.index == Renamed(log, i) then move.1.index else Renamed(log, i)
  {
    forall i | i in contents
      ensures Renamed(log + [move], i)
           == if move.0.index == Renamed(log, i) then move.1.index else Renamed(log, i)
    {
      RenamedStep(log, move, i);
    }
  }
}
