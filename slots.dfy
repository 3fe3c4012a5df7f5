/**
 * Slot bookkeeping shared by the arenas of src/vec.rs and src/map.rs.
 *
 * An arena is a dense sequence of slots plus a set of tombstoned ("unused")
 * indices.  This module holds the specification functions over that pair
 * (which slots are alive, what the arena contains, where the dead tail
 * ends) and the two cursor steps `iter_next` / `iter_next_back` that every
 * iterator of src/vec.rs is built on.
 */
module Slots {

  import opened Wrappers

  /** The indices lo, lo + 1, ..., hi - 1. */
  function Interval(lo: nat, hi: nat): (s: set<nat>)
    ensures forall i :: i in s <==> lo <= i < hi
    decreases hi - lo
  {
    if lo < hi then {lo} + Interval(lo + 1, hi) else {}
  }

  lemma {:induction false} IntervalSize(lo: nat, hi: nat)
    requires lo <= hi
    ensures |Interval(lo, hi)| == hi - lo
    decreases hi - lo
  {
    if lo < hi {
      IntervalSize(lo + 1, hi);
      assert lo !in Interval(lo + 1, hi);
    }
  }

  /** The alive indices of a window are at least its width minus all tombstones,
      at most its width, and exactly the difference when every tombstone lies
      inside the window. */
  lemma WindowCount(unused: set<nat>, lo: nat, hi: nat)
    requires lo <= hi
    ensures |Interval(lo, hi) - unused| <= hi - lo
    ensures |Interval(lo, hi) - unused| >= (hi - lo) - |unused|
    ensures unused <= Interval(lo, hi) ==> |Interval(lo, hi) - unused| == (hi - lo) - |unused|
  {
    IntervalSize(lo, hi);
    var w := Interval(lo, hi);
    assert |w - unused| == |w| - |w * unused|;
    assert |unused - w| == |unused| - |unused * w|;
    assert w * unused == unused * w;
    if unused <= w {
      assert w * unused == unused;
    }
  }

  /** Every tombstone lies inside the dense sequence of length n (vec.rs:26-28). */
  predicate InRange(n: nat, unused: set<nat>)
  {
    forall i :: i in unused ==> i < n
  }

  /** The last slot is never a tombstone (vec.rs:21-23, 77-84). */
  predicate LastAlive(n: nat, unused: set<nat>)
  {
    n > 0 ==> n - 1 !in unused
  }

  /** The invariant of an `IdVec`. */
  predicate WellFormed(n: nat, unused: set<nat>)
  {
    InRange(n, unused) && LastAlive(n, unused)
  }

  /** The alive slots of a dense sequence of length n. */
  function AliveSet(n: nat, unused: set<nat>): set<nat>
  {
    Interval(0, n) - unused
  }

  /** `len()`, computed as `elements.len() - unused.len()`, counts the alive slots. */
  lemma AliveCount(n: nat, unused: set<nat>)
    requires InRange(n, unused)
    ensures |unused| <= n
    ensures |AliveSet(n, unused)| == n - |unused|
  {
    WindowCount(unused, 0, n);
    assert unused <= Interval(0, n);
  }

  /** The abstract contents of an arena: alive index to stored element. */
  function ContentsOf<T>(elements: seq<T>, unused: set<nat>): (m: map<nat, T>)
    ensures forall i: nat :: i in m <==> i < |elements| && i !in unused
    ensures forall i :: i in m ==> m[i] == elements[i]
  {
    map i: nat | i < |elements| && i !in unused :: elements[i]
  }

  lemma ContentsKeys<T>(elements: seq<T>, unused: set<nat>)
    ensures ContentsOf(elements, unused).Keys == AliveSet(|elements|, unused)
  {
  }

  /** Removing a present key shrinks a map by exactly one entry. */
  lemma RemoveCount<T>(m: map<nat, T>, k: nat)
    ensures |m - {k}| == if k in m then |m| - 1 else |m|
  {
    assert (m - {k}).Keys == m.Keys - {k};
  }

  /** Adding an absent key grows a map by exactly one entry. */
  lemma AddCount<T>(m: map<nat, T>, k: nat, v: T)
    requires k !in m
    ensures |m[k := v]| == |m| + 1
  {
    assert m[k := v].Keys == m.Keys + {k};
  }

  /** Marking a slot dead removes exactly that key from the contents. */
  lemma ContentsKill<T>(elements: seq<T>, unused: set<nat>, index: nat)
    ensures ContentsOf(elements, unused + {index}) == ContentsOf(elements, unused) - {index}
  {
    var after := ContentsOf(elements, unused + {index});
    var before := ContentsOf(elements, unused) - {index};
    assert after.Keys == before.Keys;
  }

  /** Reviving a dead slot with a new element adds exactly that key. */
  lemma ContentsRevive<T>(elements: seq<T>, unused: set<nat>, index: nat, element: T)
    requires index < |elements|
    ensures ContentsOf(elements[index := element], unused - {index})
         == ContentsOf(elements, unused)[index := element]
  {
    var after := ContentsOf(elements[index := element], unused - {index});
    var before := ContentsOf(elements, unused)[index := element];
    assert after.Keys == before.Keys;
  }

  /** Appending an element adds exactly the key of the new last slot. */
  lemma ContentsPush<T>(elements: seq<T>, unused: set<nat>, element: T)
    requires InRange(|elements|, unused)
    ensures ContentsOf(elements + [element], unused)
         == ContentsOf(elements, unused)[|elements| := element]
  {
    var after := ContentsOf(elements + [element], unused);
    var before := ContentsOf(elements, unused)[|elements| := element];
    assert after.Keys == before.Keys;
  }

  /** Dropping an alive last slot removes exactly that key from the contents. */
  lemma ContentsDropLast<T>(elements: seq<T>, unused: set<nat>)
    requires |elements| > 0 && |elements| - 1 !in unused
    ensures ContentsOf(elements[..|elements| - 1], unused)
         == ContentsOf(elements, unused) - {|elements| - 1}
  {
    var after := ContentsOf(elements[..|elements| - 1], unused);
    var before := ContentsOf(elements, unused) - {|elements| - 1};
    assert after.Keys == before.Keys;
  }

  /** The alive indices of the window [front, back), in ascending order:
      what a forward cursor over that window yields. */
  function AliveIn(unused: set<nat>, front: nat, back: nat): (s: seq<nat>)
    ensures forall k :: 0 <= k < |s| ==> front <= s[k] < back
    decreases back - front
  {
    if front >= back then []
    else if front in unused then AliveIn(unused, front + 1, back)
    else [front] + AliveIn(unused, front + 1, back)
  }

  /** The enumeration of a window lists exactly its alive indices, in
      strictly ascending order. */
  lemma {:induction false} AliveInSpec(unused: set<nat>, front: nat, back: nat)
    ensures var s := AliveIn(unused, front, back);
      && (forall k :: 0 <= k < |s| ==> front <= s[k] < back && s[k] !in unused)
      && (forall i :: front <= i < back && i !in unused ==> i in s)
      && (forall k, l :: 0 <= k < l < |s| ==> s[k] < s[l])
    decreases back - front
  {
    if front < back {
      AliveInSpec(unused, front + 1, back);
    }
  }

  /** Peeling the window from the back: the last slot is either a tombstone
      or the last alive index. */
  lemma {:induction false} AliveInBack(unused: set<nat>, front: nat, back: nat)
    requires front < back
    ensures AliveIn(unused, front, back)
         == AliveIn(unused, front, back - 1) + (if back - 1 in unused then [] else [back - 1])
    decreases back - front
  {
    var head := if front in unused then [] else [front];
    var tail := if back - 1 in unused then [] else [back - 1];
    assert AliveIn(unused, front, back) == head + AliveIn(unused, front + 1, back);
    if front < back - 1 {
      AliveInBack(unused, front + 1, back);
      assert AliveIn(unused, front, back - 1) == head + AliveIn(unused, front + 1, back - 1);
      calc {
        AliveIn(unused, front, back);
        head + (AliveIn(unused, front + 1, back - 1) + tail);
        (head + AliveIn(unused, front + 1, back - 1)) + tail;
        AliveIn(unused, front, back - 1) + tail;
      }
    } else {
      assert AliveIn(unused, front + 1, back) == [];
      assert AliveIn(unused, front, back - 1) == [];
      assert head == tail;
    }
  }

  /** The window enumeration depends only on the tombstones inside the window. */
  lemma {:induction false} AliveInFrame(unused: set<nat>, other: set<nat>, front: nat, back: nat)
    requires forall i :: front <= i < back ==> (i in unused <==> i in other)
    ensures AliveIn(unused, front, back) == AliveIn(other, front, back)
    decreases back - front
  {
    if front < back {
      AliveInFrame(unused, other, front + 1, back);
    }
  }

  /** The enumeration lists every alive index of the window exactly once. */
  lemma {:induction false} AliveInCount(unused: set<nat>, front: nat, back: nat)
    ensures |AliveIn(unused, front, back)| == |Interval(front, back) - unused|
    decreases back - front
  {
    if front >= back {
      assert Interval(front, back) - unused == {};
    } else {
      AliveInCount(unused, front + 1, back);
      if front in unused {
        assert Interval(front, back) - unused == Interval(front + 1, back) - unused;
      } else {
        assert Interval(front, back) - unused == (Interval(front + 1, back) - unused) + {front};
      }
    }
  }

  /** Without tombstones every slot of the window is alive, in order. */
  lemma {:induction false} AliveInNoneDead(front: nat, back: nat)
    requires front <= back
    ensures var s := AliveIn({}, front, back);
      |s| == back - front && forall k :: 0 <= k < |s| ==> s[k] == front + k
    decreases back - front
  {
    if front < back {
      AliveInNoneDead(front + 1, back);
    }
  }

  /** Dropping the head of a suffix leaves the next suffix. */
  lemma TailOfSlice<X>(s: seq<X>, i: nat)
    requires i < |s|
    ensures s[i..][1..] == s[i + 1..]
  {
  }

  /** The elements stored at the given indices, in that order. */
  function ValuesAt<T>(elements: seq<T>, indices: seq<nat>): (s: seq<T>)
    requires forall k :: 0 <= k < |indices| ==> indices[k] < |elements|
    ensures |s| == |indices|
    ensures forall k :: 0 <= k < |s| ==> s[k] == elements[indices[k]]
  {
    seq(|indices|, k requires 0 <= k < |indices| => elements[indices[k]])
  }

  /** The slot count left once the dead tail is cut off: `pop_back_unused`
      (vec.rs:158-171) pops slots while the last one is a tombstone. */
  function TrimmedLength(n: nat, unused: set<nat>): (m: nat)
    ensures m <= n
    ensures forall i :: m <= i < n ==> i in unused
    ensures LastAlive(m, unused)
  {
    if n > 0 && n - 1 in unused then TrimmedLength(n - 1, unused) else n
  }

  /** The tombstones below m. */
  function Below(unused: set<nat>, m: nat): (s: set<nat>)
    ensures forall i :: i in s <==> i in unused && i < m
  {
    set i | i in unused && i < m
  }

  /** Cutting the dead tail restores the invariant and loses no alive element. */
  lemma TrimKeepsContents<T>(elements: seq<T>, unused: set<nat>)
    requires InRange(|elements|, unused)
    ensures var m := TrimmedLength(|elements|, unused);
      && WellFormed(m, Below(unused, m))
      && ContentsOf(elements[..m], Below(unused, m)) == ContentsOf(elements, unused)
  {
    var m := TrimmedLength(|elements|, unused);
    var before := ContentsOf(elements, unused);
    var after := ContentsOf(elements[..m], Below(unused, m));
    assert after.Keys == before.Keys;
  }

  /** When the tombstones fill the whole sequence, nothing is alive and the
      dead tail is everything: the `clear()` shortcut of `pop_back_unused`
      (vec.rs:159-160) agrees with its loop. */
  lemma AllDead(n: nat, unused: set<nat>)
    requires InRange(n, unused) && |unused| == n
    ensures TrimmedLength(n, unused) == 0
    ensures Below(unused, 0) == {}
  {
    AliveCount(n, unused);
    assert AliveSet(n, unused) == {};
    forall i | 0 <= i < n
      ensures i in unused
    {
      assert i !in AliveSet(n, unused);
    }
  }

  /** `iter_next` (vec.rs:443-463): skip tombstones at the front of the window,
      then consume the front index; it is yielded when it lies inside the
      window.  The back index is left as it is. */
  method IterNext(front: nat, back: nat, unused: set<nat>) returns (r: Option<nat>, newFront: nat)
    ensures var rest := AliveIn(unused, front, back);
      && (if rest == [] then r == None else r == Some(rest[0]))
      && AliveIn(unused, newFront, back) == (if rest == [] then [] else rest[1..])
    ensures r.None? ==> newFront == (if front < back then back else front) + 1
    ensures r.Some? ==> front <= r.value < back && r.value !in unused
  {
    var f := front;
    while f < back && f in unused
      invariant front <= f
      invariant front < back ==> f <= back
      invariant front >= back ==> f == front
      invariant AliveIn(unused, f, back) == AliveIn(unused, front, back)
      decreases back - f
    {
      f := f + 1;
    }
    var index := f;
    f := f + 1;
    newFront := f;
    if index < back {
      r := Some(index);
    } else {
      r := None;
    }
  }

  /** `iter_next_back` (vec.rs:465-487): skip tombstones just below the back of
      the window, then consume `back - 1` if the window is not empty.  The
      front index is left as it is. */
  method IterNextBack(front: nat, back: nat, unused: set<nat>) returns (r: Option<nat>, newBack: nat)
    ensures var rest := AliveIn(unused, front, back);
      && (if rest == [] then r == None else r == Some(rest[|rest| - 1]))
      && AliveIn(unused, front, newBack) == (if rest == [] then [] else rest[..|rest| - 1])
    ensures newBack <= back
    ensures r.Some? ==> front <= r.value < back && r.value !in unused
  {
    var b: nat := back;
    while b > front && b - 1 in unused
      invariant b <= back
      invariant AliveIn(unused, front, b) == AliveIn(unused, front, back)
    {
      AliveInBack(unused, front, b);
      b := b - 1;
    }
    if b > front {
      AliveInBack(unused, front, b);
      b := b - 1;
      r := Some(b);
    } else {
      r := None;
    }
    newBack := b;
  }

  /** The width `back - front` of a window as the cursor structs compute it
      (vec.rs:513, 686) in unbounded integers; a negative value is a `usize`
      subtraction that overflows. */
  function SpanAsWritten(front: nat, back: nat): (d: int)
    ensures d < 0 <==> back < front
  {
    back - front
  }

  /** A cursor that `iter_next` has run past an empty window sits beyond its
      back index, so the width the size hint subtracts first is negative. */
  method ExhaustedCursorSpan() returns (front: nat, back: nat)
    ensures SpanAsWritten(front, back) < 0
  {
    back := 0;
    var r;
    r, front := IterNext(0, back, {});
  }

  /** The size hint of the borrowing and owned-id iterators (vec.rs:512-517,
      685-690), with the window width saturating at zero:
      `(max(width - |unused|, 0), Some(width))`. */
  function SizeHint(front: nat, back: nat, unusedCount: nat): (h: (nat, Option<nat>))
    ensures h.1.Some? && h.0 <= h.1.value
    ensures front <= back ==> h.1.value == back - front
    ensures back < front ==> h == (0, Some(0))
  {
    var width := if front <= back then back - front else 0;
    (if width >= unusedCount then width - unusedCount else 0, Some(width))
  }

  /** The size hint brackets what the cursor still yields. */
  lemma SizeHintBrackets(unused: set<nat>, front: nat, back: nat)
    ensures var h := SizeHint(front, back, |unused|);
      h.0 <= |AliveIn(unused, front, back)| <= h.1.value
  {
    AliveInCount(unused, front, back);
    if front <= back {
      WindowCount(unused, front, back);
    }
  }
}
