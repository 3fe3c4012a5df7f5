/**
 * `BitVecElementMarker` (src/element_marker/bit_vec_marker.rs): a marker
 * that keeps one bit per index, set for a used index.  An index beyond the
 * bits reads as unused, the opposite default of the hash-set marker.
 */
module BitVecMarkers {

  import opened Wrappers
  import opened ElementMarkers
  import Slots

  /** The indices at or after `from` whose bit is clear, ascending. */
  function ClearFrom(bits: seq<bool>, from: nat): (s: seq<nat>)
    ensures forall k :: 0 <= k < |s| ==> from <= s[k] < |bits| && !bits[s[k]]
    ensures from <= |bits| ==> |s| <= |bits| - from
    decreases |bits| - from
  {
    if from >= |bits| then []
    else if bits[from] then ClearFrom(bits, from + 1)
    else [from] + ClearFrom(bits, from + 1)
  }

  /** `ClearFrom` lists every clear bit at or after `from`, in ascending
      order. */
  lemma {:induction false} ClearFromSpec(bits: seq<bool>, from: nat)
    ensures var s := ClearFrom(bits, from);
      && (forall i :: from <= i < |bits| && !bits[i] ==> i in s)
      && (forall k, l :: 0 <= k < l < |s| ==> s[k] < s[l])
    decreases |bits| - from
  {
    if from < |bits| {
      ClearFromSpec(bits, from + 1);
    }
  }

  /** The number of clear bits at or after `from`. */
  function ClearCount(bits: seq<bool>, from: nat): (n: nat)
    ensures n == |ClearFrom(bits, from)|
    decreases |bits| - from
  {
    if from >= |bits| then 0
    else (if bits[from] then 0 else 1) + ClearCount(bits, from + 1)
  }

  /** After `clear`, the unused listing from `from` on is every index below
      the kept length, in order. */
  lemma {:induction false} ClearedBitsListAll(n: nat, from: nat)
    requires from <= n
    ensures var s := ClearFrom(seq(n, _ => false), from);
      |s| == n - from && forall k :: 0 <= k < |s| ==> s[k] == from + k
    decreases n - from
  {
    if from < n {
      ClearedBitsListAll(n, from + 1);
    }
  }

  /** The indices a bit vector reports as used. */
  ghost function UsedOf(bits: seq<bool>): iset<nat>
  {
    iset i: nat | i < |bits| && bits[i]
  }

  class BitVecElementMarker {
    var usedIndices: seq<bool>
    var unusedElementsLen: nat

    ghost function Used(): iset<nat>
      reads this
    {
      UsedOf(usedIndices)
    }

    /** `with_element_capacity` (bit_vec_marker.rs:14-19): no bits yet, so
        every index reads as unused, and a zero unused counter. */
    constructor WithElementCapacity(size: nat)
      ensures usedIndices == [] && unusedElementsLen == 0
      ensures forall i: nat :: i !in Used()
    {
      usedIndices := [];
      unusedElementsLen := 0;
    }

    /** `element_is_used` (bit_vec_marker.rs:41-43): the bit, or unused past
        the end. */
    function ElementIsUsed(index: nat): (b: bool)
      reads this
      ensures b <==> index in Used()
      ensures index >= |usedIndices| ==> !b
    {
      if index < |usedIndices| then usedIndices[index] else false
    }

    /** `mark_element_used` (bit_vec_marker.rs:21-38), growing the bits with
        clear ones until `index` is addressable before setting it (the code
        as written stops one bit short of that, see `PadAsWritten`). The
        unused counter is left alone, as in the code. */
    method MarkElementUsed(index: nat, markUsed: bool) returns (wasUsed: bool)
      modifies this
      ensures MarkContract(old(Used()), Used(), index, markUsed, wasUsed)
      ensures markUsed == wasUsed ==> usedIndices == old(usedIndices)
      ensures markUsed != wasUsed ==>
        && |usedIndices| == (if index < |old(usedIndices)| then |old(usedIndices)| else index + 1)
        && usedIndices[index] == markUsed
        && forall j :: 0 <= j < |usedIndices| && j != index ==>
             usedIndices[j] == (j < |old(usedIndices)| && old(usedIndices)[j])
      ensures unusedElementsLen == old(unusedElementsLen)
    {
      wasUsed := ElementIsUsed(index);
      if markUsed != wasUsed {
        ReserveElements(index);
        ghost var before := usedIndices;
        while |usedIndices| < index + 1
          invariant |before| <= |usedIndices| <= (if index < |before| then |before| else index + 1)
          invariant usedIndices[..|before|] == before
          invariant forall j :: |before| <= j < |usedIndices| ==> !usedIndices[j]
          invariant unusedElementsLen == old(unusedElementsLen)
          decreases index + 1 - |usedIndices|
        {
          usedIndices := usedIndices + [false];
        }
        usedIndices := usedIndices[index := markUsed];
        forall j: nat | j != index
          ensures j in Used() <==> j in old(Used())
        {
          if j < |before| {
            assert usedIndices[j] == before[j];
          }
        }
      }
    }

    /** `unused_element_count` (bit_vec_marker.rs:56-58): the counter, which
        no operation of the marker updates. */
    function UnusedElementCount(): (n: nat)
      reads this
      ensures n == unusedElementsLen
    {
      unusedElementsLen
    }

    /** `reserve_elements` (bit_vec_marker.rs:60-62): capacity only. */
    method ReserveElements(elementCount: nat)
      modifies this
      ensures usedIndices == old(usedIndices) && unusedElementsLen == old(unusedElementsLen)
    {
    }

    /** `shrink_to_fit` (bit_vec_marker.rs:64-66): capacity only. */
    method ShrinkToFit()
      modifies this
      ensures usedIndices == old(usedIndices) && unusedElementsLen == old(unusedElementsLen)
    {
    }

    /** `clear` (bit_vec_marker.rs:68-70): `BitVec::clear` zeroes every bit
        and keeps the length, so every index reads as unused while the
        iterator still walks the old length; the counter is not reset. */
    method Clear()
      modifies this
      ensures |usedIndices| == |old(usedIndices)|
      ensures forall i :: 0 <= i < |usedIndices| ==> !usedIndices[i]
      ensures unusedElementsLen == old(unusedElementsLen)
      ensures forall i: nat :: i !in Used()
    {
      usedIndices := seq(|usedIndices|, _ => false);
    }

    /** `unused_elements` (bit_vec_marker.rs:46-51): an iterator over a copy
        of the bits, starting at index 0. */
    method UnusedElements() returns (it: ClonedBitVecMarkerIter)
      ensures fresh(it) && it.Valid()
      ensures it.usedElementBits == usedIndices && it.next == 0
    {
      it := new ClonedBitVecMarkerIter(usedIndices);
    }
  }

  /** `ClonedBitVecMarkerIter` (bit_vec_marker.rs:73-106): walks a copy of
      the bits, yielding the clear ones. */
  class ClonedBitVecMarkerIter {
    var usedElementBits: seq<bool>
    var next: nat

    ghost predicate Valid()
      reads this
    {
      next <= |usedElementBits|
    }

    /** The indices still to be yielded, in the order `next` yields them. */
    function Remaining(): seq<nat>
      reads this
    {
      ClearFrom(usedElementBits, next)
    }

    constructor (bits: seq<bool>)
      ensures Valid() && usedElementBits == bits && next == 0
    {
      usedElementBits := bits;
      next := 0;
    }

    /** `next` (bit_vec_marker.rs:86-100): skip set bits, then yield the
        clear one reached, if any. */
    method Next() returns (r: Option<nat>)
      requires Valid()
      modifies this
      ensures Valid() && usedElementBits == old(usedElementBits)
      ensures old(Remaining()) == [] ==> r == None && Remaining() == []
      ensures old(Remaining()) != [] ==> r == Some(old(Remaining())[0]) && Remaining() == old(Remaining())[1..]
    {
      while next < |usedElementBits| && usedElementBits[next]
        invariant next <= |usedElementBits| && usedElementBits == old(usedElementBits)
        invariant ClearFrom(usedElementBits, next) == old(Remaining())
        decreases |usedElementBits| - next
      {
        next := next + 1;
      }
      if next < |usedElementBits| {
        var current := next;
        next := next + 1;
        r := Some(current);
      } else {
        r := None;
      }
    }

    /** `size_hint` (bit_vec_marker.rs:102-105) corrected to count only the
        clear bits ahead, which makes it exact as `ExactSizeIterator`
        requires. The code's own hint is `SizeHintAsWritten`. */
    function SizeHint(): (h: (nat, Option<nat>))
      reads this
      requires Valid()
      ensures h == (|Remaining()|, Some(|Remaining()|))
    {
      var n := ClearCount(usedElementBits, next);
      (n, Some(n))
    }
  }

  /** The size hint as written (bit_vec_marker.rs:102-105): all bits ahead,
      set or clear, so only an upper bound on what is left. */
  function SizeHintAsWritten(bits: seq<bool>, next: nat): (h: (nat, Option<nat>))
    requires next <= |bits|
    ensures h.1 == Some(h.0) && h.0 >= |ClearFrom(bits, next)|
  {
    (|bits| - next, Some(|bits| - next))
  }

  /** With one set bit the hint as written announces one index though the
      iterator yields none. */
  lemma SizeHintCounterexample(bits: seq<bool>)
    requires bits == [true]
    ensures SizeHintAsWritten(bits, 0) == (1, Some(1)) && ClearFrom(bits, 0) == []
  {
  }

  /** The padding loop of `mark_element_used` as written (bit_vec_marker.rs:
      28-31): grow with clear bits while the length is below `index - 1`.
      `None` stands for the `usize` underflow of `index - 1` at index 0. */
  method PadAsWritten(bits: seq<bool>, index: nat) returns (r: Option<seq<bool>>)
    ensures index == 0 <==> r.None?
    ensures r.Some? ==> |r.value| == (if |bits| < index - 1 then index - 1 else |bits|)
    ensures r.Some? ==> r.value[..|bits|] == bits
    ensures index >= |bits| && r.Some? ==> index >= |r.value|
  {
    if index == 0 {
      return None;
    }
    var padded := bits;
    while |padded| < index - 1
      invariant |bits| <= |padded| <= (if |bits| < index - 1 then index - 1 else |bits|)
      invariant padded[..|bits|] == bits
      decreases index - 1 - |padded|
    {
      padded := padded + [false];
    }
    r := Some(padded);
  }

  /** Marking index 5 used in a fresh marker pads to 4 bits, so the bit the
      code then sets does not exist. */
  method PadCounterexample() returns (r: Option<seq<bool>>)
    ensures r.Some? && |r.value| == 4 && !(5 < |r.value|)
  {
    r := PadAsWritten([], 5);
  }

  /** Draining `unused_elements()` lists, in ascending order, exactly the
      indices below the bit length whose bit is clear. */
  method CollectUnused(m: BitVecElementMarker) returns (s: seq<nat>)
    ensures forall k, l :: 0 <= k < l < |s| ==> s[k] < s[l]
    ensures forall i: nat :: i in s <==> i < |m.usedIndices| && i !in m.Used()
  {
    var it := m.UnusedElements();
    assert it.Remaining() == ClearFrom(m.usedIndices, 0);
    s := Drain(it);
    ClearBitsListed(m.usedIndices);
    assert m.Used() == UsedOf(m.usedIndices);
  }

  /** Calls `next` until it returns `None`, collecting what it yields. */
  method Drain(it: ClonedBitVecMarkerIter) returns (s: seq<nat>)
    requires it.Valid()
    modifies it
    ensures s == old(it.Remaining())
  {
    ghost var all := it.Remaining();
    s := [];
    var next := it.Next();
    while next.Some?
      invariant it.Valid()
      invariant |s| <= |all| && forall k :: 0 <= k < |s| ==> s[k] == all[k]
      invariant next.Some? ==> |s| < |all| && next.value == all[|s|] && it.Remaining() == all[|s| + 1..]
      invariant next.None? ==> |s| == |all|
      decreases |all| - |s|
    {
      s := s + [next.value];
      if |s| < |all| {
        Slots.TailOfSlice(all, |s|);
      }
      next := it.Next();
    }
  }

  /** The clear bits from index 0 are ascending and are exactly the indices
      below the bit length that read as unused. */
  lemma ClearBitsListed(bits: seq<bool>)
    ensures var s := ClearFrom(bits, 0);
      && (forall k, l :: 0 <= k < l < |s| ==> s[k] < s[l])
      && (forall i: nat :: i in s <==> i < |bits| && i !in UsedOf(bits))
  {
    ClearFromSpec(bits, 0);
  }

  /** A bound above every entry of a sequence. */
  function UpperBound(s: seq<nat>): (b: nat)
    ensures forall k :: 0 <= k < |s| ==> s[k] < b
  {
    if s == [] then 0
    else
      var rest := UpperBound(s[1..]);
      if s[0] < rest then rest else s[0] + 1
  }

  /** No enumeration of a bit-vector marker meets the trait's promise for
      `unused_elements`: every index past the bits reads as unused, and no
      finite list holds them all. */
  lemma UnusedPastBits(bits: seq<bool>, s: seq<nat>)
    ensures !EnumeratesUnused(UsedOf(bits), s)
  {
    var i := |bits| + UpperBound(s);
    assert i !in UsedOf(bits);
    assert i !in s;
  }
}
