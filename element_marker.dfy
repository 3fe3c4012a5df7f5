/**
 * The occupancy-tracking contract of src/element_marker/mod.rs (and of its
 * older copy, src/element_marker.rs): a marker records for every index
 * whether the slot there is used (alive) or unused (deleted).
 *
 * A marker's state is viewed as the possibly infinite set of indices it
 * reports as used, so the two implementations, one remembering the unused
 * indices and one remembering the used ones, can be held to the same
 * promises.
 */
module ElementMarkers {

  /** What `mark_element_used(index, used)` promises (mod.rs:13-17): the
      result is whether `index` was used before the call, afterwards `index`
      is used exactly when `used` asks for it, and no other index changes. */
  ghost predicate MarkContract(before: iset<nat>, after: iset<nat>, index: nat, used: bool, result: bool)
  {
    && result == (index in before)
    && (index in after <==> used)
    && forall j: nat :: j != index ==> (j in after <==> j in before)
  }

  /** What `unused_elements` promises (mod.rs:20-22): `s` lists every index
      the marker reports as unused, each once. */
  ghost predicate EnumeratesUnused(used: iset<nat>, s: seq<nat>)
  {
    && (forall k, l :: 0 <= k < l < |s| ==> s[k] != s[l])
    && (forall i: nat :: i !in used <==> i in s)
  }

  /** A marker meeting the contract is idempotent: marking an index a second
      time with the same state changes nothing and reports that state. */
  lemma MarkTwice(before: iset<nat>, middle: iset<nat>, after: iset<nat>, index: nat, used: bool, first: bool, second: bool)
    requires MarkContract(before, middle, index, used, first)
    requires MarkContract(middle, after, index, used, second)
    ensures after == middle && second == used
  {
  }

  /** Marking an index back to the state the first call reported restores
      the marker. */
  lemma MarkUndo(before: iset<nat>, middle: iset<nat>, after: iset<nat>, index: nat, used: bool, first: bool, second: bool)
    requires MarkContract(before, middle, index, used, first)
    requires MarkContract(middle, after, index, first, second)
    ensures after == before && second == used
  {
  }
}
