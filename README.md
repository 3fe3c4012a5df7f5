# id-vec in Dafny

A model of the `id-vec` crate and proofs about it. The crate provides two arenas that hand out copyable `Id` handles. `IdVec<T>` is the main one; `IdMap<T>` is an older variant.

An arena stores its values in a dense `elements` vector. It also keeps a set of *unused* (deleted) indices:

- Removing an element only marks its slot unused.
- Inserting reuses an unused slot when one exists, and otherwise appends.
- The iterators skip unused slots.

`IdVec` adds two invariants: every unused index is in range, and the last slot is never unused. Its `remove`, `pop` and `retain` trim dead slots off the back, and `pack` compacts the vector by moving the last element into each hole.

The crate also has an `ElementMarker` trait for occupancy tracking, with a hash-set and a bit-vector implementation. `IdVec` does not use the trait yet.

Modules, one per concern:

- `Ids` (`id.dfy`): the `Id` handle, a wrapper around a `nat` index.
- `Slots` (`slots.dfy`): the bookkeeping shared by both arenas.
  - The abstract view `ContentsOf(elements, unused)`, a `map<nat, T>` from each alive index to its element. Every arena operation is specified through this view.
  - The well-formedness predicates.
  - The cursor functions `iter_next` / `iter_next_back`, as `Slots.IterNext` / `Slots.IterNextBack`.
  - `AliveIn(unused, front, back)`: the ascending list of alive indices in a cursor window.
- `IdVecs` (`vec.dfy`): the class `IdVec` with its mutating operations. The loops of `pop_back_unused` and `pack` are kept as loops.
- `IdVecIters` (`vec_iter.dfy`): the cursor classes `Iter`, `ElementIter`, `IdIter`, `OwnedIdIter`, `IntoElements` and `DrainElements`.
- `IdVecQueries` (`vec_query.dfy`): the queries that compare elements, plus `PartialEq`.
- `IdAccess` (`id_access.dfy`): `Id::of`, `try_of`, `of_mut` and `try_of_mut`.
- `ElementMarkers` (`element_marker.dfy`): the trait's contract, written as predicates over the set of used indices.
- `HashSetMarkers` and `BitVecMarkers`: the two marker implementations. `src/element_marker.rs` is an older copy of the trait and the hash-set marker. It is modelled once, and both files are cited.
- `IdMaps` (`map.dfy`): the class `IdMap` and its iterators.
- `Wrappers`: `Option`.

## Model

| member | source | states |
|---|---|---|
| Ids.FromIndex | src/id.rs:14-16 | the id built from an index carries exactly that index |
| Ids.IndexValue | src/id.rs:45-47 | rebuilding an id from its index value gives back the same id |
| Ids.IndexRoundTrip | src/id.rs:14-16 | `index_value(from_index(i)) == i` for every index |
| Ids.EqualityIsIndexEquality | src/id.rs:54-59 | two ids are equal if and only if their indices are equal |
| Slots.AliveCount | src/vec.rs:88-91 | when every unused index is in range, there are at most `elements.len()` unused indices, and the alive slots number `elements.len() − |unused|`, which is `len()` |
| Slots.ContentsOf | src/vec.rs:59-66 | a slot is in the arena's contents exactly when it is in range and not unused, and it then maps to the stored element |
| Slots.ContentsKeys | src/vec.rs:59-66 | the keys of the contents are exactly the in-range indices that are not unused |
| Slots.ContentsKill | src/vec.rs:127-129 | marking an index unused removes exactly that key from the contents |
| Slots.ContentsRevive | src/vec.rs:177-181 | writing into a dead slot and taking it out of the unused set adds exactly that key, with the new value |
| Slots.ContentsPush | src/vec.rs:182-185 | appending an element adds exactly the key `elements.len()` with that element |
| Slots.ContentsDropLast | src/vec.rs:138-147 | popping an alive last slot removes exactly the last key from the contents |
| Slots.TrimmedLength | src/vec.rs:158-171 | the length `pop_back_unused` stops at is no more than the old length; every slot past it is unused; its last slot is alive |
| Slots.TrimKeepsContents | src/vec.rs:158-171 | trimming the dead tail (dropping those indices from the unused set) re-establishes the invariant and leaves the alive contents unchanged |
| Slots.AllDead | src/vec.rs:159-160 | when every slot is unused, trimming leaves nothing, just as `clear` does |
| Slots.AliveInSpec | src/vec.rs:443-487 | a cursor window yields, in strictly ascending order, exactly the indices in `[front, back)` that are not unused |
| Slots.AliveInBack | src/vec.rs:465-487 | the window's enumeration ends with `back − 1` exactly when that slot is alive, so the back cursor can peel it off |
| Slots.AliveInCount | src/vec.rs:512-517 | the number of indices a window yields is the size of `[front, back)` minus its unused indices |
| Slots.AliveInNoneDead | src/vec.rs:48-53 | with no unused indices, a window yields every index of `[front, back)` in order |
| Slots.IterNext | src/vec.rs:443-463 | returns the first alive index of the window (`None` when there is none) and advances the front past it. After the last alive index, the front lands at `back + 1` |
| Slots.IterNextBack | src/vec.rs:465-487 | returns the last alive index of the window (`None` when there is none) and shrinks the back so the rest of the window is unchanged |
| Slots.SpanAsWritten | src/vec.rs:512-517 | `back − front` as written is negative (a `usize` underflow) exactly when `back < front` |
| Slots.ExhaustedCursorSpan | src/vec.rs:455-462 | a cursor drained by `iter_next` reaches a state where that subtraction underflows |
| Slots.SizeHint | src/vec.rs:512-517 | the corrected hint: lower ≤ upper; the upper bound is the span while `front ≤ back`; `(0, Some(0))` once exhausted |
| Slots.SizeHintBrackets | src/vec.rs:512-517 | the hint's lower and upper bounds bracket the true number of remaining alive indices |
| IdVecs.IdVec.New | src/vec.rs:37-39 | a new arena is empty and well formed |
| IdVecs.IdVec.WithCapacity | src/vec.rs:41-43 | the capacity hint has no logical effect: the arena is empty |
| IdVecs.IdVec.FromVec | src/vec.rs:48-53 | every element of the vector is alive under its position as id, and nothing is unused |
| IdVecs.IdVec.Len | src/vec.rs:88-91 | `len()` is the number of alive slots |
| IdVecs.IdVec.IsEmpty | src/vec.rs:93-95 | empty exactly when no slot is alive |
| IdVecs.IdVec.ContainsId | src/vec.rs:97-101 | true exactly when the id's slot is alive |
| IdVecs.IdVec.IsPacked | src/vec.rs:103-106 | packed exactly when every slot is alive; then `len()` is the vector length |
| IdVecs.IdVec.Get | src/vec.rs:195-200 | `Some` exactly for alive ids, and then the stored element |
| IdVecs.IdVec.Index | src/vec.rs:394-400 | for a contained id, the element `get` would return |
| IdVecs.IdVec.GetMut | src/vec.rs:202-207 | writes through an alive id only: reports whether the id was alive, and the contents change at that key alone |
| IdVecs.IdVec.IndexMut | src/vec.rs:402-407 | for a contained id, replaces that slot's element and nothing else |
| IdVecs.IdVec.Clear | src/vec.rs:217-222 | leaves no elements and no unused indices |
| IdVecs.IdVec.ShrinkToFit | src/vec.rs:224-229 | no logical state changes |
| IdVecs.IdVec.Reserve | src/vec.rs:231-234 | no logical state changes |
| IdVecs.IdVec.PopBackUnused | src/vec.rs:156-171 | from any state whose unused indices are in range, drops exactly the dead tail (everything when all slots are dead), restores the invariant and keeps the contents |
| IdVecs.IdVec.Remove | src/vec.rs:110-134 | the id is gone afterwards (`get` is `None`) and every other slot is kept. `len` drops by one exactly when the id was alive. Removing a dead or out-of-range id changes nothing. The invariant is preserved |
| IdVecs.IdVec.Pop | src/vec.rs:136-147 | on an empty arena returns `None` and leaves nothing; otherwise returns the id and element of the last slot (which is alive), removes just that key, adds no unused index and keeps the invariant |
| IdVecs.IdVec.PopElement | src/vec.rs:149-154 | like `pop`, returning just the last alive element |
| IdVecs.IdVec.Insert | src/vec.rs:173-191 | the new id was not alive and now maps to the element; `len` grows by one; a dead slot is reused when one exists, otherwise the element is appended at the old length |
| IdVecs.IdVec.SwapElements | src/vec.rs:210-215 | exchanges the elements of two contained ids and changes nothing else |
| IdVecs.IdVec.Retain | src/vec.rs:236-248 | the new contents are exactly the old alive entries for which the predicate is false; the vector is only shortened; the invariant is kept |
| IdVecs.IdVec.Pack | src/vec.rs:250-281 | afterwards nothing is unused, the vector length equals the old `len()`, and the log renames each old alive id to a distinct new index holding its element. Each move goes from the then-last index into a lower index that was unused when packing began, with move sources strictly decreasing |
| IdVecs.PackMove | src/vec.rs:263-272 | one swap-and-pop step moves the last element into the hole and keeps every alive element findable through the log |
| IdVecIters.WholeWindow | src/vec.rs:286-293 | the full window of a well-formed arena yields its alive ids, each exactly once in ascending order, `len()` of them |
| IdVecIters.Iter.constructor | src/vec.rs:286-293 | the cursor spans the whole vector, so it will yield the whole window |
| IdVecIters.Iter.Next | src/vec.rs:501-510 | yields the lowest remaining alive id with its element, or `None` when nothing remains |
| IdVecIters.Iter.NextBack | src/vec.rs:520-531 | yields the highest remaining alive id with its element, or `None` when nothing remains |
| IdVecIters.Iter.SizeHint | src/vec.rs:512-517 | the hint brackets the number of ids still to be yielded |
| IdVecIters.ElementIter.constructor | src/vec.rs:316-319 | will yield the alive elements in ascending id order |
| IdVecIters.ElementIter.Next | src/vec.rs:542-544 | yields the next element in ascending id order |
| IdVecIters.ElementIter.NextBack | src/vec.rs:552-554 | yields the last remaining element |
| IdVecIters.ElementIter.SizeHint | src/vec.rs:546-548 | the hint brackets the number of elements remaining |
| IdVecIters.IdIter.constructor | src/vec.rs:321-324 | will yield the alive ids in ascending order |
| IdVecIters.IdIter.Next | src/vec.rs:645-647 | yields the next alive id in ascending order |
| IdVecIters.IdIter.NextBack | src/vec.rs:655-657 | yields the last remaining alive id |
| IdVecIters.IdIter.SizeHint | src/vec.rs:649-651 | the hint brackets the number of ids remaining |
| IdVecIters.OwnedIdIter.constructor | src/vec.rs:326-337 | a snapshot of the unused set and the whole window |
| IdVecIters.OwnedIdIter.Next | src/vec.rs:675-683 | yields the next alive id of the snapshot in ascending order |
| IdVecIters.OwnedIdIter.NextBack | src/vec.rs:693-703 | yields the last remaining alive id of the snapshot |
| IdVecIters.OwnedIdIter.SizeHint | src/vec.rs:685-690 | the hint brackets the number of ids remaining |
| IdVecIters.SkipDead | src/vec.rs:572-575 | skipping a dead index while dropping it from the unused set leaves the same remaining elements |
| IdVecIters.ExactCount | src/vec.rs:586-590 | while every remaining unused index lies ahead of the cursor, `remaining slots − |unused|` is exactly the number still to be yielded |
| IdVecIters.IntoElements.constructor | src/vec.rs:298-305 | will yield the `len()` alive elements in ascending id order |
| IdVecIters.IntoElements.Next | src/vec.rs:571-584 | yields the next alive element in ascending order, skipping dead slots |
| IdVecIters.IntoElements.SizeHint | src/vec.rs:586-590 | the hint is exact |
| IdVecIters.DrainElements.constructor | src/vec.rs:307-314 | takes the elements out of the arena, which then holds no elements, and will yield its `len()` alive elements in ascending order |
| IdVecIters.DrainElements.Next | src/vec.rs:606-619 | yields the next alive element in ascending order, skipping dead slots |
| IdVecIters.DrainElements.SizeHint | src/vec.rs:621-625 | the hint is exact |
| IdVecIters.DrainElements.Drop | src/vec.rs:628-633 | however far the drain got, the arena ends empty and well formed |
| IdVecQueries.EnumerationLength | src/vec.rs:286-293 | iterating a well-formed arena yields exactly `len()` entries |
| IdVecQueries.SameContents | src/vec.rs:410-421 | two arenas have the same id-to-element contents if and only if their iterations yield the same ids with equal elements |
| IdVecQueries.SameContentsEnumerate | src/vec.rs:410-421 | arenas with the same contents iterate over the same ids |
| IdVecQueries.SameEnumerationContents | src/vec.rs:410-421 | the same iterated ids with equal elements imply the same contents |
| IdVecQueries.FindIdOfElement | src/vec.rs:361-365 | returns the lowest alive id holding the element, and `None` exactly when no alive slot holds it |
| IdVecQueries.ContainsElement | src/vec.rs:355-359 | true exactly when some alive slot holds the element |
| IdVecQueries.IdsEq | src/vec.rs:340-345 | true exactly when both arenas have the same set of alive ids |
| IdVecQueries.AllIdsContained | src/vec.rs:340-345 | equal sizes plus every id of one being alive in the other means equal id sets |
| IdVecQueries.ElementsEq | src/vec.rs:347-353 | as written: true exactly when the sizes agree and every alive element of the first occurs among the alive elements of the second |
| IdVecQueries.AllContained | src/vec.rs:348-350 | the `all` loop answers whether every remaining element occurs in the other arena |
| IdVecQueries.Included | src/vec.rs:347-353 | the loop's answer over the alive enumeration is the one-way inclusion of elements |
| IdVecQueries.ElementsEqCounterexample | src/vec.rs:347-353 | `[1,1,2]` and `[1,2,3]` pass the check though their elements differ as multisets |
| IdVecQueries.CollectElements | src/vec.rs:316-319 | collects exactly the multiset of the alive elements |
| IdVecQueries.SameElements | src/vec.rs:345-353 | the corrected comparison: true exactly when the alive elements are equal as multisets |
| IdVecQueries.Equal | src/vec.rs:410-421 | `==` is true exactly when both arenas map the same ids to the same elements |
| IdVecQueries.SameSteps | src/vec.rs:414-420 | the `zip` / `all` loop answers whether the two iterations agree step by step on id and element |
| IdVecQueries.EqualWhenSameSteps | src/vec.rs:410-421 | agreeing step by step over equally long iterations is the same as having equal contents |
| IdAccess.Of | src/id.rs:21-23 | for a contained id, the element stored under it |
| IdAccess.TryOf | src/id.rs:34-36 | the same answer as `get`: `Some` exactly for alive ids |
| IdAccess.OfMut | src/id.rs:28-30 | writes through a contained id and changes only that entry |
| IdAccess.TryOfMut | src/id.rs:40-42 | writes only when the id is alive, and reports whether it was |
| IdAccess.TryOfAgreesWithOf | src/id.rs:21-36 | `try_of` is `Some` exactly when `of` may be called, and then agrees with it |
| ElementMarkers.MarkTwice | src/element_marker/mod.rs:13-17 | under the trait's contract, marking twice with the same state is idempotent, and the second call reports that state |
| ElementMarkers.MarkUndo | src/element_marker/mod.rs:13-17 | under the contract, marking back to the reported previous state restores the marker exactly |
| HashSetMarkers.HashSetElementMarker.WithElementCapacity | src/element_marker.rs:39-41 | starts with no unused indices, so every index reads as used |
| HashSetMarkers.HashSetElementMarker.ElementIsUsed | src/element_marker/hash_set_marker.rs:28-30 | an index is used exactly when it is not in the unused set |
| HashSetMarkers.HashSetElementMarker.MarkElementUsed | src/element_marker/hash_set_marker.rs:18-26 | corrected: updates the unused set exactly as the source does, meets the trait contract, and returns the previous used-state |
| HashSetMarkers.HashSetElementMarker.UnusedElementCount | src/element_marker/hash_set_marker.rs:43-45 | the size of the unused set |
| HashSetMarkers.HashSetElementMarker.ReserveElements | src/element_marker/hash_set_marker.rs:47-49 | the unused set is unchanged |
| HashSetMarkers.HashSetElementMarker.ShrinkToFit | src/element_marker/hash_set_marker.rs:51-53 | the unused set is unchanged |
| HashSetMarkers.HashSetElementMarker.Clear | src/element_marker.rs:80-82 | the unused set is empty, so every index reads as used |
| HashSetMarkers.HashSetElementMarker.UnusedElements | src/element_marker/hash_set_marker.rs:33-38 | the iterator starts with a copy of the unused set |
| HashSetMarkers.ClonedHashSetMarkerIter.Next | src/element_marker/hash_set_marker.rs:72-74 | yields some index not yet yielded and removes it, or `None` once all are yielded |
| HashSetMarkers.ClonedHashSetMarkerIter.SizeHint | src/element_marker/hash_set_marker.rs:76-78 | the hint is exact |
| HashSetMarkers.CollectUnused | src/element_marker/mod.rs:20-22 | draining the hash-set iterator lists every unused index exactly once, `unused_element_count` of them |
| HashSetMarkers.MarkResultAsWritten | src/element_marker/hash_set_marker.rs:18-26 | the returned flag as written: true exactly when the call changed the index's state |
| HashSetMarkers.MarkResultInverted | src/element_marker.rs:43-51 | that flag is the previous used-state when marking unused, and its negation when marking used |
| HashSetMarkers.MarkResultCounterexample | src/element_marker/hash_set_marker.rs:18-26 | marking an already-used index used returns false, breaking the "was used before" contract |
| BitVecMarkers.ClearFrom | src/element_marker/bit_vec_marker.rs:86-100 | every index the iterator yields from `next` on lies below the bit length and has its bit clear |
| BitVecMarkers.ClearFromSpec | src/element_marker/bit_vec_marker.rs:86-100 | the iterator yields every clear bit from `next` on, in strictly ascending order |
| BitVecMarkers.ClearCount | src/element_marker/bit_vec_marker.rs:102-105 | the number of indices still to be yielded |
| BitVecMarkers.BitVecElementMarker.WithElementCapacity | src/element_marker/bit_vec_marker.rs:14-19 | starts with no bits and a counter of 0, so every index reads as unused |
| BitVecMarkers.BitVecElementMarker.ElementIsUsed | src/element_marker/bit_vec_marker.rs:41-43 | reads the bit, and is false at or beyond the bit length |
| BitVecMarkers.BitVecElementMarker.MarkElementUsed | src/element_marker/bit_vec_marker.rs:21-38 | corrected: meets the trait contract and returns the previous state. When nothing changes the bits are untouched; otherwise the bits grow to hold `index`, only bit `index` is set, and the counter is not updated |
| BitVecMarkers.BitVecElementMarker.UnusedElementCount | src/element_marker/bit_vec_marker.rs:56-58 | returns the stored counter |
| BitVecMarkers.BitVecElementMarker.ReserveElements | src/element_marker/bit_vec_marker.rs:60-62 | no logical state changes |
| BitVecMarkers.BitVecElementMarker.ShrinkToFit | src/element_marker/bit_vec_marker.rs:64-66 | no logical state changes |
| BitVecMarkers.BitVecElementMarker.Clear | src/element_marker/bit_vec_marker.rs:68-70 | zeroes every bit and keeps the bit length, so every index reads as unused while a later `unused_elements` still walks the old length; the counter is left as it was |
| BitVecMarkers.ClearedBitsListAll | src/element_marker/bit_vec_marker.rs:68-70 | after `clear`, the unused listing is every index below the kept bit length, in ascending order |
| BitVecMarkers.BitVecElementMarker.UnusedElements | src/element_marker/bit_vec_marker.rs:46-51 | the iterator starts on a copy of the bits, at index 0 |
| BitVecMarkers.ClonedBitVecMarkerIter.constructor | src/element_marker/bit_vec_marker.rs:46-51 | a fresh iterator on the given bits, positioned at 0 |
| BitVecMarkers.ClonedBitVecMarkerIter.Next | src/element_marker/bit_vec_marker.rs:86-100 | yields the next index with a clear bit, in ascending order, or `None` past the bit length |
| BitVecMarkers.ClonedBitVecMarkerIter.SizeHint | src/element_marker/bit_vec_marker.rs:102-105 | corrected: the hint is exact |
| BitVecMarkers.SizeHintAsWritten | src/element_marker/bit_vec_marker.rs:102-105 | the hint as written claims to be exact, and it bounds the remaining count only from above |
| BitVecMarkers.SizeHintCounterexample | src/element_marker/bit_vec_marker.rs:102-105 | with bits `[true]` the hint claims one more index while none remains |
| BitVecMarkers.PadAsWritten | src/element_marker/bit_vec_marker.rs:28-31 | the padding loop as written underflows at index 0 and otherwise grows the bits only to `index − 1`, so `index` stays out of range |
| BitVecMarkers.PadCounterexample | src/element_marker/bit_vec_marker.rs:28-33 | marking index 5 on empty bits pads to 4 bits, so the `debug_assert` on line 33 fails |
| BitVecMarkers.CollectUnused | src/element_marker/bit_vec_marker.rs:86-100 | draining the bit-vector iterator lists, ascending, exactly the indices below the bit length that read as unused |
| BitVecMarkers.ClearBitsListed | src/element_marker/bit_vec_marker.rs:41-43 | the listing from index 0 is ascending and holds exactly the in-range indices the marker reports unused |
| BitVecMarkers.UnusedPastBits | src/element_marker/mod.rs:20-22 | no finite listing meets the trait's "every unused index" promise for the bit-vector marker, because every index past the bits reads as unused |
| IdMaps.IdMap.New | src/map.rs:25-27 | a new map is empty |
| IdMaps.IdMap.WithCapacity | src/map.rs:29-34 | the capacity hint has no logical effect: the map is empty |
| IdMaps.IdMap.Contains | src/map.rs:36-39 | false for indices at or beyond the length and for unused ones; true exactly for alive ids |
| IdMaps.IdMap.IsPacked | src/map.rs:41-43 | packed exactly when every slot is alive |
| IdMaps.IdMap.Len | src/map.rs:131-133 | the number of alive slots, that is `elements.len() − |unused|` |
| IdMaps.IdMap.MarkUnused | src/map.rs:68-71 | for an alive id: adds it to the unused set, removes exactly its entry, drops `len` by one and does not shorten the vector |
| IdMaps.IdMap.Insert | src/map.rs:75-87 | the new id was not alive and now maps to the element; `len` grows by one; an unused slot is reused when one exists, otherwise the element is appended |
| IdMaps.IdMap.Get | src/map.rs:89-93 | `Some` exactly for alive ids, and then the stored element |
| IdMaps.IdMap.Index | src/map.rs:352-358 | for an alive id, the element `get` returns |
| IdMaps.IdMap.GetMut | src/map.rs:95-99 | writes only through an alive id and reports whether it was alive |
| IdMaps.IdMap.IndexMut | src/map.rs:360-365 | for an alive id, replaces exactly that entry |
| IdMaps.IdMap.PackedVec | src/map.rs:137-147 | returns `len()` elements and a remap defined exactly on the alive ids, with `vec[remap[id]]` equal to the id's element. The remap preserves id order, so the k-th alive id goes to k |
| IdMaps.CollectStep | src/map.rs:141-144 | one loop step records the next alive id at the current vector length and pushes its element |
| IdMaps.PackedDone | src/map.rs:137-147 | the collected vector and remap over the full window meet `packed_vec`'s promise |
| IdMaps.AliveAscending | src/map.rs:175-193 | the forward cursor's enumeration is strictly ascending |
| IdMaps.Iter.constructor | src/map.rs:102-108 | the cursor spans the whole vector |
| IdMaps.Iter.Next | src/map.rs:225-234 | yields the lowest remaining alive id with its element, or `None` |
| IdMaps.Iter.NextBack | src/map.rs:245-254 | corrected: yields the highest remaining alive id with its element, or `None` |
| IdMaps.Iter.SizeHint | src/map.rs:236-241 | the hint brackets the number remaining |
| IdMaps.ElementIter.constructor | src/map.rs:111-113 | will yield the alive elements in ascending id order |
| IdMaps.ElementIter.Next | src/map.rs:266-268 | yields the next alive element |
| IdMaps.ElementIter.NextBack | src/map.rs:276-278 | corrected: yields the last remaining alive element (the source delegates to the faulty backward step of src/map.rs:195-211) |
| IdMaps.ElementIter.SizeHint | src/map.rs:270-272 | the hint brackets the number remaining |
| IdMaps.IdIter.constructor | src/map.rs:116-118 | will yield the alive ids in ascending order |
| IdMaps.IdIter.Next | src/map.rs:290-292 | yields the next alive id |
| IdMaps.IdIter.NextBack | src/map.rs:300-302 | corrected: yields the last remaining alive id (the source delegates to the faulty backward step of src/map.rs:195-211) |
| IdMaps.IdIter.SizeHint | src/map.rs:294-296 | the hint brackets the number remaining |
| IdMaps.IdIterMut.constructor | src/map.rs:122-129 | a snapshot of the unused set and the whole window |
| IdMaps.IdIterMut.Next | src/map.rs:320-328 | yields the next alive id of the snapshot |
| IdMaps.IdIterMut.NextBack | src/map.rs:338-348 | corrected: yields the last remaining alive id of the snapshot |
| IdMaps.IdIterMut.SizeHint | src/map.rs:330-335 | the hint brackets the number remaining |
| IdMaps.IterNextBackAsWritten | src/map.rs:195-211 | the backward cursor as written: the loop skips while `back` itself is unused, so the slot returned is `back − 1` after that skip, without checking that slot |
| IdMaps.NextBackCounterexample | src/map.rs:195-211 | with window `[0, 1)` and slot 0 unused, the as-written cursor yields the dead index 0 while the corrected one yields `None` |

## Left out

- I/O and formatting: the `Debug` impls (src/vec.rs:423-435, src/id.rs:72-76), the `id_vec!` macro, `Hash` for `Id`, and src/main.rs and src/lib.rs. They contain no arena logic.
- `FromIterator`, `IntoIterator` and `From<Vec<T>>` (src/vec.rs:371-391) only forward to `from_vec` and `into_elements`. They are covered by `IdVecs.IdVec.FromVec` and `IdVecIters.IntoElements`.
- Memory and capacity: `with_capacity`, `reserve`, `shrink_to_fit` and the markers' `reserve_elements` and `shrink_to_fit` only affect allocation. They are modelled as leaving the logical state unchanged.
- Hash-set iteration order. Where the source takes `HashSet::iter().next()` (insert, pack, the hash-set iterator), the model picks any member with `:|`. Properties are proved for every choice.
- Rust borrowing and lifetimes. Iterators hold a reference to their arena (a field) or a copy of the state they need. `DrainElements` takes the element vector when created, and `Drop` clears the arena.
- `usize` width. Indices are unbounded `nat`s. Three places in the source can underflow; the model shows only the first two:
  - the cursors' size hint after exhaustion, shown by `Slots.SpanAsWritten`;
  - the bit-vector padding guard `index − 1` at index 0 (src/element_marker/bit_vec_marker.rs:29), shown by `BitVecMarkers.PadAsWritten`;
  - `IdMap::len` (src/map.rs:132) after an out-of-range `mark_unused`, which `IdMaps.IdMap.MarkUnused` excludes by its precondition (see below).
- Retain follows the code: `IdVecs.IdVec.Retain` removes the elements for which the predicate is **true** (src/vec.rs:240-243), as the crate's own test expects. The doc comment "retain only the elements specified by the predicate" says the opposite.
- IdVecIters.IntoElements / IdVecIters.DrainElements iterate forward, in ascending index order, as the code does. The doc comment at src/vec.rs:558 says backwards.
- Marker defaults differ. The bit-vector marker treats never-seen indices as unused (src/element_marker/bit_vec_marker.rs:42), while the hash-set marker treats them as used. `BitVecMarkers.UnusedPastBits` shows that the bit-vector enumeration can therefore never list "all unused indices". `BitVecMarkers.CollectUnused` states what it does list instead.
- BitVecMarkers.BitVecElementMarker.UnusedElementCount returns the stored counter and does not count clear bits. The source never updates the counter (a TODO at line 26), and `clear` does not reset it. `MarkElementUsed` and `Clear` state that it is left unchanged.
- BitVecMarkers.ClonedBitVecMarkerIter.constructor starts at index 0. The source never initialises `next` (lines 48-50) and reads an unqualified `next` at lines 92-93, so it would not compile. The model reads the evident intent.
- IdVecs.IdVec.Index: requires the id to be contained. The source documents a panic on an invalid id but only `debug_assert!`s liveness before indexing (src/vec.rs:397). The precondition therefore leaves out two behaviours: in release builds, access to the tombstoned element of a dead in-range id; and the out-of-range panic.
- IdVecs.IdVec.IndexMut: requires the id to be contained. The source documents a panic on an invalid id but only `debug_assert!`s liveness before indexing (src/vec.rs:404). The precondition therefore leaves out two behaviours: in release builds, access to the tombstoned element of a dead in-range id; and the out-of-range panic.
- IdVecs.IdVec.SwapElements: requires both ids to be contained. The source documents a panic on an invalid id but only `debug_assert!`s liveness before indexing (src/vec.rs:212-213). The precondition therefore leaves out two behaviours: in release builds, access to the tombstoned element of a dead in-range id; and the out-of-range panic.
- IdAccess.Of: requires the id to be contained. The source documents a panic on an invalid id but only `debug_assert!`s liveness before indexing (src/id.rs:21-23, via src/vec.rs:397). The precondition therefore leaves out two behaviours: in release builds, access to the tombstoned element of a dead in-range id; and the out-of-range panic.
- IdAccess.OfMut: requires the id to be contained. The source documents a panic on an invalid id but only `debug_assert!`s liveness before indexing (src/id.rs:28-30, via src/vec.rs:404). The precondition therefore leaves out two behaviours: in release builds, access to the tombstoned element of a dead in-range id; and the out-of-range panic.
- IdMaps.IdMap.Index: requires the id to be contained. The source documents a panic on an invalid id but only `debug_assert!`s liveness before indexing (src/map.rs:355). The precondition therefore leaves out two behaviours: in release builds, access to the tombstoned element of a dead in-range id; and the out-of-range panic.
- IdMaps.IdMap.IndexMut: requires the id to be contained. The source documents a panic on an invalid id but only `debug_assert!`s liveness before indexing (src/map.rs:362). The precondition therefore leaves out two behaviours: in release builds, access to the tombstoned element of a dead in-range id; and the out-of-range panic.
- IdMaps.IdMap.MarkUnused requires the id to be alive, both in range and not unused. The source only debug-asserts that it is not already unused. An out-of-range id there would corrupt `len` and a later `insert`.
- The commented-out `IdMap::pack` (src/map.rs:149-166) is not code and is not modelled.
- Tests are not modelled.

## Findings

| source | as written | input that shows it | evidently intended | confidence | as-written member | corrected member |
|---|---|---|---|---|---|---|
| src/element_marker/hash_set_marker.rs:18-26 | `mark_element_used(i, true)` returns the result of `HashSet::remove`, which is whether the state changed | `i` already used, marked used: returns false | returns whether `i` was used before the call, as the doc comment and the trait say | high, not executed | HashSetMarkers.MarkResultCounterexample | HashSetMarkers.HashSetElementMarker.MarkElementUsed |
| src/vec.rs:512-517 | `size_hint` computes `back − front` in `usize`; after exhaustion `iter_next` leaves `front == back + 1` | any iterator drained to `None`, then asked for its size hint: the subtraction underflows (panic in debug builds) | `(0, Some(0))` once exhausted | high, not executed | Slots.ExhaustedCursorSpan | Slots.SizeHint |
| src/element_marker/bit_vec_marker.rs:28-31 | padding loop runs `while len < index − 1` | marking index 5 on an empty marker pads to 4 bits and the `set(5, …)` is out of range; index 0 underflows | grow to `index + 1` bits before setting bit `index` | high, not executed | BitVecMarkers.PadCounterexample | BitVecMarkers.BitVecElementMarker.MarkElementUsed |
| src/element_marker/bit_vec_marker.rs:102-105 | the exact size hint is `bits.len() − next`, counting set bits too | bits `[true]` at `next == 0`: hint `(1, Some(1))`, but the iterator yields nothing | the number of clear bits from `next` on | high, not executed | BitVecMarkers.SizeHintCounterexample | BitVecMarkers.ClonedBitVecMarkerIter.SizeHint |
| src/map.rs:195-211 | the skip loop tests `unused.contains(back)` instead of `back − 1` | window `[0, 1)` with index 0 unused: yields `Some(0)`, a deleted slot | skip while `back − 1` is unused, as src/vec.rs:473 does | high, not executed | IdMaps.NextBackCounterexample | Slots.IterNextBack |
| src/vec.rs:347-353 | `elements_eq` checks equal length plus one-way membership | alive elements `[1, 1, 2]` and `[1, 2, 3]` compare equal | the same elements with multiplicity, ignoring ids | medium, not executed | IdVecQueries.ElementsEqCounterexample | IdVecQueries.SameElements |
