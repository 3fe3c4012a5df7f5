/**
 * Typed handles into an arena (src/id.rs).
 *
 * An `Id` is a plain index with no validity guarantee of its own: whether it
 * addresses a live element is decided by the arena it is used with.  The
 * phantom element type of the Rust handle only keeps handles of different
 * arenas apart at compile time and has no run-time content, so it is not
 * carried here.
 */
module Ids {

  datatype Id = Id(index: nat)

  /** `Id::from_index`: wrap a raw index. */
  function FromIndex(index: nat): (id: Id)
    ensures id.index == index
  {
    Id(index)
  }

  /** `Id::index_value`: read the raw index back. */
  function IndexValue(id: Id): (index: nat)
    ensures Id(index) == id
  {
    id.index
  }

  /** Reading back a constructed handle gives the index it was made from. */
  lemma IndexRoundTrip(index: nat)
    ensures IndexValue(FromIndex(index)) == index
  {
  }

  /** Handle equality is index equality (the manual `PartialEq` impl). */
  lemma EqualityIsIndexEquality(a: Id, b: Id)
    ensures a == b <==> IndexValue(a) == IndexValue(b)
  {
  }
}
