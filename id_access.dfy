/**
 * The handle-first accessors of src/id.rs: `id.of(vec)` instead of
 * `vec[id]`, and so on.  Each one hands the call on to the arena.
 */
module IdAccess {

  import opened Wrappers
  import opened Ids
  import opened IdVecs

  /** `Id::of` (id.rs:21-23): the element of a handle that must be valid. */
  function Of<T>(id: Id, v: IdVec<T>): (element: T)
    reads v
    requires v.Valid() && v.ContainsId(id)
    ensures id.index in v.Contents() && v.Contents()[id.index] == element
  {
    v.Index(id)
  }

  /** `Id::try_of` (id.rs:34-36): the element of a handle, if it is alive. */
  function TryOf<T>(id: Id, v: IdVec<T>): (r: Option<T>)
    reads v
    requires v.Valid()
    ensures r.Some? <==> id.index in v.Contents()
    ensures r.Some? ==> r.value == v.Contents()[id.index]
  {
    v.Get(id)
  }

  /** `Id::of_mut` (id.rs:28-30) followed by a write through the returned
      reference. */
  method OfMut<T>(id: Id, v: IdVec<T>, value: T)
    requires v.Valid() && v.ContainsId(id)
    modifies v
    ensures v.Valid() && v.Contents() == old(v.Contents())[id.index := value]
  {
    v.IndexMut(id, value);
  }

  /** `Id::try_of_mut` (id.rs:40-42) followed by a write through the returned
      reference, when there is one. */
  method TryOfMut<T>(id: Id, v: IdVec<T>, value: T) returns (found: bool)
    requires v.Valid()
    modifies v
    ensures v.Valid()
    ensures found <==> id.index in old(v.Contents())
    ensures v.Contents() == if found then old(v.Contents())[id.index := value] else old(v.Contents())
  {
    found := v.GetMut(id, value);
  }

  /** A valid handle reads the same through `of` and `try_of`, and a handle
      `try_of` finds nothing for is one `of` must not be given. */
  lemma TryOfAgreesWithOf<T>(id: Id, v: IdVec<T>)
    requires v.Valid()
    ensures v.ContainsId(id) <==> TryOf(id, v).Some?
    ensures v.ContainsId(id) ==> TryOf(id, v) == Some(Of(id, v))
  {
  }
}
