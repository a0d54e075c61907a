/**
 * The values a suspense boundary is made of. Views, attributes and the
 * streaming position belong to the rendering layer; they are opaque here and
 * only compared for identity.
 */
module SuspenseTypes {

  /** Identifier of a serialized chunk; `Default` for `SerializedDataId` is 0. */
  type ChunkId = nat

  /** Key of one outstanding task in a boundary's task registry. */
  type TaskKey = nat

  /** The keys of a boundary's outstanding tasks; only emptiness is observed. */
  type TaskSet = set<TaskKey>

  /** An attribute added to a view from outside. */
  datatype Attr = Attr(key: string, value: string)

  /** An opaque view; `WithAttr` is the view a view becomes when an attribute
      is added to it. */
  datatype View = Leaf(id: nat) | WithAttr(inner: View, attr: Attr)

  /** Where in its parent the next piece of markup goes. */
  datatype Position = Current | FirstChild | NextChild | LastChild | OnlyChild

  /** The configuration of the `none_pending` memo: whether the boundary's
      chunk was marked incomplete by the server. */
  datatype ReadinessMemo = ReadinessMemo(startsLocal: bool)

  /** A `SuspenseBoundary<TRANSITION, Fal, Chil>`: `Suspense` builds one with
      `transition == false`. */
  datatype SuspenseBoundary = SuspenseBoundary(
    transition: bool,
    id: ChunkId,
    nonePending: ReadinessMemo,
    fallback: View,
    children: View)

  /** The part of the shared hydration context the boundary talks to: the
      counter handing out chunk ids and the set of chunks marked incomplete. */
  class SharedContext {
    var nextId: ChunkId
    var incompleteChunks: set<ChunkId>

    constructor (incomplete: set<ChunkId>)
      ensures nextId == 0 && incompleteChunks == incomplete
    {
      nextId := 0;
      incompleteChunks := incomplete;
    }

    method NextId() returns (id: ChunkId)
      modifies this
      ensures id == old(nextId) && nextId == old(nextId) + 1
      ensures incompleteChunks == old(incompleteChunks)
    {
      id := nextId;
      nextId := nextId + 1;
    }

    predicate GetIncompleteChunk(id: ChunkId)
      reads this
    {
      id in incompleteChunks
    }

    method SetIncompleteChunk(id: ChunkId)
      modifies this
      ensures incompleteChunks == old(incompleteChunks) + {id} && nextId == old(nextId)
    {
      incompleteChunks := incompleteChunks + {id};
    }
  }
}
