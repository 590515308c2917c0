/** The records a user's long-term memory consists of, and one user's collection of them. */
module Memories {
  import opened Wrappers

  /** The part of a memory that search hands back to callers. */
  datatype MemoryData = MemoryData(
    id: int,
    content: string,
    importance: real,
    category: string,
    topics: seq<string>)

  /** A stored memory: its data and the embedding computed from its content when it was stored. */
  datatype Memory = Memory(data: MemoryData, embedding: seq<real>)

  /** The whole persisted state of one user. Timestamps are microseconds since the epoch. */
  datatype Collection = Collection(
    memories: seq<Memory>,
    updatedAt: int,
    lastDeduplicatedAt: Option<int>)

  /** The collection a user starts with when nothing usable is stored for them. */
  function EmptyCollection(now: int): (c: Collection)
    ensures c.memories == [] && c.lastDeduplicatedAt == None
  {
    Collection([], now, None)
  }
}
