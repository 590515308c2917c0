/** The similarity index the engine consults, as an oracle. The model does not compute
    embeddings or cosine similarities: the index is given as a function from the stored
    memories to ranked (position, similarity) pairs, and these predicates say what the
    engine relies on it to return. */
module SimilarityIndex {
  import opened Wrappers
  import opened Memories

  /** One answer of the index: the position of a stored memory and its similarity score. */
  datatype Neighbour = Neighbour(index: int, score: real)

  /** How many nearest neighbours deduplication asks for per memory. */
  const NeighbourLimit: int := 20

  /** Every answer names a position among `n` records. */
  predicate ValidRow(row: seq<Neighbour>, n: nat)
  {
    forall k :: 0 <= k < |row| ==> 0 <= row[k].index < n
  }

  /** One row of answers per record, each naming positions among the `n` records. */
  predicate ValidNeighbours(nbrs: seq<seq<Neighbour>>, n: nat)
  {
    |nbrs| == n && forall i :: 0 <= i < n ==> ValidRow(nbrs[i], n)
  }

  /** Answers ranked by non-increasing similarity. */
  predicate SortedDescending(row: seq<Neighbour>)
  {
    forall p, q :: 0 <= p < q < |row| ==> row[p].score >= row[q].score
  }

  /** The index used by deduplication: for every record, its nearest neighbours among all records. */
  type NeighbourIndex = seq<Memory> -> seq<seq<Neighbour>>

  /** The index used by search: the `k` records most similar to a query. */
  type QueryIndex = (string, seq<Memory>, int) -> seq<Neighbour>

  /** What a flat inner-product index returns when asked, for each of the records, for its
      min(n, NeighbourLimit) nearest neighbours. */
  ghost predicate NeighbourIndexContract(index: NeighbourIndex)
  {
    forall ms: seq<Memory> ::
      ValidNeighbours(index(ms), |ms|)
      && forall i :: 0 <= i < |ms| ==>
           |index(ms)[i]| == Min(|ms|, NeighbourLimit) && SortedDescending(index(ms)[i])
  }

  /** What a flat inner-product index returns when asked for the `k <= n` records nearest a query:
      exactly `k` answers, ranked. */
  ghost predicate QueryIndexContract(index: QueryIndex)
  {
    forall query: string, ms: seq<Memory>, k: int ::
      0 <= k <= |ms| ==>
        |index(query, ms, k)| == k && ValidRow(index(query, ms, k), |ms|)
        && SortedDescending(index(query, ms, k))
  }
}
