/** Choosing what a search returns from the index's answers (`search_memories`, after the
    index has ranked the `k` nearest records): the data of every answer with strictly
    positive similarity, in the index's order. */
module Search {
  import opened Wrappers
  import opened Memories
  import opened SimilarityIndex

  /** The data of the answers in `hits` whose similarity is strictly positive, in order. */
  function Selected(ms: seq<Memory>, hits: seq<Neighbour>): seq<MemoryData>
    requires ValidRow(hits, |ms|)
  {
    if hits == [] then []
    else
      var last := hits[|hits| - 1];
      Selected(ms, hits[..|hits| - 1]) + (if last.score > 0.0 then [ms[last.index].data] else [])
  }

  /** The positions in `hits` of the answers with strictly positive similarity, ascending. */
  function PositivePositions(hits: seq<Neighbour>): seq<int>
  {
    if hits == [] then []
    else PositivePositions(hits[..|hits| - 1]) + (if hits[|hits| - 1].score > 0.0 then [|hits| - 1] else [])
  }

  /** The loop that builds the result list. */
  method SelectResults(ms: seq<Memory>, hits: seq<Neighbour>) returns (results: seq<MemoryData>)
    requires ValidRow(hits, |ms|)
    ensures results == Selected(ms, hits)
  {
    results := [];
    for t := 0 to |hits|
      invariant results == Selected(ms, hits[..t])
    {
      assert hits[..t + 1][..t] == hits[..t];
      if hits[t].score > 0.0 {
        results := results + [ms[hits[t].index].data];
      }
    }
    assert hits[..|hits|] == hits;
  }

  /** The last position is appended after those of the front. */
  lemma PositivePositionsLast(hits: seq<Neighbour>)
    requires hits != []
    ensures var n := |hits| - 1; var pf := PositivePositions(hits[..n]);
      PositivePositions(hits) == if hits[n].score > 0.0 then pf + [n] else pf
  {
  }

  lemma {:induction false} PositivePositionsInRange(hits: seq<Neighbour>)
    ensures forall t :: 0 <= t < |PositivePositions(hits)| ==>
      0 <= PositivePositions(hits)[t] < |hits| && hits[PositivePositions(hits)[t]].score > 0.0
  {
    if hits != [] {
      var n := |hits| - 1;
      var front := hits[..n];
      PositivePositionsInRange(front);
      PositivePositionsLast(hits);
      assert forall p :: 0 <= p < n ==> hits[p] == front[p];
    }
  }

  lemma {:induction false} PositivePositionsAscend(hits: seq<Neighbour>)
    ensures forall t, u :: 0 <= t < u < |PositivePositions(hits)| ==>
      PositivePositions(hits)[t] < PositivePositions(hits)[u]
  {
    if hits != [] {
      var n := |hits| - 1;
      var front := hits[..n];
      PositivePositionsAscend(front);
      PositivePositionsInRange(front);
      PositivePositionsLast(hits);
    }
  }

  lemma {:induction false} PositivePositionsComplete(hits: seq<Neighbour>)
    ensures forall p :: 0 <= p < |hits| && hits[p].score > 0.0 ==> p in PositivePositions(hits)
  {
    if hits != [] {
      var n := |hits| - 1;
      var front := hits[..n];
      PositivePositionsComplete(front);
      PositivePositionsLast(hits);
      assert forall p :: 0 <= p < n ==> hits[p] == front[p];
    }
  }

  lemma {:induction false} PositivePositionsSpec(hits: seq<Neighbour>)
    ensures forall t :: 0 <= t < |PositivePositions(hits)| ==>
      0 <= PositivePositions(hits)[t] < |hits| && hits[PositivePositions(hits)[t]].score > 0.0
    ensures forall t, u :: 0 <= t < u < |PositivePositions(hits)| ==>
      PositivePositions(hits)[t] < PositivePositions(hits)[u]
    ensures forall p :: 0 <= p < |hits| && hits[p].score > 0.0 ==> p in PositivePositions(hits)
  {
    PositivePositionsInRange(hits);
    PositivePositionsAscend(hits);
    PositivePositionsComplete(hits);
  }

  lemma {:induction false} SelectedAt(ms: seq<Memory>, hits: seq<Neighbour>)
    requires ValidRow(hits, |ms|)
    ensures |Selected(ms, hits)| == |PositivePositions(hits)|
    ensures forall t :: 0 <= t < |Selected(ms, hits)| ==>
      0 <= PositivePositions(hits)[t] < |hits|
      && Selected(ms, hits)[t] == ms[hits[PositivePositions(hits)[t]].index].data
  {
    PositivePositionsSpec(hits);
    if hits != [] {
      var front := hits[..|hits| - 1];
      SelectedAt(ms, front);
      PositivePositionsSpec(front);
    }
  }

  /** The results are exactly the answers with strictly positive similarity, kept in the
      index's order: the positions they come from ascend and include every positive answer,
      and each result is the data of the stored memory that answer names. There are at most
      as many results as answers. */
  lemma {:induction false} SelectedIsPositiveSubsequence(ms: seq<Memory>, hits: seq<Neighbour>)
    requires ValidRow(hits, |ms|)
    ensures var pos := PositivePositions(hits);
      && |Selected(ms, hits)| == |pos| <= |hits|
      && (forall t, u :: 0 <= t < u < |pos| ==> pos[t] < pos[u])
      && (forall p :: 0 <= p < |hits| ==> (p in pos <==> hits[p].score > 0.0))
      && forall t :: 0 <= t < |pos| ==>
           0 <= pos[t] < |hits| && hits[pos[t]].score > 0.0
           && Selected(ms, hits)[t] == ms[hits[pos[t]].index].data
  {
    PositivePositionsSpec(hits);
    SelectedAt(ms, hits);
    PositionsBounded(hits);
  }

  lemma {:induction false} PositionsBounded(hits: seq<Neighbour>)
    ensures |PositivePositions(hits)| <= |hits|
  {
    if hits != [] {
      PositionsBounded(hits[..|hits| - 1]);
    }
  }

  /** Every result is the data of a stored memory. */
  lemma {:induction false} SelectedFromStored(ms: seq<Memory>, hits: seq<Neighbour>)
    requires ValidRow(hits, |ms|)
    ensures forall d :: d in Selected(ms, hits) ==> exists m :: m in ms && m.data == d
  {
    SelectedAt(ms, hits);
    forall d | d in Selected(ms, hits) ensures exists m :: m in ms && m.data == d {
      var t :| 0 <= t < |Selected(ms, hits)| && Selected(ms, hits)[t] == d;
      assert ms[hits[PositivePositions(hits)[t]].index] in ms;
    }
  }

  /** When the index ranks its answers, the results come in non-increasing similarity. */
  lemma SelectedRanked(ms: seq<Memory>, hits: seq<Neighbour>)
    requires ValidRow(hits, |ms|) && SortedDescending(hits)
    ensures var pos := PositivePositions(hits);
      forall t, u :: 0 <= t < u < |pos| ==>
        0 <= pos[t] < |hits| && 0 <= pos[u] < |hits| && hits[pos[t]].score >= hits[pos[u]].score
  {
    PositivePositionsSpec(hits);
  }

  /** At most min(topK, |ms|) results, each the data of a memory in `ms`. */
  predicate FromStore(results: seq<MemoryData>, ms: seq<Memory>, topK: int)
  {
    && |results| <= Min(topK, |ms|)
    && forall d :: d in results ==> exists m :: m in ms && m.data == d
  }

  /** What a search over `ms` returns, for an index that keeps its contract: at most
      min(topK, |ms|) results, each the data of a stored memory. */
  lemma SearchResultsFromStore(query: string, ms: seq<Memory>, topK: int, index: QueryIndex)
    requires topK >= 1 && QueryIndexContract(index)
    ensures ValidRow(index(query, ms, Min(topK, |ms|)), |ms|)
    ensures FromStore(Selected(ms, index(query, ms, Min(topK, |ms|))), ms, topK)
  {
    var hits := index(query, ms, Min(topK, |ms|));
    SelectedIsPositiveSubsequence(ms, hits);
    SelectedFromStored(ms, hits);
  }
}
