/** Batch deduplication of one user's memories (`_deduplicate_fast`).

    Record `i` is compared with the records of its neighbour row, in the row's order. A
    neighbour that is neither `i` itself nor already marked, and whose similarity exceeds
    the threshold, makes the less important of the two marked for removal; on equal
    importance `i` stays. Once `i` is marked its row is abandoned, and a record marked
    before its own turn is not scanned at all. The result is the unmarked records in
    their original order.

    The specification is given by functions that follow the two loops: `Scan` is the
    inner loop over one row, `MarksBefore(ms, nbrs, i)` the removal set at the start of
    outer iteration `i`. */
module Dedup {
  import opened Memories
  import opened SimilarityIndex

  /** Similarity above which two memories count as duplicates. */
  const Threshold: real := 0.75

  function Importance(ms: seq<Memory>, i: int): real
    requires 0 <= i < |ms|
  {
    ms[i].data.importance
  }

  /** The inner loop: record `i` walks `row` with the removal set `marked`. */
  function Scan(ms: seq<Memory>, i: int, row: seq<Neighbour>, marked: set<int>): set<int>
    requires 0 <= i < |ms| && ValidRow(row, |ms|)
    decreases |row|
  {
    if row == [] then marked
    else
      var j := row[0].index;
      if j == i || j in marked then Scan(ms, i, row[1..], marked)
      else if row[0].score > Threshold then
        if Importance(ms, i) >= Importance(ms, j) then Scan(ms, i, row[1..], marked + {j})
        else marked + {i}
      else Scan(ms, i, row[1..], marked)
  }

  /** One outer iteration: a record already marked is skipped, any other scans its row. */
  function Step(ms: seq<Memory>, nbrs: seq<seq<Neighbour>>, i: int, marked: set<int>): set<int>
    requires ValidNeighbours(nbrs, |ms|) && 0 <= i < |ms|
  {
    if i in marked then marked else Scan(ms, i, nbrs[i], marked)
  }

  /** The removal set at the start of outer iteration `i`. */
  function MarksBefore(ms: seq<Memory>, nbrs: seq<seq<Neighbour>>, i: int): set<int>
    requires ValidNeighbours(nbrs, |ms|) && 0 <= i <= |ms|
  {
    if i == 0 then {} else Step(ms, nbrs, i - 1, MarksBefore(ms, nbrs, i - 1))
  }

  /** The removal set once every record has had its turn. */
  function Marked(ms: seq<Memory>, nbrs: seq<seq<Neighbour>>): set<int>
    requires ValidNeighbours(nbrs, |ms|)
  {
    MarksBefore(ms, nbrs, |ms|)
  }

  /** The final list comprehension: the records whose position is not in `marked`, in order. */
  function Unmarked(ms: seq<Memory>, marked: set<int>): seq<Memory>
  {
    if ms == [] then []
    else Unmarked(ms[..|ms| - 1], marked) + (if |ms| - 1 in marked then [] else [ms[|ms| - 1]])
  }

  /** What `_deduplicate_fast` returns. */
  function Deduplicated(ms: seq<Memory>, nbrs: seq<seq<Neighbour>>): seq<Memory>
    requires ValidNeighbours(nbrs, |ms|)
  {
    if |ms| <= 1 then ms else Unmarked(ms, Marked(ms, nbrs))
  }

  /** The positions below `n` that are not in `marked`, ascending. */
  function KeptIndices(n: int, marked: set<int>): seq<int>
    decreases if n < 0 then 0 else n
  {
    if n <= 0 then []
    else KeptIndices(n - 1, marked) + (if n - 1 in marked then [] else [n - 1])
  }

  /** Record `i` met neighbour `e` above the threshold and `r` is the one of the two that loses:
      `e`'s record when `i` is at least as important, `i` otherwise. */
  predicate RowEvidence(ms: seq<Memory>, i: int, e: Neighbour, r: int)
  {
    && 0 <= i < |ms| && 0 <= e.index < |ms|
    && e.index != i
    && e.score > Threshold
    && ((r == e.index && Importance(ms, i) >= Importance(ms, e.index))
        || (r == i && Importance(ms, i) < Importance(ms, e.index)))
  }

  /** Entry `k` of record `i`'s row caused the removal of `r`; neither `i` nor its partner
      had been marked when `i`'s turn began. */
  predicate Evidence(ms: seq<Memory>, nbrs: seq<seq<Neighbour>>, r: int, i: int, k: int)
    requires ValidNeighbours(nbrs, |ms|)
  {
    && 0 <= i < |ms| && 0 <= k < |nbrs[i]|
    && i !in MarksBefore(ms, nbrs, i)
    && nbrs[i][k].index !in MarksBefore(ms, nbrs, i)
    && RowEvidence(ms, i, nbrs[i][k], r)
  }

  // ---------------------------------------------------------------------------------------
  // The algorithm

  /** `_deduplicate_fast`: the two loops grow `toRemove`; the records never added to it are kept. */
  method DeduplicateFast(memories: seq<Memory>, nbrs: seq<seq<Neighbour>>) returns (kept: seq<Memory>)
    requires ValidNeighbours(nbrs, |memories|)
    ensures kept == Deduplicated(memories, nbrs)
    ensures |memories| <= 1 ==> kept == memories
  {
    if |memories| <= 1 {
      return memories;
    }
    var toRemove: set<int> := {};
    for i := 0 to |memories|
      invariant toRemove == MarksBefore(memories, nbrs, i)
    {
      if i in toRemove {
        continue;
      }
      var row := nbrs[i];
      ghost var before := toRemove;
      for k := 0 to |row|
        invariant Scan(memories, i, row[k..], toRemove) == Scan(memories, i, row, before)
      {
        var j, similarity := row[k].index, row[k].score;
        assert row[k..][1..] == row[k + 1..];
        if j == i || j in toRemove {
          continue;
        }
        if similarity > Threshold {
          if memories[i].data.importance >= memories[j].data.importance {
            toRemove := toRemove + {j};
          } else {
            toRemove := toRemove + {i};
            break;
          }
        }
      }
      assert toRemove == Scan(memories, i, row, before);
    }
    kept := Unmarked(memories, toRemove);
  }

  // ---------------------------------------------------------------------------------------
  // Facts about one row

  lemma {:induction false} ScanGrows(ms: seq<Memory>, i: int, row: seq<Neighbour>, marked: set<int>)
    requires 0 <= i < |ms| && ValidRow(row, |ms|)
    ensures marked <= Scan(ms, i, row, marked)
    decreases |row|
  {
    if row != [] {
      var j := row[0].index;
      if j == i || j in marked || row[0].score <= Threshold {
        ScanGrows(ms, i, row[1..], marked);
      } else if Importance(ms, i) >= Importance(ms, j) {
        ScanGrows(ms, i, row[1..], marked + {j});
      }
    }
  }

  /** Every record a row scan adds was beaten by `i` or beat `i`, through an entry whose
      record was not marked when the scan began. */
  lemma {:induction false} ScanJustified(ms: seq<Memory>, i: int, row: seq<Neighbour>, marked: set<int>)
    requires 0 <= i < |ms| && ValidRow(row, |ms|)
    ensures forall r :: r in Scan(ms, i, row, marked) && r !in marked ==>
      exists k :: 0 <= k < |row| && row[k].index !in marked && RowEvidence(ms, i, row[k], r)
    decreases |row|
  {
    if row != [] {
      var j := row[0].index;
      var rest := row[1..];
      if j == i || j in marked || row[0].score <= Threshold {
        ScanJustified(ms, i, rest, marked);
        forall r | r in Scan(ms, i, row, marked) && r !in marked
          ensures exists k :: 0 <= k < |row| && row[k].index !in marked && RowEvidence(ms, i, row[k], r)
        {
          var k' :| 0 <= k' < |rest| && rest[k'].index !in marked && RowEvidence(ms, i, rest[k'], r);
          assert row[k' + 1] == rest[k'];
        }
      } else if Importance(ms, i) >= Importance(ms, j) {
        ScanJustified(ms, i, rest, marked + {j});
        forall r | r in Scan(ms, i, row, marked) && r !in marked
          ensures exists k :: 0 <= k < |row| && row[k].index !in marked && RowEvidence(ms, i, row[k], r)
        {
          if r == j {
            assert RowEvidence(ms, i, row[0], r);
          } else {
            var k' :| 0 <= k' < |rest| && rest[k'].index !in marked + {j} && RowEvidence(ms, i, rest[k'], r);
            assert row[k' + 1] == rest[k'];
          }
        }
      } else {
        assert RowEvidence(ms, i, row[0], i);
      }
    }
  }

  /** When a scan leaves `i` unmarked, every other entry of its row is marked or not above
      the threshold. */
  lemma {:induction false} ScanClears(ms: seq<Memory>, i: int, row: seq<Neighbour>, marked: set<int>)
    requires 0 <= i < |ms| && ValidRow(row, |ms|)
    requires i !in Scan(ms, i, row, marked)
    ensures forall k :: 0 <= k < |row| && row[k].index != i ==>
      row[k].index in Scan(ms, i, row, marked) || row[k].score <= Threshold
    decreases |row|
  {
    if row != [] {
      var j := row[0].index;
      var rest := row[1..];
      if j == i || j in marked || row[0].score <= Threshold {
        ScanClears(ms, i, rest, marked);
        ScanGrows(ms, i, rest, marked);
        assert forall k :: 1 <= k < |row| ==> row[k] == rest[k - 1];
      } else if Importance(ms, i) >= Importance(ms, j) {
        ScanClears(ms, i, rest, marked + {j});
        ScanGrows(ms, i, rest, marked + {j});
        assert forall k :: 1 <= k < |row| ==> row[k] == rest[k - 1];
      }
    }
  }

  /** A scan by an unmarked record leaves some record unmarked: `i` itself, or the partner that beat it. */
  lemma {:induction false} ScanLeavesSurvivor(ms: seq<Memory>, i: int, row: seq<Neighbour>, marked: set<int>)
    requires 0 <= i < |ms| && ValidRow(row, |ms|)
    requires i !in marked
    ensures exists u :: 0 <= u < |ms| && u !in Scan(ms, i, row, marked)
    decreases |row|
  {
    if row == [] {
      assert i !in Scan(ms, i, row, marked);
    } else {
      var j := row[0].index;
      if j == i || j in marked || row[0].score <= Threshold {
        ScanLeavesSurvivor(ms, i, row[1..], marked);
        assert Scan(ms, i, row, marked) == Scan(ms, i, row[1..], marked);
      } else if Importance(ms, i) >= Importance(ms, j) {
        ScanLeavesSurvivor(ms, i, row[1..], marked + {j});
        assert Scan(ms, i, row, marked) == Scan(ms, i, row[1..], marked + {j});
      } else {
        assert j !in Scan(ms, i, row, marked);
      }
    }
  }

  /** Once `i` has marked itself, the rest of its row is never looked at. */
  lemma {:induction false} ScanStopsAtRemoval(ms: seq<Memory>, i: int, row: seq<Neighbour>, rest: seq<Neighbour>, marked: set<int>)
    requires 0 <= i < |ms| && ValidRow(row, |ms|) && ValidRow(rest, |ms|)
    requires i !in marked && i in Scan(ms, i, row, marked)
    ensures Scan(ms, i, row + rest, marked) == Scan(ms, i, row, marked)
    decreases |row|
  {
    var whole := row + rest;
    assert whole[0] == row[0] && whole[1..] == row[1..] + rest;
    var j := row[0].index;
    if j == i || j in marked || row[0].score <= Threshold {
      ScanStopsAtRemoval(ms, i, row[1..], rest, marked);
    } else if Importance(ms, i) >= Importance(ms, j) {
      ScanStopsAtRemoval(ms, i, row[1..], rest, marked + {j});
    }
  }

  // ---------------------------------------------------------------------------------------
  // Facts about the outer loop

  lemma {:induction false} MarksGrow(ms: seq<Memory>, nbrs: seq<seq<Neighbour>>, s: int, t: int)
    requires ValidNeighbours(nbrs, |ms|) && 0 <= s <= t <= |ms|
    ensures MarksBefore(ms, nbrs, s) <= MarksBefore(ms, nbrs, t)
    decreases t - s
  {
    if s < t {
      MarksGrow(ms, nbrs, s, t - 1);
      var m := MarksBefore(ms, nbrs, t - 1);
      if t - 1 !in m {
        ScanGrows(ms, t - 1, nbrs[t - 1], m);
      }
    }
  }

  lemma {:induction false} MarksBeforeJustified(ms: seq<Memory>, nbrs: seq<seq<Neighbour>>, t: int)
    requires ValidNeighbours(nbrs, |ms|) && 0 <= t <= |ms|
    ensures forall r :: r in MarksBefore(ms, nbrs, t) ==> exists i, k :: Evidence(ms, nbrs, r, i, k)
  {
    if t > 0 {
      MarksBeforeJustified(ms, nbrs, t - 1);
      var i := t - 1;
      var m := MarksBefore(ms, nbrs, i);
      if i !in m {
        ScanJustified(ms, i, nbrs[i], m);
        forall r | r in MarksBefore(ms, nbrs, t) && r !in m
          ensures exists i', k :: Evidence(ms, nbrs, r, i', k)
        {
          var k :| 0 <= k < |nbrs[i]| && nbrs[i][k].index !in m && RowEvidence(ms, i, nbrs[i][k], r);
          assert Evidence(ms, nbrs, r, i, k);
        }
      }
    }
  }

  /** A record is removed only for a reason: some record `i`, unmarked when its turn began,
      met in its row a partner, also unmarked then, with similarity above the threshold,
      and the removed record is the partner when `i` is at least as important and `i`
      when it is strictly less important. In particular every removed position is a
      position of the input. */
  lemma MarkedAreJustified(ms: seq<Memory>, nbrs: seq<seq<Neighbour>>)
    requires ValidNeighbours(nbrs, |ms|)
    ensures forall r :: r in Marked(ms, nbrs) ==> 0 <= r < |ms| && exists i, k :: Evidence(ms, nbrs, r, i, k)
  {
    MarksBeforeJustified(ms, nbrs, |ms|);
    forall r | r in Marked(ms, nbrs) ensures 0 <= r < |ms| {
      var i, k :| Evidence(ms, nbrs, r, i, k);
    }
  }

  /** Changing the row of a record that was marked before its turn changes nothing. */
  lemma {:induction false} SkippedRowIgnoredUpTo(ms: seq<Memory>, nbrs: seq<seq<Neighbour>>, i: int, row: seq<Neighbour>, t: int)
    requires ValidNeighbours(nbrs, |ms|) && 0 <= i < |ms| && ValidRow(row, |ms|)
    requires i in MarksBefore(ms, nbrs, i)
    requires 0 <= t <= |ms|
    ensures MarksBefore(ms, nbrs, t) == MarksBefore(ms, nbrs[i := row], t)
  {
    var other := nbrs[i := row];
    if t > 0 {
      SkippedRowIgnoredUpTo(ms, nbrs, i, row, t - 1);
      assert t - 1 != i ==> other[t - 1] == nbrs[t - 1];
    }
  }

  /** A record already marked when the outer loop reaches it is skipped: the result does not
      depend on its neighbour row. */
  lemma SkippedRowIgnored(ms: seq<Memory>, nbrs: seq<seq<Neighbour>>, i: int, row: seq<Neighbour>)
    requires ValidNeighbours(nbrs, |ms|) && 0 <= i < |ms| && ValidRow(row, |ms|)
    requires i in MarksBefore(ms, nbrs, i)
    ensures Deduplicated(ms, nbrs) == Deduplicated(ms, nbrs[i := row])
  {
    SkippedRowIgnoredUpTo(ms, nbrs, i, row, |ms|);
  }

  lemma {:induction false} SurvivorUpTo(ms: seq<Memory>, nbrs: seq<seq<Neighbour>>, t: int)
    requires ValidNeighbours(nbrs, |ms|) && 1 <= |ms| && 0 <= t <= |ms|
    ensures exists u :: 0 <= u < |ms| && u !in MarksBefore(ms, nbrs, t)
  {
    if t == 0 {
      assert 0 !in MarksBefore(ms, nbrs, 0);
    } else {
      var m := MarksBefore(ms, nbrs, t - 1);
      if t - 1 in m {
        SurvivorUpTo(ms, nbrs, t - 1);
        assert MarksBefore(ms, nbrs, t) == m;
      } else {
        ScanLeavesSurvivor(ms, t - 1, nbrs[t - 1], m);
        assert MarksBefore(ms, nbrs, t) == Scan(ms, t - 1, nbrs[t - 1], m);
      }
    }
  }

  /** Each record a surviving record compares with, other than itself, is removed or not
      above the threshold: no duplicate pair the rows can see survives. */
  lemma SurvivorsBelowThreshold(ms: seq<Memory>, nbrs: seq<seq<Neighbour>>)
    requires ValidNeighbours(nbrs, |ms|)
    ensures forall a, k ::
      (0 <= a < |ms| && a !in Marked(ms, nbrs) && 0 <= k < |nbrs[a]|
       && nbrs[a][k].index != a && nbrs[a][k].index !in Marked(ms, nbrs))
      ==> nbrs[a][k].score <= Threshold
  {
    forall a | 0 <= a < |ms| && a !in Marked(ms, nbrs)
      ensures forall k ::
        (0 <= k < |nbrs[a]| && nbrs[a][k].index != a && nbrs[a][k].index !in Marked(ms, nbrs))
        ==> nbrs[a][k].score <= Threshold
    {
      var m := MarksBefore(ms, nbrs, a);
      MarksGrow(ms, nbrs, a, a + 1);
      MarksGrow(ms, nbrs, a + 1, |ms|);
      assert a !in m;
      assert MarksBefore(ms, nbrs, a + 1) == Scan(ms, a, nbrs[a], m);
      ScanClears(ms, a, nbrs[a], m);
    }
  }

  // ---------------------------------------------------------------------------------------
  // The kept records

  lemma {:induction false} KeptIndicesSpec(n: int, marked: set<int>)
    ensures forall t :: 0 <= t < |KeptIndices(n, marked)| ==>
      0 <= KeptIndices(n, marked)[t] < n && KeptIndices(n, marked)[t] !in marked
    ensures forall t, u :: 0 <= t < u < |KeptIndices(n, marked)| ==> KeptIndices(n, marked)[t] < KeptIndices(n, marked)[u]
    ensures forall p :: 0 <= p < n && p !in marked ==> p in KeptIndices(n, marked)
    decreases if n < 0 then 0 else n
  {
    if n > 0 {
      KeptIndicesSpec(n - 1, marked);
    }
  }

  lemma {:induction false} UnmarkedAt(ms: seq<Memory>, marked: set<int>)
    ensures |Unmarked(ms, marked)| == |KeptIndices(|ms|, marked)|
    ensures forall t :: 0 <= t < |Unmarked(ms, marked)| ==>
      0 <= KeptIndices(|ms|, marked)[t] < |ms| && Unmarked(ms, marked)[t] == ms[KeptIndices(|ms|, marked)[t]]
  {
    KeptIndicesSpec(|ms|, marked);
    if ms != [] {
      var front := ms[..|ms| - 1];
      UnmarkedAt(front, marked);
      KeptIndicesSpec(|front|, marked);
    }
  }

  lemma {:induction false} UnmarkedNothing(ms: seq<Memory>)
    ensures Unmarked(ms, {}) == ms
  {
    if ms != [] {
      UnmarkedNothing(ms[..|ms| - 1]);
      assert ms[..|ms| - 1] + [ms[|ms| - 1]] == ms;
    }
  }

  /** For any removal set, the unmarked records are those at the kept indices, which
      ascend and are exactly the positions not marked. */
  lemma UnmarkedIsSelection(ms: seq<Memory>, marked: set<int>)
    ensures var kept := KeptIndices(|ms|, marked);
      && (forall t, u :: 0 <= t < u < |kept| ==> kept[t] < kept[u])
      && (forall p :: 0 <= p < |ms| ==> (p in kept <==> p !in marked))
      && |Unmarked(ms, marked)| == |kept|
      && forall t :: 0 <= t < |kept| ==> 0 <= kept[t] < |ms| && Unmarked(ms, marked)[t] == ms[kept[t]]
  {
    var kept := KeptIndices(|ms|, marked);
    KeptIndicesSpec(|ms|, marked);
    UnmarkedAt(ms, marked);
    forall p | 0 <= p < |ms| ensures p in kept <==> p !in marked {
      if p in kept {
        var t :| 0 <= t < |kept| && kept[t] == p;
      }
    }
  }

  /** The output is an order-preserving subsequence of the input: it lists, in ascending
      order of position, exactly the records whose position was never marked. */
  lemma DeduplicatedIsOrderedSelection(ms: seq<Memory>, nbrs: seq<seq<Neighbour>>)
    requires ValidNeighbours(nbrs, |ms|)
    ensures var kept := KeptIndices(|ms|, Marked(ms, nbrs));
      && (forall t, u :: 0 <= t < u < |kept| ==> kept[t] < kept[u])
      && (forall p :: 0 <= p < |ms| ==> (p in kept <==> p !in Marked(ms, nbrs)))
      && |Deduplicated(ms, nbrs)| == |kept|
      && forall t :: 0 <= t < |kept| ==> 0 <= kept[t] < |ms| && Deduplicated(ms, nbrs)[t] == ms[kept[t]]
  {
    var marked := Marked(ms, nbrs);
    assert Deduplicated(ms, nbrs) == Unmarked(ms, marked) by {
      ShortKeepsAll(ms, nbrs);
    }
    UnmarkedIsSelection(ms, marked);
  }

  /** At most one record: nothing is marked, so the unmarked records are the input itself. */
  lemma ShortKeepsAll(ms: seq<Memory>, nbrs: seq<seq<Neighbour>>)
    requires ValidNeighbours(nbrs, |ms|)
    ensures |ms| <= 1 ==> Marked(ms, nbrs) == {} && Unmarked(ms, Marked(ms, nbrs)) == ms
  {
    if |ms| <= 1 {
      MarkedAreJustified(ms, nbrs);
      assert forall r, i, k :: !Evidence(ms, nbrs, r, i, k);
      UnmarkedNothing(ms);
    }
  }

  /** Deduplication never empties a non-empty collection. */
  lemma DeduplicatedNonEmpty(ms: seq<Memory>, nbrs: seq<seq<Neighbour>>)
    requires ValidNeighbours(nbrs, |ms|)
    ensures |ms| >= 1 ==> |Deduplicated(ms, nbrs)| >= 1
  {
    if |ms| >= 2 {
      SurvivorUpTo(ms, nbrs, |ms|);
      var u :| 0 <= u < |ms| && u !in Marked(ms, nbrs);
      KeptIndicesSpec(|ms|, Marked(ms, nbrs));
      UnmarkedAt(ms, Marked(ms, nbrs));
      assert u in KeptIndices(|ms|, Marked(ms, nbrs));
    }
  }

  /** When no row pairs a record with another one above the threshold, nothing is removed. */
  lemma NoDuplicatesKeepsAll(ms: seq<Memory>, nbrs: seq<seq<Neighbour>>)
    requires ValidNeighbours(nbrs, |ms|)
    requires forall i, k :: 0 <= i < |ms| && 0 <= k < |nbrs[i]| && nbrs[i][k].index != i ==>
      nbrs[i][k].score <= Threshold
    ensures Marked(ms, nbrs) == {}
    ensures Deduplicated(ms, nbrs) == ms
  {
    MarkedAreJustified(ms, nbrs);
    assert forall r, i, k :: !Evidence(ms, nbrs, r, i, k);
    UnmarkedNothing(ms);
  }

  /** Every pair of distinct records that the neighbour lists `nbrs2` of the deduplicated
      collection put above the threshold was already, with the same score, an entry of the
      first run's row for the same record (positions mapped back through the kept indices). */
  ghost predicate FirstRunSaw(ms: seq<Memory>, nbrs: seq<seq<Neighbour>>, nbrs2: seq<seq<Neighbour>>)
    requires ValidNeighbours(nbrs, |ms|)
  {
    var kept := KeptIndices(|ms|, Marked(ms, nbrs));
    forall a, k :: 0 <= a < |nbrs2| && 0 <= k < |nbrs2[a]|
                   && nbrs2[a][k].index != a && nbrs2[a][k].score > Threshold ==>
      && 0 <= a < |kept| && 0 <= nbrs2[a][k].index < |kept| && 0 <= kept[a] < |ms|
      && exists k1 :: 0 <= k1 < |nbrs[kept[a]]|
                      && nbrs[kept[a]][k1] == Neighbour(kept[nbrs2[a][k].index], nbrs2[a][k].score)
  }

  /** A second deduplication removes nothing when every duplicate pair it is shown was
      already shown to the first run: the first run left no such pair among the survivors. */
  lemma SecondRunKeepsAll(ms: seq<Memory>, nbrs: seq<seq<Neighbour>>, nbrs2: seq<seq<Neighbour>>)
    requires ValidNeighbours(nbrs, |ms|)
    requires ValidNeighbours(nbrs2, |Deduplicated(ms, nbrs)|)
    requires FirstRunSaw(ms, nbrs, nbrs2)
    ensures Deduplicated(Deduplicated(ms, nbrs), nbrs2) == Deduplicated(ms, nbrs)
  {
    var d := Deduplicated(ms, nbrs);
    var marked := Marked(ms, nbrs);
    var kept := KeptIndices(|ms|, marked);
    DeduplicatedIsOrderedSelection(ms, nbrs);
    SurvivorsBelowThreshold(ms, nbrs);
    forall a, k | 0 <= a < |d| && 0 <= k < |nbrs2[a]| && nbrs2[a][k].index != a
      ensures nbrs2[a][k].score <= Threshold
    {
      var b := nbrs2[a][k].index;
      assert 0 <= b < |kept| && kept[a] in kept && kept[b] in kept;
      assert kept[a] !in marked && kept[b] !in marked;
      assert a < b || b < a;
      assert kept[b] != kept[a];
      assert forall k1 :: 0 <= k1 < |nbrs[kept[a]]| && nbrs[kept[a]][k1].index == kept[b] ==>
        nbrs[kept[a]][k1].score <= Threshold;
    }
    NoDuplicatesKeepsAll(d, nbrs2);
  }

  /** Two memories that the index finds more similar than the threshold: exactly the more
      important one is kept, and the first one on a tie. */
  lemma PairKeepsMoreImportant(a: Memory, b: Memory, self: real, s: real)
    requires s > Threshold
    ensures var nbrs := [[Neighbour(0, self), Neighbour(1, s)], [Neighbour(1, self), Neighbour(0, s)]];
      ValidNeighbours(nbrs, 2)
      && Deduplicated([a, b], nbrs) == if a.data.importance >= b.data.importance then [a] else [b]
  {
    var ms := [a, b];
    var nbrs := [[Neighbour(0, self), Neighbour(1, s)], [Neighbour(1, self), Neighbour(0, s)]];
    assert ValidNeighbours(nbrs, 2);
    var row0, row1 := nbrs[0], nbrs[1];
    assert ms[..1] == [a] && [a][..0] == [];
    assert row0[1..] == [Neighbour(1, s)] && row0[1..][1..] == [];
    assert row1[1..] == [Neighbour(0, s)] && row1[1..][1..] == [];
    assert Scan(ms, 0, row0, {}) == Scan(ms, 0, row0[1..], {});
    if a.data.importance >= b.data.importance {
      assert Scan(ms, 0, row0[1..], {}) == Scan(ms, 0, [], {1});
      assert MarksBefore(ms, nbrs, 1) == {1};
      assert Marked(ms, nbrs) == {1};
      assert Unmarked([a], {1}) == [a];
      assert Unmarked(ms, {1}) == Unmarked([a], {1});
    } else {
      assert Scan(ms, 0, row0[1..], {}) == {0};
      assert MarksBefore(ms, nbrs, 1) == {0};
      assert Scan(ms, 1, row1, {0}) == Scan(ms, 1, row1[1..], {0});
      assert Scan(ms, 1, row1[1..], {0}) == {0};
      assert Marked(ms, nbrs) == {0};
      assert Unmarked([a], {0}) == [];
      assert Unmarked(ms, {0}) == Unmarked([a], {0}) + [b];
    }
  }
}
