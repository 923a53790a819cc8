/**
 * The recall counter shared by the FAISS drivers: for every query `i`, every returned
 * neighbour `nns[i * top_k + n]` is compared with every ground-truth neighbour
 * `gt_nns[i * top_k + m]` of the same query, and the `int64_t` accumulator `recalls` is
 * incremented for each equal pair.
 */
module PairRecall {
  import opened IntTypes
  import opened RecallSpec

  /**
   * The triple loop. `nns` and `gtNns` are the `faiss::idx_t` label buffers of
   * `top_k * n_query` entries that the index searches fill; `nQuery` is `n_query`
   * (`search_limit` in the HNSW driver) and `topK` is `top_k`. The accumulator stays
   * within `int64_t` exactly when the final count does.
   */
  method CountRecalls(nns: array<int>, gtNns: array<int>, nQuery: nat, topK: nat) returns (recalls: int64)
    requires nns.Length == topK * nQuery && gtNns.Length == topK * nQuery
    requires Recalls(nns[..], gtNns[..], nQuery, topK) <= INT64_MAX
    ensures recalls as int == Recalls(nns[..], gtNns[..], nQuery, topK)
    ensures 0 <= recalls as int <= nQuery * topK * topK
  {
    recalls := 0;
    var i := 0;
    while i < nQuery
      invariant 0 <= i <= nQuery
      invariant i * topK <= topK * nQuery
      invariant recalls as int == Recalls(nns[..], gtNns[..], i, topK)
    {
      RowsFit(i, nQuery, topK);
      recalls := AccumulateQuery(nns, gtNns, nQuery, topK, i, recalls);
      i := i + 1;
    }
  }

  /** The two inner loops for query `i`: adds the pair count of row `i`. */
  method AccumulateQuery(nns: array<int>, gtNns: array<int>, nQuery: nat, topK: nat, i: nat, recalls0: int64)
      returns (recalls: int64)
    requires nns.Length == topK * nQuery && gtNns.Length == topK * nQuery && i < nQuery
    requires i * topK + topK <= topK * nQuery && (i + 1) * topK == i * topK + topK
    requires Recalls(nns[..], gtNns[..], nQuery, topK) <= INT64_MAX
    requires recalls0 as int == Recalls(nns[..], gtNns[..], i, topK)
    ensures recalls as int == Recalls(nns[..], gtNns[..], i + 1, topK)
  {
    ghost var a, b := Row(nns[..], i, topK), Row(gtNns[..], i, topK);
    recalls := recalls0;
    var n := 0;
    while n < topK
      invariant 0 <= n <= topK
      invariant recalls as int == recalls0 as int + PairCount(a[..n], b)
    {
      PartialBelowTotal(nns[..], gtNns[..], i, n, nQuery, topK);
      recalls := AccumulateNeighbour(nns, gtNns, nQuery, topK, i, n, recalls);
      PairCountStep(a, n, b);
      n := n + 1;
    }
    assert a[..n] == a;
  }

  /** The innermost loop for neighbour `n` of query `i`: adds how many ground-truth
      neighbours of row `i` equal it. */
  method AccumulateNeighbour(nns: array<int>, gtNns: array<int>, nQuery: nat, topK: nat, i: nat, n: nat, recalls0: int64)
      returns (recalls: int64)
    requires nns.Length == topK * nQuery && gtNns.Length == topK * nQuery && i < nQuery && n < topK
    requires i * topK + topK <= topK * nQuery
    requires recalls0 as int + CountIn(Row(nns[..], i, topK)[n], Row(gtNns[..], i, topK)) <= INT64_MAX
    ensures recalls as int == recalls0 as int + CountIn(Row(nns[..], i, topK)[n], Row(gtNns[..], i, topK))
  {
    ghost var a, b := Row(nns[..], i, topK), Row(gtNns[..], i, topK);
    OffsetInRange(i, n, nQuery, topK);
    recalls := recalls0;
    var m := 0;
    while m < topK
      invariant 0 <= m <= topK
      invariant recalls as int == recalls0 as int + CountIn(a[n], b[..m])
    {
      OffsetInRange(i, m, nQuery, topK);
      assert b[..m + 1] == b[..m] + [b[m]];
      CountInAppend(a[n], b[..m], b[m]);
      if nns[i * topK + n] == gtNns[i * topK + m] {
        CountInPrefix(a[n], b, m + 1);
        recalls := recalls + 1;
      }
      m := m + 1;
    }
    assert b[..m] == b;
  }

  /**
   * The counter with each returned neighbour matched at most once: the innermost loop
   * stops at the first ground-truth label equal to `nns[i * top_k + n]`. The count never
   * exceeds `top_k * n_query`, so the recall ratio never exceeds 1.
   */
  method CountRecallsOnce(nns: array<int>, gtNns: array<int>, nQuery: nat, topK: nat) returns (recalls: int64)
    requires nns.Length == topK * nQuery && gtNns.Length == topK * nQuery
    requires topK * nQuery <= INT64_MAX
    ensures recalls as int == RecallsOnce(nns[..], gtNns[..], nQuery, topK)
    ensures 0 <= recalls as int <= nQuery * topK
  {
    recalls := 0;
    var i := 0;
    while i < nQuery
      invariant 0 <= i <= nQuery
      invariant i * topK <= topK * nQuery
      invariant recalls as int == RecallsOnce(nns[..], gtNns[..], i, topK)
    {
      RowsFit(i, nQuery, topK);
      recalls := MatchQuery(nns, gtNns, nQuery, topK, i, recalls);
      i := i + 1;
    }
  }

  /** Query `i` of the corrected counter: adds the number of returned neighbours of row `i`
      found among its ground-truth neighbours. */
  method MatchQuery(nns: array<int>, gtNns: array<int>, nQuery: nat, topK: nat, i: nat, recalls0: int64)
      returns (recalls: int64)
    requires nns.Length == topK * nQuery && gtNns.Length == topK * nQuery && i < nQuery
    requires i * topK + topK <= topK * nQuery && (i + 1) * topK == i * topK + topK
    requires topK * nQuery <= INT64_MAX
    requires recalls0 as int == RecallsOnce(nns[..], gtNns[..], i, topK)
    ensures recalls as int == RecallsOnce(nns[..], gtNns[..], i + 1, topK)
  {
    ghost var a, b := Row(nns[..], i, topK), Row(gtNns[..], i, topK);
    recalls := recalls0;
    var n := 0;
    while n < topK
      invariant 0 <= n <= topK
      invariant recalls as int == recalls0 as int + MemberCount(b, a[..n])
      invariant recalls as int <= i * topK + n
    {
      var found := FindMatch(nns, gtNns, nQuery, topK, i, n);
      assert a[..n + 1] == a[..n] + [a[n]];
      MemberCountAppend(b, a[..n], a[n]);
      if found {
        recalls := recalls + 1;
      }
      n := n + 1;
    }
    assert a[..n] == a;
  }

  /** The innermost loop of the corrected counter: whether neighbour `n` of query `i` occurs
      among the ground-truth neighbours of row `i`, searched from the front. */
  method FindMatch(nns: array<int>, gtNns: array<int>, nQuery: nat, topK: nat, i: nat, n: nat)
      returns (found: bool)
    requires nns.Length == topK * nQuery && gtNns.Length == topK * nQuery && i < nQuery && n < topK
    requires i * topK + topK <= topK * nQuery
    ensures found <==> Row(nns[..], i, topK)[n] in Row(gtNns[..], i, topK)
  {
    ghost var a, b := Row(nns[..], i, topK), Row(gtNns[..], i, topK);
    OffsetInRange(i, n, nQuery, topK);
    var m := 0;
    while m < topK && nns[i * topK + n] != gtNns[i * topK + m]
      invariant 0 <= m <= topK
      invariant forall l :: 0 <= l < m ==> b[l] != a[n]
    {
      m := m + 1;
    }
    found := m < topK;
  }
}
