/**
 * The recall mode of the hnswlib profiling driver: `n_query` result rows of `top_k` zeros
 * are preallocated for the HNSW index and for the exact (flat) index, each index's
 * search result queue is drained into its row, and the rows are compared query by query
 * by a membership count.
 */
module HnswProfile {
  import opened IntTypes
  import opened Selection
  import opened RecallSpec

  /** One entry of the queue `searchKnn` returns: `std::pair<float, labeltype>`. Distances
      are only ever compared, so they are modelled as `int`. */
  datatype Neighbor = Neighbor(distance: int, id: nat)

  /** `std::pair`'s `operator<`: by distance, then by label. */
  predicate PairLess(a: Neighbor, b: Neighbor) {
    a.distance < b.distance || (a.distance == b.distance && a.id < b.id)
  }

  /** The order in which the default (`std::less`) priority queue hands out pairs: the
      largest pair first, so the farthest neighbour comes out first. */
  function LargestFirst(a: Neighbor, b: Neighbor): bool {
    !PairLess(a, b)
  }

  lemma LargestFirstIsTotal()
    ensures TotalOrder(LargestFirst)
  {
  }

  /** What `k` successive `top()`/`pop()` pairs read out of a queue holding `q`. */
  ghost function DrainLargestFirst(q: multiset<Neighbor>, k: nat): (r: seq<Neighbor>)
    requires k <= |q|
    ensures |r| == k
  {
    LargestFirstIsTotal();
    PopOrder(q, k, LargestFirst)
  }

  /** The labels of a sequence of neighbours, each stored into an `int`. */
  function Labels(ns: seq<Neighbor>): (r: seq<int32>)
    ensures |r| == |ns| && forall j :: 0 <= j < |ns| ==> r[j] == NarrowToInt32(ns[j].id)
  {
    if |ns| == 0 then [] else Labels(ns[..|ns| - 1]) + [NarrowToInt32(ns[|ns| - 1].id)]
  }

  /** A drained queue comes out worst first: the pairs are non-increasing, they are taken
      from the queue, and every pair left behind is no larger than any pair taken. */
  lemma DrainIsWorstFirst(q: multiset<Neighbor>, k: nat)
    requires k <= |q|
    ensures var r := DrainLargestFirst(q, k);
      && (forall a, b :: 0 <= a < b < k ==> !PairLess(r[a], r[b]))
      && multiset(r) <= q
      && (forall x, y :: x in r && y in q - multiset(r) ==> !PairLess(x, y))
  {
    LargestFirstIsTotal();
    PopOrderIsTopK(q, k, LargestFirst);
  }

  /** Conversely, a sequence with those properties is exactly what draining produces. */
  lemma WorstFirstIsDrain(r: seq<Neighbor>, q: multiset<Neighbor>, k: nat)
    requires |r| == k <= |q|
    requires forall a, b :: 0 <= a < b < k ==> !PairLess(r[a], r[b])
    requires multiset(r) <= q
    requires forall x, y :: x in r && y in q - multiset(r) ==> !PairLess(x, y)
    ensures r == DrainLargestFirst(q, k)
  {
    LargestFirstIsTotal();
    assert IsTopK(r, q, k, LargestFirst);
    TopKIsPopOrder(r, q, k, LargestFirst);
  }

  /** The preallocation loop: `results_hnsw_map[i]` and `results_flat_map[i]` become rows
      of `top_k` zeros for every `0 <= i < n_query`. */
  method InitResultRows(nQuery: nat, topK: nat) returns (hnswRows: map<int, seq<int32>>, flatRows: map<int, seq<int32>>)
    ensures forall i :: i in hnswRows <==> 0 <= i < nQuery
    ensures forall i :: i in flatRows <==> 0 <= i < nQuery
    ensures forall i :: 0 <= i < nQuery ==> |hnswRows[i]| == topK && |flatRows[i]| == topK
    ensures forall i, j :: 0 <= i < nQuery && 0 <= j < topK ==> hnswRows[i][j] == 0 && flatRows[i][j] == 0
  {
    hnswRows, flatRows := map[], map[];
    var zeros := seq(topK, _ => 0 as int32);
    var i := 0;
    while i < nQuery
      invariant 0 <= i <= nQuery
      invariant forall r :: r in hnswRows <==> 0 <= r < i
      invariant forall r :: r in flatRows <==> 0 <= r < i
      invariant forall r :: 0 <= r < i ==> hnswRows[r] == zeros && flatRows[r] == zeros
    {
      hnswRows := hnswRows[i := zeros];
      flatRows := flatRows[i := zeros];
      i := i + 1;
    }
  }

  /** One `top()`/`pop()` pair on a queue holding `q` from which `n` more pairs are to be
      read: the pair read first, and what the queue holds after the pop. */
  method PopTop(q: multiset<Neighbor>, ghost n: nat) returns (top: Neighbor, q': multiset<Neighbor>)
    requires 0 < n <= |q|
    ensures q' == q - multiset{top} && |q'| == |q| - 1
    ensures DrainLargestFirst(q, n) == [top] + DrainLargestFirst(q', n - 1)
  {
    LargestFirstIsTotal();
    FirstExists(q, LargestFirst);
    top :| IsFirst(top, q, LargestFirst);
    PopOrderStep(q, n, top, LargestFirst);
    q' := q - multiset{top};
  }

  /** The drain of query `i`: `top_k` times, the label of the queue's top overwrites the next
      entry of row `i`, and the top is popped. Other rows are untouched. */
  method DrainQueue(rows: map<int, seq<int32>>, i: int, queue: multiset<Neighbor>, topK: nat)
      returns (rows': map<int, seq<int32>>)
    requires i in rows && |rows[i]| == topK
    requires topK <= |queue|
    ensures rows'.Keys == rows.Keys
    ensures rows'[i] == Labels(DrainLargestFirst(queue, topK))
    ensures forall r :: r in rows && r != i ==> rows'[r] == rows[r]
  {
    ghost var drained := DrainLargestFirst(queue, topK);
    var q := queue;
    var row := rows[i];
    var j := 0;
    while j < topK
      invariant 0 <= j <= topK && |row| == topK && |q| == |queue| - j
      invariant drained[j..] == DrainLargestFirst(q, topK - j)
      invariant forall c :: 0 <= c < j ==> row[c] == NarrowToInt32(drained[c].id)
    {
      var top;
      top, q := PopTop(q, topK - j);
      assert drained[j + 1..] == drained[j..][1..];
      row := row[j := NarrowToInt32(top.id)];
      j := j + 1;
    }
    assert row == Labels(drained);
    rows' := rows[i := row];
  }

  /** The search loop of one index over all queries, with the queue `searchKnn` returned for
      query `i` given as `queues[i]`. */
  method CollectSearchResults(rows: map<int, seq<int32>>, queues: seq<multiset<Neighbor>>, nQuery: nat, topK: nat)
      returns (rows': map<int, seq<int32>>)
    requires nQuery <= |queues|
    requires forall i :: 0 <= i < nQuery ==> i in rows && |rows[i]| == topK && topK <= |queues[i]|
    ensures rows'.Keys == rows.Keys
    ensures forall i :: 0 <= i < nQuery ==> rows'[i] == Labels(DrainLargestFirst(queues[i], topK))
    ensures forall r :: r in rows && !(0 <= r < nQuery) ==> rows'[r] == rows[r]
  {
    rows' := rows;
    var i := 0;
    while i < nQuery
      invariant 0 <= i <= nQuery
      invariant rows'.Keys == rows.Keys
      invariant forall r :: 0 <= r < i ==> rows'[r] == Labels(DrainLargestFirst(queues[r], topK))
      invariant forall r :: r in rows && !(0 <= r < i) ==> rows'[r] == rows[r]
    {
      rows' := DrainQueue(rows', i, queues[i], topK);
      i := i + 1;
    }
  }

  /** `std::find(v.begin(), v.end(), x) - v.begin()`: the first position holding `x`, or
      `|v|` when there is none. */
  method Find(v: seq<int32>, x: int32) returns (idx: nat)
    ensures idx <= |v|
    ensures idx < |v| ==> v[idx] == x
    ensures forall j :: 0 <= j < idx ==> v[j] != x
    ensures idx < |v| <==> x in v
  {
    idx := 0;
    while idx < |v| && v[idx] != x
      invariant idx <= |v|
      invariant forall j :: 0 <= j < idx ==> v[j] != x
    {
      idx := idx + 1;
    }
  }

  /** The `correct++` loop: the number of positions of `v2` whose label occurs in `v1`. */
  method CountCorrect(v1: seq<int32>, v2: seq<int32>) returns (correct: int32)
    requires |v2| <= INT32_MAX
    ensures correct as int == MemberCount(v1, v2)
    ensures 0 <= correct as int <= |v2|
  {
    correct := 0;
    var j := 0;
    while j < |v2|
      invariant 0 <= j <= |v2|
      invariant correct as int == MemberCount(v1, v2[..j])
    {
      var idx := Find(v1, v2[j]);
      assert v2[..j + 1] == v2[..j] + [v2[j]];
      MemberCountAppend(v1, v2[..j], v2[j]);
      if idx != |v1| {
        correct := correct + 1;
      }
      j := j + 1;
    }
    assert v2[..j] == v2;
  }

  /** `results_flat_map[i]` as read by the recall loop: the row stored for `i`, or the empty
      row `operator[]` would create. */
  function Lookup(rows: map<int, seq<int32>>, i: int): seq<int32> {
    if i in rows then rows[i] else []
  }

  /** The recall loop: for every query, the count of HNSW labels found among the exact
      labels. The driver divides each count by `top_k`; the counts are what it divides. */
  method PerQueryCorrect(flatRows: map<int, seq<int32>>, hnswRows: map<int, seq<int32>>, nQuery: nat)
      returns (corrects: seq<int32>)
    requires forall i :: 0 <= i < nQuery ==> |Lookup(hnswRows, i)| <= INT32_MAX
    ensures |corrects| == nQuery
    ensures forall i :: 0 <= i < nQuery ==> corrects[i] as int == MemberCount(Lookup(flatRows, i), Lookup(hnswRows, i))
    ensures forall i :: 0 <= i < nQuery ==> 0 <= corrects[i] as int <= |Lookup(hnswRows, i)|
  {
    corrects := [];
    var i := 0;
    while i < nQuery
      invariant 0 <= i <= nQuery && |corrects| == i
      invariant forall r :: 0 <= r < i ==> corrects[r] as int == MemberCount(Lookup(flatRows, r), Lookup(hnswRows, r))
    {
      var correct := CountCorrect(Lookup(flatRows, i), Lookup(hnswRows, i));
      corrects := corrects + [correct];
      i := i + 1;
    }
  }

  /**
   * The `hnsw_recall` mode from preallocation to the per-query counts, with the queues the
   * two indexes return for query `i` given as `hnswQueues[i]` and `flatQueues[i]`. Each
   * count compares the drained exact labels with the drained HNSW labels and never
   * exceeds `top_k`.
   */
  method HnswRecall(hnswQueues: seq<multiset<Neighbor>>, flatQueues: seq<multiset<Neighbor>>, nQuery: nat, topK: nat)
      returns (corrects: seq<int32>)
    requires nQuery <= |hnswQueues| && nQuery <= |flatQueues| && topK <= INT32_MAX
    requires forall i :: 0 <= i < nQuery ==> topK <= |hnswQueues[i]| && topK <= |flatQueues[i]|
    ensures |corrects| == nQuery
    ensures forall i :: 0 <= i < nQuery ==>
      corrects[i] as int == MemberCount(Labels(DrainLargestFirst(flatQueues[i], topK)), Labels(DrainLargestFirst(hnswQueues[i], topK)))
    ensures forall i :: 0 <= i < nQuery ==> 0 <= corrects[i] as int <= topK
  {
    var hnswRows, flatRows := InitResultRows(nQuery, topK);
    hnswRows := CollectSearchResults(hnswRows, hnswQueues, nQuery, topK);
    flatRows := CollectSearchResults(flatRows, flatQueues, nQuery, topK);
    corrects := PerQueryCorrect(flatRows, hnswRows, nQuery);
  }

  /** After both searches, every query's count is at most `top_k`; when the HNSW index
      returns the exact neighbours in any order, every count is `top_k`. */
  lemma RecallOfExactSearch(flatRows: map<int, seq<int32>>, hnswRows: map<int, seq<int32>>, nQuery: nat, topK: nat)
    requires forall i :: 0 <= i < nQuery ==> i in flatRows && i in hnswRows && |hnswRows[i]| == topK
    requires forall i :: 0 <= i < nQuery ==> multiset(hnswRows[i]) == multiset(flatRows[i])
    ensures forall i :: 0 <= i < nQuery ==> MemberCount(Lookup(flatRows, i), Lookup(hnswRows, i)) == topK
  {
    forall i | 0 <= i < nQuery
      ensures MemberCount(Lookup(flatRows, i), Lookup(hnswRows, i)) == topK
    {
      var v1, v2 := flatRows[i], hnswRows[i];
      forall x | x in v2 ensures x in v1 {
        assert x in multiset(v2);
      }
      MemberCountExtremes(v1, v2);
    }
  }
}
