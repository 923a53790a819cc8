/**
 * `BruteForceSearch::search_ip_amx`: every row of the query-by-candidate score matrix is
 * pushed into a min-priority queue of its own, and then `top_k` scores are drained from
 * each queue into a result table of `top_k` columns.
 */
module BruteForce {
  import opened Selection
  import opened PriorityQueue

  /** The order in which a `std::greater` priority queue hands out scores: smallest first. */
  function Ascending(a: int, b: int): bool {
    a <= b
  }

  lemma AscendingIsTotal()
    ensures TotalOrder(Ascending)
  {
  }

  /** A queue holding `m` hands out `x` first exactly when `x` is the least score in `m`. */
  lemma LeastIsFirst(x: int, m: multiset<int>)
    requires x in m && forall y :: y in m ==> x <= y
    ensures IsFirst(x, m, Ascending)
  {
  }

  /** One drain step: the least score comes out first, then the rest drains. */
  lemma DrainAscendingStep(m: multiset<int>, k: nat, x: int)
    requires 0 < k <= |m| && x in m && forall y :: y in m ==> x <= y
    ensures |m - multiset{x}| == |m| - 1
    ensures DrainAscending(m, k) == [x] + DrainAscending(m - multiset{x}, k - 1)
  {
    AscendingIsTotal();
    LeastIsFirst(x, m);
    PopOrderStep(m, k, x, Ascending);
  }

  /** The row width the fill loop reads: the length of the first row. */
  function Width(scores: seq<seq<int>>): nat {
    if |scores| == 0 then 0 else |scores[0]|
  }

  /** What `k` successive `top()`/`pop()` pairs read out of a `std::greater` queue holding `m`. */
  ghost function DrainAscending(m: multiset<int>, k: nat): (r: seq<int>)
    requires k <= |m|
    ensures |r| == k
  {
    AscendingIsTotal();
    PopOrder(m, k, Ascending)
  }

  /** The inner fill loop: every score of one row is pushed into a new queue. */
  method FillQueue(row: seq<int>) returns (h: MinHeap)
    ensures fresh(h) && fresh(h.data)
    ensures h.Valid() && h.Elems() == multiset(row)
  {
    h := new MinHeap();
    var j := 0;
    while j < |row|
      invariant 0 <= j <= |row|
      invariant fresh(h) && fresh(h.data)
      invariant h.Valid() && h.Elems() == multiset(row[..j])
    {
      assert row[..j + 1] == row[..j] + [row[j]];
      h.Push(row[j]);
      j := j + 1;
    }
    assert row[..j] == row;
  }

  /** A drained row holds the `k` smallest scores of `m` in non-decreasing order: it is
      sorted, it is a sub-multiset of `m`, and no score left in the queue is smaller than a
      score written out. */
  lemma DrainedRowIsSmallest(m: multiset<int>, k: nat)
    requires k <= |m|
    ensures var r := DrainAscending(m, k);
      && (forall a, b :: 0 <= a < b < k ==> r[a] <= r[b])
      && multiset(r) <= m
      && (forall x, y :: x in r && y in m - multiset(r) ==> x <= y)
  {
    AscendingIsTotal();
    PopOrderIsTopK(m, k, Ascending);
  }

  /** Conversely, a row with those three properties is exactly what draining produces. */
  lemma SmallestIsDrainedRow(r: seq<int>, m: multiset<int>, k: nat)
    requires |r| == k <= |m|
    requires forall a, b :: 0 <= a < b < k ==> r[a] <= r[b]
    requires multiset(r) <= m
    requires forall x, y :: x in r && y in m - multiset(r) ==> x <= y
    ensures r == DrainAscending(m, k)
  {
    AscendingIsTotal();
    forall i, y | 0 <= i < |r| && y in m - multiset(r) ensures r[i] <= y {
      assert r[i] in r;
    }
    assert IsTopK(r, m, k, Ascending);
    TopKIsPopOrder(r, m, k, Ascending);
  }

  /** Queue `h` is a heap holding exactly the scores of `row`. */
  ghost predicate Holds(h: MinHeap, row: seq<int>)
    reads h, h.data
  {
    h.Valid() && h.Elems() == multiset(row)
  }

  /** The fill loop: row `i` of the score matrix is pushed, score by score, into queue `i`. */
  method FillQueues(scores: seq<seq<int>>) returns (heaps: seq<MinHeap>)
    requires forall i :: 0 <= i < |scores| ==> |scores[i]| == Width(scores)
    ensures |heaps| == |scores|
    ensures forall r :: 0 <= r < |scores| ==> fresh(heaps[r]) && fresh(heaps[r].data)
    ensures forall r :: 0 <= r < |scores| ==> Holds(heaps[r], scores[r])
    ensures forall r, q :: 0 <= r < q < |scores| ==> heaps[r] != heaps[q] && heaps[r].data != heaps[q].data
  {
    heaps := [];
    var i := 0;
    while i < |scores|
      invariant 0 <= i <= |scores| && |heaps| == i
      invariant forall r :: 0 <= r < i ==> fresh(heaps[r]) && fresh(heaps[r].data)
      invariant forall r :: 0 <= r < i ==> Holds(heaps[r], scores[r])
      invariant forall r, q :: 0 <= r < q < i ==> heaps[r] != heaps[q] && heaps[r].data != heaps[q].data
    {
      var h := FillQueue(scores[i]);
      heaps := heaps + [h];
      i := i + 1;
    }
  }

  /** The drain loop of one row: `topK` times, the queue's top goes to the next column of
      row `i` and is popped. */
  method DrainRow(h: MinHeap, results: array2<int>, i: nat, topK: nat, ghost row: seq<int>)
    requires h.Valid() && h.Elems() == multiset(row) && topK <= |row|
    requires i < results.Length0 && topK == results.Length1
    modifies h, h.data, results
    ensures h.Valid() && h.data == old(h.data)
    ensures forall c :: 0 <= c < topK ==> results[i, c] == DrainAscending(multiset(row), topK)[c]
    ensures forall r, c :: 0 <= r < results.Length0 && r != i && 0 <= c < topK ==> results[r, c] == old(results[r, c])
  {
    ghost var drained := DrainAscending(multiset(row), topK);
    var k := 0;
    while k < topK
      invariant 0 <= k <= topK
      invariant h.Valid() && h.data == old(h.data) && |h.Elems()| == |row| - k
      invariant drained[k..] == DrainAscending(h.Elems(), topK - k)
      invariant forall c :: 0 <= c < k ==> results[i, c] == drained[c]
      invariant forall r, c :: 0 <= r < results.Length0 && r != i && 0 <= c < topK ==> results[r, c] == old(results[r, c])
    {
      DrainStep(h, results, i, k, topK - k);
      assert drained[k + 1..] == drained[k..][1..];
      k := k + 1;
    }
  }

  /** One step of the drain loop: `results[i][k_idx] = top()`, then `pop()`, on a queue
      from which `n` more scores are to be read. */
  method DrainStep(h: MinHeap, results: array2<int>, i: nat, k: nat, ghost n: nat)
    requires h.Valid() && 0 < n <= |h.Elems()|
    requires i < results.Length0 && k < results.Length1
    modifies h, h.data, results
    ensures h.Valid() && h.data == old(h.data) && |h.Elems()| == |old(h.Elems())| - 1
    ensures DrainAscending(old(h.Elems()), n) == [results[i, k]] + DrainAscending(h.Elems(), n - 1)
    ensures forall c :: 0 <= c < results.Length1 && c != k ==> results[i, c] == old(results[i, c])
    ensures forall r, c :: 0 <= r < results.Length0 && r != i && 0 <= c < results.Length1 ==> results[r, c] == old(results[r, c])
  {
    ghost var elems := h.Elems();
    var x := h.Top();
    DrainAscendingStep(elems, n, x);
    assert h.Min() == x;
    h.Pop();
    assert h.Elems() == elems - multiset{x};
    results[i, k] := x;
  }

  /** `results(queries.size(), std::vector<float>(top_k, 0.0f))`. */
  method AllocateResults(rows: nat, cols: nat) returns (results: array2<int>)
    ensures fresh(results) && results.Length0 == rows && results.Length1 == cols
    ensures forall i, j :: 0 <= i < rows && 0 <= j < cols ==> results[i, j] == 0
  {
    results := new int[rows, cols]((_, _) => 0);
  }

  /**
   * The search kernel after the score matrix has been computed. `scores` is the matrix
   * `distances` the source reads (one row per query, one column per dataset vector),
   * `nQueries` is `queries.size()` and `topK` is `top_k`.
   */
  method SearchIpAmx(scores: seq<seq<int>>, nQueries: nat, topK: nat) returns (results: array2<int>)
    requires nQueries <= |scores|
    requires forall i :: 0 <= i < |scores| ==> |scores[i]| == Width(scores)
    requires nQueries > 0 ==> topK <= Width(scores)
    ensures fresh(results)
    ensures results.Length0 == nQueries && results.Length1 == topK
    ensures forall i, j :: 0 <= i < nQueries && 0 <= j < topK ==> results[i, j] == DrainAscending(multiset(scores[i]), topK)[j]
  {
    results := AllocateResults(nQueries, topK);
    var heaps := FillQueues(scores);
    var i := 0;
    while i < nQueries
      invariant 0 <= i <= nQueries
      invariant forall r :: 0 <= r < |scores| ==> fresh(heaps[r]) && fresh(heaps[r].data)
      invariant forall r :: i <= r < |scores| ==> Holds(heaps[r], scores[r])
      invariant forall r, q :: 0 <= r < q < |scores| ==> heaps[r] != heaps[q] && heaps[r].data != heaps[q].data
      invariant forall r, c :: 0 <= r < i && 0 <= c < topK ==> results[r, c] == DrainAscending(multiset(scores[r]), topK)[c]
    {
      DrainQuery(heaps, results, scores, i, topK);
      i := i + 1;
    }
  }

  /** One iteration of the drain loop: queue `i` is drained into row `i`, and the queues
      of the later rows are untouched. */
  method DrainQuery(heaps: seq<MinHeap>, results: array2<int>, scores: seq<seq<int>>, i: nat, topK: nat)
    requires |heaps| == |scores| && i < results.Length0 <= |scores|
    requires topK == results.Length1 && topK <= |scores[i]|
    requires forall r :: i <= r < |scores| ==> Holds(heaps[r], scores[r])
    requires forall r, q :: 0 <= r < q < |scores| ==> heaps[r] != heaps[q] && heaps[r].data != heaps[q].data
    modifies heaps[i], heaps[i].data, results
    ensures forall r :: 0 <= r < |heaps| ==> heaps[r].data == old(heaps[r].data)
    ensures forall r :: i < r < |scores| ==> Holds(heaps[r], scores[r])
    ensures forall c :: 0 <= c < topK ==> results[i, c] == DrainAscending(multiset(scores[i]), topK)[c]
    ensures forall r, c :: 0 <= r < results.Length0 && r != i && 0 <= c < topK ==> results[r, c] == old(results[r, c])
  {
    var h := heaps[i];
    DrainRow(h, results, i, topK, scores[i]);
    forall r | i < r < |scores|
      ensures Holds(heaps[r], scores[r])
    {
      assert heaps[r] != h && heaps[r].data != h.data;
    }
  }
}
