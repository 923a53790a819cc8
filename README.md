# Top-K selection and recall counting of the vector-search benchmark drivers

This project is a Dafny model of the small pieces of logic in the vector-search benchmark
drivers that are not calls into FAISS, hnswlib or oneDNN:

- **`BruteForceSearch::search_ip_amx`** (`amx/bf.hpp`). It allocates a result table of
  `queries.size()` rows of `top_k` zeros. It pushes every score of row `i` of the score
  matrix into a `std::priority_queue<float, std::vector<float>, std::greater<float>>` of its
  own. Then it reads `top_k` scores out of each queue with `top()`/`pop()`. The queue is
  modelled as a class `MinHeap` over a growable array (module `PriorityQueue`). The kernel is
  module `BruteForce`. What a drain reads out is specified once, for any total order, in
  module `Selection`: `PopOrder(m, k, before)` is "take the first element `k` times".
  `TopKCharacterization` proves that a row equals `PopOrder` exactly when it is the `k`
  first elements of the queue, in order.
- **The `hnsw_recall` mode of `profile_hnswlib.cc`** (module `HnswProfile`). It preallocates
  rows of `top_k` zeros in two `std::unordered_map<int, std::vector<int>>`. It drains the
  `std::priority_queue<std::pair<float, labeltype>>` returned by each index search into
  row `i`. Then it counts, per query, the HNSW labels found among the exact labels with
  `std::find`. The library queue enters as a multiset of pairs. Draining it is `PopOrder`
  under the order of the default `std::less` queue, which hands out the largest pair first.
- **The recall counter of the FAISS drivers** (module `PairRecall`, specified in module
  `RecallSpec`). The triple loop compares `nns[i * top_k + n]` with
  `gt_nns[i * top_k + m]` and increments an `int64_t` accumulator for every equal pair.
  It appears three times, in `run_faiss_cpu.cc`, `src/run_gpu.cc` and
  `cpu_hnsw/run_faiss_cpu.cc`. One method, `PairRecall.CountRecalls`, models all three.
  The buffers are arrays and the method has no `modifies` clause, so the count never
  changes them.

Fixed-width C++ integers are newtypes in module `IntTypes`: `int32` for `int` and `int64`
for `int64_t`. Storing a `size_t` label into an `int` keeps the low 32 bits
(`NarrowToInt32`). The overflow of `recalls += 1` is excluded by the precondition that the
final count fits in `int64_t`. Since the accumulator only grows, that is the exact
condition.

Where the design description of the selection kernel and the code disagree, the model
follows the code:
- The code keeps every score, not a bounded heap of `K` entries.
- It stores scores, not `(index, score)` pairs, so there is no index tie-break.
- It has no `min(K, n)` truncation: with `top_k` larger than a row, `top()` acts on an empty
  queue, so the model requires `top_k` to be at most the row width.
- It drains smallest-first into columns `0 .. top_k - 1`.

## Model

| member | source | states |
|---|---|---|
| IntTypes.NarrowToInt32 | profile_hnswlib.cc:123 | the `int` that receives a `size_t` label agrees with it modulo 2^32, and equals it when it fits |
| Selection.FirstExists | amx/bf.hpp:62 | a non-empty queue under a total order has an element that may be handed out before all others |
| Selection.First | amx/bf.hpp:62 | `top()` of a non-empty queue is an element of it that precedes every element of it |
| Selection.FirstUnique | amx/bf.hpp:62 | under a total order the top element is unique |
| Selection.PopOrder | amx/bf.hpp:59-65 | `k` `top()`/`pop()` pairs read exactly `k` elements |
| Selection.PopOrderStep | amx/bf.hpp:62-63 | one drain step reads the top, removes one copy of it, and the rest is the drain of the smaller queue |
| Selection.TopKUncons | profile_hnswlib.cc:122-125 | the head of a top-`k` row is the queue's top and its tail is the top-`(k - 1)` row of the rest |
| Selection.ConsTopK | profile_hnswlib.cc:122-125 | the queue's top in front of the top-`(k - 1)` row of the rest is the top-`k` row |
| Selection.PopOrderIsTopK | amx/bf.hpp:53-65 | a drain of `k` elements is ordered, a sub-multiset of the queue, and nothing left behind precedes anything read |
| Selection.TopKIsPopOrder | profile_hnswlib.cc:119-127 | every ordered sub-multiset of size `k` that nothing left behind precedes is exactly the drain |
| Selection.TopKCharacterization | amx/bf.hpp:59-65 | a row is what `k` pops produce if and only if it is the `k` first elements of the queue in order |
| PriorityQueue.Parent | amx/bf.hpp:35-37 | the parent slot of a heap slot lies before it |
| PriorityQueue.AppendToHeap | amx/bf.hpp:55 | appending to a heap breaks the `std::greater` heap order only above the new last slot |
| PriorityQueue.SmallestChild | amx/bf.hpp:63 | the child sift-down picks is no larger than any child of its parent |
| PriorityQueue.RootBelow | amx/bf.hpp:35-37 | in a heap the root is no larger than any slot |
| PriorityQueue.RootIsMinimum | amx/bf.hpp:62 | the root of a non-empty heap is its minimum |
| PriorityQueue.SiftUpStep | amx/bf.hpp:55 | swapping a slot with a larger parent moves the only heap violation one level up |
| PriorityQueue.SiftUpDone | amx/bf.hpp:55 | sift-up that stops at the root or below a parent that is not larger leaves a heap |
| PriorityQueue.SiftDownStep | amx/bf.hpp:63 | swapping a slot with its smaller, smaller-than-it child moves the only heap violation one level down |
| PriorityQueue.SiftDownDone | amx/bf.hpp:63 | sift-down that stops at a leaf or above children that are not smaller leaves a heap |
| PriorityQueue.MoveLastToRoot | amx/bf.hpp:63 | moving the last slot to the root removes one copy of the root and breaks the heap order only below the root |
| PriorityQueue.MinHeap.Min | amx/bf.hpp:62 | the least score held is held and no larger than any score held |
| PriorityQueue.MinHeap.constructor | amx/bf.hpp:35-37 | a new queue is a valid heap holding nothing |
| PriorityQueue.MinHeap.Top | amx/bf.hpp:62 | `top()` returns a held score no larger than any held score |
| PriorityQueue.MinHeap.Push | amx/bf.hpp:55 | `push(x)` keeps the heap valid and adds exactly one copy of `x` |
| PriorityQueue.MinHeap.Grow | amx/bf.hpp:55 | growing the storage keeps the held prefix and makes room for one more score |
| PriorityQueue.MinHeap.Pop | amx/bf.hpp:63 | `pop()` keeps the heap valid and removes exactly one copy of the least score |
| PriorityQueue.MinHeap.MoveLastToFront | amx/bf.hpp:63 | the first half of `pop()` overwrites the root with the last score and shrinks the size by one |
| PriorityQueue.MinHeap.Exchange | amx/bf.hpp:63 | swaps two held slots and changes nothing else |
| PriorityQueue.MinHeap.SiftUp | amx/bf.hpp:55 | restores the heap order without changing the held scores |
| PriorityQueue.MinHeap.SmallerChild | amx/bf.hpp:63 | picks the smaller child, the left one on a tie |
| PriorityQueue.MinHeap.SiftDown | amx/bf.hpp:63 | restores the heap order without changing the held scores |
| BruteForce.DrainAscendingStep | amx/bf.hpp:62-63 | reading the least score of a `std::greater` queue and popping it leaves the drain of the rest |
| BruteForce.DrainAscending | amx/bf.hpp:59-65 | draining `k` scores reads exactly `k` scores |
| BruteForce.DrainedRowIsSmallest | amx/bf.hpp:53-65 | a drained row is non-decreasing, a sub-multiset of the scores, and no score left behind is smaller than a score written |
| BruteForce.SmallestIsDrainedRow | amx/bf.hpp:53-65 | any row with those three properties is exactly the drained row |
| BruteForce.FillQueue | amx/bf.hpp:54-56 | the inner fill loop leaves a valid heap holding exactly the multiset of scores of the row |
| BruteForce.FillQueues | amx/bf.hpp:53-57 | after the fill loop, queue `i` holds exactly the scores of row `i`, and all queues are distinct fresh objects |
| BruteForce.DrainStep | amx/bf.hpp:62-63 | `results[i][k_idx] = top(); pop();` writes the next drained score and touches no other cell |
| BruteForce.DrainRow | amx/bf.hpp:60-64 | after `top_k` steps row `i` is the drain of its queue and no other row of `results` has changed |
| BruteForce.DrainQuery | amx/bf.hpp:59-65 | draining row `i` leaves the queues of the later rows untouched |
| BruteForce.AllocateResults | amx/bf.hpp:33-34 | the result table has `queries.size()` rows of `top_k` zeros |
| BruteForce.SearchIpAmx | amx/bf.hpp:32-66 | every result row `i` is the drain of the multiset of scores of row `i` |
| RecallSpec.CountIn | run_faiss_cpu.cc:143-147 | the number of ground-truth entries equal to one returned label is at most the row width |
| RecallSpec.PairCount | run_faiss_cpu.cc:142-148 | the equal pairs of two rows number at most the product of their lengths |
| RecallSpec.MemberCount | profile_hnswlib.cc:174-178 | the positions of `v2` found in `v1` number at most `v2.size()` |
| RecallSpec.Row | run_faiss_cpu.cc:144 | row `i` holds the entries at offsets `i * top_k + n` |
| RecallSpec.RowsFit | cpu_hnsw/run_faiss_cpu.cc:116-137 | row `i` of a buffer of `search_limit * top_k` entries ends inside it, and rows `i` and `i + 1` are adjacent |
| RecallSpec.OffsetInRange | src/run_gpu.cc:196-203 | every offset `i * top_k + n` the loops read lies in `[0, top_k * n_query)` |
| RecallSpec.Recalls | run_faiss_cpu.cc:140-149 | the pair count over the first `rows` queries is at most `rows * top_k * top_k` |
| RecallSpec.RecallsOnce | run_faiss_cpu.cc:141-149 | the count with each returned label matched at most once is at most `rows * top_k` |
| RecallSpec.CountInAppend | run_faiss_cpu.cc:143-147 | one more step of the innermost loop adds one exactly when the pair is equal |
| RecallSpec.CountInIsMultiplicity | run_faiss_cpu.cc:143-147 | the innermost loop counts the multiplicity of the returned label in the ground-truth row |
| RecallSpec.CountInDistinct | run_faiss_cpu.cc:143-147 | against a ground-truth row without repetitions, a returned label counts 1 if present and 0 if absent |
| RecallSpec.CountInPrefix | run_faiss_cpu.cc:143-147 | the count over a prefix of the ground-truth row never exceeds the count over the row |
| RecallSpec.PairCountStep | run_faiss_cpu.cc:142-148 | one more step of the middle loop adds the innermost count of that neighbour |
| RecallSpec.PairCountPrefix | src/run_gpu.cc:201-207 | the pair count of a prefix of the returned row never exceeds that of the row |
| RecallSpec.PairCountAppendRight | run_faiss_cpu.cc:142-148 | one more ground-truth entry adds the number of returned labels equal to it |
| RecallSpec.MemberCountAppend | profile_hnswlib.cc:174-177 | one more position of `v2` adds one exactly when `v1` holds its label |
| RecallSpec.PairCountIsMemberCount | profile_hnswlib.cc:174-178 | when one row has no repetitions, the pair count equals the membership count |
| RecallSpec.PairCountSymmetric | src/run_gpu.cc:201-207 | the pair count does not depend on which row the outer loop walks |
| RecallSpec.MemberCountConcat | profile_hnswlib.cc:174-175 | the membership count is additive over `v2`: each repeated position of `v2` is counted separately |
| RecallSpec.MemberCountBySet | profile_hnswlib.cc:175 | the membership count depends only on the set of labels in `v1`: duplicates in `v1` never raise it |
| RecallSpec.MemberCountExtremes | profile_hnswlib.cc:174-178 | the count is `v2.size()` when `v1` holds every label of `v2` and 0 when it holds none |
| RecallSpec.SelfMemberCount | profile_hnswlib.cc:174-178 | a result compared with itself is counted in full |
| RecallSpec.SelfPairCount | cpu_hnsw/run_faiss_cpu.cc:135-140 | a row without repetitions compared with itself gives one pair per entry |
| RecallSpec.RecallsMonotone | src/run_gpu.cc:199-208 | the accumulated count never decreases as more queries are taken in |
| RecallSpec.RecallsRowLocal | src/run_gpu.cc:203 | the count depends only on the first `n_query` rows, each row of `nns` compared with the same row of `gt_nns` |
| RecallSpec.FullRecall | cpu_hnsw/run_faiss_cpu.cc:133-143 | identical buffers whose rows have no repetitions give `search_limit * top_k`, a recall of 1 |
| RecallSpec.PartialBelowTotal | run_faiss_cpu.cc:141-149 | every partial count the loop reaches is at most the final count |
| RecallSpec.RecallsAgreeOnDistinctTruth | run_faiss_cpu.cc:141-150 | when no ground-truth row repeats a label, the pair count equals the matched-at-most-once count |
| RecallSpec.RecallsCanExceedOne | run_faiss_cpu.cc:141-150 | one query whose two returned and two ground-truth labels are all `-1` gives 4 pairs for `top_k * n_query == 2` |
| PairRecall.CountRecalls | run_faiss_cpu.cc:140-149 | `recalls` is the number of equal same-row pairs, between 0 and `n_query * top_k * top_k`, without `int64_t` overflow |
| PairRecall.AccumulateQuery | src/run_gpu.cc:201-207 | the two inner loops for query `i` add the pair count of row `i` |
| PairRecall.AccumulateNeighbour | cpu_hnsw/run_faiss_cpu.cc:136-140 | the innermost loop adds the number of ground-truth entries of row `i` equal to neighbour `n` |
| PairRecall.CountRecallsOnce | run_faiss_cpu.cc:141-149 | the corrected counter returns the matched-at-most-once count, at most `n_query * top_k` |
| PairRecall.MatchQuery | run_faiss_cpu.cc:142-148 | query `i` of the corrected counter adds the membership count of row `i` |
| PairRecall.FindMatch | run_faiss_cpu.cc:143-147 | the search stops with a match exactly when the returned label occurs in the ground-truth row |
| HnswProfile.DrainLargestFirst | profile_hnswlib.cc:122-125 | draining `k` pairs reads exactly `k` pairs |
| HnswProfile.Labels | profile_hnswlib.cc:123 | the row holds the label of each drained pair, stored into an `int`, position by position |
| HnswProfile.DrainIsWorstFirst | profile_hnswlib.cc:120-125 | a drained queue is non-increasing in `(distance, label)`, taken from the queue, and nothing left behind is larger than anything read |
| HnswProfile.WorstFirstIsDrain | profile_hnswlib.cc:120-125 | any sequence with those three properties is exactly the drain |
| HnswProfile.InitResultRows | profile_hnswlib.cc:94-101 | both maps hold exactly the keys `0 .. n_query - 1`, each a row of `top_k` zeros |
| HnswProfile.PopTop | profile_hnswlib.cc:123-124 | `top()` then `pop()` reads the first pair and leaves the drain of the rest |
| HnswProfile.DrainQueue | profile_hnswlib.cc:119-127 | row `i` becomes the labels of the drain of its queue, it keeps length `top_k`, and no other row or key changes |
| HnswProfile.CollectSearchResults | profile_hnswlib.cc:147-157 | after the search loop every row `i < n_query` holds the drained labels of query `i`, and nothing else changes |
| HnswProfile.Find | profile_hnswlib.cc:175 | `std::find` returns the first position holding the label, or the end exactly when the label is absent |
| HnswProfile.CountCorrect | profile_hnswlib.cc:173-178 | `correct` is the number of positions of `v2` whose label occurs in `v1`, between 0 and `v2.size()` |
| HnswProfile.PerQueryCorrect | profile_hnswlib.cc:168-181 | one count per query, `n_query` in all, each the membership count of that query's rows |
| HnswProfile.HnswRecall | profile_hnswlib.cc:94-181 | each query's count compares the drained exact labels with the drained HNSW labels and is at most `top_k` |
| HnswProfile.RecallOfExactSearch | profile_hnswlib.cc:170-179 | when the HNSW row holds the exact labels in any order, the count is `top_k` |

## Left out

- Index construction, training, `add` and `search` of FAISS and hnswlib are foreign library calls. Their results enter as parameters: the label buffers `nns`/`gt_nns` and the queues returned by `searchKnn`.
- The oneDNN inner product, the `bf16` conversion and the AMX probe are foreign code and reduced-precision floating point. The score matrix is a parameter, which also stands in for the undeclared `distances` that the fill loop reads.
- Floating point is not modelled. Scores and distances are only compared, so they are `int`. The recall ratios (`1.0f * recalls / (top_k * n_query)`, `(float)correct / top_k`) and their mean are not modelled; the integer counts they divide are.
- File I/O, dataset and ground-truth reading, command-line parsing, timing, profiler sleeps and console output are not modelled. `n_query`, `search_limit` and `top_k` are parameters.
- The OpenMP loops are modelled as sequential loops. The per-row frame conditions (`DrainRow`, `DrainQueue`) state that each iteration touches only its own row.
- HnswProfile.HnswRecall: the `index == "hnsw_recall"` mode guards are not modelled; the method is that mode.
- HnswProfile.DrainQueue: the library queue is a multiset of pairs. Its internal layout and the cost of `pop()` are not modelled, only the order it hands pairs out in.
- HnswProfile.PerQueryCorrect: a missing key would make `operator[]` insert an empty row; `Lookup` returns that empty row but does not model the insertion.
- BruteForce.SearchIpAmx: the loop counters are `int32_t` in the source, and a score matrix of more than 2^31 - 1 rows or columns would overflow them. The model's counters are unbounded.
- BruteForce.SearchIpAmx: a negative `top_k` (the parameter is `int32_t`) makes the result allocation fail. The model takes `top_k` as a natural number.
- BruteForce.SearchIpAmx: the queues live in an `std::unordered_map<int32_t, ...>` keyed by row. The model keeps them in a sequence indexed by row, which holds the same queues because the keys are `0 .. rows - 1`.
- PriorityQueue.MinHeap.Top, PriorityQueue.MinHeap.Pop: `top()` and `pop()` on an empty queue are undefined behaviour in C++. They are preconditions here, which is why `SearchIpAmx` and `DrainQueue` require `top_k` entries per queue.
- PriorityQueue.MinHeap.Grow: the capacity growth of `std::vector` is implementation-defined. The model grows to `2n + 1`, and only the contents are specified.

## Findings

| source | as written | input that shows it | evidently intended | confidence | as-written member | corrected member |
|---|---|---|---|---|---|---|
| run_faiss_cpu.cc:141-150 (also src/run_gpu.cc:199-209, cpu_hnsw/run_faiss_cpu.cc:133-143) | every equal `(n, m)` pair of a row is counted, so a label repeated in the ground-truth row is credited once per repetition and the recall ratio can exceed 1 | `top_k = 2`, `n_query = 1`, `nns = gt_nns = [-1, -1]` (the label a search that finds fewer than `top_k` neighbours leaves): `recalls == 4`, recall 2 | each returned neighbour counted at most once, so `recalls <= top_k * n_query` and the recall is at most 1 | low, not executed | RecallSpec.RecallsCanExceedOne | PairRecall.CountRecallsOnce |
