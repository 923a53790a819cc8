/**
 * The two recall measures the benchmark drivers compute, as functions on sequences:
 *
 *  - the pair count of the FAISS drivers, which compares every returned neighbour of a
 *    query with every ground-truth neighbour of the same query and counts equal pairs;
 *  - the membership count of the hnswlib driver, which counts the positions of the
 *    approximate result whose label occurs somewhere in the exact result.
 *
 * Both are defined by recursion on a prefix, the way the counting loops walk their input.
 */
module RecallSpec {

  /** The number of positions of `s` that hold `x`. */
  function CountIn<T(==)>(x: T, s: seq<T>): (c: nat)
    ensures c <= |s|
  {
    if |s| == 0 then 0
    else CountIn(x, s[..|s| - 1]) + (if s[|s| - 1] == x then 1 else 0)
  }

  /** The number of pairs `(n, m)` with `a[n] == b[m]`. */
  function PairCount<T(==)>(a: seq<T>, b: seq<T>): (c: nat)
    ensures c <= |a| * |b|
  {
    if |a| == 0 then 0
    else
      var c0 := PairCount(a[..|a| - 1], b);
      assert c0 <= (|a| - 1) * |b|;
      assert (|a| - 1) * |b| + |b| == |a| * |b|;
      c0 + CountIn(a[|a| - 1], b)
  }

  /** The number of positions `j` of `v2` whose value occurs somewhere in `v1`. */
  function MemberCount<T(==)>(v1: seq<T>, v2: seq<T>): (c: nat)
    ensures c <= |v2|
  {
    if |v2| == 0 then 0
    else MemberCount(v1, v2[..|v2| - 1]) + (if v2[|v2| - 1] in v1 then 1 else 0)
  }

  /** No value occurs twice in `s`. */
  predicate Distinct<T(==)>(s: seq<T>) {
    forall i, j :: 0 <= i < j < |s| ==> s[i] != s[j]
  }

  /** Row `i` of a row-major buffer of rows of width `w`: the entries at offsets
      `i * w + n` for `0 <= n < w`. */
  function Row<T>(buf: seq<T>, i: nat, w: nat): (r: seq<T>)
    requires i * w + w <= |buf|
    ensures |r| == w && forall n :: 0 <= n < w ==> r[n] == buf[i * w + n]
  {
    buf[i * w..i * w + w]
  }

  /** Rows `i` and `i + 1` are laid out one after the other, and row `i` of a buffer
      holding `rows` rows ends inside it. */
  lemma RowsFit(i: nat, rows: nat, w: nat)
    requires i < rows
    ensures i * w + w <= rows * w && (i + 1) * w == i * w + w && w * rows == rows * w
  {
    assert (i + 1) * w == i * w + w;
    assert (i + 1) * w <= rows * w;
  }

  /** Every offset `i * w + n` the counting loops read lies inside the buffers of
      `rows * w` entries. */
  lemma OffsetInRange(i: nat, n: nat, rows: nat, w: nat)
    requires i < rows && n < w
    ensures 0 <= i * w + n < rows * w
  {
    RowsFit(i, rows, w);
  }

  /** Adding a row of at most `w * w` pairs to the pairs of `rows - 1` rows stays within
      the bound for `rows` rows. */
  lemma AddRowBound(prev: nat, next: nat, rows: nat, w: nat)
    requires 0 < rows && prev <= (rows - 1) * w * w && next <= w * w
    ensures prev + next <= rows * w * w
  {
    assert (rows - 1) * w * w + w * w == rows * w * w;
  }

  /** The pair count of the first `rows` rows, each row of `nns` compared with the same
      row of `gt`: what the FAISS drivers accumulate in `recalls`. */
  function Recalls<T(==)>(nns: seq<T>, gt: seq<T>, rows: nat, w: nat): (r: nat)
    requires rows * w <= |nns| && rows * w <= |gt|
    ensures r <= rows * w * w
  {
    if rows == 0 then 0
    else
      RowsFit(rows - 1, rows, w);
      var r0 := Recalls(nns, gt, rows - 1, w);
      var c := PairCount(Row(nns, rows - 1, w), Row(gt, rows - 1, w));
      AddRowBound(r0, c, rows, w);
      r0 + c
  }

  /** The count with each returned neighbour matched at most once: row `i` contributes the
      number of positions of row `i` of `nns` whose label occurs in row `i` of `gt`. */
  function RecallsOnce<T(==)>(nns: seq<T>, gt: seq<T>, rows: nat, w: nat): (r: nat)
    requires rows * w <= |nns| && rows * w <= |gt|
    ensures r <= rows * w
  {
    if rows == 0 then 0
    else
      RowsFit(rows - 1, rows, w);
      RecallsOnce(nns, gt, rows - 1, w) + MemberCount(Row(gt, rows - 1, w), Row(nns, rows - 1, w))
  }

  /** Counting `x` in a sequence that grows by one element. */
  lemma CountInAppend<T>(x: T, s: seq<T>, y: T)
    ensures CountIn(x, s + [y]) == CountIn(x, s) + (if y == x then 1 else 0)
  {
    assert (s + [y])[..|s|] == s;
  }

  /** `CountIn` is the multiplicity of `x` in `s`. */
  lemma {:induction false} CountInIsMultiplicity<T>(x: T, s: seq<T>)
    ensures CountIn(x, s) == multiset(s)[x]
  {
    if |s| > 0 {
      var init := s[..|s| - 1];
      CountInIsMultiplicity(x, init);
      assert s == init + [s[|s| - 1]];
      assert multiset(s) == multiset(init) + multiset{s[|s| - 1]};
    }
  }

  /** In a sequence without repetitions a value is counted once if it occurs and never
      if it does not. */
  lemma {:induction false} CountInDistinct<T>(x: T, s: seq<T>)
    requires Distinct(s)
    ensures CountIn(x, s) == if x in s then 1 else 0
    decreases |s|
  {
    if |s| > 0 {
      var init := s[..|s| - 1];
      var last := s[|s| - 1];
      assert s == init + [last];
      assert Distinct(init);
      CountInDistinct(x, init);
      if last == x {
        assert x !in init;
      }
    }
  }

  /** Counting in a prefix never exceeds counting in the whole. */
  lemma {:induction false} CountInPrefix<T>(x: T, s: seq<T>, m: nat)
    requires m <= |s|
    ensures CountIn(x, s[..m]) <= CountIn(x, s)
    decreases |s|
  {
    if m < |s| {
      var init := s[..|s| - 1];
      assert s[..m] == init[..m];
      CountInPrefix(x, init, m);
      assert CountIn(x, s) >= CountIn(x, init);
    } else {
      assert s[..m] == s;
    }
  }

  /** The pair count of a prefix of `a`, extended by one element. */
  lemma PairCountStep<T>(a: seq<T>, n: nat, b: seq<T>)
    requires n < |a|
    ensures PairCount(a[..n + 1], b) == PairCount(a[..n], b) + CountIn(a[n], b)
  {
    assert a[..n + 1][..n] == a[..n];
  }

  /** The pair count of a prefix of `a` never exceeds the pair count of `a`. */
  lemma {:induction false} PairCountPrefix<T>(a: seq<T>, n: nat, b: seq<T>)
    requires n <= |a|
    ensures PairCount(a[..n], b) <= PairCount(a, b)
    decreases |a|
  {
    if n < |a| {
      var init := a[..|a| - 1];
      assert a[..n] == init[..n];
      PairCountPrefix(init, n, b);
      assert PairCount(a, b) >= PairCount(init, b);
    } else {
      assert a[..n] == a;
    }
  }

  /** Appending one element to `b` adds the number of times `a` holds it. */
  lemma {:induction false} PairCountAppendRight<T>(a: seq<T>, b: seq<T>, y: T)
    ensures PairCount(a, b + [y]) == PairCount(a, b) + CountIn(y, a)
    decreases |a|
  {
    if |a| > 0 {
      var init := a[..|a| - 1];
      PairCountAppendRight(init, b, y);
      CountInAppend(a[|a| - 1], b, y);
    }
  }

  /** Appending one element to `v2` adds one exactly when `v1` holds it. */
  lemma MemberCountAppend<T>(v1: seq<T>, v2: seq<T>, y: T)
    ensures MemberCount(v1, v2 + [y]) == MemberCount(v1, v2) + (if y in v1 then 1 else 0)
  {
    assert (v2 + [y])[..|v2|] == v2;
  }

  /** When the entries of `a` are distinct, counting equal pairs is counting the positions
      of `b` whose value occurs in `a`: the two recall measures agree. */
  lemma {:induction false} PairCountIsMemberCount<T>(a: seq<T>, b: seq<T>)
    requires Distinct(a)
    ensures PairCount(a, b) == MemberCount(a, b)
    decreases |b|
  {
    if |b| > 0 {
      var init := b[..|b| - 1];
      var y := b[|b| - 1];
      assert b == init + [y];
      PairCountIsMemberCount(a, init);
      PairCountAppendRight(a, init, y);
      CountInDistinct(y, a);
      MemberCountAppend(a, init, y);
    }
  }

  /** Counting equal pairs does not depend on which sequence is walked first. */
  lemma {:induction false} PairCountSymmetric<T>(a: seq<T>, b: seq<T>)
    ensures PairCount(a, b) == PairCount(b, a)
    decreases |b|
  {
    if |b| > 0 {
      var init := b[..|b| - 1];
      var y := b[|b| - 1];
      assert b == init + [y];
      PairCountSymmetric(a, init);
      PairCountAppendRight(a, init, y);
    }
  }

  /** The membership count is additive over `v2`: every position of `v2` is counted on
      its own, so a repeated value in `v2` is counted once per repetition. */
  lemma {:induction false} MemberCountConcat<T>(v1: seq<T>, v2: seq<T>, w: seq<T>)
    ensures MemberCount(v1, v2 + w) == MemberCount(v1, v2) + MemberCount(v1, w)
    decreases |w|
  {
    if |w| > 0 {
      var init := w[..|w| - 1];
      var y := w[|w| - 1];
      assert w == init + [y];
      assert v2 + w == (v2 + init) + [y];
      MemberCountConcat(v1, v2, init);
      MemberCountAppend(v1, v2 + init, y);
      assert MemberCount(v1, w) == MemberCount(v1, init) + (if y in v1 then 1 else 0);
    } else {
      assert v2 + w == v2;
    }
  }

  /** The membership count depends on the values `v1` holds and not on how often it holds
      them: repetitions in `v1` never raise it. */
  lemma {:induction false} MemberCountBySet<T>(v1: seq<T>, u1: seq<T>, v2: seq<T>)
    requires forall x :: x in v1 <==> x in u1
    ensures MemberCount(v1, v2) == MemberCount(u1, v2)
    decreases |v2|
  {
    if |v2| > 0 {
      MemberCountBySet(v1, u1, v2[..|v2| - 1]);
    }
  }

  /** Every position is counted when `v1` holds every value of `v2`, and none when it
      holds none of them. */
  lemma {:induction false} MemberCountExtremes<T>(v1: seq<T>, v2: seq<T>)
    ensures (forall j :: 0 <= j < |v2| ==> v2[j] in v1) ==> MemberCount(v1, v2) == |v2|
    ensures (forall j :: 0 <= j < |v2| ==> v2[j] !in v1) ==> MemberCount(v1, v2) == 0
    decreases |v2|
  {
    if |v2| > 0 {
      var init := v2[..|v2| - 1];
      MemberCountExtremes(v1, init);
      assert forall j :: 0 <= j < |init| ==> init[j] == v2[j];
    }
  }

  /** A result compared with itself is counted in full. */
  lemma SelfMemberCount<T>(v: seq<T>)
    ensures MemberCount(v, v) == |v|
  {
    MemberCountExtremes(v, v);
  }

  /** A row without repetitions compared with itself gives one pair per entry. */
  lemma SelfPairCount<T>(a: seq<T>)
    requires Distinct(a)
    ensures PairCount(a, a) == |a|
  {
    PairCountIsMemberCount(a, a);
    SelfMemberCount(a);
  }

  /** The accumulated count never decreases as more rows are taken in. */
  lemma {:induction false} RecallsMonotone<T>(nns: seq<T>, gt: seq<T>, i: nat, rows: nat, w: nat)
    requires i <= rows && rows * w <= |nns| && rows * w <= |gt|
    ensures i * w <= rows * w
    ensures Recalls(nns, gt, i, w) <= Recalls(nns, gt, rows, w)
    decreases rows
  {
    if i < rows {
      RowsFit(rows - 1, rows, w);
      RecallsMonotone(nns, gt, i, rows - 1, w);
    }
  }

  /** Row `i` of `nns` is compared with row `i` of `gt` and nothing else: buffers that
      agree on their first `rows` rows give the same count. */
  lemma {:induction false} RecallsRowLocal<T>(nns: seq<T>, gt: seq<T>, nns': seq<T>, gt': seq<T>, rows: nat, w: nat)
    requires rows * w <= |nns| && rows * w <= |gt| && rows * w <= |nns'| && rows * w <= |gt'|
    requires nns[..rows * w] == nns'[..rows * w] && gt[..rows * w] == gt'[..rows * w]
    ensures Recalls(nns, gt, rows, w) == Recalls(nns', gt', rows, w)
    decreases rows
  {
    if rows > 0 {
      RowsFit(rows - 1, rows, w);
      var lo := (rows - 1) * w;
      PrefixAgree(nns, nns', lo, rows * w);
      PrefixAgree(gt, gt', lo, rows * w);
      RecallsRowLocal(nns, gt, nns', gt', rows - 1, w);
      assert Row(nns, rows - 1, w) == Row(nns', rows - 1, w);
      assert Row(gt, rows - 1, w) == Row(gt', rows - 1, w);
    }
  }

  /** Two sequences that agree on their first `hi` entries agree on every shorter prefix
      and on every slice below `hi`. */
  lemma PrefixAgree<T>(a: seq<T>, b: seq<T>, lo: nat, hi: nat)
    requires lo <= hi <= |a| && hi <= |b| && a[..hi] == b[..hi]
    ensures a[..lo] == b[..lo] && a[lo..hi] == b[lo..hi]
  {
    assert a[..lo] == a[..hi][..lo] && b[..lo] == b[..hi][..lo];
    assert a[lo..hi] == a[..hi][lo..] && b[lo..hi] == b[..hi][lo..];
  }

  /** When the search returns exactly the ground truth and no row repeats a neighbour,
      every returned neighbour is matched once: the count is `rows * w`, a recall of 1. */
  lemma {:induction false} FullRecall<T>(buf: seq<T>, rows: nat, w: nat)
    requires rows * w <= |buf|
    requires forall i :: 0 <= i < rows ==> i * w + w <= |buf| && Distinct(Row(buf, i, w))
    ensures Recalls(buf, buf, rows, w) == rows * w
    decreases rows
  {
    if rows > 0 {
      RowsFit(rows - 1, rows, w);
      assert (rows - 1) * w + w == rows * w;
      FullRecall(buf, rows - 1, w);
      SelfPairCount(Row(buf, rows - 1, w));
    }
  }

  /** The count once the triple loop has finished neighbour `n` of query `i` never exceeds
      the final count: each partial count is a prefix of the total. */
  lemma PartialBelowTotal<T>(nns: seq<T>, gt: seq<T>, i: nat, n: nat, rows: nat, w: nat)
    requires i < rows && n < w && rows * w <= |nns| && rows * w <= |gt|
    ensures i * w + w <= rows * w
    ensures Recalls(nns, gt, i, w) + PairCount(Row(nns, i, w)[..n], Row(gt, i, w))
              + CountIn(Row(nns, i, w)[n], Row(gt, i, w))
            <= Recalls(nns, gt, rows, w)
  {
    RowsFit(i, rows, w);
    var a, b := Row(nns, i, w), Row(gt, i, w);
    PairCountStep(a, n, b);
    PairCountPrefix(a, n + 1, b);
    assert a[..w] == a;
    RecallsMonotone(nns, gt, i + 1, rows, w);
  }


  /** When no ground-truth row repeats a label, counting equal pairs and counting matched
      neighbours agree. */
  lemma {:induction false} RecallsAgreeOnDistinctTruth<T>(nns: seq<T>, gt: seq<T>, rows: nat, w: nat)
    requires rows * w <= |nns| && rows * w <= |gt|
    requires forall i :: 0 <= i < rows ==> i * w + w <= |gt| && Distinct(Row(gt, i, w))
    ensures Recalls(nns, gt, rows, w) == RecallsOnce(nns, gt, rows, w)
    decreases rows
  {
    if rows > 0 {
      RowsFit(rows - 1, rows, w);
      RecallsAgreeOnDistinctTruth(nns, gt, rows - 1, w);
      var a, b := Row(nns, rows - 1, w), Row(gt, rows - 1, w);
      PairCountSymmetric(a, b);
      PairCountIsMemberCount(b, a);
    }
  }

  /** A ground-truth row that repeats a label, as a search that finds fewer than `w`
      neighbours leaves it padded with `-1`, makes the pair count exceed `rows * w`: one query
      with two returned `-1` labels against two ground-truth `-1` labels counts four pairs,
      a recall of 2. Counting matched neighbours gives 2, a recall of 1. */
  lemma RecallsCanExceedOne()
    ensures Recalls([-1, -1], [-1, -1], 1, 2) == 4 > 1 * 2
    ensures RecallsOnce([-1, -1], [-1, -1], 1, 2) == 2
  {
    var row := [-1, -1];
    assert Row(row, 0, 2) == row;
    assert row[..1] == [-1];
    assert CountIn(-1, row) == 2 by {
      assert CountIn(-1, row[..1]) == 1 by {
        assert row[..1][..0] == [];
      }
    }
    assert PairCount(row, row) == 4 by {
      assert PairCount(row[..1], row) == 2 by {
        assert row[..1][..0] == [];
      }
    }
    assert MemberCount(row, row) == 2 by {
      assert MemberCount(row, row[..1]) == 1 by {
        assert row[..1][..0] == [];
      }
    }
  }
}
