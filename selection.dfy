/**
 * What a priority queue hands out when it is drained: the abstract meaning of every
 * `top()`/`pop()` loop in the drivers. `before(x, y)` holds when the queue may hand out
 * `x` no later than `y`; for `std::priority_queue<float, std::vector<float>, std::greater<float>>`
 * that is `x <= y`, for the default `std::less` on pairs it is "not `x < y`".
 */
module Selection {

  /** `before` is a total order: reflexive, antisymmetric, transitive and total. */
  ghost predicate TotalOrder<T(!new)>(before: (T, T) -> bool) {
    && (forall x :: before(x, x))
    && (forall x, y :: Antisymmetric(before, x, y))
    && (forall x, y, z :: Chain(before, x, y, z))
    && (forall x, y :: Comparable(before, x, y))
  }

  /** Antisymmetry at `x`, `y`. This and the two predicates below are kept apart so that
      a proof applies each law only where it names the elements. */
  ghost predicate Antisymmetric<T>(before: (T, T) -> bool, x: T, y: T) {
    before(x, y) && before(y, x) ==> x == y
  }

  /** Transitivity at `x`, `y`, `z`. */
  ghost predicate Chain<T>(before: (T, T) -> bool, x: T, y: T, z: T) {
    before(x, y) && before(y, z) ==> before(x, z)
  }

  /** Totality at `x`, `y`. */
  ghost predicate Comparable<T>(before: (T, T) -> bool, x: T, y: T) {
    before(x, y) || before(y, x)
  }

  /** `x` is what `top()` returns for a queue holding `m`. */
  predicate IsFirst<T(==)>(x: T, m: multiset<T>, before: (T, T) -> bool) {
    x in m && forall y {:trigger m[y]} :: y in m ==> before(x, y)
  }

  /** `s` is ordered: every element may be handed out no later than every later one. */
  ghost predicate Ordered<T>(s: seq<T>, before: (T, T) -> bool) {
    forall i, j :: 0 <= i < j < |s| ==> before(s[i], s[j])
  }

  /** `row` holds the `k` first elements of `m`, in order: ordered, a sub-multiset of `m`,
      and no element left behind in `m` comes before an element of `row`. */
  ghost predicate IsTopK<T(!new)>(row: seq<T>, m: multiset<T>, k: nat, before: (T, T) -> bool) {
    && |row| == k
    && Ordered(row, before)
    && multiset(row) <= m
    && forall i, y :: 0 <= i < |row| && y in m - multiset(row) ==> before(row[i], y)
  }

  /** A non-empty queue has a top element. */
  lemma {:induction false} FirstExists<T(!new)>(m: multiset<T>, before: (T, T) -> bool)
    requires TotalOrder(before) && m != multiset{}
    ensures exists x :: IsFirst(x, m, before)
    decreases |m|
  {
    var z :| z in m;
    var rest := m - multiset{z};
    assert m == rest + multiset{z};
    if rest == multiset{} {
      assert IsFirst(z, m, before);
    } else {
      FirstExists(rest, before);
      var x :| IsFirst(x, rest, before);
      if before(z, x) {
        forall y | y in rest ensures before(z, y) {
          assert Chain(before, z, x, y);
        }
        assert IsFirst(z, m, before);
      } else {
        assert Comparable(before, z, x);
        assert IsFirst(x, m, before);
      }
    }
  }

  /** The element `top()` returns. */
  ghost function First<T(!new)>(m: multiset<T>, before: (T, T) -> bool): (x: T)
    requires TotalOrder(before) && m != multiset{}
    ensures IsFirst(x, m, before)
  {
    FirstExists(m, before);
    var x :| IsFirst(x, m, before); x
  }

  /** Under a total order the top element is unique. */
  lemma FirstUnique<T(!new)>(x: T, m: multiset<T>, before: (T, T) -> bool)
    requires TotalOrder(before) && IsFirst(x, m, before)
    ensures First(m, before) == x
  {
    assert Antisymmetric(before, x, First(m, before));
  }

  /** The sequence `k` successive `top()`/`pop()` pairs read out of a queue holding `m`. */
  ghost function PopOrder<T(!new)>(m: multiset<T>, k: nat, before: (T, T) -> bool): (r: seq<T>)
    requires TotalOrder(before) && k <= |m|
    ensures |r| == k
    decreases k
  {
    if k == 0 then []
    else
      var x := First(m, before);
      [x] + PopOrder(m - multiset{x}, k - 1, before)
  }

  /** One drain step: reading the top `x` and then draining the rest of the queue. */
  lemma PopOrderStep<T(!new)>(m: multiset<T>, k: nat, x: T, before: (T, T) -> bool)
    requires TotalOrder(before) && 0 < k <= |m| && IsFirst(x, m, before)
    ensures |m - multiset{x}| == |m| - 1
    ensures PopOrder(m, k, before) == [x] + PopOrder(m - multiset{x}, k - 1, before)
  {
    FirstUnique(x, m, before);
  }

  /** The head of a top-`k` row is the top element, and its tail is the top-`(k - 1)` of the rest. */
  lemma TopKUncons<T(!new)>(row: seq<T>, m: multiset<T>, k: nat, before: (T, T) -> bool)
    requires TotalOrder(before) && 0 < k && IsTopK(row, m, k, before)
    ensures row[0] == First(m, before) && row == [row[0]] + row[1..]
    ensures IsTopK(row[1..], m - multiset{row[0]}, k - 1, before)
  {
    var x := row[0];
    var tail := row[1..];
    assert row == [x] + tail;
    assert multiset(row) == multiset{x} + multiset(tail);
    forall y | y in m ensures before(x, y) {
      if y in row {
        var j :| 0 <= j < |row| && row[j] == y;
        if j > 0 {
          assert before(row[0], row[j]);
        }
      } else {
        assert y in m - multiset(row);
        assert before(row[0], y);
      }
    }
    FirstUnique(x, m, before);
    var m' := m - multiset{x};
    assert m' - multiset(tail) == m - multiset(row);
    forall i, j | 0 <= i < j < |tail| ensures before(tail[i], tail[j]) {
      assert tail[i] == row[i + 1] && tail[j] == row[j + 1];
    }
    forall i, b | 0 <= i < |tail| && b in m' - multiset(tail) ensures before(tail[i], b) {
      assert tail[i] == row[i + 1];
    }
  }

  /** Putting an element of `m` in front of a sub-multiset of the rest gives a
      sub-multiset of `m`. */
  lemma ConsSubMultiset<T>(x: T, tail: seq<T>, m: multiset<T>)
    requires x in m && multiset(tail) <= m - multiset{x}
    ensures multiset([x] + tail) <= m
  {
    assert multiset([x] + tail) == multiset{x} + multiset(tail);
    assert m == (m - multiset{x}) + multiset{x};
  }

  /** Putting the top element in front keeps everything left behind no earlier than
      everything taken. */
  lemma ConsLeavesLater<T>(x: T, tail: seq<T>, m: multiset<T>, before: (T, T) -> bool)
    requires IsFirst(x, m, before)
    requires forall i, b :: 0 <= i < |tail| && b in (m - multiset{x}) - multiset(tail) ==> before(tail[i], b)
    ensures var r := [x] + tail;
      forall i, b :: 0 <= i < |r| && b in m - multiset(r) ==> before(r[i], b)
  {
    var r := [x] + tail;
    assert multiset(r) == multiset{x} + multiset(tail);
    assert m - multiset(r) == (m - multiset{x}) - multiset(tail);
    forall i, b | 0 <= i < |r| && b in m - multiset(r) ensures before(r[i], b) {
      if i > 0 {
        assert r[i] == tail[i - 1];
      }
    }
  }

  /** Putting the top element in front of an ordered sequence of other elements of the
      queue keeps it ordered. */
  lemma ConsOrdered<T>(x: T, tail: seq<T>, m: multiset<T>, before: (T, T) -> bool)
    requires IsFirst(x, m, before) && Ordered(tail, before) && multiset(tail) <= m - multiset{x}
    ensures Ordered([x] + tail, before)
  {
    var r := [x] + tail;
    forall i, j | 0 <= i < j < |r| ensures before(r[i], r[j]) {
      if i == 0 {
        assert r[j] == tail[j - 1] && tail[j - 1] in multiset(tail);
      } else {
        assert r[i] == tail[i - 1] && r[j] == tail[j - 1];
      }
    }
  }

  /** Putting the top element of `m` in front of the `k - 1` first elements of the rest
      gives the `k` first elements of `m`. */
  lemma ConsTopK<T(!new)>(x: T, tail: seq<T>, m: multiset<T>, k: nat, before: (T, T) -> bool)
    requires 0 < k && IsFirst(x, m, before) && IsTopK(tail, m - multiset{x}, k - 1, before)
    ensures IsTopK([x] + tail, m, k, before)
  {
    ConsSubMultiset(x, tail, m);
    ConsLeavesLater(x, tail, m, before);
    ConsOrdered(x, tail, m, before);
  }

  /** Draining `k` elements yields the `k` first elements of the queue, in order. */
  lemma {:induction false} PopOrderIsTopK<T(!new)>(m: multiset<T>, k: nat, before: (T, T) -> bool)
    requires TotalOrder(before) && k <= |m|
    ensures IsTopK(PopOrder(m, k, before), m, k, before)
    decreases k
  {
    if k > 0 {
      var x := First(m, before);
      PopOrderIsTopK(m - multiset{x}, k - 1, before);
      ConsTopK(x, PopOrder(m - multiset{x}, k - 1, before), m, k, before);
    } else {
      assert PopOrder(m, k, before) == [];
    }
  }

  /** Whatever is the `k` first elements of the queue, in order, is exactly what draining yields. */
  lemma {:induction false} TopKIsPopOrder<T(!new)>(row: seq<T>, m: multiset<T>, k: nat, before: (T, T) -> bool)
    requires TotalOrder(before) && k <= |m| && IsTopK(row, m, k, before)
    ensures row == PopOrder(m, k, before)
    decreases k
  {
    if k > 0 {
      TopKUncons(row, m, k, before);
      TopKIsPopOrder(row[1..], m - multiset{row[0]}, k - 1, before);
    } else {
      assert row == [];
    }
  }

  /** Draining is characterised by its result: a row is what `k` pops produce exactly when
      it holds the `k` first elements of the queue in order. */
  lemma TopKCharacterization<T(!new)>(row: seq<T>, m: multiset<T>, k: nat, before: (T, T) -> bool)
    requires TotalOrder(before) && k <= |m|
    ensures IsTopK(row, m, k, before) <==> row == PopOrder(m, k, before)
  {
    PopOrderIsTopK(m, k, before);
    if IsTopK(row, m, k, before) {
      TopKIsPopOrder(row, m, k, before);
    }
  }
}
