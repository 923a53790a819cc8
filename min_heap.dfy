/**
 * `std::priority_queue<float, std::vector<float>, std::greater<float>>` as used by
 * `BruteForceSearch::search_ip_amx`: a binary min-heap kept in a growable array.
 * Scores are only ever compared, so they are modelled as `int`.
 */
module PriorityQueue {

  function Parent(i: nat): (p: nat)
    requires i > 0
    ensures p < i
  {
    (i - 1) / 2
  }

  /** The heap order `std::greater` gives: no element is smaller than its parent. */
  ghost predicate IsMinHeap(s: seq<int>) {
    forall i {:trigger Parent(i)} :: 0 < i < |s| ==> s[Parent(i)] <= s[i]
  }

  /** Heap order during sift-up: it holds everywhere except between `k` and its parent,
      and `k`'s parent is no larger than `k`'s children. */
  ghost predicate HeapExceptUp(s: seq<int>, k: nat) {
    && (forall i {:trigger Parent(i)} :: 0 < i < |s| && i != k ==> s[Parent(i)] <= s[i])
    && (forall i {:trigger Parent(i)} :: 0 < i < |s| && Parent(i) == k && k > 0 ==> s[Parent(k)] <= s[i])
  }

  /** Heap order during sift-down: it holds everywhere except between `k` and its children,
      and `k`'s parent is no larger than `k`'s children. */
  ghost predicate HeapExceptDown(s: seq<int>, k: nat) {
    && (forall i {:trigger Parent(i)} :: 0 < i < |s| && Parent(i) != k ==> s[Parent(i)] <= s[i])
    && (forall i {:trigger Parent(i)} :: 0 < i < |s| && Parent(i) == k && k > 0 ==> s[Parent(k)] <= s[i])
  }

  /** The only children of `k` are `2k + 1` and `2k + 2`. */
  lemma ChildrenOf(k: nat)
    ensures forall i: nat :: 0 < i && Parent(i) == k ==> i == 2 * k + 1 || i == 2 * k + 2
  {
  }

  /** Appending to a heap breaks the heap order only above the new last element. */
  lemma AppendToHeap(s: seq<int>, x: int)
    requires IsMinHeap(s)
    ensures HeapExceptUp(s + [x], |s|)
  {
  }

  /** `c` is the child of `k` that sift-down picks: the smaller one, the left one on a tie. */
  predicate IsSmallerChild(s: seq<int>, k: nat, c: nat) {
    && c < |s| && (c == 2 * k + 1 || c == 2 * k + 2)
    && (c == 2 * k + 1 ==> c + 1 >= |s| || s[c] <= s[c + 1])
    && (c == 2 * k + 2 ==> s[c] < s[c - 1])
  }

  /** The smaller child is no larger than any child of `k`. */
  lemma SmallestChild(s: seq<int>, k: nat, c: nat)
    requires IsSmallerChild(s, k, c)
    ensures c > 0 && Parent(c) == k
    ensures forall i {:trigger Parent(i)} :: 0 < i < |s| && Parent(i) == k ==> s[c] <= s[i]
  {
    ChildrenOf(k);
  }

  function Swap(s: seq<int>, i: nat, j: nat): (r: seq<int>)
    requires i < |s| && j < |s|
    ensures |r| == |s| && multiset(r) == multiset(s)
    ensures r[i] == s[j] && r[j] == s[i]
    ensures forall l :: 0 <= l < |s| && l != i && l != j ==> r[l] == s[l]
  {
    s[i := s[j]][j := s[i]]
  }

  /** The root of a heap is no larger than any element on the path up from `i`. */
  lemma {:induction false} RootBelow(s: seq<int>, i: nat)
    requires IsMinHeap(s) && i < |s|
    ensures s[0] <= s[i]
    decreases i
  {
    if i > 0 {
      RootBelow(s, Parent(i));
    }
  }

  /** The root of a non-empty heap is its minimum. */
  lemma RootIsMinimum(s: seq<int>)
    requires IsMinHeap(s) && |s| > 0
    ensures forall y :: y in multiset(s) ==> s[0] <= y
  {
    forall y | y in multiset(s) ensures s[0] <= y {
      var i :| 0 <= i < |s| && s[i] == y;
      RootBelow(s, i);
    }
  }

  lemma SiftUpStep(s: seq<int>, k: nat)
    requires 0 < k < |s| && HeapExceptUp(s, k) && s[Parent(k)] > s[k]
    ensures HeapExceptUp(Swap(s, Parent(k), k), Parent(k))
  {
    var p := Parent(k);
    var r := Swap(s, p, k);
    forall i | 0 < i < |r| && i != p ensures r[Parent(i)] <= r[i] {
      if i == k {
      } else if Parent(i) == k {
      } else if Parent(i) == p {
        assert s[p] <= s[i];
      } else {
        assert r[Parent(i)] == s[Parent(i)];
      }
    }
    forall i | 0 < i < |r| && Parent(i) == p && p > 0 ensures r[Parent(p)] <= r[i] {
      assert r[Parent(p)] == s[Parent(p)];
      if i != k {
        assert s[p] <= s[i];
      }
    }
  }

  lemma SiftUpDone(s: seq<int>, k: nat)
    requires k < |s| && HeapExceptUp(s, k) && (k == 0 || s[Parent(k)] <= s[k])
    ensures IsMinHeap(s)
  {
  }

  lemma SiftDownStep(s: seq<int>, k: nat, c: nat)
    requires IsSmallerChild(s, k, c) && HeapExceptDown(s, k) && s[c] < s[k]
    ensures k < c && HeapExceptDown(Swap(s, k, c), c)
  {
    SmallestChild(s, k, c);
    var r := Swap(s, k, c);
    forall i | 0 < i < |r| && Parent(i) != c ensures r[Parent(i)] <= r[i] {
      if i == c {
      } else if Parent(i) == k {
      } else if i == k {
        assert s[Parent(k)] <= s[c];
      } else {
        assert r[Parent(i)] == s[Parent(i)];
      }
    }
    forall i | 0 < i < |r| && Parent(i) == c ensures r[Parent(c)] <= r[i] {
      assert s[c] <= s[i];
    }
  }

  lemma SiftDownDone(s: seq<int>, k: nat)
    requires HeapExceptDown(s, k)
    requires 2 * k + 1 < |s| ==> exists c: nat :: IsSmallerChild(s, k, c) && s[k] <= s[c]
    ensures IsMinHeap(s)
  {
    ChildrenOf(k);
    if 2 * k + 1 < |s| {
      var c: nat :| IsSmallerChild(s, k, c) && s[k] <= s[c];
      SmallestChild(s, k, c);
    }
  }

  /** Moving the last element to the root of a heap leaves `s[0]` out and breaks the heap
      order only below the root. */
  lemma MoveLastToRoot(s: seq<int>)
    requires IsMinHeap(s) && |s| > 0
    ensures multiset(s[0 := s[|s| - 1]][..|s| - 1]) == multiset(s) - multiset{s[0]}
    ensures HeapExceptDown(s[0 := s[|s| - 1]][..|s| - 1], 0)
  {
    var n := |s|;
    var r := s[0 := s[n - 1]][..n - 1];
    if n > 1 {
      assert s == [s[0]] + s[1..n - 1] + [s[n - 1]];
      assert r == [s[n - 1]] + s[1..n - 1];
    }
  }

  class MinHeap {
    var data: array<int>
    var size: nat

    ghost predicate Valid()
      reads this, data
    {
      size <= data.Length && IsMinHeap(data[..size])
    }

    /** The scores the queue holds. */
    ghost function Elems(): multiset<int>
      reads this, data
      requires Valid()
    {
      multiset(data[..size])
    }

    /** The least score the queue holds. */
    ghost function Min(): (x: int)
      reads this, data
      requires Valid() && size > 0
      ensures x in Elems() && forall y :: y in Elems() ==> x <= y
    {
      RootIsMinimum(data[..size]);
      data[0]
    }

    constructor ()
      ensures Valid() && Elems() == multiset{} && fresh(data)
    {
      data := new int[0];
      size := 0;
    }

    /** `top()`: the least score held. */
    method Top() returns (x: int)
      requires Valid() && size > 0
      ensures x in Elems() && forall y :: y in Elems() ==> x <= y
    {
      x := data[0];
      RootIsMinimum(data[..size]);
    }

    /** `push(x)`: adds one copy of `x`, growing the storage when it is full. */
    method Push(x: int)
      requires Valid()
      modifies this, data
      ensures Valid() && Elems() == old(Elems()) + multiset{x}
      ensures data == old(data) || fresh(data)
    {
      if size == data.Length {
        Grow();
      }
      ghost var before := data[..size];
      data[size] := x;
      size := size + 1;
      assert data[..size] == before + [x];
      AppendToHeap(before, x);
      SiftUp(size - 1);
    }

    /** Moves the contents into storage twice as large, as `std::vector` does when full. */
    method Grow()
      requires size <= data.Length
      modifies this
      ensures size == old(size) && size < data.Length && fresh(data)
      ensures data[..size] == old(data[..size])
    {
      var grown := new int[2 * data.Length + 1];
      forall i | 0 <= i < size {
        grown[i] := data[i];
      }
      data := grown;
    }

    /** `pop()`: removes one copy of the least score. */
    method Pop()
      requires Valid() && size > 0
      modifies this, data
      ensures Valid() && data == old(data)
      ensures Elems() == old(Elems()) - multiset{old(Min())}
    {
      ghost var s := data[..size];
      MoveLastToRoot(s);
      MoveLastToFront();
      if size > 0 {
        SiftDown(0);
      }
    }

    /** The first half of `pop()`: the last element overwrites the root and the size shrinks. */
    method MoveLastToFront()
      requires 0 < size <= data.Length
      modifies this, data
      ensures data == old(data) && size == old(size) - 1
      ensures data[..size] == old(data[..size])[0 := old(data[size - 1])][..size]
    {
      data[0] := data[size - 1];
      size := size - 1;
    }

    method Exchange(i: nat, j: nat)
      requires size <= data.Length && i < size && j < size
      modifies data
      ensures data[..size] == Swap(old(data[..size]), i, j)
    {
      data[i], data[j] := data[j], data[i];
    }

    method SiftUp(k0: nat)
      requires size <= data.Length && k0 < size && HeapExceptUp(data[..size], k0)
      modifies data
      ensures IsMinHeap(data[..size]) && multiset(data[..size]) == old(multiset(data[..size]))
    {
      var k: nat := k0;
      while k > 0 && data[Parent(k)] > data[k]
        invariant k < size
        invariant HeapExceptUp(data[..size], k)
        invariant multiset(data[..size]) == old(multiset(data[..size]))
        decreases k
      {
        var p := Parent(k);
        SiftUpStep(data[..size], k);
        Exchange(p, k);
        k := p;
      }
      SiftUpDone(data[..size], k);
    }

    /** The smaller of `k`'s children, the left one on a tie. */
    function SmallerChild(k: nat): (c: nat)
      reads this, data
      requires size <= data.Length && 2 * k + 1 < size
      ensures IsSmallerChild(data[..size], k, c)
    {
      if 2 * k + 2 < size && data[2 * k + 2] < data[2 * k + 1] then 2 * k + 2 else 2 * k + 1
    }

    method SiftDown(k0: nat)
      requires size <= data.Length && k0 < size && HeapExceptDown(data[..size], k0)
      modifies data
      ensures IsMinHeap(data[..size]) && multiset(data[..size]) == old(multiset(data[..size]))
    {
      var k: nat := k0;
      while 2 * k + 1 < size && data[SmallerChild(k)] < data[k]
        invariant k < size
        invariant HeapExceptDown(data[..size], k)
        invariant multiset(data[..size]) == old(multiset(data[..size]))
        decreases size - k
      {
        var c := SmallerChild(k);
        SiftDownStep(data[..size], k, c);
        Exchange(k, c);
        k := c;
      }
      SiftDownDone(data[..size], k);
    }
  }
}
