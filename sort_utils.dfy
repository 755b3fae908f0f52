/** The helpers of the bucket-sort exercise: an in-place insertion sort and
    the split of non-negative integers into buckets by value range. */
module SortUtils {

  /** Non-decreasing order. */
  predicate Sorted(s: seq<int>)
  {
    forall i, j :: 0 <= i < j < |s| ==> s[i] <= s[j]
  }

  // ------------------------------------------------------ insertion sort

  /** `x` inserted into `t` the way the inner loop does it: walking from the
      right, every element greater than `x` moves one place up, and `x` lands
      just after the first element (from the right) that is not greater. */
  function Insert(t: seq<int>, x: int): (r: seq<int>)
    ensures |r| == |t| + 1
  {
    if t == [] then [x]
    else if t[|t| - 1] > x then Insert(t[..|t| - 1], x) + [t[|t| - 1]]
    else t + [x]
  }

  /** The place where `Insert` puts `x`. */
  function Position(t: seq<int>, x: int): (p: nat)
    ensures p <= |t|
  {
    if t == [] then 0
    else if t[|t| - 1] > x then Position(t[..|t| - 1], x)
    else |t|
  }

  /** `Insert` keeps the order of `t` and puts `x` after every element that
      is not greater than it, so equal elements keep their relative order:
      every element after `x` is greater, and when `t` is sorted every
      element before `x` is at most `x`. */
  lemma {:induction false} InsertAt(t: seq<int>, x: int)
    ensures Insert(t, x) == t[..Position(t, x)] + [x] + t[Position(t, x)..]
    ensures forall k :: Position(t, x) <= k < |t| ==> t[k] > x
    ensures Sorted(t) ==> forall k :: 0 <= k < Position(t, x) ==> t[k] <= x
  {
    if t != [] && t[|t| - 1] > x {
      var u := t[..|t| - 1];
      InsertAt(u, x);
      var p := Position(u, x);
      assert u[..p] == t[..p];
      assert t[p..] == u[p..] + [t[|t| - 1]];
    }
  }

  /** Inserting into a sorted sequence gives a sorted sequence. */
  lemma InsertSorted(t: seq<int>, x: int)
    requires Sorted(t)
    ensures Sorted(Insert(t, x))
  {
    InsertAt(t, x);
    var p := Position(t, x);
    var r := Insert(t, x);
    forall i, j | 0 <= i < j < |r|
      ensures r[i] <= r[j]
    {
      if i < p && j > p {
        assert r[i] == t[i] && r[j] == t[j - 1];
      } else if i == p && j > p {
        assert r[j] == t[j - 1];
      } else if j == p {
        assert r[i] == t[i];
      } else if j < p {
        assert r[i] == t[i] && r[j] == t[j];
      } else {
        assert r[i] == t[i - 1] && r[j] == t[j - 1];
      }
    }
  }

  /** Inserting adds `x` and keeps every element of `t`. */
  lemma InsertMultiset(t: seq<int>, x: int)
    ensures multiset(Insert(t, x)) == multiset(t) + multiset{x}
  {
    InsertAt(t, x);
    var p := Position(t, x);
    assert t == t[..p] + t[p..];
  }

  /** The first `i` elements of `s` once the outer loop has inserted them
      one after the other. */
  function SortPrefix(s: seq<int>, i: nat): (r: seq<int>)
    requires i <= |s|
    ensures |r| == i
  {
    if i == 0 then [] else Insert(SortPrefix(s, i - 1), s[i - 1])
  }

  /** What `insertion_sort` leaves in the array. */
  function InsertionSorted(s: seq<int>): (r: seq<int>)
  {
    SortPrefix(s, |s|)
  }

  /** Each sorted prefix is sorted. */
  lemma {:induction false} SortPrefixSorted(s: seq<int>, i: nat)
    requires i <= |s|
    ensures Sorted(SortPrefix(s, i))
  {
    if i > 0 {
      SortPrefixSorted(s, i - 1);
      InsertSorted(SortPrefix(s, i - 1), s[i - 1]);
    }
  }

  /** Each sorted prefix holds the elements of that prefix. */
  lemma {:induction false} SortPrefixMultiset(s: seq<int>, i: nat)
    requires i <= |s|
    ensures multiset(SortPrefix(s, i)) == multiset(s[..i])
  {
    if i > 0 {
      var p, x := SortPrefix(s, i - 1), s[i - 1];
      SortPrefixMultiset(s, i - 1);
      InsertMultiset(p, x);
      assert multiset(SortPrefix(s, i)) == multiset(p) + multiset{x};
      assert s[..i] == s[..i - 1] + [x];
    }
  }

  /** Insertion sort yields a sorted permutation of its input. */
  lemma InsertionSortedSpec(s: seq<int>)
    ensures Sorted(InsertionSorted(s))
    ensures multiset(InsertionSorted(s)) == multiset(s)
  {
    SortPrefixSorted(s, |s|);
    SortPrefixMultiset(s, |s|);
    assert s[..|s|] == s;
  }

  /** `insertion_sort`: sorts the array in place and returns it. */
  method InsertionSort(a: array<int>) returns (r: array<int>)
    modifies a
    ensures r == a
    ensures a[..] == InsertionSorted(old(a[..]))
    ensures Sorted(a[..]) && multiset(a[..]) == multiset(old(a[..]))
  {
    ghost var s := a[..];
    var i := 1;
    while i < a.Length
      invariant 1 <= i
      invariant a.Length > 0 ==> i <= a.Length && a[..i] == SortPrefix(s, i) && a[i..] == s[i..]
    {
      InsertNext(a, i);
      assert a[..i + 1] == Insert(SortPrefix(s, i), s[i]);
      i := i + 1;
    }
    if a.Length > 0 {
      assert a[..] == a[..a.Length];
    }
    InsertionSortedSpec(s);
    r := a;
  }

  /** One pass of the outer loop: `array[i]` is inserted into the sorted
      prefix `array[..i]` by shifting the greater elements up. */
  method InsertNext(a: array<int>, i: nat)
    requires 1 <= i < a.Length
    modifies a
    ensures a[..i + 1] == Insert(old(a[..i]), old(a[i]))
    ensures a[i + 1..] == old(a[i + 1..])
  {
    ghost var t := a[..i];
    var up := a[i];
    var j := i - 1;
    assert t[..i] == t && t[i..] == [];
    while j >= 0 && a[j] > up
      invariant -1 <= j < i
      invariant forall k :: 0 <= k <= j ==> a[k] == t[k]
      invariant forall k :: j + 2 <= k <= i ==> a[k] == t[k - 1]
      invariant a[i + 1..] == old(a[i + 1..])
      invariant Insert(t, up) == Insert(t[..j + 1], up) + t[j + 1..]
    {
      a[j + 1] := a[j];
      InsertPeel(t, up, j);
      j := j - 1;
    }
    a[j + 1] := up;
    InsertPlaced(a[..], t, up, j);
  }

  /** Inserting into `t[..j + 1]` when `t[j]` is greater moves `t[j]` last. */
  lemma InsertPeel(t: seq<int>, up: int, j: int)
    requires 0 <= j < |t| && t[j] > up
    ensures Insert(t[..j + 1], up) + t[j + 1..] == Insert(t[..j], up) + t[j..]
  {
    assert t[..j + 1][..j] == t[..j];
    assert t[j..] == [t[j]] + t[j + 1..];
  }

  /** The array after the shift: `t[..j + 1]`, then `up`, then the shifted
      rest of `t`, which is `Insert(t, up)` when no element up to `j`
      exceeds `up`. */
  lemma InsertPlaced(s: seq<int>, t: seq<int>, up: int, j: int)
    requires -1 <= j < |t| < |s|
    requires forall k :: 0 <= k <= j ==> s[k] == t[k]
    requires s[j + 1] == up
    requires forall k :: j + 2 <= k <= |t| ==> s[k] == t[k - 1]
    requires j >= 0 ==> t[j] <= up
    requires Insert(t, up) == Insert(t[..j + 1], up) + t[j + 1..]
    ensures s[..|t| + 1] == Insert(t, up)
  {
    assert Insert(t[..j + 1], up) == t[..j + 1] + [up];
    assert s[..|t| + 1] == t[..j + 1] + [up] + t[j + 1..];
  }

  // ---------------------------------------------------------- bucket split

  /** The largest element of a non-empty sequence. */
  function Max(s: seq<int>): (m: int)
    requires |s| > 0
    ensures forall k :: 0 <= k < |s| ==> s[k] <= m
    ensures exists k :: 0 <= k < |s| && s[k] == m
  {
    if |s| == 1 then s[0]
    else
      var m' := Max(s[..|s| - 1]);
      if s[|s| - 1] > m' then s[|s| - 1] else m'
  }

  /** `int(np.floor(bucket_size * e / m))` for a non-negative integer `e`
      and a positive `m`: the bucket `e` belongs to. */
  function BucketIndex(e: int, bucketSize: nat, m: int): int
    requires m >= 1
  {
    (bucketSize * e) / m
  }

  /** Every value of `0 .. m - 1` has a bucket in `0 .. bucketSize - 1`. */
  lemma BucketIndexInRange(e: int, bucketSize: nat, m: int)
    requires 0 <= e < m && bucketSize >= 1
    ensures 0 <= BucketIndex(e, bucketSize, m) < bucketSize
  {
    var q := BucketIndex(e, bucketSize, m);
    assert bucketSize * e == q * m + (bucketSize * e) % m;
    assert bucketSize * e < bucketSize * m;
    if q >= bucketSize {
      assert false;
    }
  }

  /** A greater value never goes to an earlier bucket. */
  lemma BucketIndexMonotone(x: int, y: int, bucketSize: nat, m: int)
    requires 0 <= x <= y && m >= 1
    ensures BucketIndex(x, bucketSize, m) <= BucketIndex(y, bucketSize, m)
  {
    var qx, qy := BucketIndex(x, bucketSize, m), BucketIndex(y, bucketSize, m);
    MulMonotone(x, y, bucketSize);
    assert bucketSize * x == qx * m + (bucketSize * x) % m;
    assert bucketSize * y == qy * m + (bucketSize * y) % m;
    if qx > qy {
      MulMonotone(qy + 1, qx, m);
      assert false;
    }
  }

  /** Multiplying by a non-negative factor keeps the order. */
  lemma MulMonotone(a: int, b: int, c: nat)
    requires a <= b
    ensures a * c <= b * c
  {
    assert b * c - a * c == (b - a) * c;
  }

  /** The elements of `s` whose bucket is `k`, in the order of `s`. */
  function Bucket(s: seq<int>, bucketSize: nat, m: int, k: int): seq<int>
    requires m >= 1
  {
    if s == [] then []
    else Bucket(s[..|s| - 1], bucketSize, m, k) + (if BucketIndex(s[|s| - 1], bucketSize, m) == k then [s[|s| - 1]] else [])
  }

  /** A value is in bucket `k` exactly when it occurs in `s` and its bucket is `k`. */
  lemma {:induction false} BucketMembers(s: seq<int>, bucketSize: nat, m: int, k: int)
    requires m >= 1
    ensures forall x :: x in Bucket(s, bucketSize, m, k) <==> x in s && BucketIndex(x, bucketSize, m) == k
  {
    if s != [] {
      BucketMembers(s[..|s| - 1], bucketSize, m, k);
      assert s == s[..|s| - 1] + [s[|s| - 1]];
    }
  }

  /** An element of bucket `k` of a non-negative sequence is a non-negative
      value whose bucket is `k`. */
  lemma BucketElement(s: seq<int>, bucketSize: nat, m: int, k: int, x: int)
    requires m >= 1 && forall t :: 0 <= t < |s| ==> s[t] >= 0
    requires x in Bucket(s, bucketSize, m, k)
    ensures x >= 0 && BucketIndex(x, bucketSize, m) == k
  {
    BucketMembers(s, bucketSize, m, k);
    var i :| 0 <= i < |s| && s[i] == x;
  }

  /** The buckets `0 .. n - 1`, joined as multisets. */
  function BucketsUnion(s: seq<int>, bucketSize: nat, m: int, n: nat): multiset<int>
    requires m >= 1
  {
    if n == 0 then multiset{} else BucketsUnion(s, bucketSize, m, n - 1) + multiset(Bucket(s, bucketSize, m, n - 1))
  }

  /** When every element of `s` has a bucket below `n`, the buckets
      `0 .. n - 1` together hold every element of `s` exactly as often as
      `s` does: each element lands in exactly one bucket. */
  lemma {:induction false} BucketsPartition(s: seq<int>, bucketSize: nat, m: int, n: nat)
    requires m >= 1
    requires forall k :: 0 <= k < |s| ==> 0 <= BucketIndex(s[k], bucketSize, m) < n
    ensures BucketsUnion(s, bucketSize, m, n) == multiset(s)
  {
    if s != [] {
      var u, x := s[..|s| - 1], s[|s| - 1];
      assert forall k :: 0 <= k < |u| ==> u[k] == s[k];
      assert s == u + [x];
      BucketsPartition(u, bucketSize, m, n);
      BucketsUnionAppend(u, x, bucketSize, m, n);
      assert 0 <= BucketIndex(x, bucketSize, m) < n;
      assert BucketsUnion(s, bucketSize, m, n) == BucketsUnion(u, bucketSize, m, n) + multiset{x};
      assert multiset(s) == multiset(u) + multiset{x};
    } else {
      BucketsUnionEmpty(bucketSize, m, n);
    }
  }

  /** The buckets of the empty sequence are empty. */
  lemma {:induction false} BucketsUnionEmpty(bucketSize: nat, m: int, n: nat)
    requires m >= 1
    ensures BucketsUnion([], bucketSize, m, n) == multiset{}
  {
    if n > 0 {
      BucketsUnionEmpty(bucketSize, m, n - 1);
    }
  }

  /** Appending `x` to `s` adds `x` to the union when its bucket is below `n`. */
  lemma {:induction false} BucketsUnionAppend(s: seq<int>, x: int, bucketSize: nat, m: int, n: nat)
    requires m >= 1
    ensures BucketsUnion(s + [x], bucketSize, m, n)
            == BucketsUnion(s, bucketSize, m, n) + (if 0 <= BucketIndex(x, bucketSize, m) < n then multiset{x} else multiset{})
  {
    assert (s + [x])[..|s + [x]| - 1] == s;
    if n > 0 {
      BucketsUnionAppend(s, x, bucketSize, m, n - 1);
    }
  }

  /** Buckets are ordered: every element of an earlier bucket is smaller
      than every element of a later one. */
  lemma BucketsOrdered(s: seq<int>, bucketSize: nat, m: int, k: int, k': int, x: int, y: int)
    requires m >= 1 && k < k' && forall t :: 0 <= t < |s| ==> s[t] >= 0
    requires x in Bucket(s, bucketSize, m, k) && y in Bucket(s, bucketSize, m, k')
    ensures x < y
  {
    BucketMembers(s, bucketSize, m, k);
    BucketMembers(s, bucketSize, m, k');
    if y <= x {
      BucketIndexMonotone(y, x, bucketSize, m);
    }
  }

  /** `split_array`: `bucket_size` buckets, bucket `k` receiving, in input
      order, the elements `e` with `floor(bucket_size * e / (1 + max))` equal
      to `k`. The input must be non-empty (its maximum is taken) and its
      elements non-negative. */
  method SplitArray(elements: seq<int>, bucketSize: nat) returns (buckets: seq<seq<int>>)
    requires |elements| > 0 && bucketSize >= 1
    requires forall t :: 0 <= t < |elements| ==> elements[t] >= 0
    ensures |buckets| == bucketSize
    ensures forall k :: 0 <= k < bucketSize ==> buckets[k] == Bucket(elements, bucketSize, 1 + Max(elements), k)
  {
    buckets := seq(bucketSize, _ => []);
    var m := 1 + Max(elements);
    var i := 0;
    while i < |elements|
      invariant 0 <= i <= |elements|
      invariant |buckets| == bucketSize
      invariant forall k :: 0 <= k < bucketSize ==> buckets[k] == Bucket(elements[..i], bucketSize, m, k)
    {
      var index := (bucketSize * elements[i]) / m;
      BucketIndexInRange(elements[i], bucketSize, m);
      assert elements[..i + 1][..i] == elements[..i];
      buckets := buckets[index := buckets[index] + [elements[i]]];
      i := i + 1;
    }
    assert elements[..i] == elements;
  }

  /** The buckets of `split_array` hold the input's elements, each exactly
      once overall. */
  lemma SplitPartition(elements: seq<int>, bucketSize: nat, m: int)
    requires |elements| > 0 && bucketSize >= 1 && m == 1 + Max(elements)
    requires forall t :: 0 <= t < |elements| ==> elements[t] >= 0
    ensures BucketsUnion(elements, bucketSize, m, bucketSize) == multiset(elements)
  {
    forall k | 0 <= k < |elements|
      ensures 0 <= BucketIndex(elements[k], bucketSize, m) < bucketSize
    {
      BucketIndexInRange(elements[k], bucketSize, m);
    }
    BucketsPartition(elements, bucketSize, m, bucketSize);
  }
}
