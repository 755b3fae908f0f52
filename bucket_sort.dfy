/** The bucket sort of the exercise, read sequentially: the elements are split
    into one bucket per process, every bucket is sorted by insertion, and the
    sorted buckets are concatenated in rank order. */
module BucketSort {
  import opened SortUtils
  import opened Seqs

  /** Two sorted sequences, every element of the first at most every
      element of the second, join into a sorted sequence. */
  lemma SortedAppend(a: seq<int>, b: seq<int>)
    requires Sorted(a) && Sorted(b)
    requires forall x, y :: x in a && y in b ==> x <= y
    ensures Sorted(a + b)
  {
    var r := a + b;
    forall i, j | 0 <= i < j < |r|
      ensures r[i] <= r[j]
    {
      if i < |a| && j >= |a| {
        assert r[i] in a && r[j] in b;
      }
    }
  }

  /** Sorted parts whose elements all belong to the bucket of their rank
      concatenate into a sorted sequence of elements of those buckets. */
  lemma {:induction false} ConcatSorted(parts: seq<seq<int>>, bucketSize: nat, m: int)
    requires m >= 1
    requires forall t :: 0 <= t < |parts| ==> Sorted(parts[t])
    requires forall t, x {:trigger x in parts[t]} :: 0 <= t < |parts| && x in parts[t] ==> x >= 0 && BucketIndex(x, bucketSize, m) == t
    ensures Sorted(Concat(parts))
    ensures forall x {:trigger x in Concat(parts)} :: x in Concat(parts) ==> x >= 0 && 0 <= BucketIndex(x, bucketSize, m) < |parts|
  {
    if parts != [] {
      var init, last := parts[..|parts| - 1], parts[|parts| - 1];
      assert forall t :: 0 <= t < |init| ==> init[t] == parts[t];
      ConcatSorted(init, bucketSize, m);
      assert Concat(parts) == Concat(init) + last;
      forall y | y in last
        ensures y >= 0 && BucketIndex(y, bucketSize, m) == |parts| - 1
      {
        assert y in parts[|parts| - 1];
      }
      forall x, y | x in Concat(init) && y in last
        ensures x <= y
      {
        if y < x {
          BucketIndexMonotone(y, x, bucketSize, m);
        }
      }
      SortedAppend(Concat(init), last);
    }
  }

  /** Parts with the elements of buckets `0 .. |parts| - 1` concatenate into
      the union of those buckets. */
  lemma {:induction false} ConcatBuckets(parts: seq<seq<int>>, s: seq<int>, bucketSize: nat, m: int)
    requires m >= 1
    requires forall t :: 0 <= t < |parts| ==> multiset(parts[t]) == multiset(Bucket(s, bucketSize, m, t))
    ensures multiset(Concat(parts)) == BucketsUnion(s, bucketSize, m, |parts|)
  {
    if parts != [] {
      ConcatBuckets(parts[..|parts| - 1], s, bucketSize, m);
    }
  }

  /** One bucket copied into an array and sorted there: `insertion_sort`
      applied, on its rank, to the bucket it received. */
  method SortBucket(bucket: seq<int>) returns (sorted: seq<int>)
    ensures sorted == InsertionSorted(bucket)
    ensures Sorted(sorted) && multiset(sorted) == multiset(bucket)
  {
    var a := new int[|bucket|](i requires 0 <= i < |bucket| => bucket[i]);
    assert a[..] == bucket;
    var r := InsertionSort(a);
    sorted := r[..];
  }

  /** Split, sort every bucket, concatenate: the result is the input sorted. */
  method BucketSortPipeline(elements: seq<int>, size: nat) returns (sortedArray: seq<int>)
    requires |elements| > 0 && size >= 1
    requires forall t :: 0 <= t < |elements| ==> elements[t] >= 0
    ensures Sorted(sortedArray)
    ensures multiset(sortedArray) == multiset(elements)
  {
    var buckets := SplitArray(elements, size);
    var sortedBuckets := SortBuckets(buckets);
    sortedArray := Concat(sortedBuckets);
    SortedBuckets(elements, size, sortedBuckets);
  }

  /** Every bucket sorted on its own rank, the results gathered in rank order. */
  method SortBuckets(buckets: seq<seq<int>>) returns (sortedBuckets: seq<seq<int>>)
    ensures |sortedBuckets| == |buckets|
    ensures forall t :: 0 <= t < |buckets| ==> sortedBuckets[t] == InsertionSorted(buckets[t])
    ensures forall t :: 0 <= t < |buckets| ==> Sorted(sortedBuckets[t]) && multiset(sortedBuckets[t]) == multiset(buckets[t])
  {
    sortedBuckets := [];
    var k := 0;
    while k < |buckets|
      invariant 0 <= k <= |buckets| && |sortedBuckets| == k
      invariant forall t :: 0 <= t < k ==> sortedBuckets[t] == InsertionSorted(buckets[t])
      invariant forall t :: 0 <= t < k ==> Sorted(sortedBuckets[t]) && multiset(sortedBuckets[t]) == multiset(buckets[t])
    {
      var sorted := SortBucket(buckets[k]);
      sortedBuckets := sortedBuckets + [sorted];
      k := k + 1;
    }
  }

  /** Sorted copies of the `size` buckets of `split_array`, concatenated in
      rank order, are the input sorted. */
  lemma SortedBuckets(elements: seq<int>, size: nat, sortedBuckets: seq<seq<int>>)
    requires |elements| > 0 && size >= 1
    requires forall t :: 0 <= t < |elements| ==> elements[t] >= 0
    requires |sortedBuckets| == size
    requires forall t :: 0 <= t < size ==> Sorted(sortedBuckets[t])
    requires forall t :: 0 <= t < size ==> multiset(sortedBuckets[t]) == multiset(Bucket(elements, size, 1 + Max(elements), t))
    ensures Sorted(Concat(sortedBuckets))
    ensures multiset(Concat(sortedBuckets)) == multiset(elements)
  {
    var m := 1 + Max(elements);
    SortedBucketsOrdered(elements, size, m, sortedBuckets);
    SortedBucketsElements(elements, size, m, sortedBuckets);
  }

  /** Parts with the elements of the `size` buckets of `split_array`,
      concatenated in rank order, hold exactly the input's elements. */
  lemma SortedBucketsElements(elements: seq<int>, size: nat, m: int, sortedBuckets: seq<seq<int>>)
    requires |elements| > 0 && size >= 1 && m == 1 + Max(elements)
    requires forall t :: 0 <= t < |elements| ==> elements[t] >= 0
    requires |sortedBuckets| == size
    requires forall t :: 0 <= t < size ==> multiset(sortedBuckets[t]) == multiset(Bucket(elements, size, m, t))
    ensures multiset(Concat(sortedBuckets)) == multiset(elements)
  {
    ConcatBuckets(sortedBuckets, elements, size, m);
    SplitPartition(elements, size, m);
  }

  /** Sorted parts with the elements of the buckets concatenate into a
      sorted sequence. */
  lemma SortedBucketsOrdered(elements: seq<int>, size: nat, m: int, sortedBuckets: seq<seq<int>>)
    requires m >= 1 && forall t :: 0 <= t < |elements| ==> elements[t] >= 0
    requires forall t :: 0 <= t < |sortedBuckets| ==> Sorted(sortedBuckets[t])
    requires forall t :: 0 <= t < |sortedBuckets| ==> multiset(sortedBuckets[t]) == multiset(Bucket(elements, size, m, t))
    ensures Sorted(Concat(sortedBuckets))
  {
    forall t, x {:trigger x in sortedBuckets[t]} | 0 <= t < |sortedBuckets| && x in sortedBuckets[t]
      ensures x >= 0 && BucketIndex(x, size, m) == t
    {
      assert x in multiset(Bucket(elements, size, m, t));
      BucketElement(elements, size, m, t, x);
    }
    ConcatSorted(sortedBuckets, size, m);
  }
}
