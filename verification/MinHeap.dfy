/** The partition heap: bucket indices in an array, ordered by (sum, file count). */
module MinHeap {
  import opened Basics

  datatype Bucket = Bucket(sum: real, files: seq<string>)

  /** `bucketLess`: smaller sum first, then fewer files. */
  predicate BucketLess(left: Bucket, right: Bucket) {
    if left.sum != right.sum then left.sum < right.sum else |left.files| < |right.files|
  }

  /** `heap` holds every index below its length once. */
  ghost predicate IsPermutation(heap: seq<nat>) {
    && (forall i :: 0 <= i < |heap| ==> heap[i] < |heap|)
    && (forall i, j :: 0 <= i < j < |heap| ==> heap[i] != heap[j])
  }

  function Parent(j: nat): nat
    requires j > 0
  {
    (j - 1) / 2
  }

  /** Child `j` does not come before its parent. */
  ghost predicate InOrder(buckets: seq<Bucket>, heap: seq<nat>, j: nat)
    requires 0 < j < |heap| == |buckets| && IsPermutation(heap)
  {
    !BucketLess(buckets[heap[j]], buckets[heap[Parent(j)]])
  }

  ghost predicate HeapOrdered(buckets: seq<Bucket>, heap: seq<nat>)
    requires |heap| == |buckets| && IsPermutation(heap)
  {
    forall j :: 0 < j < |heap| ==> InOrder(buckets, heap, j)
  }

  /** Ordered everywhere but between `hole` and its children, which still come after the hole's parent. */
  ghost predicate OrderedBut(buckets: seq<Bucket>, heap: seq<nat>, hole: nat)
    requires |heap| == |buckets| && IsPermutation(heap)
  {
    && (forall j :: 0 < j < |heap| && Parent(j) != hole ==> InOrder(buckets, heap, j))
    && (forall j :: 0 < j < |heap| && Parent(j) == hole && hole > 0
          ==> !BucketLess(buckets[heap[j]], buckets[heap[Parent(hole)]]))
  }

  /** The root of an ordered heap is a bucket no other bucket comes before. */
  lemma {:induction false} RootIsLeast(buckets: seq<Bucket>, heap: seq<nat>, j: nat)
    requires j < |heap| == |buckets| && IsPermutation(heap) && HeapOrdered(buckets, heap)
    ensures !BucketLess(buckets[heap[j]], buckets[heap[0]])
  {
    if j > 0 {
      assert InOrder(buckets, heap, j);
      RootIsLeast(buckets, heap, Parent(j));
    }
  }

  /** Every bucket index sits somewhere in the heap. */
  lemma EveryBucketInHeap(heap: seq<nat>, k: nat)
    requires IsPermutation(heap) && k < |heap|
    ensures k in heap
  {
    var all := Below(|heap|);
    var held := set i | 0 <= i < |heap| :: heap[i];
    HeldSize(heap, |heap|);
    BelowFacts(|heap|);
    assert held <= all;
    if k !in heap {
      assert held <= all - {k};
      SubsetNotLarger(held, all - {k});
    }
  }

  lemma {:induction false} HeldSize(heap: seq<nat>, n: nat)
    requires n <= |heap| && forall i, j :: 0 <= i < j < |heap| ==> heap[i] != heap[j]
    ensures |set i | 0 <= i < n :: heap[i]| == n
  {
    if n > 0 {
      HeldSize(heap, n - 1);
      assert (set i | 0 <= i < n :: heap[i]) == (set i | 0 <= i < n - 1 :: heap[i]) + {heap[n - 1]};
    }
  }

  lemma SwapKeepsPermutation(heap: seq<nat>, i: nat, j: nat)
    requires IsPermutation(heap) && i < |heap| && j < |heap|
    ensures IsPermutation(heap[i := heap[j]][j := heap[i]])
  {
  }

  /** Swapping the hole with its least child moves the hole down. */
  lemma SwapMovesHole(buckets: seq<Bucket>, heap: seq<nat>, hole: nat, least: nat)
    requires |heap| == |buckets| && IsPermutation(heap) && OrderedBut(buckets, heap, hole)
    requires hole < least < |heap| && Parent(least) == hole
    requires BucketLess(buckets[heap[least]], buckets[heap[hole]])
    requires forall j :: 0 < j < |heap| && Parent(j) == hole ==> !BucketLess(buckets[heap[j]], buckets[heap[least]])
    ensures IsPermutation(heap[hole := heap[least]][least := heap[hole]])
    ensures OrderedBut(buckets, heap[hole := heap[least]][least := heap[hole]], least)
  {
    SwapKeepsPermutation(heap, hole, least);
    var after := heap[hole := heap[least]][least := heap[hole]];
    forall j | 0 < j < |heap| && Parent(j) != least
      ensures InOrder(buckets, after, j)
    {
      if Parent(j) != hole {
        assert InOrder(buckets, heap, j);
      }
    }
    forall j | 0 < j < |heap| && Parent(j) == least
      ensures !BucketLess(buckets[after[j]], buckets[after[hole]])
    {
      assert InOrder(buckets, heap, j);
    }
  }

  /** Position `index` or the child of it whose bucket comes first. */
  method Smallest(buckets: array<Bucket>, heap: array<nat>, index: nat) returns (smallest: nat)
    requires heap.Length == buckets.Length && index < heap.Length && IsPermutation(heap[..])
    ensures smallest == index || (index < smallest < heap.Length && Parent(smallest) == index)
    ensures smallest != index ==> BucketLess(buckets[heap[smallest]], buckets[heap[index]])
    ensures forall j :: 0 < j < heap.Length && Parent(j) == index ==> !BucketLess(buckets[heap[j]], buckets[heap[smallest]])
    ensures smallest == 2 * index + 2 ==> BucketLess(buckets[heap[smallest]], buckets[heap[2 * index + 1]])
  {
    var size := heap.Length;
    var left, right := 2 * index + 1, 2 * index + 2;
    smallest := index;
    var smallestBucket := buckets[heap[index]];
    if left < size && BucketLess(buckets[heap[left]], smallestBucket) {
      smallest, smallestBucket := left, buckets[heap[left]];
    }
    if right < size && BucketLess(buckets[heap[right]], smallestBucket) {
      smallest := right;
    }
    assert forall j :: 0 < j < size && Parent(j) == index ==> j == left || j == right;
  }

  /** Restore the heap below `start`, whose bucket grew heavier. */
  method SiftDown(buckets: array<Bucket>, heap: array<nat>, start: nat)
    requires heap.Length == buckets.Length && start < heap.Length
    requires IsPermutation(heap[..]) && OrderedBut(buckets[..], heap[..], start)
    modifies heap
    ensures IsPermutation(heap[..]) && HeapOrdered(buckets[..], heap[..])
  {
    var index := start;
    while true
      invariant index < heap.Length
      invariant IsPermutation(heap[..]) && OrderedBut(buckets[..], heap[..], index)
      decreases heap.Length - index
    {
      var smallest := Smallest(buckets, heap, index);
      if smallest == index {
        HoleIsFilled(buckets[..], heap[..], index);
        return;
      }
      SwapMovesHole(buckets[..], heap[..], index, smallest);
      ghost var before := heap[..];
      var moved := heap[index];
      heap[index] := heap[smallest];
      heap[smallest] := moved;
      assert heap[..] == before[index := before[smallest]][smallest := before[index]];
      index := smallest;
    }
  }

  lemma HoleIsFilled(buckets: seq<Bucket>, heap: seq<nat>, hole: nat)
    requires hole < |heap| == |buckets| && IsPermutation(heap) && OrderedBut(buckets, heap, hole)
    requires forall j :: 0 < j < |heap| && Parent(j) == hole ==> !BucketLess(buckets[heap[j]], buckets[heap[hole]])
    ensures HeapOrdered(buckets, heap)
  {
  }

  /** Put a file into the bucket at the root; that bucket was one no other bucket comes before. */
  method Place(buckets: array<Bucket>, heap: array<nat>, file: string, weight: real) returns (top: nat)
    requires 0 < heap.Length == buckets.Length
    requires IsPermutation(heap[..]) && HeapOrdered(buckets[..], heap[..])
    modifies buckets, heap
    ensures top < buckets.Length && top == old(heap[0])
    ensures forall k :: 0 <= k < buckets.Length ==> !BucketLess(old(buckets[k]), old(buckets[top]))
    ensures buckets[..] == old(buckets[..])[top := Bucket(old(buckets[top]).sum + weight, old(buckets[top]).files + [file])]
    ensures IsPermutation(heap[..]) && HeapOrdered(buckets[..], heap[..])
  {
    top := heap[0];
    forall k | 0 <= k < buckets.Length
      ensures !BucketLess(buckets[k], buckets[top])
    {
      EveryBucketInHeap(heap[..], k);
      var j :| 0 <= j < heap.Length && heap[..][j] == k;
      RootIsLeast(buckets[..], heap[..], j);
    }
    HeavierRoot(buckets[..], heap[..], Bucket(buckets[top].sum + weight, buckets[top].files + [file]));
    buckets[top] := Bucket(buckets[top].sum + weight, buckets[top].files + [file]);
    SiftDown(buckets, heap, 0);
  }

  /** Changing the root's bucket disturbs the order only at the root. */
  lemma HeavierRoot(buckets: seq<Bucket>, heap: seq<nat>, bucket: Bucket)
    requires 0 < |heap| == |buckets| && IsPermutation(heap) && HeapOrdered(buckets, heap)
    ensures OrderedBut(buckets[heap[0] := bucket], heap, 0)
  {
    forall j | 0 < j < |heap| && Parent(j) != 0
      ensures InOrder(buckets[heap[0] := bucket], heap, j)
    {
      assert InOrder(buckets, heap, j);
    }
  }
}
