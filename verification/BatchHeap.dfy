/** The heap of batch verification as the object the source mutates
    (ed25519-donna-batchverify.h, lines 13-103). */
module BatchHeap {
  import opened Modm
  import opened BatchModm
  import opened HeapOrder

  /** The values of an array of scalars. */
  function Keys(s: seq<Num>): (k: seq<int>)
    ensures |k| == |s| && forall i :: 0 <= i < |s| ==> k[i] == s[i].Val()
  {
    seq(|s|, i requires 0 <= i < |s| => s[i].Val())
  }

  /** The first n scalars have zero limbs above `limbsize`. */
  predicate AllFit(s: seq<Num>, n: nat, limbsize: nat) {
    limbsize <= 4 && n <= |s| && forall i {:trigger Fits(s[i], limbsize)} :: 0 <= i < n ==> Fits(s[i], limbsize)
  }

  /** `heap_swap` */
  method HeapSwap(heap: array<nat>, a: nat, b: nat)
    requires a < heap.Length && b < heap.Length
    modifies heap
    ensures heap[..] == Swap(old(heap[..]), a, b)
  {
    var temp := heap[a];
    heap[a] := heap[b];
    heap[b] := temp;
  }

  /** The second loop of `heap_updated_root` and the loop of `heap_insert_next`: node rises while
      its parent is smaller (or, if `ties`, not larger). */
  method SiftUp(pheap: array<nat>, scalars: seq<Num>, size: nat, start: nat, limbsize: nat, ties: bool)
    requires size <= pheap.Length && start < size
    requires AllFit(scalars, size, limbsize)
    requires Permutation(pheap[..], size) && RisingAt(Keys(scalars), pheap[..], size, start)
    modifies pheap
    ensures pheap[size..] == old(pheap[size..])
    ensures Permutation(pheap[..], size) && Ordered(Keys(scalars), pheap[..], size)
  {
    var node: nat := start;
    ghost var k := Keys(scalars);
    while node > 0 && (if ties then AtMost(scalars[pheap[Parent(node)]], scalars[pheap[node]], limbsize)
                       else Less(scalars[pheap[Parent(node)]], scalars[pheap[node]], limbsize))
      invariant node < size
      invariant Permutation(pheap[..], size) && RisingAt(k, pheap[..], size, node)
      invariant pheap[size..] == old(pheap[size..])
    {
      TruncatedCompare(scalars[pheap[Parent(node)]], scalars[pheap[node]], limbsize);
      RiseStep(k, pheap[..], size, node);
      HeapSwap(pheap, Parent(node), node);
      node := Parent(node);
    }
    if node > 0 {
      TruncatedCompare(scalars[pheap[Parent(node)]], scalars[pheap[node]], limbsize);
    }
    RiseDone(k, pheap[..], size, node);
  }

  /** The first loop of `heap_updated_root`: the root sinks to a leaf along the larger children. */
  method SinkRoot(pheap: array<nat>, scalars: seq<Num>, size: nat, limbsize: nat) returns (node: nat)
    requires 3 <= size <= pheap.Length && size % 2 == 1
    requires AllFit(scalars, size, limbsize)
    requires Permutation(pheap[..], size) && SinkingAt(Keys(scalars), pheap[..], size, 0)
    modifies pheap
    ensures node < size && Permutation(pheap[..], size) && RisingAt(Keys(scalars), pheap[..], size, node)
  {
    ghost var k := Keys(scalars);
    var parent, childl, childr := 0, 1, 2;
    node := 1;
    while childr < size
      invariant 0 <= parent < size && childl == 2 * parent + 1 && childr == childl + 1
      invariant parent > 0 ==> node == parent
      invariant Permutation(pheap[..], size) && SinkingAt(k, pheap[..], size, parent)
    {
      TruncatedCompare(scalars[pheap[childl]], scalars[pheap[childr]], limbsize);
      node := if Less(scalars[pheap[childl]], scalars[pheap[childr]], limbsize) then childr else childl;
      SinkStep(k, pheap[..], size, parent, node);
      HeapSwap(pheap, parent, node);
      parent := node;
      childl := parent * 2 + 1;
      childr := childl + 1;
    }
    SinkDone(k, pheap[..], size, node);
  }

  /** `batch_heap`: the heap orders indices of `scalars` and `points`. */
  class Heap<T> {
    const heap: array<nat>
    const scalars: array<Num>
    const points: array<T>
    var size: nat

    constructor (scalars: seq<Num>, points: seq<T>)
      requires |scalars| == |points| && AllFit(scalars, |scalars|, 4)
      ensures Valid() && fresh(this.heap) && fresh(this.scalars) && fresh(this.points)
      ensures this.scalars[..] == scalars && this.points[..] == points
    {
      this.heap := new nat[|scalars|](i => 0);
      this.scalars := new Num[|scalars|](i requires 0 <= i < |scalars| => scalars[i]);
      this.points := new T[|points|](i requires 0 <= i < |points| => points[i]);
      this.size := 0;
    }

    ghost predicate Valid()
      reads this, heap, scalars, points
    {
      && scalars.Length == heap.Length == points.Length && size <= heap.Length
      && heap as object != points && scalars as object != points && heap as object != scalars
      && AllFit(scalars[..], heap.Length, 4)
    }

    /** The first `size` entries are a permutation in max-heap order. */
    ghost predicate Heaped()
      reads this, heap, scalars, points
    {
      Valid() && Permutation(heap[..], size) && Ordered(Keys(scalars[..]), heap[..], size)
    }

    /** `heap_insert_next` */
    method InsertNext()
      requires Heaped() && size < heap.Length
      modifies heap, `size
      ensures Heaped() && size == old(size) + 1
    {
      AppendRises(Keys(scalars[..]), heap[..], size);
      heap[size] := size;
      SiftUp(heap, scalars[..], size + 1, size, 4, false);
      size := size + 1;
    }

    /** `heap_extend`, and the loop of `heap_build` */
    method Extend(count: nat)
      requires Heaped() && size <= count <= heap.Length
      modifies heap, `size
      ensures Heaped() && size == count
    {
      while size < count
        invariant Heaped() && size <= count
      {
        InsertNext();
      }
    }

    /** `heap_build` */
    method Build(count: nat)
      requires Valid() && 0 < count <= heap.Length
      modifies heap, `size
      ensures Heaped() && size == count
    {
      heap[0] := 0;
      size := 0;
      Extend(count);
    }

    /** `heap_get_top2`: the largest and the second largest scalar, at different indices. */
    method GetTop2(limbsize: nat) returns (max1: nat, max2: nat)
      requires Heaped() && 3 <= size && AllFit(scalars[..], size, limbsize)
      ensures max1 < size && max2 < size && max1 != max2 && max1 == heap[0]
      ensures forall i :: 0 <= i < size ==> scalars[i].Val() <= scalars[max1].Val()
      ensures forall i :: 0 <= i < size && i != max1 ==> scalars[i].Val() <= scalars[max2].Val()
    {
      var h0, h1, h2 := heap[0], heap[1], heap[2];
      TruncatedCompare(scalars[h1], scalars[h2], limbsize);
      if Less(scalars[h1], scalars[h2], limbsize) {
        h1 := h2;
      }
      max1, max2 := h0, h1;
      ghost var k := Keys(scalars[..]);
      forall i | 0 <= i < size
        ensures scalars[i].Val() <= scalars[max1].Val()
        ensures i != max1 ==> scalars[i].Val() <= scalars[max2].Val()
      {
        PermutationHits(heap[..], size, i);
        var j :| 0 <= j < size && heap[j] == i;
        RootIsMax(k, heap[..], size, j);
        if j > 0 { ChildIsSecond(k, heap[..], size, j); }
      }
    }

    /** `heap_updated_root`: puts the heap back in order after only the root's scalar went down
        (`k` are the scalars before). Needs an odd size, so that every inner node has two children. */
    method UpdatedRoot(limbsize: nat, ghost k: seq<int>)
      requires Valid() && 3 <= size && size % 2 == 1 && AllFit(scalars[..], size, limbsize)
      requires Permutation(heap[..], size) && |k| == scalars.Length && Ordered(k, heap[..], size)
      requires forall i :: 0 <= i < |k| && i != heap[0] ==> scalars[i].Val() == k[i]
      modifies heap
      ensures Heaped()
    {
      RootSinks(k, Keys(scalars[..]), heap[..], size);
      var node := SinkRoot(heap, scalars[..], size, limbsize);
      SiftUp(heap, scalars[..], size, node, limbsize, true);
    }
  }
}
