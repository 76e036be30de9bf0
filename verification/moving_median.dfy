/**
 * The sliding-window median calculator built from two indexed heaps
 * (cpp/MovingMedian.cpp, java/fraudulent_activity/Result.java,
 * fraudulent_activity_notifications/median_heap.c, python/median_heap.py).
 *
 * The lower half of the window lives in a max-heap and the upper half in a
 * min-heap; the max-heap holds the extra sample when the count is odd, so the
 * median is read from the roots. `samples[i]` is the handle of the i-th node
 * ever created; once the window is full, `samples[sampleIndex]` is the oldest
 * sample, and a new value overwrites it in place.
 */
module SlidingMedian {
  import opened Wrappers
  import opened MinMax
  import opened BinaryHeap
  import Sorting

  datatype MedianError = InvalidMaxSamples | HeapRejected(cause: HeapError) | NoSamples

  datatype MovingMedian = MovingMedian(
    maxSamples: int,
    maxHeap: Heap,
    minHeap: Heap,
    arena: seq<Node>,
    samples: seq<nat>,
    sampleIndex: int)

  /** The number of samples currently held. */
  function SampleCount(mm: MovingMedian): nat
  {
    Count(mm.maxHeap) + Count(mm.minHeap)
  }

  /** The value of every node, in creation order. */
  function NodeValues(arena: seq<Node>): (v: seq<int>)
    ensures |v| == |arena|
    ensures forall i {:trigger v[i]} :: 0 <= i < |arena| ==> v[i] == arena[i].value
  {
    seq(|arena|, i requires 0 <= i < |arena| => arena[i].value)
  }

  function Ids(n: nat): (r: seq<nat>)
    ensures |r| == n
    ensures forall i :: 0 <= i < n ==> r[i] == i
  {
    seq(n, i requires 0 <= i < n => i)
  }

  /** Every value of `a` is at most every value of `b`. */
  predicate AllBelow(a: multiset<int>, b: multiset<int>)
  {
    forall x, y :: x in a && y in b ==> x <= y
  }

  // ---------------------------------------------------------------------------
  // Invariants
  // ---------------------------------------------------------------------------

  /**
   * Two heaps of different kinds that together hold every node of the arena
   * exactly once, and so every node value exactly once.
   */
  predicate Partition(h: Heap, other: Heap, arena: seq<Node>)
  {
    && BinaryHeap.Valid(h, arena) && BinaryHeap.Valid(other, arena) && h.kind != other.kind
    && multiset(h.slots) + multiset(other.slots) == multiset(Ids(|arena|))
    && multiset(Values(h, arena)) + multiset(Values(other, arena)) == multiset(NodeValues(arena))
  }

  /**
   * The two halves: a max-heap and a min-heap partitioning the nodes, with room
   * for a full window, and balanced (the max-heap equal or one larger).
   */
  predicate HeapsShaped(maxSamples: int, mx: Heap, mn: Heap, arena: seq<Node>)
  {
    && maxSamples >= 1
    && mx.kind == MaxHeap && mn.kind == MinHeap
    && mx.capacity >= (maxSamples + 1) / 2 && mn.capacity >= maxSamples / 2
    && Count(mx) + Count(mn) == |arena| <= maxSamples
    && (Count(mx) == Count(mn) || Count(mx) == Count(mn) + 1)
    && Partition(mx, mn, arena)
  }

  /** The max-heap root is at most the min-heap root when both exist. */
  predicate RootsOrdered(mx: Heap, mn: Heap, arena: seq<Node>)
    requires SlotsInArena(mx, arena) && SlotsInArena(mn, arena)
  {
    Count(mx) > 0 && Count(mn) > 0 ==> arena[mx.slots[0]].value <= arena[mn.slots[0]].value
  }

  /**
   * The calculator invariant: shaped halves with ordered roots, the sample
   * table listing the nodes in creation order, and the rolling index pointing
   * at the next free slot while filling and at the oldest sample once full.
   */
  predicate Valid(mm: MovingMedian)
  {
    && HeapsShaped(mm.maxSamples, mm.maxHeap, mm.minHeap, mm.arena)
    && RootsOrdered(mm.maxHeap, mm.minHeap, mm.arena)
    && mm.samples == Ids(|mm.arena|)
    && 0 <= mm.sampleIndex < mm.maxSamples
    && (|mm.arena| < mm.maxSamples ==> mm.sampleIndex == |mm.arena|)
  }

  /**
   * After one value `x` was added to or changed in one half: everything else
   * in that half is still below everything in the other half.
   */
  predicate NearlyOrdered(mx: Heap, mn: Heap, arena: seq<Node>, x: int)
    requires SlotsInArena(mx, arena) && SlotsInArena(mn, arena)
  {
    var a, b := multiset(Values(mx, arena)), multiset(Values(mn, arena));
    || (x in a && AllBelow(a - multiset{x}, b))
    || (x in b && AllBelow(a, b - multiset{x}))
  }

  // ---------------------------------------------------------------------------
  // Construction
  // ---------------------------------------------------------------------------

  function Empty(maxSamples: int, maxCapacity: int, minCapacity: int): MovingMedian
  {
    MovingMedian(maxSamples, Heap(MaxHeap, maxCapacity, []), Heap(MinHeap, minCapacity, []), [], [], 0)
  }

  /**
   * The C++ constructor: the max-heap gets the larger half, both capacities are
   * floored at 1, and fewer than one sample is rejected.
   */
  function NewCpp(maxSamples: int): (r: Result<MovingMedian, MedianError>)
    ensures r.Err? <==> maxSamples < 1
    ensures r.Err? ==> r.error == InvalidMaxSamples
    ensures r.Ok? ==> var mm := r.value;
      && Valid(mm) && SampleCount(mm) == 0 && mm.maxSamples == maxSamples
      && mm.maxHeap.capacity == (maxSamples + 1) / 2
      && mm.minHeap.capacity == if maxSamples == 1 then 1 else maxSamples / 2
  {
    var maxCapacity := maxSamples / 2 + maxSamples % 2;
    if maxSamples < 1 then Err(InvalidMaxSamples)
    else Ok(Empty(maxSamples, Max(1, maxCapacity), Max(1, maxSamples - maxCapacity)))
  }

  /**
   * The Java and Python constructors: fewer than one sample is rejected, and a
   * single sample is rejected by the min-heap constructor, whose capacity would be 0.
   */
  function NewChecked(maxSamples: int): (r: Result<MovingMedian, MedianError>)
    ensures r.Err? <==> maxSamples < 2
    ensures maxSamples < 1 ==> r == Err(InvalidMaxSamples)
    ensures maxSamples == 1 ==> r == Err(HeapRejected(InvalidCapacity))
    ensures r.Ok? ==> var mm := r.value;
      && Valid(mm) && SampleCount(mm) == 0 && mm.maxSamples == maxSamples
      && mm.maxHeap.capacity == (maxSamples + 1) / 2 && mm.minHeap.capacity == maxSamples / 2
  {
    if maxSamples < 1 then Err(InvalidMaxSamples)
    else
      var minCapacity := maxSamples / 2;
      var maxCapacity := if maxSamples % 2 == 1 then minCapacity + 1 else minCapacity;
      match New(MaxHeap, maxCapacity)
      case Err(e) => Err(HeapRejected(e))
      case Ok(mx) =>
        match New(MinHeap, minCapacity)
        case Err(e) => Err(HeapRejected(e))
        case Ok(mn) => Ok(MovingMedian(maxSamples, mx, mn, [], [], 0))
  }

  /**
   * The C initialiser: no validation, so the caller must pass at least one
   * sample. With one sample the min-heap has capacity 0 and is never used.
   */
  function InitC(maxSamples: int): (r: MovingMedian)
    requires maxSamples >= 1
    ensures Valid(r) && SampleCount(r) == 0 && r.maxSamples == maxSamples
    ensures r.maxHeap.capacity == (maxSamples + 1) / 2 && r.minHeap.capacity == maxSamples / 2
  {
    var minCapacity := maxSamples / 2;
    var maxCapacity := if maxSamples % 2 == 1 then minCapacity + 1 else minCapacity;
    MovingMedian(maxSamples, InitHeapC(MaxHeap, maxCapacity), InitHeapC(MinHeap, minCapacity), [], [], 0)
  }

  // ---------------------------------------------------------------------------
  // Facts about the halves
  // ---------------------------------------------------------------------------

  lemma IdsSnoc(n: nat)
    ensures Ids(n + 1) == Ids(n) + [n]
  {
  }

  /** Every node lives, at its recorded position, in the heap its tag names. */
  lemma Locate(maxSamples: int, mx: Heap, mn: Heap, arena: seq<Node>, k: nat)
    requires HeapsShaped(maxSamples, mx, mn, arena) && k < |arena|
    ensures arena[k].heap == MaxHeap ==> InHeap(mx, arena, k)
    ensures arena[k].heap == MinHeap ==> InHeap(mn, arena, k)
  {
    assert Ids(|arena|)[k] == k;
    assert k in multiset(mx.slots) + multiset(mn.slots);
    if k in mx.slots {
      Member(mx, arena, k);
    } else {
      Member(mn, arena, k);
    }
  }

  /** With ordered roots, every value of the lower half is at most every value of the upper half. */
  lemma HalvesBelow(mx: Heap, mn: Heap, arena: seq<Node>)
    requires BinaryHeap.Valid(mx, arena) && BinaryHeap.Valid(mn, arena) && mx.kind == MaxHeap && mn.kind == MinHeap
    requires RootsOrdered(mx, mn, arena)
    ensures AllBelow(multiset(Values(mx, arena)), multiset(Values(mn, arena)))
  {
    var a, b := Values(mx, arena), Values(mn, arena);
    forall x, y | x in multiset(a) && y in multiset(b)
      ensures x <= y
    {
      var i :| 0 <= i < |a| && a[i] == x;
      var j :| 0 <= j < |b| && b[j] == y;
      RootIsExtreme(MaxHeap, a, i);
      RootIsExtreme(MinHeap, b, j);
    }
  }

  /**
   * The root swap repairs a nearly ordered split: if the larger root exceeds
   * the smaller, exchanging them leaves every lower value at most every upper value.
   */
  lemma SwapRestoresOrder(a: multiset<int>, b: multiset<int>, x: int, top: int, bottom: int)
    requires (x in a && AllBelow(a - multiset{x}, b)) || (x in b && AllBelow(a, b - multiset{x}))
    requires top in a && forall z :: z in a ==> z <= top
    requires bottom in b && forall z :: z in b ==> bottom <= z
    requires bottom < top
    ensures AllBelow(a - multiset{top} + multiset{bottom}, b - multiset{bottom} + multiset{top})
  {
    var a', b' := a - multiset{top} + multiset{bottom}, b - multiset{bottom} + multiset{top};
    if x in a && AllBelow(a - multiset{x}, b) {
      assert top in a - multiset{x} ==> top <= bottom;
      forall u | u in a'
        ensures u <= bottom
      {
        if u != bottom {
          assert u in a - multiset{x};
        }
      }
    } else {
      assert bottom in b - multiset{x} ==> top <= bottom;
      forall w | w in b'
        ensures top <= w
      {
        if w != top {
          assert w in b - multiset{x};
        }
      }
    }
  }

  // ---------------------------------------------------------------------------
  // Adding a sample
  // ---------------------------------------------------------------------------

  lemma PartitionSymmetric(h: Heap, other: Heap, arena: seq<Node>)
    requires Partition(h, other, arena)
    ensures Partition(other, h, arena)
  {
  }

  lemma BelowMonotonic(a: multiset<int>, a0: multiset<int>, b: multiset<int>, b0: multiset<int>)
    requires AllBelow(a0, b0) && a <= a0 && b <= b0
    ensures AllBelow(a, b)
  {
  }

  /** While the window fills, the heap chosen by the count's parity has room. */
  lemma RoomWhileFilling(maxSamples: int, countMax: nat, countMin: nat)
    requires countMax + countMin < maxSamples
    requires countMax == countMin || countMax == countMin + 1
    ensures (countMax + countMin) % 2 == 0 ==> countMax == countMin && countMax < (maxSamples + 1) / 2
    ensures (countMax + countMin) % 2 == 1 ==> countMax == countMin + 1 && countMin < maxSamples / 2
  {
  }

  /** Replacing one element `x` of `v` by `y` changes the sum `v + w` the same way. */
  lemma ReplacedSum<T>(v: multiset<T>, w: multiset<T>, v': multiset<T>, x: T, y: T)
    requires x in v && v' == v - multiset{x} + multiset{y}
    ensures v' + w == (v + w) - multiset{x} + multiset{y}
    ensures y in v' && v' - multiset{y} <= v
  {
    assert v' - multiset{y} == v - multiset{x};
  }

  /** Exchanging an element `x` of `v` with an element `y` of `w` keeps the sum `v + w`. */
  lemma ExchangedSum<T>(v: multiset<T>, w: multiset<T>, x: T, y: T)
    requires x in v && y in w
    ensures (v - multiset{x} + multiset{y}) + (w - multiset{y} + multiset{x}) == v + w
  {
  }

  /** Overwriting node `id` of one heap keeps the partition and changes one node value. */
  lemma UpdatedPartition(h: Heap, other: Heap, arena: seq<Node>, id: nat, value: int, h': Heap, arena': seq<Node>)
    requires Partition(h, other, arena) && InHeap(h, arena, id)
    requires BinaryHeap.Valid(h', arena') && h'.kind == h.kind
    requires multiset(h'.slots) == multiset(h.slots)
    requires multiset(Values(h', arena')) == multiset(Values(h, arena)) - multiset{arena[id].value} + multiset{value}
    requires |arena'| == |arena| && arena'[id].value == value
    requires forall k :: 0 <= k < |arena| && k != id ==> arena'[k].value == arena[k].value
    requires forall k :: 0 <= k < |arena| && k !in h.slots ==> arena'[k] == arena[k]
    ensures Partition(h', other, arena')
    ensures NodeValues(arena') == NodeValues(arena)[id := value]
    ensures Values(other, arena') == Values(other, arena)
    ensures value in multiset(Values(h', arena'))
    ensures multiset(Values(h', arena')) - multiset{value} <= multiset(Values(h, arena))
  {
    Disjoint(h, other, arena);
    Frame(other, arena, arena');
    assert NodeValues(arena') == NodeValues(arena)[id := value];
    ReplaceMultiset(NodeValues(arena), id, value);
    assert Values(h, arena)[arena[id].index] == NodeValues(arena)[id];
    ReplacedSum(multiset(Values(h, arena)), multiset(Values(other, arena)), multiset(Values(h', arena')),
                arena[id].value, value);
  }

  /** Appending a node to one heap keeps the partition and appends its value. */
  lemma AddedPartition(h: Heap, other: Heap, arena: seq<Node>, value: int, a: Added)
    requires Partition(h, other, arena)
    requires BinaryHeap.Valid(a.heap, a.arena) && a.heap.kind == h.kind
    requires |a.arena| == |arena| + 1 && a.node == |arena| && a.arena[a.node].value == value
    requires multiset(a.heap.slots) == multiset(h.slots) + multiset{a.node}
    requires multiset(Values(a.heap, a.arena)) == multiset(Values(h, arena)) + multiset{value}
    requires forall k :: 0 <= k < |arena| ==> a.arena[k].value == arena[k].value
    requires forall k :: 0 <= k < |arena| && k !in h.slots ==> a.arena[k] == arena[k]
    ensures Partition(a.heap, other, a.arena)
    ensures NodeValues(a.arena) == NodeValues(arena) + [value]
    ensures Values(other, a.arena) == Values(other, arena)
    ensures value in multiset(Values(a.heap, a.arena))
    ensures multiset(Values(a.heap, a.arena)) - multiset{value} == multiset(Values(h, arena))
  {
    Disjoint(h, other, arena);
    Frame(other, arena, a.arena);
    IdsSnoc(|arena|);
    assert NodeValues(a.arena) == NodeValues(arena) + [value];
  }

  /**
   * The first half of `Add` once the window is full: the oldest sample is
   * overwritten in whichever heap currently owns its node.
   */
  method Replace(mm: MovingMedian, value: int) returns (mx: Heap, mn: Heap, arena: seq<Node>)
    requires Valid(mm) && SampleCount(mm) == mm.maxSamples
    ensures HeapsShaped(mm.maxSamples, mx, mn, arena)
    ensures NodeValues(arena) == NodeValues(mm.arena)[mm.sampleIndex := value]
    ensures NearlyOrdered(mx, mn, arena, value)
    ensures mm.arena[mm.samples[mm.sampleIndex]].heap == MaxHeap ==>
      mn == mm.minHeap && multiset(mx.slots) == multiset(mm.maxHeap.slots)
    ensures mm.arena[mm.samples[mm.sampleIndex]].heap == MinHeap ==>
      mx == mm.maxHeap && multiset(mn.slots) == multiset(mm.minHeap.slots)
  {
    var id := mm.samples[mm.sampleIndex];
    Locate(mm.maxSamples, mm.maxHeap, mm.minHeap, mm.arena, id);
    HalvesBelow(mm.maxHeap, mm.minHeap, mm.arena);
    if mm.arena[id].heap == MaxHeap {
      mx, mn, arena := ReplaceLower(mm.maxSamples, mm.maxHeap, mm.minHeap, mm.arena, id, value);
    } else {
      mx, mn, arena := ReplaceUpper(mm.maxSamples, mm.maxHeap, mm.minHeap, mm.arena, id, value);
    }
  }

  /** `Replace` of a node held by the max-heap. */
  method ReplaceLower(maxSamples: int, mx0: Heap, mn0: Heap, arena0: seq<Node>, id: nat, value: int)
    returns (mx: Heap, mn: Heap, arena: seq<Node>)
    requires HeapsShaped(maxSamples, mx0, mn0, arena0) && InHeap(mx0, arena0, id)
    requires AllBelow(multiset(Values(mx0, arena0)), multiset(Values(mn0, arena0)))
    ensures HeapsShaped(maxSamples, mx, mn, arena)
    ensures NodeValues(arena) == NodeValues(arena0)[id := value]
    ensures NearlyOrdered(mx, mn, arena, value)
    ensures mn == mn0 && multiset(mx.slots) == multiset(mx0.slots)
  {
    mx, arena := Update(mx0, arena0, id, value);
    mn := mn0;
    UpdatedPartition(mx0, mn0, arena0, id, value, mx, arena);
    BelowMonotonic(multiset(Values(mx, arena)) - multiset{value}, multiset(Values(mx0, arena0)),
                   multiset(Values(mn, arena)), multiset(Values(mn0, arena0)));
  }

  /** `Replace` of a node held by the min-heap. */
  method ReplaceUpper(maxSamples: int, mx0: Heap, mn0: Heap, arena0: seq<Node>, id: nat, value: int)
    returns (mx: Heap, mn: Heap, arena: seq<Node>)
    requires HeapsShaped(maxSamples, mx0, mn0, arena0) && InHeap(mn0, arena0, id)
    requires AllBelow(multiset(Values(mx0, arena0)), multiset(Values(mn0, arena0)))
    ensures HeapsShaped(maxSamples, mx, mn, arena)
    ensures NodeValues(arena) == NodeValues(arena0)[id := value]
    ensures NearlyOrdered(mx, mn, arena, value)
    ensures mx == mx0 && multiset(mn.slots) == multiset(mn0.slots)
  {
    mn, arena := Update(mn0, arena0, id, value);
    mx := mx0;
    PartitionSymmetric(mx0, mn0, arena0);
    UpdatedPartition(mn0, mx0, arena0, id, value, mn, arena);
    PartitionSymmetric(mn, mx, arena);
    BelowMonotonic(multiset(Values(mx, arena)), multiset(Values(mx0, arena0)),
                   multiset(Values(mn, arena)) - multiset{value}, multiset(Values(mn0, arena0)));
  }

  /**
   * The first half of `Add` while the window fills: the value goes into the
   * max-heap when the count is even and into the min-heap when it is odd.
   */
  method Insert(mm: MovingMedian, value: int) returns (mx: Heap, mn: Heap, arena: seq<Node>)
    requires Valid(mm) && SampleCount(mm) < mm.maxSamples
    ensures HeapsShaped(mm.maxSamples, mx, mn, arena)
    ensures NodeValues(arena) == NodeValues(mm.arena) + [value]
    ensures NearlyOrdered(mx, mn, arena, value)
    ensures SampleCount(mm) % 2 == 0 ==>
      mn == mm.minHeap && multiset(mx.slots) == multiset(mm.maxHeap.slots) + multiset{|mm.arena| as nat}
    ensures SampleCount(mm) % 2 == 1 ==>
      mx == mm.maxHeap && multiset(mn.slots) == multiset(mm.minHeap.slots) + multiset{|mm.arena| as nat}
  {
    RoomWhileFilling(mm.maxSamples, Count(mm.maxHeap), Count(mm.minHeap));
    if SampleCount(mm) % 2 == 0 {
      mx, mn, arena := InsertLower(mm, value);
    } else {
      mx, mn, arena := InsertUpper(mm, value);
    }
  }

  /** `Insert` into the max-heap, when the halves are equal. */
  method InsertLower(mm: MovingMedian, value: int) returns (mx: Heap, mn: Heap, arena: seq<Node>)
    requires Valid(mm) && SampleCount(mm) < mm.maxSamples
    requires Count(mm.maxHeap) == Count(mm.minHeap) && Count(mm.maxHeap) < mm.maxHeap.capacity
    ensures HeapsShaped(mm.maxSamples, mx, mn, arena)
    ensures NodeValues(arena) == NodeValues(mm.arena) + [value]
    ensures NearlyOrdered(mx, mn, arena, value)
    ensures mn == mm.minHeap && multiset(mx.slots) == multiset(mm.maxHeap.slots) + multiset{|mm.arena| as nat}
  {
    HalvesBelow(mm.maxHeap, mm.minHeap, mm.arena);
    var r := BinaryHeap.Add(mm.maxHeap, mm.arena, value);
    mx, mn, arena := r.value.heap, mm.minHeap, r.value.arena;
    AddedPartition(mm.maxHeap, mm.minHeap, mm.arena, value, r.value);
  }

  /** `Insert` into the min-heap, when the max-heap holds the extra sample. */
  method InsertUpper(mm: MovingMedian, value: int) returns (mx: Heap, mn: Heap, arena: seq<Node>)
    requires Valid(mm) && SampleCount(mm) < mm.maxSamples
    requires Count(mm.maxHeap) == Count(mm.minHeap) + 1 && Count(mm.minHeap) < mm.minHeap.capacity
    ensures HeapsShaped(mm.maxSamples, mx, mn, arena)
    ensures NodeValues(arena) == NodeValues(mm.arena) + [value]
    ensures NearlyOrdered(mx, mn, arena, value)
    ensures mx == mm.maxHeap && multiset(mn.slots) == multiset(mm.minHeap.slots) + multiset{|mm.arena| as nat}
  {
    HalvesBelow(mm.maxHeap, mm.minHeap, mm.arena);
    var r := BinaryHeap.Add(mm.minHeap, mm.arena, value);
    mx, mn, arena := mm.maxHeap, r.value.heap, r.value.arena;
    AddedPartition(mm.minHeap, mm.maxHeap, mm.arena, value, r.value);
    PartitionSymmetric(mn, mx, arena);
  }

  /**
   * The second half of `Add`: when the min-heap root is below the max-heap
   * root, the roots are exchanged and both heaps repaired.
   */
  method Rebalance(maxSamples: int, mx: Heap, mn: Heap, arena: seq<Node>, ghost value: int)
    returns (mx': Heap, mn': Heap, arena': seq<Node>)
    requires HeapsShaped(maxSamples, mx, mn, arena) && NearlyOrdered(mx, mn, arena, value)
    ensures HeapsShaped(maxSamples, mx', mn', arena') && RootsOrdered(mx', mn', arena')
    ensures NodeValues(arena') == NodeValues(arena)
  {
    var minRoot, maxRoot := GetRoot(mn), GetRoot(mx);
    if minRoot.Some? && maxRoot.Some? && arena[minRoot.value].value < arena[maxRoot.value].value {
      var r := SwapRoot(mn, mx, arena);
      mx', mn', arena' := r.value.other, r.value.heap, r.value.arena;
      SwapKeepsShape(maxSamples, mx, mn, arena, value, r.value);
    } else {
      mx', mn', arena' := mx, mn, arena;
    }
  }

  /** The root exchange of `Rebalance` keeps the halves shaped and puts their roots in order. */
  lemma SwapKeepsShape(maxSamples: int, mx: Heap, mn: Heap, arena: seq<Node>, value: int, s: Swapped)
    requires HeapsShaped(maxSamples, mx, mn, arena) && NearlyOrdered(mx, mn, arena, value)
    requires Count(mx) > 0 && Count(mn) > 0
    requires arena[mn.slots[0]].value < arena[mx.slots[0]].value
    requires SwappedFrom(mn, mx, arena, s)
    ensures HeapsShaped(maxSamples, s.other, s.heap, s.arena) && RootsOrdered(s.other, s.heap, s.arena)
    ensures NodeValues(s.arena) == NodeValues(arena)
  {
    PartitionSymmetric(mx, mn, arena);
    SwappedPartition(mn, mx, arena, s);
    PartitionSymmetric(s.heap, s.other, s.arena);
    SwapOrders(mx, mn, arena, value, s);
  }

  /** A root exchange keeps the partition and every node value. */
  lemma SwappedPartition(h: Heap, other: Heap, arena: seq<Node>, s: Swapped)
    requires Partition(h, other, arena) && Count(h) > 0 && Count(other) > 0
    requires SwappedFrom(h, other, arena, s)
    ensures Partition(s.heap, s.other, s.arena)
    ensures NodeValues(s.arena) == NodeValues(arena)
  {
    var a, b := Values(h, arena), Values(other, arena);
    assert NodeValues(s.arena) == NodeValues(arena);
    ExchangedSum(multiset(h.slots), multiset(other.slots), h.slots[0], other.slots[0]);
    ExchangedSum(multiset(a), multiset(b), a[0], b[0]);
  }

  /** After the exchange in `Rebalance`, the max-heap root is at most the min-heap root. */
  lemma SwapOrders(mx: Heap, mn: Heap, arena: seq<Node>, value: int, s: Swapped)
    requires BinaryHeap.Valid(mx, arena) && BinaryHeap.Valid(mn, arena)
    requires mx.kind == MaxHeap && mn.kind == MinHeap && Count(mx) > 0 && Count(mn) > 0
    requires NearlyOrdered(mx, mn, arena, value)
    requires arena[mn.slots[0]].value < arena[mx.slots[0]].value
    requires SwappedFrom(mn, mx, arena, s)
    ensures RootsOrdered(s.other, s.heap, s.arena)
  {
    var a, b := Values(mx, arena), Values(mn, arena);
    var a', b' := Values(s.other, s.arena), Values(s.heap, s.arena);
    forall z | z in multiset(a)
      ensures z <= a[0]
    {
      var i :| 0 <= i < |a| && a[i] == z;
      RootIsExtreme(MaxHeap, a, i);
    }
    forall z | z in multiset(b)
      ensures b[0] <= z
    {
      var j :| 0 <= j < |b| && b[j] == z;
      RootIsExtreme(MinHeap, b, j);
    }
    SwapRestoresOrder(multiset(a), multiset(b), value, a[0], b[0]);
    assert a'[0] in multiset(a') && b'[0] in multiset(b');
  }

  /**
   * Adds a sample: places it (appending while the window fills, overwriting
   * the oldest sample once full), restores root order, and advances the
   * rolling index modulo the window size.
   */
  method Add(mm: MovingMedian, value: int) returns (mm': MovingMedian)
    requires Valid(mm)
    ensures Valid(mm')
    ensures mm'.maxSamples == mm.maxSamples
    ensures NodeValues(mm'.arena) ==
      if SampleCount(mm) == mm.maxSamples then NodeValues(mm.arena)[mm.sampleIndex := value]
      else NodeValues(mm.arena) + [value]
    ensures mm'.sampleIndex == (mm.sampleIndex + 1) % mm.maxSamples
  {
    var mx, mn, arena := Enter(mm, value);
    mx, mn, arena := Rebalance(mm.maxSamples, mx, mn, arena, value);
    var samples := if SampleCount(mm) == mm.maxSamples then mm.samples else mm.samples + [|mm.arena|];
    var next := (mm.sampleIndex + 1) % mm.maxSamples;
    Advanced(mm, mx, mn, arena, samples, next);
    mm' := MovingMedian(mm.maxSamples, mx, mn, arena, samples, next);
  }

  /**
   * The first half of `Add`: the value overwrites the oldest sample once the
   * window is full and joins as a new node while it fills.
   */
  method Enter(mm: MovingMedian, value: int) returns (mx: Heap, mn: Heap, arena: seq<Node>)
    requires Valid(mm)
    ensures HeapsShaped(mm.maxSamples, mx, mn, arena)
    ensures NodeValues(arena) ==
      if SampleCount(mm) == mm.maxSamples then NodeValues(mm.arena)[mm.sampleIndex := value]
      else NodeValues(mm.arena) + [value]
    ensures NearlyOrdered(mx, mn, arena, value)
  {
    if SampleCount(mm) == mm.maxSamples {
      mx, mn, arena := Replace(mm, value);
    } else {
      mx, mn, arena := Insert(mm, value);
    }
  }

  /** The sample table and rolling index after one more sample keep the calculator invariant. */
  lemma Advanced(mm: MovingMedian, mx: Heap, mn: Heap, arena: seq<Node>, samples: seq<nat>, next: int)
    requires Valid(mm)
    requires HeapsShaped(mm.maxSamples, mx, mn, arena) && RootsOrdered(mx, mn, arena)
    requires |arena| == if SampleCount(mm) == mm.maxSamples then |mm.arena| else |mm.arena| + 1
    requires samples == if SampleCount(mm) == mm.maxSamples then mm.samples else mm.samples + [|mm.arena|]
    requires next == (mm.sampleIndex + 1) % mm.maxSamples
    ensures Valid(MovingMedian(mm.maxSamples, mx, mn, arena, samples, next))
  {
    IdsSnoc(|mm.arena|);
    NextIndex(mm.sampleIndex, mm.maxSamples);
  }

  /** Advancing the rolling index modulo the window size wraps to 0 only past the last slot. */
  lemma NextIndex(i: int, n: int)
    requires 0 <= i < n
    ensures (i + 1) % n == if i + 1 == n then 0 else i + 1
  {
  }

  // ---------------------------------------------------------------------------
  // Reading the median
  // ---------------------------------------------------------------------------

  /** The lower middle value of a non-empty sequence once sorted. */
  function LowerMedian(s: seq<int>): int
    requires |s| > 0
  {
    Sorting.Sort(s)[(|s| - 1) / 2]
  }

  /** The upper middle value of a non-empty sequence once sorted (the lower one when `|s|` is odd). */
  function UpperMedian(s: seq<int>): int
    requires |s| > 0
  {
    Sorting.Sort(s)[|s| / 2]
  }

  /** Twice the median of a non-empty sequence: the sum of its two middle values once sorted. */
  function TwiceMedian(s: seq<int>): int
    requires |s| > 0
  {
    LowerMedian(s) + UpperMedian(s)
  }

  /**
   * The middles of a sequence whose sorted form is `x + y`, with `x` equal to
   * `y` in length or one longer: the lower middle is `x`'s last element, and
   * the upper middle is `y`'s first when the lengths are equal.
   */
  lemma MiddlesOfConcat(s: seq<int>, x: seq<int>, y: seq<int>)
    requires Sorting.Sort(s) == x + y
    requires |x| == |y| || |x| == |y| + 1
    requires |x| > 0
    ensures |s| == |x| + |y|
    ensures LowerMedian(s) == x[|x| - 1]
    ensures UpperMedian(s) == if |x| == |y| then y[0] else x[|x| - 1]
  {
    var t := Sorting.Sort(s);
    assert |s| == |t| == |x| + |y|;
    if |x| == |y| {
      assert (|s| - 1) / 2 == |x| - 1 && |s| / 2 == |x|;
      assert t[|x| - 1] == x[|x| - 1] && t[|x|] == y[0];
    } else {
      assert (|s| - 1) / 2 == |x| - 1 && |s| / 2 == |x| - 1;
      assert t[|x| - 1] == x[|x| - 1];
    }
  }

  /**
   * Sorting a sequence split into a lower part `a` (maximum first) and an upper
   * part `b` (minimum first): the sorted form is the sorted `a` followed by the
   * sorted `b`, ending in `a`'s maximum and starting with `b`'s minimum.
   */
  lemma SortOfHalves(s: seq<int>, a: seq<int>, b: seq<int>)
    requires multiset(s) == multiset(a) + multiset(b)
    requires |a| > 0
    requires forall i :: 0 <= i < |a| ==> a[i] <= a[0]
    requires forall j :: 0 <= j < |b| ==> b[0] <= b[j]
    requires forall i, j :: 0 <= i < |a| && 0 <= j < |b| ==> a[i] <= b[j]
    ensures Sorting.Sort(s) == Sorting.Sort(a) + Sorting.Sort(b)
    ensures |Sorting.Sort(a)| == |a| && |Sorting.Sort(b)| == |b|
    ensures Sorting.Sort(a)[|a| - 1] == a[0]
    ensures |b| > 0 ==> Sorting.Sort(b)[0] == b[0]
  {
    assert multiset(s) == multiset(a + b);
    Sorting.SortOfPermutation(s, a + b);
    Sorting.SortOfSplit(a, b);
    Sorting.SortedLastIsMax(a, a[0]);
    if |b| > 0 {
      Sorting.SortedFirstIsMin(b, b[0]);
    }
  }

  /**
   * The median of a split sequence: the lower middle is `a`'s maximum, and the
   * upper middle is `b`'s minimum when the parts are equal in size and `a`'s
   * maximum when `a` is one larger.
   */
  lemma MiddlesOfSplit(s: seq<int>, a: seq<int>, b: seq<int>)
    requires multiset(s) == multiset(a) + multiset(b)
    requires |a| == |b| || |a| == |b| + 1
    requires |a| > 0
    requires forall i :: 0 <= i < |a| ==> a[i] <= a[0]
    requires forall j :: 0 <= j < |b| ==> b[0] <= b[j]
    requires forall i, j :: 0 <= i < |a| && 0 <= j < |b| ==> a[i] <= b[j]
    ensures |s| == |a| + |b|
    ensures LowerMedian(s) == a[0]
    ensures UpperMedian(s) == if |a| == |b| then b[0] else a[0]
  {
    SortOfHalves(s, a, b);
    MiddlesOfConcat(s, Sorting.Sort(a), Sorting.Sort(b));
  }

  /** The heap order and the root order, stated on the two value sequences. */
  lemma SplitOrdered(mx: Heap, mn: Heap, arena: seq<Node>)
    requires BinaryHeap.Valid(mx, arena) && BinaryHeap.Valid(mn, arena) && mx.kind == MaxHeap && mn.kind == MinHeap
    requires RootsOrdered(mx, mn, arena)
    ensures var a, b := Values(mx, arena), Values(mn, arena);
      && (forall i :: 0 <= i < |a| ==> a[i] <= a[0])
      && (forall j :: 0 <= j < |b| ==> b[0] <= b[j])
      && (forall i, j :: 0 <= i < |a| && 0 <= j < |b| ==> a[i] <= b[j])
  {
    var a, b := Values(mx, arena), Values(mn, arena);
    HalvesBelow(mx, mn, arena);
    forall i, j | 0 <= i < |a| && 0 <= j < |b|
      ensures a[i] <= b[j]
    {
      assert a[i] in multiset(a) && b[j] in multiset(b);
    }
    forall i | 0 <= i < |a|
      ensures a[i] <= a[0]
    {
      RootIsExtreme(MaxHeap, a, i);
    }
    forall j | 0 <= j < |b|
      ensures b[0] <= b[j]
    {
      RootIsExtreme(MinHeap, b, j);
    }
  }

  /** The lower middle value of the sorted samples is the max-heap root; the upper one is
      the min-heap root when the halves are equal, and the max-heap root otherwise. */
  lemma MiddlesAtRoots(mm: MovingMedian)
    requires Valid(mm) && SampleCount(mm) > 0
    ensures |NodeValues(mm.arena)| == SampleCount(mm) && Count(mm.maxHeap) > 0
    ensures LowerMedian(NodeValues(mm.arena)) == mm.arena[mm.maxHeap.slots[0]].value
    ensures UpperMedian(NodeValues(mm.arena)) ==
      if Count(mm.maxHeap) == Count(mm.minHeap) then mm.arena[mm.minHeap.slots[0]].value
      else mm.arena[mm.maxHeap.slots[0]].value
  {
    var a, b := Values(mm.maxHeap, mm.arena), Values(mm.minHeap, mm.arena);
    SplitOrdered(mm.maxHeap, mm.minHeap, mm.arena);
    MiddlesOfSplit(NodeValues(mm.arena), a, b);
  }

  /**
   * Twice the median, read from the roots (C++ and Python); no samples is an error.
   */
  function GetTwiceMedian(mm: MovingMedian): (r: Result<int, MedianError>)
    requires Valid(mm)
    ensures r.Err? <==> SampleCount(mm) == 0
    ensures r.Err? ==> r.error == NoSamples
    ensures r.Ok? ==> r.value == TwiceMedian(NodeValues(mm.arena))
  {
    if SampleCount(mm) == 0 then Err(NoSamples)
    else
      MiddlesAtRoots(mm);
      var low := mm.arena[GetRoot(mm.maxHeap).value].value;
      var high := if Count(mm.maxHeap) == Count(mm.minHeap) then mm.arena[GetRoot(mm.minHeap).value].value else low;
      Ok(low + high)
  }

  /** The C version: the same value, but 0 when there are no samples. */
  function TwiceMedianC(mm: MovingMedian): (r: int)
    requires Valid(mm)
    ensures SampleCount(mm) == 0 ==> r == 0
    ensures SampleCount(mm) > 0 ==> r == TwiceMedian(NodeValues(mm.arena))
  {
    if Count(mm.maxHeap) > 0 || Count(mm.minHeap) > 0 then
      MiddlesAtRoots(mm);
      var low := mm.arena[GetRoot(mm.maxHeap).value].value;
      var high := if Count(mm.maxHeap) == Count(mm.minHeap) then mm.arena[GetRoot(mm.minHeap).value].value else low;
      low + high
    else 0
  }

  /** The Java lower median: the max-heap root, the lower middle of the sorted samples. */
  function GetFirstMedian(mm: MovingMedian): (r: Result<int, MedianError>)
    requires Valid(mm)
    ensures r.Err? <==> SampleCount(mm) == 0
    ensures r.Ok? ==> r.value == LowerMedian(NodeValues(mm.arena))
  {
    if SampleCount(mm) == 0 then Err(NoSamples)
    else
      MiddlesAtRoots(mm);
      Ok(mm.arena[GetRoot(mm.maxHeap).value].value)
  }

  /** The Java upper median: the min-heap root when the halves are equal, else the lower median. */
  function GetSecondMedian(mm: MovingMedian): (r: Result<int, MedianError>)
    requires Valid(mm)
    ensures r.Err? <==> SampleCount(mm) == 0
    ensures r.Ok? ==> r.value == UpperMedian(NodeValues(mm.arena))
  {
    if SampleCount(mm) == 0 then Err(NoSamples)
    else if Count(mm.minHeap) == Count(mm.maxHeap) then
      MiddlesAtRoots(mm);
      Ok(mm.arena[GetRoot(mm.minHeap).value].value)
    else
      MiddlesAtRoots(mm);
      GetFirstMedian(mm)
  }
}
