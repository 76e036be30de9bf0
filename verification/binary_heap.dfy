/**
 * The indexed binary heap under the moving median (cpp/MovingMedian.cpp,
 * java/fraudulent_activity/Result.java, fraudulent_activity_notifications/median_heap.c,
 * python/median_heap.py).
 *
 * Heap nodes live in an arena shared by all heaps: a node handle is its arena id.
 * A heap's `slots` holds, for each array position, the id of the node stored
 * there, and each node records its position (`index`) and a tag naming the heap
 * that owns it (`heap`). Operations return the new heap and arena instead of
 * mutating them.
 */
module BinaryHeap {
  import opened Wrappers

  /** The ordering a heap keeps; a node's `heap` tag names its owner by this. */
  datatype Kind = MaxHeap | MinHeap

  datatype Node = Node(value: int, index: int, heap: Kind)

  /** `slots[i]` is the arena id of the node at array position `i`; the count is `|slots|`. */
  datatype Heap = Heap(kind: Kind, capacity: int, slots: seq<nat>)

  datatype HeapError = InvalidCapacity | HeapFull | HeapEmpty

  /** Result of a successful `Add`: the new heap and arena, and the handle of the new node. */
  datatype Added = Added(heap: Heap, arena: seq<Node>, node: nat)

  /** Result of a successful `SwapRoot`: both heaps and the arena after the exchange. */
  datatype Swapped = Swapped(heap: Heap, other: Heap, arena: seq<Node>)

  function Count(h: Heap): nat
  {
    |h.slots|
  }

  // ---------------------------------------------------------------------------
  // Ordering and tree shape
  // ---------------------------------------------------------------------------

  /** Whether `first` must sit above `second`: larger in a max-heap, smaller in a min-heap. */
  predicate ShouldMoveUp(kind: Kind, first: int, second: int)
  {
    match kind
    case MaxHeap => first > second
    case MinHeap => first < second
  }

  /** Whether `first` must sit below `second`. */
  predicate ShouldMoveDown(kind: Kind, first: int, second: int)
  {
    match kind
    case MaxHeap => first < second
    case MinHeap => first > second
  }

  /** A parent value and a child value in heap order. */
  predicate InOrder(kind: Kind, parent: int, child: int)
  {
    !ShouldMoveUp(kind, child, parent)
  }

  /** The parent position as the source computes it: even positions are right children. */
  function Parent(i: nat): nat
    requires i > 0
  {
    var offset := if i % 2 == 0 then 1 else 0;
    (i - offset - 1) / 2
  }

  function LeftChild(i: nat): nat
  {
    2 * i + 1
  }

  function RightChild(i: nat): nat
  {
    2 * i + 2
  }

  /**
   * The source's parent formula is the usual `(i - 1) / 2`, and it inverts both
   * child formulas: `c` has parent `i` exactly when `c` is the left or right child of `i`.
   */
  lemma ParentInvertsChildren(i: nat, c: nat)
    requires c > 0
    ensures Parent(c) == (c - 1) / 2
    ensures Parent(c) < c
    ensures Parent(c) == i <==> c == LeftChild(i) || c == RightChild(i)
  {
  }

  // ---------------------------------------------------------------------------
  // Heap invariants
  // ---------------------------------------------------------------------------

  predicate SlotsInArena(h: Heap, arena: seq<Node>)
  {
    forall i :: 0 <= i < |h.slots| ==> h.slots[i] < |arena|
  }

  /** Index consistency: every stored node records its own position and its owner. */
  predicate LinkedIn(h: Heap, arena: seq<Node>)
  {
    && SlotsInArena(h, arena)
    && forall i :: 0 <= i < |h.slots| ==> arena[h.slots[i]].index == i && arena[h.slots[i]].heap == h.kind
  }

  /** The node with handle `id` is stored in `h` at the position it records. */
  predicate InHeap(h: Heap, arena: seq<Node>, id: nat)
  {
    && id < |arena|
    && 0 <= arena[id].index < |h.slots|
    && h.slots[arena[id].index] == id
  }

  /** The heap's values in array order. */
  function Values(h: Heap, arena: seq<Node>): (v: seq<int>)
    requires SlotsInArena(h, arena)
    ensures |v| == |h.slots|
    ensures forall i {:trigger v[i]} :: 0 <= i < |h.slots| ==> v[i] == arena[h.slots[i]].value
  {
    seq(|h.slots|, i requires 0 <= i < |h.slots| => arena[h.slots[i]].value)
  }

  /** Heap order: every non-root value is in order with its parent's. */
  predicate Ordered(kind: Kind, v: seq<int>)
  {
    forall j :: 0 < j < |v| ==> InOrder(kind, v[Parent(j)], v[j])
  }

  predicate Valid(h: Heap, arena: seq<Node>)
  {
    && Count(h) <= h.capacity
    && LinkedIn(h, arena)
    && Ordered(h.kind, Values(h, arena))
  }

  /**
   * Sift-up may start at `p`: heap order holds everywhere except possibly
   * between `p` and its parent, and `p`'s parent is in order with `p`'s children.
   */
  predicate UpReady(kind: Kind, v: seq<int>, p: nat)
    requires p < |v|
  {
    && (forall j :: 0 < j < |v| && j != p ==> InOrder(kind, v[Parent(j)], v[j]))
    && (p > 0 ==> forall c :: 0 < c < |v| && Parent(c) == p ==> InOrder(kind, v[Parent(p)], v[c]))
  }

  /**
   * Sift-down may start at `p`: heap order holds everywhere except possibly
   * between `p` and its children, and `p`'s parent is in order with `p`'s children.
   */
  predicate DownReady(kind: Kind, v: seq<int>, p: nat)
    requires p < |v|
  {
    && (forall j :: 0 < j < |v| && Parent(j) != p ==> InOrder(kind, v[Parent(j)], v[j]))
    && (p > 0 ==> forall c :: 0 < c < |v| && Parent(c) == p ==> InOrder(kind, v[Parent(p)], v[c]))
  }

  function Swap(v: seq<int>, i: nat, j: nat): (w: seq<int>)
    requires i < |v| && j < |v|
    ensures |w| == |v|
    ensures multiset(w) == multiset(v)
  {
    v[i := v[j]][j := v[i]]
  }

  /** Node values and owner tags are unchanged; nodes outside `ids` are unchanged entirely. */
  predicate SameNodesExceptIndex(arena: seq<Node>, arena': seq<Node>, ids: seq<nat>)
  {
    && |arena'| == |arena|
    && (forall k :: 0 <= k < |arena| ==> arena'[k].value == arena[k].value && arena'[k].heap == arena[k].heap)
    && (forall k :: 0 <= k < |arena| && k !in ids ==> arena'[k] == arena[k])
  }

  // ---------------------------------------------------------------------------
  // Facts about heap order on value sequences
  // ---------------------------------------------------------------------------

  lemma InOrderTransitive(kind: Kind, a: int, b: int, c: int)
    requires InOrder(kind, a, b) && InOrder(kind, b, c)
    ensures InOrder(kind, a, c)
  {
  }

  /** One sift-up swap moves the defect one level up. */
  lemma UpStep(kind: Kind, v: seq<int>, p: nat)
    requires 0 < p < |v| && UpReady(kind, v, p)
    requires ShouldMoveUp(kind, v[p], v[Parent(p)])
    ensures UpReady(kind, Swap(v, p, Parent(p)), Parent(p))
  {
    var q := Parent(p);
    var w := Swap(v, p, q);
    forall j | 0 < j < |w| && j != q
      ensures InOrder(kind, w[Parent(j)], w[j])
    {
      ParentInvertsChildren(q, j);
      if j == p {
      } else if Parent(j) == p {
        assert InOrder(kind, v[q], v[j]);
      } else if Parent(j) == q {
        assert InOrder(kind, v[q], v[j]);
      } else {
        assert w[Parent(j)] == v[Parent(j)] && w[j] == v[j];
      }
    }
    if q > 0 {
      ParentInvertsChildren(0, q);
      forall c | 0 < c < |w| && Parent(c) == q
        ensures InOrder(kind, w[Parent(q)], w[c])
      {
        assert InOrder(kind, v[Parent(q)], v[q]);
        if c != p {
          assert InOrder(kind, v[q], v[c]);
        }
      }
    }
  }

  /** Sift-up stops with heap order restored. */
  lemma UpDone(kind: Kind, v: seq<int>, p: nat)
    requires p < |v| && UpReady(kind, v, p)
    requires p == 0 || !ShouldMoveUp(kind, v[p], v[Parent(p)])
    ensures Ordered(kind, v)
  {
  }

  /** One sift-down swap with the more extreme child moves the defect one level down. */
  lemma DownStep(kind: Kind, v: seq<int>, p: nat, c: nat)
    requires p < c < |v| && DownReady(kind, v, p) && Parent(c) == p
    requires forall s :: 0 < s < |v| && Parent(s) == p ==> InOrder(kind, v[c], v[s])
    requires ShouldMoveDown(kind, v[p], v[c])
    ensures DownReady(kind, Swap(v, p, c), c)
  {
    var w := Swap(v, p, c);
    forall j | 0 < j < |w| && Parent(j) != c
      ensures InOrder(kind, w[Parent(j)], w[j])
    {
      ParentInvertsChildren(p, j);
      if j == c {
      } else if Parent(j) == p {
        assert InOrder(kind, v[c], v[j]);
      } else if j == p {
        assert InOrder(kind, v[Parent(p)], v[c]);
      } else {
        assert w[Parent(j)] == v[Parent(j)] && w[j] == v[j];
      }
    }
    forall g | 0 < g < |w| && Parent(g) == c
      ensures InOrder(kind, w[Parent(c)], w[g])
    {
      ParentInvertsChildren(c, g);
      assert InOrder(kind, v[c], v[g]);
    }
  }

  /** Sift-down stops with heap order restored. */
  lemma DownDone(kind: Kind, v: seq<int>, p: nat, c: nat)
    requires p < |v| && DownReady(kind, v, p)
    requires c < |v| && forall s :: 0 < s < |v| && Parent(s) == p ==> InOrder(kind, v[c], v[s])
    requires !ShouldMoveDown(kind, v[p], v[c])
    ensures Ordered(kind, v)
  {
    forall j | 0 < j < |v| && Parent(j) == p
      ensures InOrder(kind, v[p], v[j])
    {
      InOrderTransitive(kind, v[p], v[c], v[j]);
    }
  }

  /** A node without children cannot violate heap order downwards. */
  lemma DownDoneLeaf(kind: Kind, v: seq<int>, p: nat)
    requires p < |v| && DownReady(kind, v, p) && LeftChild(p) >= |v|
    ensures Ordered(kind, v)
  {
    forall j | 0 < j < |v|
      ensures Parent(j) != p
    {
      ParentInvertsChildren(p, j);
    }
  }

  /**
   * Changing one value of an ordered heap leaves it ready for sift-up when the
   * new value ranks above the old one, and for sift-down otherwise.
   */
  lemma ReadyAfterChange(kind: Kind, v: seq<int>, p: nat, x: int)
    requires p < |v| && Ordered(kind, v)
    ensures ShouldMoveUp(kind, x, v[p]) ==> UpReady(kind, v[p := x], p)
    ensures !ShouldMoveUp(kind, x, v[p]) ==> DownReady(kind, v[p := x], p)
  {
    var w := v[p := x];
    if p > 0 {
      forall c | 0 < c < |w| && Parent(c) == p
        ensures InOrder(kind, w[Parent(p)], w[c])
      {
        ParentInvertsChildren(p, c);
        InOrderTransitive(kind, v[Parent(p)], v[p], v[c]);
      }
    }
    if ShouldMoveUp(kind, x, v[p]) {
      forall j | 0 < j < |w| && j != p
        ensures InOrder(kind, w[Parent(j)], w[j])
      {
        if Parent(j) == p {
          ParentInvertsChildren(p, j);
          assert InOrder(kind, v[p], v[j]);
        }
      }
    } else {
      if p > 0 {
        InOrderTransitive(kind, v[Parent(p)], v[p], x);
      }
      forall j | 0 < j < |w| && Parent(j) != p
        ensures InOrder(kind, w[Parent(j)], w[j])
      {
      }
    }
  }

  /** Appending to an ordered heap leaves it ready for sift-up from the new last position. */
  lemma ReadyAfterAppend(kind: Kind, v: seq<int>, x: int)
    requires Ordered(kind, v)
    ensures UpReady(kind, v + [x], |v|)
  {
    var w := v + [x];
    forall j | 0 < j < |w| && j != |v|
      ensures InOrder(kind, w[Parent(j)], w[j])
    {
      ParentInvertsChildren(0, j);
    }
    forall c | 0 < c < |w|
      ensures Parent(c) != |v|
    {
      ParentInvertsChildren(0, c);
    }
  }

  /** Replacing the root of an ordered heap leaves it ready for sift-down from the root. */
  lemma ReadyAfterRootReplace(kind: Kind, v: seq<int>, x: int)
    requires |v| > 0 && Ordered(kind, v)
    ensures DownReady(kind, v[0 := x], 0)
  {
  }

  /** In an ordered heap the root is in order with every value: the maximum of a max-heap, the minimum of a min-heap. */
  lemma {:induction false} RootIsExtreme(kind: Kind, v: seq<int>, i: nat)
    requires Ordered(kind, v) && i < |v|
    ensures InOrder(kind, v[0], v[i])
    decreases i
  {
    if i > 0 {
      ParentInvertsChildren(0, i);
      RootIsExtreme(kind, v, Parent(i));
      InOrderTransitive(kind, v[0], v[Parent(i)], v[i]);
    }
  }

  // ---------------------------------------------------------------------------
  // Node lookups
  // ---------------------------------------------------------------------------

  /**
   * The child a node would be swapped with when sifting down: the larger child
   * in a max-heap, the smaller in a min-heap, the right one on a tie, and none
   * when the node has no children. Positions are array positions of `v`.
   */
  function MaxOrMinChild(kind: Kind, v: seq<int>, p: nat): (r: Option<nat>)
    ensures r.None? <==> LeftChild(p) >= |v|
    ensures r.Some? ==> p < r.value < |v| && Parent(r.value) == p
    ensures r.Some? ==> forall s :: 0 < s < |v| && Parent(s) == p ==> InOrder(kind, v[r.value], v[s])
    ensures r.Some? && RightChild(p) < |v| && v[LeftChild(p)] == v[RightChild(p)] ==> r.value == RightChild(p)
  {
    var left := if LeftChild(p) < |v| then Some(LeftChild(p)) else None;
    var right := if RightChild(p) < |v| then Some(RightChild(p)) else None;
    assert forall s :: 0 < s < |v| && Parent(s) == p ==> s == LeftChild(p) || s == RightChild(p) by {
      forall s | 0 < s < |v| && Parent(s) == p
        ensures s == LeftChild(p) || s == RightChild(p)
      {
        ParentInvertsChildren(p, s);
      }
    }
    if left.None? then right
    else if right.None? then left
    else if ShouldMoveUp(kind, v[left.value], v[right.value]) then left
    else right
  }

  /** The root handle, or none when the heap is empty (C++, Java and C). */
  function GetRoot(h: Heap): (r: Option<nat>)
    ensures r.None? <==> Count(h) == 0
    ensures r.Some? ==> r.value == h.slots[0]
  {
    if Count(h) > 0 then Some(h.slots[0]) else None
  }

  /**
   * What the root lookup means in a valid heap: the node found sits at
   * position 0, and its value comes first in the heap's order, the
   * maximum of a max-heap and the minimum of a min-heap.
   */
  lemma RootIsFirst(h: Heap, arena: seq<Node>)
    requires Valid(h, arena)
    ensures GetRoot(h).None? <==> Count(h) == 0
    ensures GetRoot(h).Some? ==>
      var root := GetRoot(h).value;
      && InHeap(h, arena, root) && arena[root].index == 0
      && forall i :: 0 <= i < Count(h) ==> InOrder(h.kind, arena[root].value, Values(h, arena)[i])
  {
    if Count(h) > 0 {
      forall i | 0 <= i < Count(h)
        ensures InOrder(h.kind, Values(h, arena)[0], Values(h, arena)[i])
      {
        RootIsExtreme(h.kind, Values(h, arena), i);
      }
    }
  }

  /**
   * The parent's handle, or none at the root. In a linked heap the parent
   * is a stored node, and the node is its left or right child.
   */
  function GetParent(h: Heap, arena: seq<Node>, id: nat): (r: Option<nat>)
    requires InHeap(h, arena, id)
    ensures r.None? <==> arena[id].index == 0
    ensures r.Some? && LinkedIn(h, arena) ==>
      && InHeap(h, arena, r.value)
      && (arena[id].index == LeftChild(arena[r.value].index) || arena[id].index == RightChild(arena[r.value].index))
  {
    var i := arena[id].index;
    if i > 0 then
      ParentInvertsChildren(Parent(i), i);
      Some(h.slots[Parent(i)])
    else None
  }

  /** The parent to swap with when the node ranks above it, or none. */
  function GetSwapUp(h: Heap, arena: seq<Node>, id: nat): (r: Option<nat>)
    requires LinkedIn(h, arena) && InHeap(h, arena, id)
    ensures r.Some? <==> arena[id].index > 0 && ShouldMoveUp(h.kind, arena[id].value, Values(h, arena)[Parent(arena[id].index)])
    ensures r.Some? ==> InHeap(h, arena, r.value) && arena[r.value].index == Parent(arena[id].index)
  {
    var parent := GetParent(h, arena, id);
    if parent.Some? && ShouldMoveUp(h.kind, arena[id].value, arena[parent.value].value) then parent else None
  }

  /** The more extreme child to swap with when the node ranks below it, or none. */
  function GetSwapDown(h: Heap, arena: seq<Node>, id: nat): (r: Option<nat>)
    requires LinkedIn(h, arena) && InHeap(h, arena, id)
    ensures var c := MaxOrMinChild(h.kind, Values(h, arena), arena[id].index);
      r.Some? <==> c.Some? && ShouldMoveDown(h.kind, arena[id].value, Values(h, arena)[c.value])
    ensures r.Some? ==>
      && InHeap(h, arena, r.value)
      && arena[r.value].index == MaxOrMinChild(h.kind, Values(h, arena), arena[id].index).value
  {
    var v := Values(h, arena);
    var child := MaxOrMinChild(h.kind, v, arena[id].index);
    if child.Some? && ShouldMoveDown(h.kind, arena[id].value, v[child.value]) then Some(h.slots[child.value]) else None
  }

  /** Exchanges two stored nodes: their slots and their recorded positions. */
  function SwapNodes(h: Heap, arena: seq<Node>, a: nat, b: nat): (r: (Heap, seq<Node>))
    requires LinkedIn(h, arena) && InHeap(h, arena, a) && InHeap(h, arena, b)
    ensures r.0.kind == h.kind && r.0.capacity == h.capacity && |r.0.slots| == |h.slots|
    ensures |r.1| == |arena|
    ensures LinkedIn(r.0, r.1)
    ensures r.1[a].index == arena[b].index && r.1[b].index == arena[a].index
    ensures Values(r.0, r.1) == Swap(Values(h, arena), arena[a].index, arena[b].index)
    ensures multiset(r.0.slots) == multiset(h.slots)
    ensures SameNodesExceptIndex(arena, r.1, h.slots)
  {
    var i, j := arena[a].index, arena[b].index;
    SwappedNodesLinked(h, arena, a, b);
    SwappedNodesValues(h, arena, a, b);
    (h.(slots := h.slots[i := b][j := a]), arena[a := arena[a].(index := j)][b := arena[b].(index := i)])
  }

  lemma SwappedNodesLinked(h: Heap, arena: seq<Node>, a: nat, b: nat)
    requires LinkedIn(h, arena) && InHeap(h, arena, a) && InHeap(h, arena, b)
    ensures var i, j := arena[a].index, arena[b].index;
      var arena' := arena[a := arena[a].(index := j)][b := arena[b].(index := i)];
      && LinkedIn(h.(slots := h.slots[i := b][j := a]), arena')
      && SameNodesExceptIndex(arena, arena', h.slots)
  {
    var i, j := arena[a].index, arena[b].index;
    var arena' := arena[a := arena[a].(index := j)][b := arena[b].(index := i)];
    assert a in h.slots && b in h.slots;
  }

  lemma SwappedNodesValues(h: Heap, arena: seq<Node>, a: nat, b: nat)
    requires LinkedIn(h, arena) && InHeap(h, arena, a) && InHeap(h, arena, b)
    ensures var i, j := arena[a].index, arena[b].index;
      var arena' := arena[a := arena[a].(index := j)][b := arena[b].(index := i)];
      var slots' := h.slots[i := b][j := a];
      && SlotsInArena(h.(slots := slots'), arena')
      && Values(h.(slots := slots'), arena') == Swap(Values(h, arena), i, j)
      && multiset(slots') == multiset(h.slots)
  {
    var i, j := arena[a].index, arena[b].index;
    var slots' := h.slots[i := b][j := a];
    assert slots' == h.slots[i := h.slots[j]][j := h.slots[i]];
  }

  // ---------------------------------------------------------------------------
  // Operations
  // ---------------------------------------------------------------------------

  /** A stored node is found at the position it records. */
  lemma Member(h: Heap, arena: seq<Node>, k: nat)
    requires LinkedIn(h, arena) && k in h.slots
    ensures InHeap(h, arena, k)
  {
    var i :| 0 <= i < |h.slots| && h.slots[i] == k;
  }

  lemma SameNodesTransitive(a0: seq<Node>, a1: seq<Node>, a2: seq<Node>, ids: seq<nat>, ids': seq<nat>)
    requires SameNodesExceptIndex(a0, a1, ids) && SameNodesExceptIndex(a1, a2, ids')
    requires multiset(ids') == multiset(ids)
    ensures SameNodesExceptIndex(a0, a2, ids)
  {
    assert forall k :: k in ids' <==> k in ids by {
      assert forall k :: k in ids' <==> k in multiset(ids');
      assert forall k :: k in ids <==> k in multiset(ids);
    }
  }

  /** One sift swap keeps the node linked and moves the defect along with it. */
  lemma SwapStep(h: Heap, arena: seq<Node>, id: nat, moveUp: bool, other: nat)
    requires LinkedIn(h, arena) && InHeap(h, arena, id)
    requires moveUp ==> UpReady(h.kind, Values(h, arena), arena[id].index)
    requires !moveUp ==> DownReady(h.kind, Values(h, arena), arena[id].index)
    requires moveUp ==> GetSwapUp(h, arena, id) == Some(other)
    requires !moveUp ==> GetSwapDown(h, arena, id) == Some(other)
    ensures InHeap(h, arena, other)
    ensures var s := SwapNodes(h, arena, id, other);
      && InHeap(s.0, s.1, id)
      && (moveUp ==> s.1[id].index < arena[id].index && UpReady(h.kind, Values(s.0, s.1), s.1[id].index))
      && (!moveUp ==> s.1[id].index > arena[id].index && DownReady(h.kind, Values(s.0, s.1), s.1[id].index))
  {
    var v := Values(h, arena);
    var pos := arena[id].index;
    if moveUp {
      UpStep(h.kind, v, pos);
    } else {
      var c := MaxOrMinChild(h.kind, v, pos).value;
      DownStep(h.kind, v, pos, c);
    }
  }

  /** When no sift swap applies, heap order holds. */
  lemma NoSwapDone(h: Heap, arena: seq<Node>, id: nat, moveUp: bool)
    requires LinkedIn(h, arena) && InHeap(h, arena, id)
    requires moveUp ==> UpReady(h.kind, Values(h, arena), arena[id].index) && GetSwapUp(h, arena, id).None?
    requires !moveUp ==> DownReady(h.kind, Values(h, arena), arena[id].index) && GetSwapDown(h, arena, id).None?
    ensures Ordered(h.kind, Values(h, arena))
  {
    var v := Values(h, arena);
    var pos := arena[id].index;
    if moveUp {
      UpDone(h.kind, v, pos);
    } else {
      var child := MaxOrMinChild(h.kind, v, pos);
      if child.Some? {
        DownDone(h.kind, v, pos, child.value);
      } else {
        DownDoneLeaf(h.kind, v, pos);
      }
    }
  }

  /**
   * Repairs heap order around node `id` after its value or position changed,
   * sifting it up or down one swap at a time until no swap applies.
   */
  method FixHeap(h: Heap, arena: seq<Node>, id: nat, moveUp: bool) returns (h': Heap, arena': seq<Node>)
    requires LinkedIn(h, arena) && InHeap(h, arena, id)
    requires moveUp ==> UpReady(h.kind, Values(h, arena), arena[id].index)
    requires !moveUp ==> DownReady(h.kind, Values(h, arena), arena[id].index)
    ensures h'.kind == h.kind && h'.capacity == h.capacity && |h'.slots| == |h.slots|
    ensures LinkedIn(h', arena') && Ordered(h'.kind, Values(h', arena'))
    ensures multiset(h'.slots) == multiset(h.slots)
    ensures multiset(Values(h', arena')) == multiset(Values(h, arena))
    ensures SameNodesExceptIndex(arena, arena', h.slots)
  {
    h', arena' := h, arena;
    var continueSwapping := true;
    while continueSwapping
      invariant h'.kind == h.kind && h'.capacity == h.capacity && |h'.slots| == |h.slots|
      invariant LinkedIn(h', arena') && InHeap(h', arena', id)
      invariant moveUp ==> UpReady(h.kind, Values(h', arena'), arena'[id].index)
      invariant !moveUp ==> DownReady(h.kind, Values(h', arena'), arena'[id].index)
      invariant !continueSwapping ==> Ordered(h.kind, Values(h', arena'))
      invariant multiset(h'.slots) == multiset(h.slots)
      invariant multiset(Values(h', arena')) == multiset(Values(h, arena))
      invariant SameNodesExceptIndex(arena, arena', h.slots)
      decreases continueSwapping, if moveUp then arena'[id].index else |h.slots| - arena'[id].index
    {
      var swapWith := if moveUp then GetSwapUp(h', arena', id) else GetSwapDown(h', arena', id);
      if swapWith.Some? {
        SwapStep(h', arena', id, moveUp, swapWith.value);
        var swapped := SwapNodes(h', arena', id, swapWith.value);
        SameNodesTransitive(arena, arena', swapped.1, h.slots, h'.slots);
        h', arena' := swapped.0, swapped.1;
      } else {
        NoSwapDone(h', arena', id, moveUp);
        continueSwapping := false;
      }
    }
  }

  /** Constructs an empty heap; a capacity below 1 is rejected (C++, Java and Python). */
  function New(kind: Kind, capacity: int): (r: Result<Heap, HeapError>)
    ensures r.Err? <==> capacity < 1
    ensures r.Ok? ==> r.value.kind == kind && r.value.capacity == capacity && Count(r.value) == 0
    ensures r.Ok? ==> forall arena :: Valid(r.value, arena)
  {
    if capacity < 1 then Err(InvalidCapacity) else Ok(Heap(kind, capacity, []))
  }

  /** The C initialiser: no validation; the caller passes a non-negative capacity. */
  function InitHeapC(kind: Kind, capacity: int): (r: Heap)
    requires capacity >= 0
    ensures r.kind == kind && r.capacity == capacity && Count(r) == 0
    ensures forall arena :: Valid(r, arena)
  {
    Heap(kind, capacity, [])
  }

  /**
   * Adds a node holding `value` at the next free position and sifts it up.
   * A full heap is an error and leaves the heap as it was.
   */
  method Add(h: Heap, arena: seq<Node>, value: int) returns (r: Result<Added, HeapError>)
    requires Valid(h, arena)
    ensures r.Err? <==> Count(h) >= h.capacity
    ensures r.Err? ==> r.error == HeapFull
    ensures r.Ok? ==> var a := r.value;
      && Valid(a.heap, a.arena)
      && a.heap.kind == h.kind && a.heap.capacity == h.capacity
      && Count(a.heap) == Count(h) + 1
      && |a.arena| == |arena| + 1 && a.node == |arena|
      && a.arena[a.node].value == value && a.arena[a.node].heap == h.kind
      && InHeap(a.heap, a.arena, a.node)
      && multiset(a.heap.slots) == multiset(h.slots) + multiset{a.node}
      && multiset(Values(a.heap, a.arena)) == multiset(Values(h, arena)) + multiset{value}
      && (forall k :: 0 <= k < |arena| ==> a.arena[k].value == arena[k].value && a.arena[k].heap == arena[k].heap)
      && (forall k :: 0 <= k < |arena| && k !in h.slots ==> a.arena[k] == arena[k])
  {
    if Count(h) >= h.capacity {
      return Err(HeapFull);
    }
    var id := |arena|;
    var arena1 := arena + [Node(value, Count(h), h.kind)];
    var h1 := h.(slots := h.slots + [id]);
    Appended(h, arena, value);
    var h2, arena2 := FixHeap(h1, arena1, id, true);
    AddEstablishes(h, arena, value, h1, arena1, h2, arena2);
    return Ok(Added(h2, arena2, id));
  }

  /** Appending a node at the next free position keeps the links and readies it for sift-up. */
  lemma Appended(h: Heap, arena: seq<Node>, value: int)
    requires Valid(h, arena)
    ensures var id := |arena|;
      var arena1 := arena + [Node(value, Count(h), h.kind)];
      var h1 := h.(slots := h.slots + [id]);
      && LinkedIn(h1, arena1) && InHeap(h1, arena1, id)
      && Values(h1, arena1) == Values(h, arena) + [value]
      && UpReady(h.kind, Values(h1, arena1), arena1[id].index)
  {
    var id := |arena|;
    var arena1 := arena + [Node(value, Count(h), h.kind)];
    var h1 := h.(slots := h.slots + [id]);
    assert Values(h1, arena1) == Values(h, arena) + [value];
    ReadyAfterAppend(h.kind, Values(h, arena), value);
  }

  /** The bookkeeping behind `Add`: the appended and repaired heap keeps its promise. */
  lemma AddEstablishes(h: Heap, arena: seq<Node>, value: int, h1: Heap, arena1: seq<Node>, h2: Heap, arena2: seq<Node>)
    requires Valid(h, arena) && Count(h) < h.capacity
    requires arena1 == arena + [Node(value, Count(h), h.kind)] && h1 == h.(slots := h.slots + [|arena|])
    requires Values(h1, arena1) == Values(h, arena) + [value]
    requires h2.kind == h.kind && h2.capacity == h.capacity && |h2.slots| == |h1.slots|
    requires LinkedIn(h2, arena2) && Ordered(h2.kind, Values(h2, arena2))
    requires multiset(h2.slots) == multiset(h1.slots)
    requires multiset(Values(h2, arena2)) == multiset(Values(h1, arena1))
    requires SameNodesExceptIndex(arena1, arena2, h1.slots)
    ensures var id: nat := |arena|;
      && Valid(h2, arena2)
      && |arena2| == |arena| + 1 && arena2[id].value == value && arena2[id].heap == h.kind
      && InHeap(h2, arena2, id)
      && multiset(h2.slots) == multiset(h.slots) + multiset{id}
      && multiset(Values(h2, arena2)) == multiset(Values(h, arena)) + multiset{value}
      && (forall k :: 0 <= k < |arena| ==> arena2[k].value == arena[k].value && arena2[k].heap == arena[k].heap)
      && (forall k :: 0 <= k < |arena| && k !in h.slots ==> arena2[k] == arena[k])
  {
    var id: nat := |arena|;
    assert id in multiset(h2.slots);
    Member(h2, arena2, id);
    assert forall k :: k in h1.slots <==> k in h.slots || k == id;
  }

  /**
   * Sets the value of node `id` and repairs the heap: upwards when the new
   * value ranks above the old one, downwards otherwise. An unchanged value is a no-op.
   */
  method Update(h: Heap, arena: seq<Node>, id: nat, value: int) returns (h': Heap, arena': seq<Node>)
    requires Valid(h, arena) && InHeap(h, arena, id)
    ensures Valid(h', arena')
    ensures h'.kind == h.kind && h'.capacity == h.capacity && Count(h') == Count(h)
    ensures value == arena[id].value ==> h' == h && arena' == arena
    ensures multiset(h'.slots) == multiset(h.slots)
    ensures multiset(Values(h', arena')) == multiset(Values(h, arena)) - multiset{arena[id].value} + multiset{value}
    ensures |arena'| == |arena| && arena'[id].value == value
    ensures forall k :: 0 <= k < |arena| && k != id ==> arena'[k].value == arena[k].value
    ensures forall k :: 0 <= k < |arena| ==> arena'[k].heap == arena[k].heap
    ensures forall k :: 0 <= k < |arena| && k !in h.slots ==> arena'[k] == arena[k]
  {
    var oldValue := arena[id].value;
    if value == oldValue {
      assert Values(h, arena)[arena[id].index] == oldValue;
      return h, arena;
    }
    var moveUp := ShouldMoveUp(h.kind, value, oldValue);
    var arena1 := arena[id := arena[id].(value := value)];
    var v := Values(h, arena);
    var pos := arena[id].index;
    assert Values(h, arena1) == v[pos := value];
    ReadyAfterChange(h.kind, v, pos, value);
    assert multiset(v[pos := value]) == multiset(v) - multiset{oldValue} + multiset{value};
    h', arena' := FixHeap(h, arena1, id, moveUp);
  }

  /** Heaps of different kinds never share a node. */
  lemma Disjoint(h: Heap, other: Heap, arena: seq<Node>)
    requires LinkedIn(h, arena) && LinkedIn(other, arena) && h.kind != other.kind
    ensures forall k :: k in other.slots ==> k !in h.slots
  {
  }

  /** A heap whose nodes are untouched keeps its links and values. */
  lemma Frame(h: Heap, arena: seq<Node>, arena': seq<Node>)
    requires LinkedIn(h, arena)
    requires |arena'| >= |arena|
    requires forall k :: 0 <= k < |arena| && k in h.slots ==> arena'[k] == arena[k]
    ensures LinkedIn(h, arena') && Values(h, arena') == Values(h, arena)
  {
  }

  /**
   * The exchange step of a root swap, before any repair: each heap's slot 0
   * receives the other heap's root, retagged with its new owner.
   */
  function ExchangeRoots(h: Heap, other: Heap, arena: seq<Node>): (r: Swapped)
    requires SlotsInArena(h, arena) && SlotsInArena(other, arena)
    requires Count(h) > 0 && Count(other) > 0 && h.slots[0] != other.slots[0]
    ensures |r.arena| == |arena|
    ensures r.heap.kind == h.kind && r.heap.capacity == h.capacity && Count(r.heap) == Count(h)
    ensures r.other.kind == other.kind && r.other.capacity == other.capacity && Count(r.other) == Count(other)
    ensures r.heap.slots == h.slots[0 := other.slots[0]] && r.other.slots == other.slots[0 := h.slots[0]]
    ensures r.arena[h.slots[0]].heap == other.kind && r.arena[other.slots[0]].heap == h.kind
    ensures forall k :: 0 <= k < |arena| ==> r.arena[k].value == arena[k].value && r.arena[k].index == arena[k].index
    ensures forall k :: 0 <= k < |arena| && k != h.slots[0] && k != other.slots[0] ==> r.arena[k] == arena[k]
  {
    var ourRoot, theirRoot := h.slots[0], other.slots[0];
    var arena1 := arena[ourRoot := arena[ourRoot].(heap := other.kind)][theirRoot := arena[theirRoot].(heap := h.kind)];
    Swapped(h.(slots := h.slots[0 := theirRoot]), other.(slots := other.slots[0 := ourRoot]), arena1)
  }

  /** After the exchange both heaps are linked and each is ready for sift-down from its root. */
  lemma ExchangeRootsLinked(h: Heap, other: Heap, arena: seq<Node>)
    requires Valid(h, arena) && Valid(other, arena) && h.kind != other.kind
    requires Count(h) > 0 && Count(other) > 0
    ensures h.slots[0] != other.slots[0]
    ensures var r := ExchangeRoots(h, other, arena);
      && LinkedIn(r.heap, r.arena) && LinkedIn(r.other, r.arena)
      && InHeap(r.heap, r.arena, other.slots[0]) && InHeap(r.other, r.arena, h.slots[0])
  {
  }

  lemma ExchangeRootsValues(h: Heap, other: Heap, arena: seq<Node>)
    requires Valid(h, arena) && Valid(other, arena) && h.kind != other.kind
    requires Count(h) > 0 && Count(other) > 0 && h.slots[0] != other.slots[0]
    ensures var r := ExchangeRoots(h, other, arena);
      var v, w := Values(h, arena), Values(other, arena);
      && Values(r.heap, r.arena) == v[0 := w[0]]
      && Values(r.other, r.arena) == w[0 := v[0]]
      && DownReady(h.kind, Values(r.heap, r.arena), 0) && DownReady(other.kind, Values(r.other, r.arena), 0)
  {
    var r := ExchangeRoots(h, other, arena);
    var v, w := Values(h, arena), Values(other, arena);
    assert Values(r.heap, r.arena) == v[0 := w[0]];
    assert Values(r.other, r.arena) == w[0 := v[0]];
    ReadyAfterRootReplace(h.kind, v, w[0]);
    ReadyAfterRootReplace(other.kind, w, v[0]);
  }

  lemma ReplaceMultiset<T>(s: seq<T>, i: nat, x: T)
    requires i < |s|
    ensures multiset(s[i := x]) == multiset(s) - multiset{s[i]} + multiset{x}
  {
  }

  /** What a successful root swap promises about the swapped heaps `s`. */
  predicate SwappedFrom(h: Heap, other: Heap, arena: seq<Node>, s: Swapped)
    requires SlotsInArena(h, arena) && SlotsInArena(other, arena) && Count(h) > 0 && Count(other) > 0
  {
    && Valid(s.heap, s.arena) && Valid(s.other, s.arena)
    && s.heap.kind == h.kind && s.heap.capacity == h.capacity && Count(s.heap) == Count(h)
    && s.other.kind == other.kind && s.other.capacity == other.capacity && Count(s.other) == Count(other)
    && |s.arena| == |arena|
    && s.arena[h.slots[0]].heap == other.kind && s.arena[other.slots[0]].heap == h.kind
    && multiset(s.heap.slots) == multiset(h.slots) - multiset{h.slots[0]} + multiset{other.slots[0]}
    && multiset(s.other.slots) == multiset(other.slots) - multiset{other.slots[0]} + multiset{h.slots[0]}
    && multiset(Values(s.heap, s.arena)) == multiset(Values(h, arena)) - multiset{Values(h, arena)[0]} + multiset{Values(other, arena)[0]}
    && multiset(Values(s.other, s.arena)) == multiset(Values(other, arena)) - multiset{Values(other, arena)[0]} + multiset{Values(h, arena)[0]}
    && (forall k :: 0 <= k < |arena| ==> s.arena[k].value == arena[k].value)
    && (forall k :: 0 <= k < |arena| && k !in h.slots && k !in other.slots ==> s.arena[k] == arena[k])
  }

  /**
   * Exchanges the roots of two heaps of different kinds, retags both nodes with
   * their new owner, and sifts both down. Either heap being empty is an error.
   */
  method SwapRoot(h: Heap, other: Heap, arena: seq<Node>) returns (r: Result<Swapped, HeapError>)
    requires Valid(h, arena) && Valid(other, arena) && h.kind != other.kind
    ensures r.Err? <==> Count(h) == 0 || Count(other) == 0
    ensures r.Err? ==> r.error == HeapEmpty
    ensures r.Ok? ==> Count(h) > 0 && Count(other) > 0 && SwappedFrom(h, other, arena, r.value)
  {
    if Count(h) == 0 || Count(other) == 0 {
      return Err(HeapEmpty);
    }
    var ourRoot, theirRoot := h.slots[0], other.slots[0];
    ExchangeRootsLinked(h, other, arena);
    var x := ExchangeRoots(h, other, arena);
    ExchangeRootsValues(h, other, arena);
    var h2, arena2 := FixHeap(x.heap, x.arena, theirRoot, false);
    Disjoint(x.heap, x.other, x.arena);
    Frame(x.other, x.arena, arena2);
    var o2, arena3 := FixHeap(x.other, arena2, ourRoot, false);
    SwapRootEstablishes(h, other, arena, x, h2, arena2, o2, arena3);
    return Ok(Swapped(h2, o2, arena3));
  }

  /** The bookkeeping behind `SwapRoot`: the two repairs compose into its promise. */
  lemma SwapRootEstablishes(h: Heap, other: Heap, arena: seq<Node>, x: Swapped,
                            h2: Heap, arena2: seq<Node>, o2: Heap, arena3: seq<Node>)
    requires Valid(h, arena) && Valid(other, arena) && h.kind != other.kind
    requires Count(h) > 0 && Count(other) > 0 && h.slots[0] != other.slots[0]
    requires x == ExchangeRoots(h, other, arena)
    requires LinkedIn(x.heap, x.arena) && LinkedIn(x.other, x.arena)
    requires Values(x.heap, x.arena) == Values(h, arena)[0 := Values(other, arena)[0]]
    requires Values(x.other, x.arena) == Values(other, arena)[0 := Values(h, arena)[0]]
    requires h2.kind == h.kind && h2.capacity == h.capacity && |h2.slots| == |h.slots|
    requires LinkedIn(h2, arena2) && Ordered(h2.kind, Values(h2, arena2))
    requires multiset(h2.slots) == multiset(x.heap.slots)
    requires multiset(Values(h2, arena2)) == multiset(Values(x.heap, x.arena))
    requires SameNodesExceptIndex(x.arena, arena2, x.heap.slots)
    requires LinkedIn(x.other, arena2) && Values(x.other, arena2) == Values(x.other, x.arena)
    requires o2.kind == other.kind && o2.capacity == other.capacity && |o2.slots| == |other.slots|
    requires LinkedIn(o2, arena3) && Ordered(o2.kind, Values(o2, arena3))
    requires multiset(o2.slots) == multiset(x.other.slots)
    requires multiset(Values(o2, arena3)) == multiset(Values(x.other, arena2))
    requires SameNodesExceptIndex(arena2, arena3, x.other.slots)
    ensures SwappedFrom(h, other, arena, Swapped(h2, o2, arena3))
  {
    var ourRoot, theirRoot := h.slots[0], other.slots[0];
    var v, w := Values(h, arena), Values(other, arena);
    RepairFramed(x.heap, x.other, x.arena, h2, arena2, arena3);
    ReplaceMultiset(v, 0, w[0]);
    ReplaceMultiset(w, 0, v[0]);
    ReplaceMultiset(h.slots, 0, theirRoot);
    ReplaceMultiset(other.slots, 0, ourRoot);
    ExchangedSlots(h.slots, other.slots);
  }

  /** The first repair touches only the first heap's nodes, so the second leaves them alone. */
  lemma RepairFramed(xh: Heap, xo: Heap, xa: seq<Node>, h2: Heap, arena2: seq<Node>, arena3: seq<Node>)
    requires LinkedIn(xh, xa) && LinkedIn(xo, xa) && xh.kind != xo.kind
    requires LinkedIn(h2, arena2) && multiset(h2.slots) == multiset(xh.slots)
    requires SameNodesExceptIndex(arena2, arena3, xo.slots)
    ensures LinkedIn(h2, arena3) && Values(h2, arena3) == Values(h2, arena2)
  {
    Disjoint(xh, xo, xa);
    forall k | k in h2.slots
      ensures k !in xo.slots
    {
      assert k in multiset(h2.slots);
    }
    Frame(h2, arena2, arena3);
  }

  /** Exchanging the first elements of two sequences keeps the elements of both together. */
  lemma ExchangedSlots(a: seq<nat>, b: seq<nat>)
    requires |a| > 0 && |b| > 0
    ensures forall k :: k in a[0 := b[0]] || k in b[0 := a[0]] <==> k in a || k in b
  {
    forall k | k in a || k in b
      ensures k in a[0 := b[0]] || k in b[0 := a[0]]
    {
      if k in a {
        var i :| 0 <= i < |a| && a[i] == k;
        if i == 0 { assert b[0 := a[0]][0] == k; } else { assert a[0 := b[0]][i] == k; }
      } else {
        var j :| 0 <= j < |b| && b[j] == k;
        if j == 0 { assert a[0 := b[0]][0] == k; } else { assert b[0 := a[0]][j] == k; }
      }
    }
    forall k | k in a[0 := b[0]] || k in b[0 := a[0]]
      ensures k in a || k in b
    {
      if k in a[0 := b[0]] {
        var i :| 0 <= i < |a| && a[0 := b[0]][i] == k;
        if i == 0 { assert b[0] == k; } else { assert a[i] == k; }
      } else {
        var j :| 0 <= j < |b| && b[0 := a[0]][j] == k;
        if j == 0 { assert a[0] == k; } else { assert b[j] == k; }
      }
    }
  }

  // ---------------------------------------------------------------------------
  // Pre-allocated storage (C and Python)
  // ---------------------------------------------------------------------------

  /**
   * The C and Python versions keep the nodes in an array of `capacity`
   * entries, allocated empty (`calloc`, `[None] * capacity`). An entry holds
   * a node handle or nothing.
   */
  type Storage = seq<Option<nat>>

  /** Every entry from position `n` up to the capacity is empty. */
  predicate EmptyFrom(st: Storage, n: nat)
  {
    forall i :: n <= i < |st| ==> st[i].None?
  }

  /** The storage lists the heap's nodes at their positions, and holds nothing at or past the count. */
  predicate Stores(st: Storage, h: Heap)
  {
    && |st| == h.capacity
    && Count(h) <= |st|
    && (forall i :: 0 <= i < Count(h) ==> st[i] == Some(h.slots[i]))
    && EmptyFrom(st, Count(h))
  }

  /** The allocation of `init_heap` and the Python constructor: every entry empty. */
  function AllocStorage(capacity: nat): (st: Storage)
    ensures |st| == capacity && EmptyFrom(st, 0)
  {
    seq(capacity, _ => None)
  }

  /** The write of `add`: the new node goes to the entry at the old count. */
  function StoreAppend(st: Storage, count: nat, id: nat): (r: Storage)
    requires count < |st|
    ensures |r| == |st| && r[count] == Some(id)
    ensures EmptyFrom(st, count) ==> EmptyFrom(r, count + 1)
  {
    st[count := Some(id)]
  }

  /** The writes of `_swap_nodes`: two entries trade places. */
  function StoreSwap(st: Storage, i: nat, j: nat): (r: Storage)
    requires i < |st| && j < |st|
    ensures |r| == |st| && r[i] == st[j] && r[j] == st[i]
    ensures forall n: nat :: i < n && j < n && EmptyFrom(st, n) ==> EmptyFrom(r, n)
  {
    st[i := st[j]][j := st[i]]
  }

  /** The write of `swap_root` to one heap: entry 0 receives the other heap's root. */
  function StoreRoot(st: Storage, id: nat): (r: Storage)
    requires 0 < |st|
    ensures |r| == |st| && r[0] == Some(id)
    ensures forall n: nat :: 0 < n && EmptyFrom(st, n) ==> EmptyFrom(r, n)
  {
    st[0 := Some(id)]
  }

  /** A freshly allocated storage holds the new empty heap. */
  lemma AllocStores(kind: Kind, capacity: int)
    requires capacity >= 0
    ensures Stores(AllocStorage(capacity), InitHeapC(kind, capacity))
    ensures New(kind, capacity).Ok? ==> Stores(AllocStorage(capacity), New(kind, capacity).value)
  {
  }

  /** The write of `add` stores the heap with the new node appended, before the sift-up. */
  lemma AppendStores(st: Storage, h: Heap, id: nat)
    requires Stores(st, h) && Count(h) < h.capacity
    ensures Stores(StoreAppend(st, Count(h), id), h.(slots := h.slots + [id]))
  {
    var h1 := h.(slots := h.slots + [id]);
    var r := StoreAppend(st, Count(h), id);
    forall i | 0 <= i < Count(h1)
      ensures r[i] == Some(h1.slots[i])
    {
      if i < Count(h) {
        assert r[i] == st[i];
      }
    }
  }

  /** The writes of `_swap_nodes` store the heap that `SwapNodes` returns. */
  lemma SwapStores(st: Storage, h: Heap, arena: seq<Node>, a: nat, b: nat)
    requires LinkedIn(h, arena) && InHeap(h, arena, a) && InHeap(h, arena, b)
    requires Stores(st, h)
    ensures Stores(StoreSwap(st, arena[a].index, arena[b].index), SwapNodes(h, arena, a, b).0)
  {
    var i, j := arena[a].index, arena[b].index;
    var h' := SwapNodes(h, arena, a, b).0;
    assert h'.slots == h.slots[i := b][j := a];
  }

  /** The root writes of `swap_root` store the two heaps that `ExchangeRoots` returns. */
  lemma ExchangeStores(st: Storage, so: Storage, h: Heap, other: Heap, arena: seq<Node>)
    requires SlotsInArena(h, arena) && SlotsInArena(other, arena)
    requires Count(h) > 0 && Count(other) > 0 && h.slots[0] != other.slots[0]
    requires Stores(st, h) && Stores(so, other)
    ensures var x := ExchangeRoots(h, other, arena);
      Stores(StoreRoot(st, other.slots[0]), x.heap) && Stores(StoreRoot(so, h.slots[0]), x.other)
  {
  }

  /**
   * The child lookup of the C version: bounded by the capacity, it reads the
   * storage, whose entries past the count are empty. It therefore finds a node
   * exactly where the count-bounded lookup of the C++ and Java versions does.
   */
  function CapacityBoundedChild(h: Heap, st: Storage, c: nat): (r: Option<nat>)
    requires Stores(st, h)
    ensures r.Some? <==> c < Count(h)
    ensures r.Some? ==> r.value == h.slots[c]
  {
    if c < h.capacity then st[c] else None
  }

  /**
   * The Python root lookup: storage entry 0 read without a count check. It
   * agrees with `GetRoot` because the entries past the count are empty.
   */
  function StorageRoot(h: Heap, st: Storage): (r: Option<nat>)
    requires 1 <= h.capacity && Stores(st, h)
    ensures r == GetRoot(h)
  {
    st[0]
  }
}
