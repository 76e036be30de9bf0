/**
 * The least-recently-used cache of cpp/lru_cache.cpp: a key map into a
 * doubly-linked recency list, head = least recent, tail = most recent.
 *
 * Every key owns exactly one list node, so a node is named by its key: the
 * map sends a key to its node's links and value. The list is related to a
 * plain sequence of keys in recency order by `Linked`, and every operation
 * is proved to act on that sequence as the recency discipline says.
 */
module LruCache {
  import opened Wrappers
  import opened SeqSets

  /** A list node: neighbour keys and the cached value. */
  datatype Node = Node(prev: Option<int>, next: Option<int>, value: int)

  /** The key map with the ends of the doubly-linked list through its nodes. */
  datatype List = List(mp: map<int, Node>, head: Option<int>, tail: Option<int>)

  /** `LRUCache`: capacity `cp` and the list. */
  datatype Cache = Cache(cp: int, list: List)

  // ---------------------------------------------------------------------------
  // The recency sequence
  // ---------------------------------------------------------------------------

  function Prev(s: seq<int>, j: int): Option<int>
    requires 0 <= j < |s|
  {
    if j == 0 then None else Some(s[j - 1])
  }

  function Next(s: seq<int>, j: int): Option<int>
    requires 0 <= j < |s|
  {
    if j == |s| - 1 then None else Some(s[j + 1])
  }

  function First(s: seq<int>): Option<int>
  {
    if s == [] then None else Some(s[0])
  }

  function Last(s: seq<int>): Option<int>
  {
    if s == [] then None else Some(s[|s| - 1])
  }

  /** Node `s[j]` is linked to its neighbours in `s`. */
  predicate LinkedAt(mp: map<int, Node>, s: seq<int>, j: int)
    requires 0 <= j < |s|
  {
    s[j] in mp && mp[s[j]].prev == Prev(s, j) && mp[s[j]].next == Next(s, j)
  }

  /** The list's nodes form the doubly-linked list of the keys `s`, in order. */
  predicate Linked(l: List, s: seq<int>)
  {
    && Distinct(s)
    && l.mp.Keys == (set k | k in s)
    && l.head == First(s)
    && l.tail == Last(s)
    && forall j :: 0 <= j < |s| ==> LinkedAt(l.mp, s, j)
  }

  /** What the list answers for each key. */
  function Values(l: List): (m: map<int, int>)
    ensures m.Keys == l.mp.Keys
    ensures forall k :: k in m ==> m[k] == l.mp[k].value
  {
    map k | k in l.mp :: l.mp[k].value
  }

  /** `s` without the key at position `i`. */
  function Without(s: seq<int>, i: int): (r: seq<int>)
    requires 0 <= i < |s|
    ensures |r| == |s| - 1
    ensures forall j :: 0 <= j < i ==> r[j] == s[j]
    ensures forall j :: i <= j < |r| ==> r[j] == s[j + 1]
  {
    s[..i] + s[i + 1..]
  }

  // ---------------------------------------------------------------------------
  // The list primitives
  // ---------------------------------------------------------------------------

  /**
   * `remove_node`: unlink `key`'s node, moving the head or tail past it when
   * it is one, and drop it from the map. Its predecessor now points on to
   * its successor and back.
   */
  function RemoveNode(l: List, key: int): (l': List)
    requires key in l.mp
    ensures l'.mp.Keys == l.mp.Keys - {key}
    ensures l'.head == if l.head == Some(key) then l.mp[key].next else l.head
    ensures l'.tail == if l.tail == Some(key) then l.mp[key].prev else l.tail
    ensures forall k :: k in l'.mp ==> l'.mp[k].value == l.mp[k].value
    ensures forall k :: k in l'.mp ==>
      l'.mp[k].next == (if l.mp[key].prev == Some(k) then l.mp[key].next else l.mp[k].next)
    ensures forall k :: k in l'.mp ==>
      l'.mp[k].prev == (if l.mp[key].next == Some(k) then l.mp[key].prev else l.mp[k].prev)
  {
    var n := l.mp[key];
    var head' := if l.head == Some(key) then n.next else l.head;
    var tail' := if l.tail == Some(key) then n.prev else l.tail;
    var mp1 := if n.prev.Some? && n.prev.value in l.mp
               then l.mp[n.prev.value := l.mp[n.prev.value].(next := n.next)] else l.mp;
    var mp2 := if n.next.Some? && n.next.value in mp1
               then mp1[n.next.value := mp1[n.next.value].(prev := n.prev)] else mp1;
    List(mp2 - {key}, head', tail')
  }

  /** `add_node`: link a new node for `key` after the tail. */
  function AddNode(l: List, key: int, value: int): (l': List)
    requires key !in l.mp
    ensures l'.mp.Keys == l.mp.Keys + {key}
    ensures l'.mp[key] == Node(l.tail, None, value)
    ensures forall k :: k in l.mp ==> l'.mp[k].value == l.mp[k].value && l'.mp[k].prev == l.mp[k].prev
    ensures forall k :: k in l.mp ==> l'.mp[k].next == if l.tail == Some(k) then Some(key) else l.mp[k].next
  {
    var mp1 := if l.tail.Some? && l.tail.value in l.mp
               then l.mp[l.tail.value := l.mp[l.tail.value].(next := Some(key))] else l.mp;
    var head' := if l.head.None? then Some(key) else l.head;
    List(mp1[key := Node(l.tail, None, value)], head', Some(key))
  }

  /** `touch` (after the value is set): move `key`'s node to the tail, holding `value`. */
  function Touch(l: List, key: int, value: int): List
    requires key in l.mp
  {
    AddNode(RemoveNode(l, key), key, value)
  }

  /** Unlinking the node at position `i` leaves the list of the other keys. */
  lemma {:induction false} RemoveLinked(l: List, s: seq<int>, i: int)
    requires Linked(l, s) && 0 <= i < |s|
    ensures s[i] in l.mp && Linked(RemoveNode(l, s[i]), Without(s, i))
  {
    var l' := RemoveNode(l, s[i]);
    var r := Without(s, i);
    forall j | 0 <= j < |r|
      ensures LinkedAt(l'.mp, r, j)
    {
      if j < i {
        RelinkedBefore(l, s, i, j);
      } else {
        RelinkedAfter(l, s, i, j);
      }
    }
    WithoutKeys(s, i);
    WithoutDistinct(s, i);
    RemovedEnds(l, s, i);
  }

  /** Removing the head or the tail node moves that end to its neighbour. */
  lemma RemovedEnds(l: List, s: seq<int>, i: int)
    requires Linked(l, s) && 0 <= i < |s|
    ensures RemoveNode(l, s[i]).head == First(Without(s, i))
    ensures RemoveNode(l, s[i]).tail == Last(Without(s, i))
  {
    var r := Without(s, i);
    assert LinkedAt(l.mp, s, i);
    if i == 0 {
      if |s| > 1 { assert r[0] == s[1]; }
    } else {
      assert s[0] != s[i] && r[0] == s[0];
    }
    if i == |s| - 1 {
      if |s| > 1 { assert r[|r| - 1] == s[i - 1]; }
    } else {
      assert s[|s| - 1] != s[i] && r[|r| - 1] == s[|s| - 1];
    }
  }

  /** A node before the removed one keeps its links, except that its successor may be skipped. */
  lemma RelinkedBefore(l: List, s: seq<int>, i: int, j: int)
    requires Distinct(s) && 0 <= j < i < |s|
    requires LinkedAt(l.mp, s, i) && forall t :: 0 <= t < |s| ==> LinkedAt(l.mp, s, t)
    ensures LinkedAt(RemoveNode(l, s[i]).mp, Without(s, i), j)
  {
    var key := s[i];
    var n := l.mp[key];
    var l' := RemoveNode(l, key);
    var r := Without(s, i);
    var k := s[j];
    assert LinkedAt(l.mp, s, i) && LinkedAt(l.mp, s, j);
    assert r[j] == k && k != key && k in l'.mp;
    if j == i - 1 {
      assert n.prev == Some(k);
      assert l'.mp[k].next == n.next == Next(s, i);
      assert Next(r, j) == Next(s, i) by {
        if i < |s| - 1 { assert r[j + 1] == s[i + 1]; }
      }
    } else {
      assert n.prev != Some(k) by { assert s[i - 1] != s[j]; }
      assert l'.mp[k].next == l.mp[k].next == Some(s[j + 1]);
      assert r[j + 1] == s[j + 1];
    }
    assert n.next != Some(k) by {
      if i < |s| - 1 { assert s[i + 1] != s[j]; }
    }
    assert l'.mp[k].prev == l.mp[k].prev == Prev(s, j);
    assert Prev(s, j) == Prev(r, j) by {
      if j > 0 { assert r[j - 1] == s[j - 1]; }
    }
  }

  /** A node after the removed one keeps its links, except that its predecessor may be skipped. */
  lemma RelinkedAfter(l: List, s: seq<int>, i: int, j: int)
    requires Distinct(s) && 0 <= i <= j < |s| - 1
    requires LinkedAt(l.mp, s, i) && forall t :: 0 <= t < |s| ==> LinkedAt(l.mp, s, t)
    ensures LinkedAt(RemoveNode(l, s[i]).mp, Without(s, i), j)
  {
    var key := s[i];
    var n := l.mp[key];
    var l' := RemoveNode(l, key);
    var r := Without(s, i);
    var k := s[j + 1];
    assert LinkedAt(l.mp, s, i) && LinkedAt(l.mp, s, j + 1);
    assert r[j] == k && k != key && k in l'.mp;
    assert n.prev != Some(k) by {
      if i > 0 { assert s[i - 1] != s[j + 1]; }
    }
    assert l'.mp[k].next == l.mp[k].next == Next(s, j + 1);
    assert Next(s, j + 1) == Next(r, j) by {
      if j + 1 < |s| - 1 { assert r[j + 1] == s[j + 2]; }
    }
    if j == i {
      assert n.next == Some(k);
      assert l'.mp[k].prev == n.prev == Prev(s, i);
      assert Prev(r, j) == Prev(s, i) by {
        if i > 0 { assert r[i - 1] == s[i - 1]; }
      }
    } else {
      assert n.next != Some(k) by { assert s[i + 1] != s[j + 1]; }
      assert l'.mp[k].prev == l.mp[k].prev == Some(s[j]);
      assert r[j - 1] == s[j];
    }
  }

  lemma WithoutKeys(s: seq<int>, i: int)
    requires Distinct(s) && 0 <= i < |s|
    ensures (set k | k in Without(s, i)) == (set k | k in s) - {s[i]}
  {
    var r := Without(s, i);
    forall k ensures k in r <==> k in s && k != s[i] {
      if k in s {
        var t :| 0 <= t < |s| && s[t] == k;
        if t < i { assert r[t] == k; } else if t > i { assert r[t - 1] == k; }
      }
    }
  }

  lemma WithoutDistinct(s: seq<int>, i: int)
    requires Distinct(s) && 0 <= i < |s|
    ensures Distinct(Without(s, i))
  {
    var r := Without(s, i);
    forall a, b | 0 <= a < b < |r| ensures r[a] != r[b] {
      var a' := if a < i then a else a + 1;
      var b' := if b < i then b else b + 1;
      assert r[a] == s[a'] && r[b] == s[b'];
    }
  }

  /** Linking a new key after the tail extends the list by that key. */
  lemma {:induction false} AddLinked(l: List, s: seq<int>, key: int, value: int)
    requires Linked(l, s) && key !in l.mp
    ensures Linked(AddNode(l, key, value), s + [key])
  {
    var l' := AddNode(l, key, value);
    var r := s + [key];
    if s != [] {
      assert LinkedAt(l.mp, s, |s| - 1);
    }
    forall j | 0 <= j < |r|
      ensures LinkedAt(l'.mp, r, j)
    {
      if j < |s| {
        assert LinkedAt(l.mp, s, j);
        assert r[j] == s[j];
      }
    }
    assert l'.mp.Keys == (set k | k in r);
  }

  lemma RemoveValues(l: List, key: int)
    requires key in l.mp
    ensures Values(RemoveNode(l, key)) == Values(l) - {key}
  {
  }

  lemma AddValues(l: List, key: int, value: int)
    requires key !in l.mp
    ensures Values(AddNode(l, key, value)) == Values(l)[key := value]
  {
  }

  // ---------------------------------------------------------------------------
  // The cache
  // ---------------------------------------------------------------------------

  /** The constructor: an empty cache of capacity `capacity`. */
  function New(capacity: int): (c: Cache)
    ensures Linked(c.list, []) && c.cp == capacity
  {
    Cache(capacity, List(map[], None, None))
  }

  /**
   * `get`: the cached value, touching the key, or -1 with nothing changed
   * when the key is absent.
   */
  function Get(c: Cache, key: int): (r: (Cache, int))
    ensures key !in c.list.mp ==> r == (c, -1)
    ensures key in c.list.mp ==> r.1 == c.list.mp[key].value && r.0.cp == c.cp
  {
    if key in c.list.mp then
      (Cache(c.cp, Touch(c.list, key, c.list.mp[key].value)), c.list.mp[key].value)
    else
      (c, -1)
  }

  /** The list after a new key's eviction step: the head is dropped when the map is at capacity. */
  function Evict(c: Cache): List
  {
    if |c.list.mp| == c.cp && c.list.head.Some? && c.list.head.value in c.list.mp
    then RemoveNode(c.list, c.list.head.value)
    else c.list
  }

  /**
   * `set`: overwrite and touch an existing key; otherwise evict the head
   * when the map is at capacity, then append the key at the tail.
   * A capacity of 0 would evict from an empty list (a null dereference).
   */
  function Set(c: Cache, key: int, value: int): (c': Cache)
    requires c.cp != 0
    ensures c'.cp == c.cp
    ensures key in c'.list.mp && c'.list.mp[key].value == value
  {
    if key in c.list.mp then
      Cache(c.cp, Touch(c.list, key, value))
    else
      var l := Evict(c);
      assert key !in l.mp;
      Cache(c.cp, AddNode(l, key, value))
  }

  // ---------------------------------------------------------------------------
  // The recency discipline, on the key sequence
  // ---------------------------------------------------------------------------

  /** `s` with `key` taken out wherever it occurs. */
  function Drop(s: seq<int>, key: int): (r: seq<int>)
    ensures key !in r
    ensures forall k :: k in r <==> k in s && k != key
  {
    if s == [] then [] else (if s[0] == key then [] else [s[0]]) + Drop(s[1..], key)
  }

  /** Reading `key` makes it the most recent; an absent key changes nothing. */
  function AbstractGet(s: seq<int>, key: int): seq<int>
  {
    if key in s then Drop(s, key) + [key] else s
  }

  /**
   * Writing `key` makes it the most recent; a new key first evicts the least
   * recent when `cp` keys are held.
   */
  function AbstractSet(cp: int, s: seq<int>, key: int): seq<int>
  {
    if key in s then Drop(s, key) + [key]
    else if |s| == cp && s != [] then s[1..] + [key]
    else s + [key]
  }

  lemma {:induction false} DropAt(s: seq<int>, i: int)
    requires Distinct(s) && 0 <= i < |s|
    ensures Drop(s, s[i]) == Without(s, i)
    decreases |s|
  {
    if i == 0 {
      assert s[1..] == Without(s, 0);
      assert s[0] !in s[1..];
      DropAbsent(s[1..], s[0]);
    } else {
      DropAt(s[1..], i - 1);
      assert [s[0]] + Without(s[1..], i - 1) == Without(s, i);
    }
  }

  lemma {:induction false} DropAbsent(s: seq<int>, key: int)
    requires key !in s
    ensures Drop(s, key) == s
  {
    if s != [] {
      DropAbsent(s[1..], key);
      assert [s[0]] + s[1..] == s;
    }
  }

  /** A cache whose list holds the keys `s`, least recent first, within its capacity. */
  predicate Valid(c: Cache, s: seq<int>)
  {
    Linked(c.list, s) && (c.cp >= 1 ==> |s| <= c.cp)
  }

  lemma KeysCount(l: List, s: seq<int>)
    requires Linked(l, s)
    ensures |l.mp| == |s|
  {
    DistinctCard(s);
    assert l.mp.Keys == (set k | k in s);
  }

  lemma {:induction false} DistinctCard(s: seq<int>)
    requires Distinct(s)
    ensures |set k | k in s| == |s|
  {
    if s != [] {
      DistinctCard(s[1..]);
      assert (set k | k in s) == (set k | k in s[1..]) + {s[0]};
      assert s[0] !in s[1..];
    }
  }

  /** Moving a present key to the tail reorders the sequence as a touch should. */
  lemma TouchLinked(l: List, s: seq<int>, key: int, value: int)
    requires Linked(l, s) && key in s
    ensures key in l.mp
    ensures Linked(Touch(l, key, value), Drop(s, key) + [key]) && |Drop(s, key)| + 1 == |s|
    ensures Values(Touch(l, key, value)) == Values(l)[key := value]
  {
    var i :| 0 <= i < |s| && s[i] == key;
    RemoveLinked(l, s, i);
    AddLinked(RemoveNode(l, key), Without(s, i), key, value);
    DropAt(s, i);
    var removed := RemoveNode(l, key);
    RemoveValues(l, key);
    AddValues(removed, key, value);
    ReplaceAfterRemove(Values(l), key, value);
  }

  lemma ReplaceAfterRemove(m: map<int, int>, key: int, value: int)
    ensures (m - {key})[key := value] == m[key := value]
  {
  }

  /** `get` moves a present key to the most recent end and keeps every value. */
  lemma GetRecency(c: Cache, s: seq<int>, key: int)
    requires Valid(c, s)
    ensures Valid(Get(c, key).0, AbstractGet(s, key))
    ensures Values(Get(c, key).0.list) == Values(c.list)
  {
    if key in s {
      TouchLinked(c.list, s, key, c.list.mp[key].value);
    }
  }

  /** At capacity, eviction removes the least recent key. */
  lemma EvictLinked(c: Cache, s: seq<int>)
    requires Linked(c.list, s) && |s| == c.cp && s != []
    ensures Linked(Evict(c), s[1..])
    ensures Values(Evict(c)) == Values(c.list) - {s[0]}
  {
    KeysCount(c.list, s);
    RemoveLinked(c.list, s, 0);
    assert Without(s, 0) == s[1..];
    RemoveValues(c.list, s[0]);
  }

  /**
   * `set` moves an existing key to the most recent end with its new value;
   * a new key is appended, after the least recent key is evicted when the
   * cache is full. Every other key keeps its value, and the size stays
   * within the capacity.
   */
  lemma SetRecency(c: Cache, s: seq<int>, key: int, value: int)
    requires Valid(c, s) && c.cp != 0
    ensures Valid(Set(c, key, value), AbstractSet(c.cp, s, key))
    ensures Values(Set(c, key, value).list) ==
      if key !in s && |s| == c.cp && s != [] then (Values(c.list) - {s[0]})[key := value]
      else Values(c.list)[key := value]
  {
    KeysCount(c.list, s);
    if key in s {
      TouchLinked(c.list, s, key, value);
    } else if |s| == c.cp && s != [] {
      EvictLinked(c, s);
      AddLinked(Evict(c), s[1..], key, value);
      AddValues(Evict(c), key, value);
    } else {
      AddLinked(c.list, s, key, value);
      AddValues(c.list, key, value);
    }
  }
}
