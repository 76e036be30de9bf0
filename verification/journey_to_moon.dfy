/**
 * "Journey to the Moon" (python/journey_to_moon.py): astronauts named in a
 * common pair come from the same country, countries are the connected
 * components of the pair graph, and the answer is the number of ways to
 * choose two astronauts from different countries.
 */
module JourneyToMoon {
  import opened Wrappers
  import opened MoonGraph
  import opened SeqSets

  /** Every node the graph mentions, as a node or as a key of the edge map. */
  function Universe(g: Graph): set<int>
  {
    Elements(g.nodes) + g.edges.Keys
  }

  /** How many entries of `s` are already in `v`. */
  function CountIn(s: seq<int>, v: set<int>): nat
  {
    if |s| == 0 then 0 else CountIn(s[..|s| - 1], v) + (if s[|s| - 1] in v then 1 else 0)
  }

  lemma PushUnseen(s: seq<int>, x: int, v: set<int>)
    requires x !in v
    ensures CountIn(s + [x], v) == CountIn(s, v)
  {
    assert (s + [x])[..|s|] == s;
  }

  lemma Shrink(u: set<int>, v: set<int>, x: int)
    requires x in u && x !in v
    ensures |u - (v + {x})| < |u - v|
  {
    assert u - (v + {x}) == (u - v) - {x};
  }

  /** One round of the walk visits a new node, or else leaves one stacked visited node fewer. */
  lemma Progress(u: set<int>, before: set<int>, cur: int, full: seq<int>, popped: seq<int>, pushed: seq<int>)
    requires cur in u && full == popped + [cur]
    requires CountIn(pushed, before + {cur}) == CountIn(popped, before + {cur})
    ensures var after := before + {cur};
      |u - after| < |u - before| || (|u - after| == |u - before| && CountIn(pushed, after) < CountIn(full, before))
  {
    if cur !in before {
      Shrink(u, before, cur);
    } else {
      assert before + {cur} == before;
      assert full[..|full| - 1] == popped;
    }
  }

  lemma LastSplit(s: seq<int>)
    requires |s| > 0
    ensures s == s[..|s| - 1] + [s[|s| - 1]]
  {
  }

  lemma DisjointUnion(a: set<int>, b: set<int>)
    requires forall x :: x in a ==> x !in b
    ensures |a + b| == |a| + |b|
  {
    var none: set<int> := {};
    assert forall z :: z in a * b <==> z in none;
    assert a * b == none;
  }

  /** Lines 58-60: push every neighbour of `cur` that is not yet visited. */
  method PushUnvisited(g: Graph, cur: int, seen: set<int>, stack: seq<int>) returns (pushed: seq<int>)
    requires cur in g.edges
    ensures |pushed| >= |stack| && pushed[..|stack|] == stack
    ensures forall i :: |stack| <= i < |pushed| ==> pushed[i] !in seen && Adjacent(g, cur, pushed[i])
    ensures forall w :: Adjacent(g, cur, w) ==> w in seen || w in pushed
    ensures CountIn(pushed, seen) == CountIn(stack, seen)
  {
    var nbrs := g.edges[cur];
    pushed := stack;
    var k := 0;
    while k < |nbrs|
      invariant 0 <= k <= |nbrs|
      invariant |pushed| >= |stack| && pushed[..|stack|] == stack
      invariant forall i :: |stack| <= i < |pushed| ==> pushed[i] !in seen && Adjacent(g, cur, pushed[i])
      invariant forall j :: 0 <= j < k ==> nbrs[j] in seen || nbrs[j] in pushed
      invariant CountIn(pushed, seen) == CountIn(stack, seen)
    {
      if nbrs[k] !in seen {
        PushUnseen(pushed, nbrs[k], seen);
        pushed := pushed + [nbrs[k]];
      }
      k := k + 1;
    }
  }

  /** Every stacked node is unvisited, known to the graph and reachable from `node`; all but `node` have edges. */
  ghost predicate OnStack(g: Graph, node: int, visited: set<int>, stack: seq<int>)
  {
    forall x :: x in stack ==> x !in visited && x in Universe(g) && Connected(g, node, x) && (x == node || x in g.edges)
  }

  /** Every collected node was unvisited, has edges and is reachable from `node`. */
  ghost predicate Collected(g: Graph, node: int, visited: set<int>, nodes: seq<int>)
  {
    forall x :: x in nodes ==> x !in visited && x in g.edges && Connected(g, node, x)
  }

  /** Each neighbour of a collected node is visited or waits on the stack. */
  ghost predicate Pending(g: Graph, nodes: seq<int>, seen: set<int>, stack: seq<int>)
  {
    forall u, w :: u in nodes && Adjacent(g, u, w) ==> w in seen || w in stack
  }

  /** The stack after pushing the unvisited neighbours of a reachable node still satisfies `OnStack`. */
  lemma PushedOnStack(g: Graph, node: int, visited: set<int>, seen: set<int>, cur: int, popped: seq<int>, pushed: seq<int>)
    requires Symmetric(g) && visited <= seen && Connected(g, node, cur) && OnStack(g, node, visited, popped)
    requires |pushed| >= |popped| && pushed[..|popped|] == popped
    requires forall i :: |popped| <= i < |pushed| ==> pushed[i] !in seen && Adjacent(g, cur, pushed[i])
    ensures OnStack(g, node, visited, pushed)
  {
    forall x | x in pushed
      ensures x !in visited && x in Universe(g) && Connected(g, node, x) && (x == node || x in g.edges)
    {
      var i :| 0 <= i < |pushed| && pushed[i] == x;
      if i < |popped| {
        assert x == popped[i];
      } else {
        assert Adjacent(g, x, cur);
        ConnectedStep(g, node, cur, x);
      }
    }
  }

  /** Collecting `cur`, whose neighbours are now visited or stacked, keeps `Pending`. */
  lemma PendingStep(g: Graph, nodes: seq<int>, seen: set<int>, cur: int, popped: seq<int>, pushed: seq<int>)
    requires Pending(g, nodes, seen, popped + [cur])
    requires |pushed| >= |popped| && pushed[..|popped|] == popped
    requires forall w :: Adjacent(g, cur, w) ==> w in seen + {cur} || w in pushed
    ensures Pending(g, Add(nodes, cur), seen + {cur}, pushed)
  {
    forall u, w | u in Add(nodes, cur) && Adjacent(g, u, w)
      ensures w in seen + {cur} || w in pushed
    {
      if u != cur {
        if w in popped + [cur] && w != cur {
          var i :| 0 <= i < |popped| + 1 && (popped + [cur])[i] == w;
          assert pushed[i] == w;
        }
      }
    }
  }

  /** The state of a walk from `node`: `sub` holds what was yielded, `seen` the visited set. */
  ghost predicate Walking(g: Graph, node: int, visited: set<int>, stack: seq<int>, sub: Graph, seen: set<int>)
  {
    && Symmetric(g) && node in Universe(g) && node !in visited
    && visited <= Universe(g) && Closed(g, visited)
    && seen == visited + Elements(sub.nodes) && seen <= Universe(g)
    && sub.edges == map[] && Distinct(sub.nodes)
    && ((|sub.nodes| >= 1 && sub.nodes[0] == node) || (stack == [node] && sub.nodes == []))
    && (node !in g.edges ==> stack == [node] && sub.nodes == [])
    && Collected(g, node, visited, sub.nodes)
    && OnStack(g, node, visited, stack)
    && Pending(g, sub.nodes, seen, stack)
  }

  /**
   * One round of the walk (lines 52-60): pop the top node, mark it visited,
   * yield it, then push its unvisited neighbours. `failed` is the KeyError of
   * a popped node without an edge entry.
   */
  method Round(g: Graph, node: int, visited: set<int>, stack: seq<int>, sub: Graph, seen: set<int>)
    returns (stack': seq<int>, sub': Graph, seen': set<int>, failed: bool)
    requires |stack| > 0 && Walking(g, node, visited, stack, sub, seen)
    ensures failed <==> stack[|stack| - 1] !in g.edges
    ensures failed ==> node !in g.edges
    ensures !failed ==> Walking(g, node, visited, stack', sub', seen')
    ensures !failed ==> stack[|stack| - 1] in Universe(g) && seen' == seen + {stack[|stack| - 1]}
    ensures !failed ==> CountIn(stack', seen') == CountIn(stack[..|stack| - 1], seen')
  {
    var cur := stack[|stack| - 1];
    var popped := stack[..|stack| - 1];
    seen' := seen + {cur};
    sub' := AddNode(sub, cur);
    if cur !in g.edges {
      assert cur in stack;
      return popped, sub', seen', true;
    }
    failed := false;
    stack' := PushUnvisited(g, cur, seen', popped);
    WalkStep(g, node, visited, stack, sub, seen, stack');
    assert cur in stack;
  }

  /** The state after one round is again a walk state. */
  lemma WalkStep(g: Graph, node: int, visited: set<int>, stack: seq<int>, sub: Graph, seen: set<int>, pushed: seq<int>)
    requires |stack| > 0 && Walking(g, node, visited, stack, sub, seen)
    requires var cur, popped := stack[|stack| - 1], stack[..|stack| - 1];
      && cur in g.edges
      && |pushed| >= |popped| && pushed[..|popped|] == popped
      && (forall i :: |popped| <= i < |pushed| ==> pushed[i] !in seen + {cur} && Adjacent(g, cur, pushed[i]))
      && (forall w :: Adjacent(g, cur, w) ==> w in seen + {cur} || w in pushed)
    ensures Walking(g, node, visited, pushed, AddNode(sub, stack[|stack| - 1]), seen + {stack[|stack| - 1]})
  {
    var cur, popped := stack[|stack| - 1], stack[..|stack| - 1];
    LastSplit(stack);
    assert cur in stack;
    ElementsAdd(sub.nodes, cur);
    assert OnStack(g, node, visited, popped) by {
      forall x | x in popped
        ensures x in stack
      {
      }
    }
    PushedOnStack(g, node, visited, seen + {cur}, cur, popped, pushed);
    PendingStep(g, sub.nodes, seen, cur, popped, pushed);
  }

  /**
   * `_visit_all_connected_nodes` together with the `add_node` calls of
   * `get_subgraphs` that collect what it yields: a depth-first walk from
   * `node` with an explicit stack, skipping nodes in `visited`. `None` is the
   * KeyError raised when a popped node has no entry in the edge map.
   */
  method Visit(g: Graph, node: int, visited: set<int>) returns (r: Option<Graph>, seen: set<int>)
    requires Symmetric(g) && node in Universe(g) && node !in visited
    requires visited <= Universe(g) && Closed(g, visited)
    ensures r.None? <==> node !in g.edges
    ensures r.Some? ==> r.value.edges == map[] && Distinct(r.value.nodes)
    ensures r.Some? ==> |r.value.nodes| >= 1 && r.value.nodes[0] == node
    ensures r.Some? ==> forall x :: x in r.value.nodes <==> Connected(g, node, x)
    ensures r.Some? ==> forall x :: x in r.value.nodes ==> x !in visited && x in g.edges
    ensures r.Some? ==> seen == visited + Elements(r.value.nodes) && seen <= Universe(g) && Closed(g, seen)
  {
    var stack := [node];
    var sub := Empty();
    seen := visited;
    ConnectedSelf(g, node);
    while |stack| > 0
      invariant Walking(g, node, visited, stack, sub, seen)
      decreases |Universe(g) - seen|, CountIn(stack, seen)
    {
      ghost var before, full := seen, stack;
      var failed;
      stack, sub, seen, failed := Round(g, node, visited, stack, sub, seen);
      if failed {
        return None, seen;
      }
      LastSplit(full);
      Progress(Universe(g), before, full[|full| - 1], full, full[..|full| - 1], stack);
    }
    WalkDone(g, node, visited, sub, seen);
    r := Some(sub);
  }

  /** A finished walk has collected exactly the component of `node`, and the visited set stays closed. */
  lemma WalkDone(g: Graph, node: int, visited: set<int>, sub: Graph, seen: set<int>)
    requires Walking(g, node, visited, [], sub, seen)
    ensures node in g.edges && |sub.nodes| >= 1 && sub.nodes[0] == node
    ensures forall x :: x in sub.nodes <==> Connected(g, node, x)
    ensures Closed(g, seen)
  {
    forall x | Connected(g, node, x)
      ensures x in sub.nodes
    {
      ClosedReach(g, seen, node, x);
      if x in visited {
        ConnectedBack(g, node, x);
        ClosedReach(g, visited, x, node);
      }
    }
  }

  /** The sizes of a list of graphs. */
  function Sizes(gs: seq<Graph>): (r: seq<int>)
    ensures |r| == |gs|
    ensures forall i :: 0 <= i < |gs| ==> r[i] == Size(gs[i])
  {
    if |gs| == 0 then [] else Sizes(gs[..|gs| - 1]) + [Size(gs[|gs| - 1])]
  }

  function Total(xs: seq<int>): int
  {
    if |xs| == 0 then 0 else Total(xs[..|xs| - 1]) + xs[|xs| - 1]
  }

  /** Each graph holds one whole component of `g`, once each, and no edges. */
  ghost predicate Countries(g: Graph, subs: seq<Graph>)
  {
    forall i :: 0 <= i < |subs| ==> Component(g, subs[i].nodes) && subs[i].edges == map[] && Distinct(subs[i].nodes)
  }

  /** No node lies in two of the graphs. */
  ghost predicate Disjoint(subs: seq<Graph>)
  {
    forall i, j, x :: 0 <= i < j < |subs| && x in subs[i].nodes ==> x !in subs[j].nodes
  }

  /** `visited` is exactly the nodes of the graphs; `owner` names the graph each visited node lies in. */
  ghost predicate Covers(subs: seq<Graph>, visited: set<int>, owner: map<int, int>)
  {
    && (forall x :: x in visited ==> x in owner && 0 <= owner[x] < |subs| && x in subs[owner[x]].nodes)
    && (forall i, x :: 0 <= i < |subs| && x in subs[i].nodes ==> x in visited)
  }

  lemma CountriesStep(g: Graph, subs: seq<Graph>, node: int, c: Graph)
    requires Symmetric(g) && Countries(g, subs) && node in g.nodes
    requires |c.nodes| >= 1 && c.nodes[0] == node && c.edges == map[] && Distinct(c.nodes)
    requires forall x :: x in c.nodes <==> Connected(g, node, x)
    ensures Countries(g, subs + [c])
  {
    ComponentOf(g, node, c.nodes);
  }

  lemma DisjointStep(subs: seq<Graph>, visited: set<int>, owner: map<int, int>, c: Graph)
    requires Disjoint(subs) && Covers(subs, visited, owner)
    requires forall x :: x in c.nodes ==> x !in visited
    ensures Disjoint(subs + [c])
  {
    var s := subs + [c];
    forall i, j, x | 0 <= i < j < |s| && x in s[i].nodes
      ensures x !in s[j].nodes
    {
      if j == |subs| {
        assert s[i] == subs[i];
      } else {
        assert s[i] == subs[i] && s[j] == subs[j];
      }
    }
  }

  lemma CoversStep(subs: seq<Graph>, visited: set<int>, owner: map<int, int>, c: Graph) returns (owner': map<int, int>)
    requires Covers(subs, visited, owner)
    ensures Covers(subs + [c], visited + Elements(c.nodes), owner')
  {
    var s := subs + [c];
    owner' := map x | x in visited + Elements(c.nodes) :: if x in visited then owner[x] else |subs|;
    forall x | x in visited + Elements(c.nodes)
      ensures x in owner' && 0 <= owner'[x] < |s| && x in s[owner'[x]].nodes
    {
      if x in visited {
        assert s[owner[x]] == subs[owner[x]];
      }
    }
    forall i, x | 0 <= i < |s| && x in s[i].nodes
      ensures x in visited + Elements(c.nodes)
    {
      if i < |subs| {
        assert s[i] == subs[i];
      }
    }
  }

  lemma SizeStep(subs: seq<Graph>, visited: set<int>, c: Graph)
    requires |visited| == Total(Sizes(subs)) && Distinct(c.nodes)
    requires forall x :: x in c.nodes ==> x !in visited
    ensures |visited + Elements(c.nodes)| == Total(Sizes(subs + [c]))
  {
    DisjointUnion(visited, Elements(c.nodes));
    DistinctSize(c.nodes);
    assert (subs + [c])[..|subs|] == subs;
    assert Sizes(subs + [c]) == Sizes(subs) + [Size(c)];
    assert (Sizes(subs) + [Size(c)])[..|subs|] == Sizes(subs);
  }

  /** The first `k` nodes have been visited. */
  ghost predicate Done(nodes: seq<int>, k: int, visited: set<int>)
  {
    forall j :: 0 <= j < k && j < |nodes| ==> nodes[j] in visited
  }

  lemma DoneStep(nodes: seq<int>, k: int, visited: set<int>, seen: set<int>)
    requires 0 <= k < |nodes| && Done(nodes, k, visited) && visited <= seen && nodes[k] in seen
    ensures Done(nodes, k + 1, seen)
  {
  }

  /** The state of `get_subgraphs` after the first `k` nodes. */
  ghost predicate Listing(g: Graph, k: int, visited: set<int>, subs: seq<Graph>, owner: map<int, int>)
  {
    && Symmetric(g) && 0 <= k <= |g.nodes|
    && visited <= Universe(g) && Closed(g, visited)
    && Done(g.nodes, k, visited)
    && (forall x :: x in visited ==> x in g.edges)
    && Countries(g, subs) && Disjoint(subs) && Covers(subs, visited, owner)
    && |visited| == Total(Sizes(subs))
  }

  /** Lines 33-42 for the `k`-th node: skip it if visited, otherwise collect its component. */
  method NextSubgraph(g: Graph, k: int, visited: set<int>, subs: seq<Graph>, ghost owner: map<int, int>)
    returns (visited': set<int>, subs': seq<Graph>, ghost owner': map<int, int>, failed: bool)
    requires k < |g.nodes| && Listing(g, k, visited, subs, owner)
    ensures failed ==> g.nodes[k] !in g.edges
    ensures !failed ==> Listing(g, k + 1, visited', subs', owner')
  {
    var node := g.nodes[k];
    if node in visited {
      DoneStep(g.nodes, k, visited, visited);
      return visited, subs, owner, false;
    }
    assert node in Universe(g);
    var sub, seen := Visit(g, node, visited);
    if sub.None? {
      return visited, subs, owner, true;
    }
    var c := sub.value;
    assert c.nodes[0] in c.nodes;
    DoneStep(g.nodes, k, visited, seen);
    CountriesStep(g, subs, node, c);
    DisjointStep(subs, visited, owner, c);
    owner' := CoversStep(subs, visited, owner, c);
    SizeStep(subs, visited, c);
    visited', subs', failed := seen, subs + [c], false;
  }

  /** After the last node: every node has edges and lies in some graph; without other keys, the sizes add up to the node count. */
  lemma ListingDone(g: Graph, visited: set<int>, subs: seq<Graph>, owner: map<int, int>)
    requires Distinct(g.nodes) && Done(g.nodes, |g.nodes|, visited) && visited <= Universe(g)
    requires forall x :: x in visited ==> x in g.edges
    requires Covers(subs, visited, owner) && |visited| == Total(Sizes(subs))
    ensures forall x :: x in g.nodes ==> x in g.edges
    ensures forall x :: x in g.nodes ==> exists i :: 0 <= i < |subs| && x in subs[i].nodes
    ensures (forall x :: x in g.edges ==> x in g.nodes) ==> Total(Sizes(subs)) == |g.nodes|
  {
    AllDone(g.nodes, visited);
    forall x | x in g.nodes
      ensures exists i :: 0 <= i < |subs| && x in subs[i].nodes
    {
      assert x in subs[owner[x]].nodes;
    }
    if forall x :: x in g.edges ==> x in g.nodes {
      OnlyNodes(g, visited);
      DistinctSize(g.nodes);
    }
  }

  lemma AllDone(nodes: seq<int>, visited: set<int>)
    requires Done(nodes, |nodes|, visited)
    ensures forall x :: x in nodes ==> x in visited
  {
    forall x | x in nodes
      ensures x in visited
    {
      var j :| 0 <= j < |nodes| && nodes[j] == x;
    }
  }

  lemma OnlyNodes(g: Graph, visited: set<int>)
    requires visited <= Universe(g) && (forall x :: x in g.nodes ==> x in visited)
    requires forall x :: x in g.edges ==> x in g.nodes
    ensures visited == Elements(g.nodes)
  {
    assert forall x :: x in visited <==> x in Elements(g.nodes);
  }

  /**
   * `get_subgraphs`: for each node not yet visited, in the order the nodes
   * were added, the graph of the nodes reached from it. `None` is the
   * KeyError of a node that has no edge entry.
   */
  method GetSubgraphs(g: Graph) returns (r: Option<seq<Graph>>)
    requires Valid(g)
    ensures r.None? <==> exists x :: x in g.nodes && x !in g.edges
    ensures r.Some? ==> Countries(g, r.value) && Disjoint(r.value)
    ensures r.Some? ==> forall x :: x in g.nodes ==> exists i :: 0 <= i < |r.value| && x in r.value[i].nodes
    ensures r.Some? && (forall x :: x in g.edges ==> x in g.nodes) ==> Total(Sizes(r.value)) == |g.nodes|
  {
    var visited: set<int> := {};
    var subs: seq<Graph> := [];
    ghost var owner: map<int, int> := map[];
    var k := 0;
    while k < |g.nodes|
      invariant Listing(g, k, visited, subs, owner)
    {
      var failed;
      visited, subs, owner, failed := NextSubgraph(g, k, visited, subs, owner);
      if failed {
        assert exists x :: x in g.nodes && x !in g.edges;
        return None;
      }
      k := k + 1;
    }
    ListingDone(g, visited, subs, owner);
    r := Some(subs);
  }

  // ---------------------------------------------------------------------------
  // journeyToMoon
  // ---------------------------------------------------------------------------

  /** Lines 68-72: every pair adds both astronauts as nodes and an edge between them. */
  function Build(astronaut: seq<(int, int)>): Graph
  {
    if |astronaut| == 0 then Empty()
    else
      var g := Build(astronaut[..|astronaut| - 1]);
      var (a1, a2) := astronaut[|astronaut| - 1];
      AddEdge(AddNode(AddNode(g, a1), a2), a1, a2)
  }

  /** `x` appears in some pair. */
  predicate Named(astronaut: seq<(int, int)>, x: int)
  {
    exists i :: 0 <= i < |astronaut| && (astronaut[i].0 == x || astronaut[i].1 == x)
  }

  /** Some pair joins `u` and `w`, in either order. */
  predicate Paired(astronaut: seq<(int, int)>, u: int, w: int)
  {
    exists i :: 0 <= i < |astronaut| && (astronaut[i] == (u, w) || astronaut[i] == (w, u))
  }

  /** The graph of the pairs is valid, its nodes are the named astronauts, each has edges, and its edges are the pairs. */
  lemma BuildFacts(astronaut: seq<(int, int)>)
    ensures Valid(Build(astronaut))
    ensures forall x :: x in Build(astronaut).nodes <==> Named(astronaut, x)
    ensures forall x :: x in Build(astronaut).edges <==> x in Build(astronaut).nodes
    ensures forall u, w :: Adjacent(Build(astronaut), u, w) <==> Paired(astronaut, u, w)
  {
    BuildNodes(astronaut);
    BuildValid(astronaut);
    BuildEdges(astronaut);
  }

  lemma {:induction false} BuildNodes(astronaut: seq<(int, int)>)
    ensures Distinct(Build(astronaut).nodes)
    ensures forall x :: x in Build(astronaut).nodes <==> Named(astronaut, x)
    ensures forall x :: x in Build(astronaut).edges <==> x in Build(astronaut).nodes
  {
    if |astronaut| > 0 {
      var front := astronaut[..|astronaut| - 1];
      var (a1, a2) := astronaut[|astronaut| - 1];
      var h := AddNode(AddNode(Build(front), a1), a2);
      BuildNodes(front);
      AddEdgeAdjacent(h, a1, a2);
      NamedStep(astronaut);
    }
  }

  lemma {:induction false} BuildValid(astronaut: seq<(int, int)>)
    ensures Valid(Build(astronaut))
  {
    if |astronaut| == 0 {
      EmptyValid();
    } else {
      var front := astronaut[..|astronaut| - 1];
      var g := Build(front);
      var (a1, a2) := astronaut[|astronaut| - 1];
      BuildValid(front);
      AddNodeValid(g, a1);
      AddNodeValid(AddNode(g, a1), a2);
      AddEdgeValid(AddNode(AddNode(g, a1), a2), a1, a2);
    }
  }

  lemma {:induction false} BuildEdges(astronaut: seq<(int, int)>)
    ensures forall u, w :: Adjacent(Build(astronaut), u, w) <==> Paired(astronaut, u, w)
  {
    if |astronaut| > 0 {
      var front := astronaut[..|astronaut| - 1];
      var (a1, a2) := astronaut[|astronaut| - 1];
      var h := AddNode(AddNode(Build(front), a1), a2);
      BuildEdges(front);
      assert forall u, w :: Adjacent(h, u, w) <==> Adjacent(Build(front), u, w);
      AddEdgeAdjacent(h, a1, a2);
      PairedStep(astronaut);
    }
  }

  lemma NamedStep(astronaut: seq<(int, int)>)
    requires |astronaut| > 0
    ensures forall x :: Named(astronaut, x) <==>
      Named(astronaut[..|astronaut| - 1], x) || x == astronaut[|astronaut| - 1].0 || x == astronaut[|astronaut| - 1].1
  {
    var n := |astronaut| - 1;
    forall x
      ensures Named(astronaut, x) <==> Named(astronaut[..n], x) || x == astronaut[n].0 || x == astronaut[n].1
    {
      if Named(astronaut[..n], x) {
        var i :| 0 <= i < n && (astronaut[..n][i].0 == x || astronaut[..n][i].1 == x);
        assert astronaut[i] == astronaut[..n][i];
      }
      if Named(astronaut, x) && x != astronaut[n].0 && x != astronaut[n].1 {
        var i :| 0 <= i < |astronaut| && (astronaut[i].0 == x || astronaut[i].1 == x);
        assert astronaut[..n][i] == astronaut[i];
      }
    }
  }

  lemma PairedStep(astronaut: seq<(int, int)>)
    requires |astronaut| > 0
    ensures forall u, w :: Paired(astronaut, u, w) <==>
      Paired(astronaut[..|astronaut| - 1], u, w) || astronaut[|astronaut| - 1] == (u, w) || astronaut[|astronaut| - 1] == (w, u)
  {
    var n := |astronaut| - 1;
    forall u, w
      ensures Paired(astronaut, u, w) <==> Paired(astronaut[..n], u, w) || astronaut[n] == (u, w) || astronaut[n] == (w, u)
    {
      if Paired(astronaut[..n], u, w) {
        var i :| 0 <= i < n && (astronaut[..n][i] == (u, w) || astronaut[..n][i] == (w, u));
        assert astronaut[i] == astronaut[..n][i];
      }
      if Paired(astronaut, u, w) && astronaut[n] != (u, w) && astronaut[n] != (w, u) {
        var i :| 0 <= i < |astronaut| && (astronaut[i] == (u, w) || astronaut[i] == (w, u));
        assert astronaut[..n][i] == astronaut[i];
      }
    }
  }

  /**
   * The number of ways to choose two of `m`, counted one newcomer at a time:
   * the `m`-th thing pairs with each of the `m - 1` before it. Below zero the
   * same rule runs backwards, so that `Formula` holds for every integer.
   */
  function Choose2(m: int): int
    decreases if m >= 0 then m else -m
  {
    if m > 0 then Choose2(m - 1) + (m - 1)
    else if m == 0 then 0
    else Choose2(m + 1) - m
  }

  lemma {:induction false} Choose2Closed(m: int)
    ensures 2 * Choose2(m) == m * (m - 1)
    decreases if m >= 0 then m else -m
  {
    if m > 0 {
      Choose2Closed(m - 1);
      assert m * (m - 1) == (m - 1) * (m - 2) + 2 * (m - 1);
    } else if m < 0 {
      Choose2Closed(m + 1);
      assert m * (m - 1) == (m + 1) * m - 2 * m;
    }
  }

  /** `int(m * (m - 1) / 2)` as the source writes it: the product of consecutive integers is even, so the division is exact and counts the pairs. */
  lemma Formula(m: int)
    ensures m * (m - 1) / 2 == Choose2(m)
  {
    Choose2Closed(m);
  }

  /** Lines 79 and 86: `int(m * (m - 1) / 2)`, the pairs among `m` astronauts. */
  method PairsAmong(m: int) returns (r: int)
    ensures r == Choose2(m)
  {
    r := m * (m - 1) / 2;
    Formula(m);
  }

  /** Choosing two from a union of `a` and `b` things: both from one side, or one from each. */
  lemma Choose2Add(a: int, b: int)
    ensures Choose2(a + b) == Choose2(a) + Choose2(b) + a * b
  {
    Choose2Closed(a + b);
    Choose2Closed(a);
    Choose2Closed(b);
    assert (a + b) * (a + b - 1) == a * (a - 1) + b * (b - 1) + 2 * (a * b);
  }

  /** Pairs from a common country, for countries of the given sizes. */
  function SameCountry(sizes: seq<int>): int
  {
    if |sizes| == 0 then 0 else SameCountry(sizes[..|sizes| - 1]) + Choose2(sizes[|sizes| - 1])
  }

  /** Pairs from two different countries: each country paired with every country listed before it. */
  function CrossPairs(sizes: seq<int>): int
  {
    if |sizes| == 0 then 0
    else CrossPairs(sizes[..|sizes| - 1]) + Total(sizes[..|sizes| - 1]) * sizes[|sizes| - 1]
  }

  /** Every pair of the whole population is either from one country or from two. */
  lemma {:induction false} PairsSplit(sizes: seq<int>)
    ensures Choose2(Total(sizes)) == SameCountry(sizes) + CrossPairs(sizes)
  {
    if |sizes| > 0 {
      var front := sizes[..|sizes| - 1];
      PairsSplit(front);
      Choose2Add(Total(front), sizes[|sizes| - 1]);
    }
  }

  /** `k` countries of one astronaut each. */
  function Ones(k: nat): (r: seq<int>)
    ensures |r| == k && forall i :: 0 <= i < k ==> r[i] == 1
  {
    if k == 0 then [] else Ones(k - 1) + [1]
  }

  /** One-astronaut countries add to the population and to no same-country pair. */
  lemma {:induction false} Singletons(sizes: seq<int>, k: nat)
    ensures Total(sizes + Ones(k)) == Total(sizes) + k
    ensures SameCountry(sizes + Ones(k)) == SameCountry(sizes)
  {
    if k == 0 {
      assert sizes + Ones(k) == sizes;
    } else {
      Singletons(sizes, k - 1);
      var t := sizes + Ones(k);
      assert t == (sizes + Ones(k - 1)) + [1];
      assert t[..|t| - 1] == sizes + Ones(k - 1);
    }
  }

  /** A set of numbers below `n` has at most `n` members. */
  lemma {:induction false} BelowSize(s: set<int>, n: nat)
    requires forall x :: x in s ==> 0 <= x < n
    ensures |s| <= n
  {
    if n > 0 {
      BelowSize(s - {n - 1}, n - 1);
    } else {
      var none: set<int> := {};
      assert forall x :: x in s <==> x in none;
      assert s == none;
    }
  }

  /** Every astronaut in a pair is numbered below `n`. */
  predicate InRange(astronaut: seq<(int, int)>, n: int)
  {
    forall i :: 0 <= i < |astronaut| ==> 0 <= astronaut[i].0 < n && 0 <= astronaut[i].1 < n
  }

  /** With astronauts numbered below `n`, the graph has at most `n` nodes. */
  lemma FewNodes(astronaut: seq<(int, int)>, n: nat)
    requires InRange(astronaut, n)
    ensures |Build(astronaut).nodes| <= n
  {
    var g := Build(astronaut);
    BuildFacts(astronaut);
    forall x | x in Elements(g.nodes)
      ensures 0 <= x < n
    {
      var i :| 0 <= i < |astronaut| && (astronaut[i].0 == x || astronaut[i].1 == x);
    }
    BelowSize(Elements(g.nodes), n);
    DistinctSize(g.nodes);
  }

  /** Lines 67-72: the graph of the pairs, built one pair at a time. */
  method BuildGraph(astronaut: seq<(int, int)>) returns (g: Graph)
    ensures g == Build(astronaut)
  {
    g := Empty();
    var k := 0;
    while k < |astronaut|
      invariant 0 <= k <= |astronaut|
      invariant g == Build(astronaut[..k])
    {
      var (a1, a2) := astronaut[k];
      g := AddNode(g, a1);
      g := AddNode(g, a2);
      g := AddEdge(g, a1, a2);
      assert astronaut[..k + 1][..k] == astronaut[..k];
      k := k + 1;
    }
    assert astronaut[..k] == astronaut;
  }

  lemma SameStep(countries: seq<Graph>, i: int)
    requires 0 <= i < |countries|
    ensures SameCountry(Sizes(countries[..i + 1])) == SameCountry(Sizes(countries[..i])) + Choose2(Size(countries[i]))
  {
    assert countries[..i + 1][..i] == countries[..i];
    var s := Sizes(countries[..i + 1]);
    assert s == Sizes(countries[..i]) + [Size(countries[i])];
    assert s[..i] == Sizes(countries[..i]);
  }

  /** Lines 83-86: the pairs inside each country, summed. */
  method SameCountryPairs(countries: seq<Graph>) returns (same: int)
    ensures same == SameCountry(Sizes(countries))
  {
    same := 0;
    var i := 0;
    while i < |countries|
      invariant 0 <= i <= |countries|
      invariant same == SameCountry(Sizes(countries[..i]))
    {
      var size := Size(countries[i]);
      SameStep(countries, i);
      var within := PairsAmong(size);
      same := same + within;
      i := i + 1;
    }
    assert countries[..i] == countries;
  }

  /**
   * `journeyToMoon`: all pairs of the `n` astronauts minus the pairs inside a
   * country. `countries` are the graphs `get_subgraphs` yields. Astronauts
   * named in no pair are countries of their own and add no pair.
   */
  method JourneyToMoon(n: int, astronaut: seq<(int, int)>) returns (pairs: int, countries: seq<Graph>)
    ensures Countries(Build(astronaut), countries) && Disjoint(countries)
    ensures forall x :: Named(astronaut, x) ==> exists i :: 0 <= i < |countries| && x in countries[i].nodes
    ensures Total(Sizes(countries)) == |Build(astronaut).nodes|
    ensures pairs == Choose2(n) - SameCountry(Sizes(countries))
  {
    var g := BuildGraph(astronaut);
    BuildFacts(astronaut);
    var r := GetSubgraphs(g);
    countries := r.value;
    var total := PairsAmong(n);
    var same := SameCountryPairs(countries);
    pairs := total - same;
  }

  /**
   * What `journeyToMoon` counts: when every astronaut is numbered below `n`,
   * the countries hold at most `n` astronauts, and the answer is the number
   * of pairs from different countries, each astronaut outside every pair
   * being a country of one.
   */
  lemma CountsCrossPairs(n: int, astronaut: seq<(int, int)>, pairs: int, countries: seq<Graph>)
    requires n >= 0 && InRange(astronaut, n)
    requires Total(Sizes(countries)) == |Build(astronaut).nodes|
    requires pairs == Choose2(n) - SameCountry(Sizes(countries))
    ensures Total(Sizes(countries)) <= n
    ensures pairs == CrossPairs(Sizes(countries) + Ones(n - Total(Sizes(countries))))
  {
    var sizes := Sizes(countries);
    FewNodes(astronaut, n);
    var k: nat := n - Total(sizes);
    Singletons(sizes, k);
    PairsSplit(sizes + Ones(k));
  }
}
