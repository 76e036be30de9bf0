/**
 * The `Graph` class of python/journey_to_moon.py: a node set and, for each
 * node, the set of its neighbours. Python sets are modelled as sequences
 * without repeats, in the order their members were added; adding a member
 * already present changes nothing, as `set.add` does.
 */
module MoonGraph {
  import opened SeqSets

  /** `set.add`: append `x` unless it is already there. */
  function Add(s: seq<int>, x: int): (r: seq<int>)
    ensures forall y :: y in r <==> y in s || y == x
    ensures Distinct(s) ==> Distinct(r)
    ensures |r| == if x in s then |s| else |s| + 1
    ensures forall i :: 0 <= i < |s| ==> r[i] == s[i]
  {
    if x in s then s else s + [x]
  }

  lemma ElementsAdd(s: seq<int>, x: int)
    ensures Elements(Add(s, x)) == Elements(s) + {x}
  {
  }

  datatype Graph = Graph(nodes: seq<int>, edges: map<int, seq<int>>)

  /** `Graph()`: no nodes and no edges. */
  function Empty(): Graph
  {
    Graph([], map[])
  }

  /** `size`: the number of nodes. */
  function Size(g: Graph): nat
  {
    |g.nodes|
  }

  /** In a valid graph `size` counts the distinct nodes. */
  lemma SizeCountsNodes(g: Graph)
    requires Valid(g)
    ensures Size(g) == |Elements(g.nodes)|
  {
    DistinctSize(g.nodes);
  }

  /** `add_node`. */
  function AddNode(g: Graph, node: int): (r: Graph)
    ensures r.edges == g.edges
    ensures forall x :: x in r.nodes <==> x in g.nodes || x == node
    ensures Distinct(g.nodes) ==> Distinct(r.nodes)
    ensures |r.nodes| >= 1 && (|g.nodes| > 0 ==> r.nodes[0] == g.nodes[0])
  {
    Graph(Add(g.nodes, node), g.edges)
  }

  /** `self._edges.get(node, set())`. */
  function Neighbours(g: Graph, node: int): seq<int>
  {
    if node in g.edges then g.edges[node] else []
  }

  /** `add_edge`: each end joins the other's neighbour set; both neighbour sets are read before either is stored. */
  function AddEdge(g: Graph, a: int, b: int): Graph
  {
    var ea := Add(Neighbours(g, a), b);
    var eb := Add(Neighbours(g, b), a);
    Graph(g.nodes, g.edges[a := ea][b := eb])
  }

  /** `w` is among the neighbours of `u`. */
  predicate Adjacent(g: Graph, u: int, w: int)
  {
    u in g.edges && w in g.edges[u]
  }

  ghost predicate Symmetric(g: Graph)
  {
    forall u, w :: Adjacent(g, u, w) ==> Adjacent(g, w, u)
  }

  /** What every graph built by `add_node` and `add_edge` satisfies. */
  ghost predicate Valid(g: Graph)
  {
    && Distinct(g.nodes)
    && (forall u :: u in g.edges ==> Distinct(g.edges[u]))
    && Symmetric(g)
  }

  lemma EmptyValid()
    ensures Valid(Empty())
  {
  }

  /** `add_edge` adds exactly the two directions of the new edge, and keeps the nodes. */
  lemma AddEdgeAdjacent(g: Graph, a: int, b: int)
    ensures AddEdge(g, a, b).nodes == g.nodes
    ensures forall u, w :: Adjacent(AddEdge(g, a, b), u, w) <==> Adjacent(g, u, w) || (u == a && w == b) || (u == b && w == a)
    ensures forall u :: u in AddEdge(g, a, b).edges <==> u in g.edges || u == a || u == b
  {
    var r := AddEdge(g, a, b);
    forall u, w
      ensures Adjacent(r, u, w) <==> Adjacent(g, u, w) || (u == a && w == b) || (u == b && w == a)
    {
      if u == b {
        assert r.edges[u] == Add(Neighbours(g, b), a);
      } else if u == a {
        assert r.edges[u] == Add(Neighbours(g, a), b);
      }
    }
  }

  /** `add_edge` keeps a valid graph valid. */
  lemma AddEdgeValid(g: Graph, a: int, b: int)
    requires Valid(g)
    ensures Valid(AddEdge(g, a, b))
  {
    AddEdgeAdjacent(g, a, b);
  }

  /** `add_node` keeps a valid graph valid. */
  lemma AddNodeValid(g: Graph, node: int)
    requires Valid(g)
    ensures Valid(AddNode(g, node))
  {
    var r := AddNode(g, node);
    assert forall u, w :: Adjacent(r, u, w) <==> Adjacent(g, u, w);
  }

  // ---------------------------------------------------------------------------
  // Paths and components
  // ---------------------------------------------------------------------------

  predicate Step(g: Graph, path: seq<int>, i: int)
  {
    0 <= i < |path| - 1 && Adjacent(g, path[i], path[i + 1])
  }

  /** A non-empty walk along edges. */
  predicate IsPath(g: Graph, path: seq<int>)
  {
    |path| >= 1 && forall i :: 0 <= i < |path| - 1 ==> Step(g, path, i)
  }

  /** Some walk leads from `a` to `b`: they lie in the same component. */
  ghost predicate Connected(g: Graph, a: int, b: int)
  {
    exists path :: IsPath(g, path) && path[0] == a && path[|path| - 1] == b
  }

  lemma ConnectedSelf(g: Graph, a: int)
    ensures Connected(g, a, a)
  {
    assert IsPath(g, [a]);
  }

  /** A walk to `b` continues along an edge from `b`. */
  lemma ConnectedStep(g: Graph, a: int, b: int, c: int)
    requires Connected(g, a, b) && Adjacent(g, b, c)
    ensures Connected(g, a, c)
  {
    var path :| IsPath(g, path) && path[0] == a && path[|path| - 1] == b;
    var longer := path + [c];
    forall i | 0 <= i < |longer| - 1
      ensures Step(g, longer, i)
    {
      if i < |path| - 1 {
        assert Step(g, path, i);
      }
    }
    assert IsPath(g, longer);
  }

  /** In a symmetric graph a walk can be taken backwards. */
  lemma ConnectedBack(g: Graph, a: int, b: int)
    requires Symmetric(g) && Connected(g, a, b)
    ensures Connected(g, b, a)
  {
    var path :| IsPath(g, path) && path[0] == a && path[|path| - 1] == b;
    var n := |path|;
    var back := seq(n, i requires 0 <= i < n => path[n - 1 - i]);
    forall i | 0 <= i < n - 1
      ensures Step(g, back, i)
    {
      assert Step(g, path, n - 2 - i);
    }
    assert IsPath(g, back);
  }

  /** No edge leaves `s`. */
  ghost predicate Closed(g: Graph, s: set<int>)
  {
    forall u, w :: u in s && Adjacent(g, u, w) ==> w in s
  }

  /** A walk from inside a closed set stays inside it. */
  lemma ClosedReach(g: Graph, s: set<int>, a: int, b: int)
    requires Closed(g, s) && a in s && Connected(g, a, b)
    ensures b in s
  {
    var path :| IsPath(g, path) && path[0] == a && path[|path| - 1] == b;
    PathInside(g, s, path, |path| - 1);
  }

  lemma {:induction false} PathInside(g: Graph, s: set<int>, path: seq<int>, i: int)
    requires Closed(g, s) && IsPath(g, path) && path[0] in s && 0 <= i < |path|
    ensures path[i] in s
  {
    if i > 0 {
      PathInside(g, s, path, i - 1);
      assert Step(g, path, i - 1);
    }
  }

  /** Two nodes connected to a common node are connected to each other. */
  lemma ConnectedVia(g: Graph, a: int, b: int, c: int)
    requires Symmetric(g) && Connected(g, c, a) && Connected(g, c, b)
    ensures Connected(g, a, b)
  {
    ConnectedBack(g, c, a);
    var p :| IsPath(g, p) && p[0] == a && p[|p| - 1] == c;
    var q :| IsPath(g, q) && q[0] == c && q[|q| - 1] == b;
    var pq := p + q[1..];
    forall i | 0 <= i < |pq| - 1
      ensures Step(g, pq, i)
    {
      if i < |p| - 1 {
        assert Step(g, p, i);
      } else {
        assert Step(g, q, i - |p| + 1);
      }
    }
    assert IsPath(g, pq);
  }

  /** `c` is one whole component: its members are exactly the nodes connected to any one of them. */
  ghost predicate Component(g: Graph, c: seq<int>)
  {
    |c| >= 1 && forall x, y :: x in c ==> (y in c <==> Connected(g, x, y))
  }

  /** The nodes connected to `node` form a component. */
  lemma ComponentOf(g: Graph, node: int, c: seq<int>)
    requires Symmetric(g) && node in c
    requires forall x :: x in c <==> Connected(g, node, x)
    ensures Component(g, c)
  {
    forall x, y | x in c
      ensures y in c <==> Connected(g, x, y)
    {
      if y in c {
        ConnectedVia(g, x, y, node);
      }
      if Connected(g, x, y) {
        ConnectedBack(g, node, x);
        ConnectedVia(g, node, y, x);
      }
    }
  }
}
