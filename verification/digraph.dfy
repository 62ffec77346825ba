/** The directed-graph semantics the system inherits from networkx's
    `DiGraph`: node ids kept in insertion order, each with an attribute
    map; at most one edge per ordered pair, edges kept in insertion order,
    each with an attribute map. Re-adding a node or an edge merges the new
    attributes into the old ones; adding an edge creates missing endpoints;
    successor and predecessor order follow edge insertion order. */
module DiGraph {
  import opened Text

  /** An attribute value: the system stores strings, integers and booleans. */
  datatype Value = Str(s: string) | Int(i: int) | Bool(b: bool)

  type Attrs = map<string, Value>

  /** The attribute map `a` gives key `k` the value `v`. */
  predicate Has(a: Attrs, k: string, v: Value) {
    k in a && a[k] == v
  }

  /** A directed edge, as the ordered pair (source, target). */
  type Edge = (string, string)

  datatype Graph = Graph(
    nodes: seq<string>,
    attrs: map<string, Attrs>,
    edgeOrder: seq<Edge>,
    edges: map<Edge, Attrs>)

  /** Python's f-string rendering of a value. */
  function Show(v: Value): (r: string)
    ensures v.Str? ==> r == v.s
  {
    match v
    case Str(s) => s
    case Int(i) => IntToString(i)
    case Bool(b) => if b then "True" else "False"
  }

  predicate NoDup<T(==)>(s: seq<T>) {
    forall i, j | 0 <= i < j < |s| :: s[i] != s[j]
  }

  /** The representation invariant: node order and edge order list exactly
      the keys of the attribute maps, once each, and every edge joins two
      nodes. */
  ghost predicate Valid(g: Graph) {
    && NoDup(g.nodes)
    && (forall n :: n in g.attrs <==> n in g.nodes)
    && NoDup(g.edgeOrder)
    && (forall e :: e in g.edges <==> e in g.edgeOrder)
    && (forall e | e in g.edges :: e.0 in g.attrs && e.1 in g.attrs)
  }

  const Empty: Graph := Graph([], map[], [], map[])

  lemma EmptyValid()
    ensures Valid(Empty)
  {
  }

  /** `h` is `g` grown: the node order of `g` is a prefix of that of `h`, and
      no node or edge of `g` is missing from `h`. */
  ghost predicate Extends(g: Graph, h: Graph) {
    && |g.nodes| <= |h.nodes| && h.nodes[..|g.nodes|] == g.nodes
    && g.attrs.Keys <= h.attrs.Keys
    && g.edges.Keys <= h.edges.Keys
  }

  lemma ExtendsTrans(a: Graph, b: Graph, c: Graph)
    requires Extends(a, b) && Extends(b, c)
    ensures Extends(a, c)
  {
    assert c.nodes[..|a.nodes|] == c.nodes[..|b.nodes|][..|a.nodes|];
  }

  /** `G.add_node(n, **a)`: a new id is appended with attributes `a`; on an
      existing id the attributes are merged, new keys overwriting old ones. */
  function AddNode(g: Graph, n: string, a: Attrs): (r: Graph)
    ensures Valid(g) ==> Valid(r)
    ensures Extends(g, r)
    ensures r.attrs.Keys == g.attrs.Keys + {n}
    ensures forall k :: k in r.attrs[n] <==> k in a || (n in g.attrs && k in g.attrs[n])
    ensures forall k | k in a :: r.attrs[n][k] == a[k]
    ensures n in g.attrs ==> forall k | k in g.attrs[n] && k !in a :: r.attrs[n][k] == g.attrs[n][k]
    ensures forall m | m in g.attrs && m != n :: r.attrs[m] == g.attrs[m]
    ensures Valid(g) && n in g.attrs ==> r.nodes == g.nodes
    ensures n !in g.attrs ==> r.nodes == g.nodes + [n]
    ensures r.edgeOrder == g.edgeOrder && r.edges == g.edges
  {
    if n in g.attrs then
      g.(attrs := g.attrs[n := g.attrs[n] + a])
    else
      g.(nodes := g.nodes + [n], attrs := g.attrs[n := a])
  }

  /** Creates `n` with no attributes unless it is already a node. */
  function EnsureNode(g: Graph, n: string): (r: Graph)
    ensures Valid(g) ==> Valid(r)
    ensures Extends(g, r)
    ensures r.attrs.Keys == g.attrs.Keys + {n}
    ensures forall m | m in g.attrs :: r.attrs[m] == g.attrs[m]
    ensures n !in g.attrs ==> r.attrs[n] == map[]
    ensures r.edgeOrder == g.edgeOrder && r.edges == g.edges
  {
    if n in g.attrs then g else AddNode(g, n, map[])
  }

  /** `G.add_edge(u, v, **a)`: missing endpoints are created with no
      attributes (source first), then the edge is appended with attributes
      `a`, or, when the pair is already an edge, `a` is merged into its
      attributes and its position is kept. */
  function AddEdge(g: Graph, u: string, v: string, a: Attrs): (r: Graph)
    ensures Valid(g) ==> Valid(r)
    ensures Extends(g, r)
  {
    var nodes1 := if u in g.attrs then g.nodes else g.nodes + [u];
    var attrs1 := if u in g.attrs then g.attrs else g.attrs[u := map[]];
    var nodes2 := if v in attrs1 then nodes1 else nodes1 + [v];
    var attrs2 := if v in attrs1 then attrs1 else attrs1[v := map[]];
    var merged := if (u, v) in g.edges then g.edges[(u, v)] + a else a;
    var order := if (u, v) in g.edges then g.edgeOrder else g.edgeOrder + [(u, v)];
    assert Valid(g) ==> NoDup(nodes2) && NoDup(order) by {
      if Valid(g) {
        if u !in g.attrs { NoDupSnoc(g.nodes, u); }
        if v !in attrs1 { NoDupSnoc(nodes1, v); }
        if (u, v) !in g.edges { NoDupSnoc(g.edgeOrder, (u, v)); }
      }
    }
    assert nodes2[..|g.nodes|] == g.nodes;
    Graph(nodes2, attrs2, order, g.edges[(u, v) := merged])
  }

  lemma NoDupSnoc<T>(s: seq<T>, x: T)
    requires NoDup(s) && x !in s
    ensures NoDup(s + [x])
  {
  }

  /** Adding an edge leaves existing nodes' attributes alone and creates
      missing endpoints with no attributes. */
  lemma AddEdgeNodes(g: Graph, u: string, v: string, a: Attrs)
    ensures AddEdge(g, u, v, a).attrs.Keys == g.attrs.Keys + {u, v}
    ensures forall m | m in g.attrs :: AddEdge(g, u, v, a).attrs[m] == g.attrs[m]
    ensures forall m | m in AddEdge(g, u, v, a).attrs && m !in g.attrs :: AddEdge(g, u, v, a).attrs[m] == map[]
  {
    var attrs1 := if u in g.attrs then g.attrs else g.attrs[u := map[]];
    var attrs2 := if v in attrs1 then attrs1 else attrs1[v := map[]];
    assert AddEdge(g, u, v, a).attrs == attrs2;
    assert attrs1.Keys == g.attrs.Keys + {u};
    assert attrs2.Keys == attrs1.Keys + {v};
  }

  /** Adding an edge touches no other edge. */
  lemma AddEdgeOthers(g: Graph, u: string, v: string, a: Attrs)
    ensures AddEdge(g, u, v, a).edges.Keys == g.edges.Keys + {(u, v)}
    ensures forall e | e in g.edges && e != (u, v) :: e in AddEdge(g, u, v, a).edges && AddEdge(g, u, v, a).edges[e] == g.edges[e]
  {
    var r := AddEdge(g, u, v, a);
    assert r.edges == g.edges[(u, v) := r.edges[(u, v)]];
  }

  /** Re-adding an edge merges attributes: new keys overwrite, old keys survive. */
  lemma AddEdgeAttrs(g: Graph, u: string, v: string, a: Attrs)
    ensures forall k :: k in AddEdge(g, u, v, a).edges[(u, v)] <==> k in a || ((u, v) in g.edges && k in g.edges[(u, v)])
    ensures forall k | k in a :: AddEdge(g, u, v, a).edges[(u, v)][k] == a[k]
    ensures (u, v) in g.edges ==> forall k | k in g.edges[(u, v)] && k !in a :: AddEdge(g, u, v, a).edges[(u, v)][k] == g.edges[(u, v)][k]
  {
  }

  /** The attributes just given to an edge are the ones it has. */
  lemma AddEdgeGet(g: Graph, u: string, v: string, a: Attrs, k: string)
    requires k in a
    ensures (u, v) in AddEdge(g, u, v, a).edges
    ensures k in AddEdge(g, u, v, a).edges[(u, v)] && AddEdge(g, u, v, a).edges[(u, v)][k] == a[k]
  {
  }

  /** A node added and then given an edge keeps the attributes it was added with. */
  lemma AddNodeThenEdge(g: Graph, n: string, a: Attrs, u: string, w: string, ea: Attrs)
    ensures n in AddEdge(AddNode(g, n, a), u, w, ea).attrs
    ensures forall k | k in a :: Has(AddEdge(AddNode(g, n, a), u, w, ea).attrs[n], k, a[k])
  {
    AddEdgeNodes(AddNode(g, n, a), u, w, ea);
  }

  /** A new edge goes to the end of the edge order; a re-added one keeps its place. */
  lemma AddEdgeOrder(g: Graph, u: string, v: string, a: Attrs)
    ensures Valid(g) && (u, v) in g.edges ==> AddEdge(g, u, v, a).edgeOrder == g.edgeOrder
    ensures (u, v) !in g.edges ==> AddEdge(g, u, v, a).edgeOrder == g.edgeOrder + [(u, v)]
  {
  }

  /** The elements of `s` that satisfy `keep`, in their order. */
  function Filter<T(!new)>(s: seq<T>, keep: T -> bool): (r: seq<T>)
    ensures forall x :: x in r <==> x in s && keep(x)
    ensures |r| <= |s|
    ensures NoDup(s) ==> NoDup(r)
  {
    if s == [] then []
    else if keep(s[0]) then
      var rest := Filter(s[1..], keep);
      assert NoDup(s) ==> s[0] !in s[1..];
      [s[0]] + rest
    else Filter(s[1..], keep)
  }

  /** Filtering a sequence extended by one element. */
  lemma {:induction false} FilterSnoc<T(!new)>(s: seq<T>, x: T, keep: T -> bool)
    ensures Filter(s + [x], keep) == Filter(s, keep) + (if keep(x) then [x] else [])
  {
    if s == [] {
      assert s + [x] == [x];
      assert [x][1..] == [];
    } else {
      assert (s + [x])[1..] == s[1..] + [x];
      FilterSnoc(s[1..], x, keep);
    }
  }

  /** `G.remove_node(n)`: the node and every edge incident to it disappear;
      the order of what remains is kept. */
  function RemoveNode(g: Graph, n: string): (r: Graph)
    ensures Valid(g) ==> Valid(r)
    ensures r.attrs.Keys == g.attrs.Keys - {n}
    ensures forall m | m in r.attrs :: r.attrs[m] == g.attrs[m]
    ensures forall e :: e in r.edges <==> e in g.edges && e.0 != n && e.1 != n
    ensures forall e | e in r.edges :: r.edges[e] == g.edges[e]
  {
    Graph(
      Filter(g.nodes, (m: string) => m != n),
      g.attrs - {n},
      Filter(g.edgeOrder, (e: Edge) => e.0 != n && e.1 != n),
      map e | e in g.edges && e.0 != n && e.1 != n :: g.edges[e])
  }

  /** The targets of the edges leaving `n`, in edge order. */
  function Targets(es: seq<Edge>, n: string): (r: seq<string>)
    ensures forall t :: t in r <==> (n, t) in es
    ensures NoDup(es) ==> NoDup(r)
  {
    if es == [] then []
    else if es[0].0 == n then
      assert NoDup(es) ==> es[0] !in es[1..];
      [es[0].1] + Targets(es[1..], n)
    else Targets(es[1..], n)
  }

  /** The sources of the edges entering `n`, in edge order. */
  function Sources(es: seq<Edge>, n: string): (r: seq<string>)
    ensures forall s :: s in r <==> (s, n) in es
    ensures NoDup(es) ==> NoDup(r)
  {
    if es == [] then []
    else if es[0].1 == n then
      assert NoDup(es) ==> es[0] !in es[1..];
      [es[0].0] + Sources(es[1..], n)
    else Sources(es[1..], n)
  }

  /** `list(G.successors(n))`. */
  function Successors(g: Graph, n: string): (r: seq<string>)
    ensures Valid(g) ==> NoDup(r) && forall t :: t in r <==> (n, t) in g.edges
  {
    Targets(g.edgeOrder, n)
  }

  /** `list(G.predecessors(n))`. */
  function Predecessors(g: Graph, n: string): (r: seq<string>)
    ensures Valid(g) ==> NoDup(r) && forall s :: s in r <==> (s, n) in g.edges
  {
    Sources(g.edgeOrder, n)
  }

  /** Appending an edge to the order appends its target to its source's list. */
  lemma {:induction false} TargetsSnoc(es: seq<Edge>, e: Edge, n: string)
    ensures Targets(es + [e], n) == Targets(es, n) + (if e.0 == n then [e.1] else [])
  {
    if es == [] {
      assert es + [e] == [e];
    } else {
      assert (es + [e])[0] == es[0];
      assert (es + [e])[1..] == es[1..] + [e];
      TargetsSnoc(es[1..], e, n);
    }
  }

  /** Appending an edge to the order appends its source to its target's list. */
  lemma {:induction false} SourcesSnoc(es: seq<Edge>, e: Edge, n: string)
    ensures Sources(es + [e], n) == Sources(es, n) + (if e.1 == n then [e.0] else [])
  {
    if es == [] {
      assert es + [e] == [e];
    } else {
      assert (es + [e])[0] == es[0];
      assert (es + [e])[1..] == es[1..] + [e];
      SourcesSnoc(es[1..], e, n);
    }
  }

  /** Neighbours come in edge insertion order: a new edge `u -> v` puts `v`
      last among the successors of `u` and `u` last among the predecessors
      of `v`, and changes no other list; re-adding an edge changes no list. */
  lemma AddEdgeNeighbours(g: Graph, u: string, v: string, a: Attrs)
    requires Valid(g)
    ensures (u, v) !in g.edges ==>
              forall n :: Successors(AddEdge(g, u, v, a), n) == Successors(g, n) + (if n == u then [v] else [])
    ensures (u, v) !in g.edges ==>
              forall n :: Predecessors(AddEdge(g, u, v, a), n) == Predecessors(g, n) + (if n == v then [u] else [])
    ensures (u, v) in g.edges ==>
              forall n :: Successors(AddEdge(g, u, v, a), n) == Successors(g, n)
                       && Predecessors(AddEdge(g, u, v, a), n) == Predecessors(g, n)
  {
    AddEdgeOrder(g, u, v, a);
    if (u, v) !in g.edges {
      forall n ensures Successors(AddEdge(g, u, v, a), n) == Successors(g, n) + (if n == u then [v] else []) {
        TargetsSnoc(g.edgeOrder, (u, v), n);
      }
      forall n ensures Predecessors(AddEdge(g, u, v, a), n) == Predecessors(g, n) + (if n == v then [u] else []) {
        SourcesSnoc(g.edgeOrder, (u, v), n);
      }
    }
  }

  /** The edges leaving `n`, in edge order. */
  function OutEdges(es: seq<Edge>, n: string): (r: seq<Edge>)
    ensures forall e :: e in r <==> e in es && e.0 == n
    ensures NoDup(es) ==> NoDup(r)
  {
    Filter(es, (e: Edge) => e.0 == n)
  }

  lemma NoDupConcat<T(!new)>(a: seq<T>, b: seq<T>)
    requires NoDup(a) && NoDup(b)
    requires forall x | x in a :: x !in b
    ensures NoDup(a + b)
  {
    forall i, j | 0 <= i < j < |a + b| ensures (a + b)[i] != (a + b)[j] {
      if j >= |a| && i < |a| {
        assert (a + b)[i] in a && (a + b)[j] in b;
      }
    }
  }

  /** The edges leaving the nodes of `ns`, grouped by source in the order of `ns`. */
  function EdgesBySource(ns: seq<string>, es: seq<Edge>): (r: seq<Edge>)
    ensures forall e :: e in r <==> e in es && e.0 in ns
    ensures NoDup(ns) && NoDup(es) ==> NoDup(r)
  {
    if ns == [] then []
    else
      var first := OutEdges(es, ns[0]);
      var rest := EdgesBySource(ns[1..], es);
      assert NoDup(ns) && NoDup(es) ==> NoDup(first + rest) by {
        if NoDup(ns) && NoDup(es) {
          assert ns[0] !in ns[1..];
          NoDupConcat(first, rest);
        }
      }
      first + rest
  }

  /** `list(G.edges)`: networkx lists edges node by node in node order, and
      for each node its out-edges in insertion order. It lists every edge
      exactly once. */
  function EdgeView(g: Graph): (r: seq<Edge>)
    ensures Valid(g) ==> NoDup(r) && forall e :: e in r <==> e in g.edges
  {
    EdgesBySource(g.nodes, g.edgeOrder)
  }

  lemma CardNoDup<T(!new)>(s: seq<T>)
    requires NoDup(s)
    ensures |set x | x in s| == |s|
  {
    if s != [] {
      CardNoDup(s[1..]);
      assert (set x | x in s) == (set x | x in s[1..]) + {s[0]};
      assert s[0] !in s[1..];
    }
  }

  /** The edge listing has one entry per edge. */
  lemma EdgeViewCount(g: Graph)
    requires Valid(g)
    ensures |EdgeView(g)| == |g.edges|
  {
    var r := EdgeView(g);
    CardNoDup(r);
    assert (set e | e in r) == g.edges.Keys;
  }
}
