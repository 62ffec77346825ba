/** Saving and loading a graph (`save_graph`, `load_graph`): the graph
    becomes a list of node records and a list of edge records, each an
    attribute map with the id (or the two endpoints) merged in, and loading
    rebuilds the graph from the records with `add_node` and `add_edge`.
    The JSON text and the file are left out: a record list is what
    `json.dump` writes and `json.load` gives back. */
module Persistence {
  import opened Wrappers
  import opened DiGraph

  /** The two record lists of the saved file. */
  datatype GraphData = GraphData(nodes: seq<Attrs>, edges: seq<Attrs>)

  /** The attributes of node `n`, or none. */
  function NodeAttrs(g: Graph, n: string): Attrs {
    if n in g.attrs then g.attrs[n] else map[]
  }

  /** The attributes of edge `e`, or none. */
  function EdgeAttrs(g: Graph, e: Edge): Attrs {
    if e in g.edges then g.edges[e] else map[]
  }

  /** `{"id": n, **a}`: a node attribute called `id` overrides the id. */
  function NodeRecord(n: string, a: Attrs): (r: Attrs)
    ensures r.Keys == a.Keys + {"id"}
    ensures forall k | k in a :: r[k] == a[k]
    ensures "id" !in a ==> r["id"] == Str(n)
  {
    map["id" := Str(n)] + a
  }

  /** `{"source": u, "target": v, **a}`. */
  function EdgeRecord(e: Edge, a: Attrs): (r: Attrs)
    ensures r.Keys == a.Keys + {"source", "target"}
    ensures forall k | k in a :: r[k] == a[k]
    ensures "source" !in a ==> r["source"] == Str(e.0)
    ensures "target" !in a ==> r["target"] == Str(e.1)
  {
    map["source" := Str(e.0), "target" := Str(e.1)] + a
  }

  /** The node records of `save_graph`, one per node in node order. */
  function SaveNodes(g: Graph): (r: seq<Attrs>)
    ensures |r| == |g.nodes|
    ensures forall i | 0 <= i < |g.nodes| :: r[i] == NodeRecord(g.nodes[i], NodeAttrs(g, g.nodes[i]))
  {
    seq(|g.nodes|, i requires 0 <= i < |g.nodes| => NodeRecord(g.nodes[i], NodeAttrs(g, g.nodes[i])))
  }

  /** The edge records of `save_graph`, one per edge in the order networkx
      lists edges. */
  function SaveEdges(g: Graph): (r: seq<Attrs>)
    ensures |r| == |EdgeView(g)|
    ensures forall i | 0 <= i < |EdgeView(g)| :: r[i] == EdgeRecord(EdgeView(g)[i], EdgeAttrs(g, EdgeView(g)[i]))
  {
    var ev := EdgeView(g);
    seq(|ev|, i requires 0 <= i < |ev| => EdgeRecord(ev[i], EdgeAttrs(g, ev[i])))
  }

  /** `save_graph` without the file. */
  function Save(g: Graph): (r: GraphData)
    ensures r.nodes == SaveNodes(g) && r.edges == SaveEdges(g)
  {
    GraphData(SaveNodes(g), SaveEdges(g))
  }

  /** `rec.pop(key)` for a string value: the value and the rest of the
      record. A missing key raises `KeyError` in the source; a value that is
      not a string cannot name a node here. Both give `None`. */
  function Pop(rec: Attrs, key: string): (r: Option<(string, Attrs)>)
    ensures r.Some? <==> key in rec && rec[key].Str?
    ensures r.Some? ==> r.value.0 == rec[key].s && r.value.1 == rec - {key}
  {
    if key in rec && rec[key].Str? then Some((rec[key].s, rec - {key})) else None
  }

  /** The named parameters of networkx's `add_node` and `add_edge`: a
      record key equal to one of them, unpacked as a keyword argument,
      makes the call raise `TypeError` (multiple values for one argument). */
  const NodeParams: set<string> := {"self", "node_for_adding"}
  const EdgeParams: set<string> := {"self", "u_of_edge", "v_of_edge"}

  /** A node record the loader accepts: a string id, and no key that
      clashes with a parameter of `add_node`. */
  predicate NodeLoadable(rec: Attrs) {
    "id" in rec && rec["id"].Str? && rec.Keys !! NodeParams
  }

  /** An edge record the loader accepts: string endpoints, and no key that
      clashes with a parameter of `add_edge`. */
  predicate EdgeLoadable(rec: Attrs) {
    "source" in rec && rec["source"].Str? && "target" in rec && rec["target"].Str?
    && rec.Keys !! EdgeParams
  }

  /** The node loop of `load_graph`. */
  function LoadNodes(h: Graph, recs: seq<Attrs>): (r: Option<Graph>)
    ensures r.Some? <==> forall i | 0 <= i < |recs| :: NodeLoadable(recs[i])
    ensures r.Some? && Valid(h) ==> Valid(r.value)
    decreases |recs|
  {
    if recs == [] then Some(h)
    else
      LoadableCons(recs, NodeLoadable);
      match Pop(recs[0], "id")
      case None => None
      case Some((n, a)) =>
        if !(a.Keys !! NodeParams) then None
        else LoadNodes(AddNode(h, n, a), recs[1..])
  }

  /** The edge loop of `load_graph`. */
  function LoadEdges(h: Graph, recs: seq<Attrs>): (r: Option<Graph>)
    ensures r.Some? <==> forall i | 0 <= i < |recs| :: EdgeLoadable(recs[i])
    ensures r.Some? && Valid(h) ==> Valid(r.value)
    decreases |recs|
  {
    if recs == [] then Some(h)
    else
      EdgePops(recs[0]);
      LoadableCons(recs, EdgeLoadable);
      match Pop(recs[0], "source")
      case None => None
      case Some((u, a1)) =>
        match Pop(a1, "target")
        case None => None
        case Some((v, a)) =>
          if !(a.Keys !! EdgeParams) then None
          else LoadEdges(AddEdge(h, u, v, a), recs[1..])
  }

  /** Both pops succeed and leave no clashing key exactly on a loadable
      edge record. */
  lemma EdgePops(rec: Attrs)
    ensures Pop(rec, "source").None? ==> !EdgeLoadable(rec)
    ensures Pop(rec, "source").Some? ==>
              var p := Pop(Pop(rec, "source").value.1, "target");
              (p.Some? && p.value.1.Keys !! EdgeParams) <==> EdgeLoadable(rec)
  {
    assert "source" != "target";
    assert "source" !in EdgeParams && "target" !in EdgeParams;
  }

  /** Every record passes `ok` exactly when the first one does and every
      later one does. */
  lemma LoadableCons(recs: seq<Attrs>, ok: Attrs -> bool)
    requires recs != []
    ensures (forall i | 0 <= i < |recs| :: ok(recs[i]))
            <==> ok(recs[0]) && forall i | 0 <= i < |recs[1..]| :: ok(recs[1..][i])
  {
    assert forall i | 1 <= i < |recs| :: recs[i] == recs[1..][i - 1];
  }

  /** `load_graph` without the file: a fresh graph, the nodes, then the edges.
      It gives `None` exactly when a record lacks its id or an endpoint, or
      carries a key that clashes with a parameter of `add_node` or
      `add_edge`. */
  function Load(d: GraphData): (r: Option<Graph>)
    ensures r.Some? <==>
              (forall i | 0 <= i < |d.nodes| :: NodeLoadable(d.nodes[i])) &&
              (forall i | 0 <= i < |d.edges| :: EdgeLoadable(d.edges[i]))
    ensures r.Some? ==> Valid(r.value)
  {
    EmptyValid();
    match LoadNodes(Empty, d.nodes)
    case None => None
    case Some(h) => LoadEdges(h, d.edges)
  }

  /** A node record carrying a `node_for_adding` key, or an edge record
      carrying a `u_of_edge` key, is refused, as the clashing keyword
      argument makes networkx raise. */
  lemma LoadRefusesClash()
    ensures Load(GraphData([map["id" := Str("x"), "node_for_adding" := Str("y")]], [])) == None
    ensures Load(GraphData([], [map["source" := Str("x"), "target" := Str("y"), "u_of_edge" := Str("z")]])) == None
  {
    var rec := map["id" := Str("x"), "node_for_adding" := Str("y")];
    assert "node_for_adding" in rec.Keys * NodeParams;
    var erec := map["source" := Str("x"), "target" := Str("y"), "u_of_edge" := Str("z")];
    assert "u_of_edge" in erec.Keys * EdgeParams;
  }

  /** No node attribute is called `id` and no edge attribute `source` or
      `target`, so the saved records keep the real ids; and no attribute
      clashes with a parameter of `add_node` or `add_edge`, so the saved
      records load. */
  ghost predicate NoReservedKeys(g: Graph) {
    && (forall n | n in g.attrs :: "id" !in g.attrs[n] && g.attrs[n].Keys !! NodeParams)
    && (forall e | e in g.edges ::
          "source" !in g.edges[e] && "target" !in g.edges[e] && g.edges[e].Keys !! EdgeParams)
  }

  /** The first `i` nodes of `g` with their attributes and no edge. */
  function NodesUpTo(g: Graph, i: nat): (r: Graph)
    requires i <= |g.nodes|
  {
    Graph(g.nodes[..i], map n | n in g.nodes[..i] :: NodeAttrs(g, n), [], map[])
  }

  /** All nodes of `g` and the first `j` edges of `es` with their attributes. */
  function EdgesUpTo(g: Graph, es: seq<Edge>, j: nat): (r: Graph)
    requires j <= |es|
  {
    Graph(g.nodes, g.attrs, es[..j], map e | e in es[..j] :: EdgeAttrs(g, e))
  }

  lemma PopNodeRecord(n: string, a: Attrs)
    requires "id" !in a
    ensures Pop(NodeRecord(n, a), "id") == Some((n, a))
  {
    assert NodeRecord(n, a) - {"id"} == a;
  }

  lemma PopEdgeRecord(e: Edge, a: Attrs)
    requires "source" !in a && "target" !in a
    ensures Pop(EdgeRecord(e, a), "source") == Some((e.0, EdgeRecord(e, a) - {"source"}))
    ensures Pop(EdgeRecord(e, a) - {"source"}, "target") == Some((e.1, a))
  {
    assert EdgeRecord(e, a) - {"source"} - {"target"} == a;
  }

  lemma NodesUpToNext(g: Graph, i: nat)
    requires i < |g.nodes|
    ensures var h := NodesUpTo(g, i);
            NodesUpTo(g, i + 1) == h.(nodes := h.nodes + [g.nodes[i]], attrs := h.attrs[g.nodes[i] := NodeAttrs(g, g.nodes[i])])
  {
    assert g.nodes[..i + 1] == g.nodes[..i] + [g.nodes[i]];
  }

  lemma NodesUpToStep(g: Graph, i: nat)
    requires Valid(g)
    requires i < |g.nodes|
    ensures AddNode(NodesUpTo(g, i), g.nodes[i], NodeAttrs(g, g.nodes[i])) == NodesUpTo(g, i + 1)
  {
    assert g.nodes[i] !in g.nodes[..i];
    assert g.nodes[i] !in NodesUpTo(g, i).attrs;
    NodesUpToNext(g, i);
  }

  lemma EdgesUpToNext(g: Graph, es: seq<Edge>, j: nat)
    requires j < |es|
    ensures var h := EdgesUpTo(g, es, j);
            EdgesUpTo(g, es, j + 1) == h.(edgeOrder := h.edgeOrder + [es[j]], edges := h.edges[es[j] := EdgeAttrs(g, es[j])])
  {
    assert es[..j + 1] == es[..j] + [es[j]];
  }

  lemma EdgesUpToStep(g: Graph, es: seq<Edge>, j: nat)
    requires j < |es|
    requires es[j].0 in g.attrs && es[j].1 in g.attrs
    requires es[j] !in es[..j]
    ensures AddEdge(EdgesUpTo(g, es, j), es[j].0, es[j].1, EdgeAttrs(g, es[j])) == EdgesUpTo(g, es, j + 1)
  {
    assert es[j] !in EdgesUpTo(g, es, j).edges;
    EdgesUpToNext(g, es, j);
  }

  /** Loading the node records from position `i` on, after the first `i`
      nodes have been loaded, gives all the nodes. */
  lemma {:induction false} LoadNodesFrom(g: Graph, i: nat)
    requires Valid(g) && NoReservedKeys(g)
    requires i <= |g.nodes|
    ensures LoadNodes(NodesUpTo(g, i), SaveNodes(g)[i..]) == Some(NodesUpTo(g, |g.nodes|))
    decreases |g.nodes| - i
  {
    var recs := SaveNodes(g)[i..];
    if i < |g.nodes| {
      var n := g.nodes[i];
      assert recs[0] == NodeRecord(n, NodeAttrs(g, n));
      PopNodeRecord(n, NodeAttrs(g, n));
      NodesUpToStep(g, i);
      assert recs[1..] == SaveNodes(g)[i + 1..];
      LoadNodesFrom(g, i + 1);
    }
  }

  /** One step of the edge loop on a record that names both endpoints. */
  lemma LoadEdgesCons(h: Graph, recs: seq<Attrs>, e: Edge, a: Attrs)
    requires recs != []
    requires recs[0] == EdgeRecord(e, a) && "source" !in a && "target" !in a && a.Keys !! EdgeParams
    ensures LoadEdges(h, recs) == LoadEdges(AddEdge(h, e.0, e.1, a), recs[1..])
  {
    PopEdgeRecord(e, a);
  }

  /** Loading the edge records of `es` from position `j` on, after the
      first `j` have been loaded, gives all of them. */
  lemma {:induction false} LoadEdgesFrom(g: Graph, es: seq<Edge>, recs: seq<Attrs>, j: nat)
    requires NoDup(es) && forall e | e in es :: e.0 in g.attrs && e.1 in g.attrs
    requires forall e | e in es ::
               "source" !in EdgeAttrs(g, e) && "target" !in EdgeAttrs(g, e) && EdgeAttrs(g, e).Keys !! EdgeParams
    requires |recs| == |es| && forall k | 0 <= k < |es| :: recs[k] == EdgeRecord(es[k], EdgeAttrs(g, es[k]))
    requires j <= |es|
    ensures LoadEdges(EdgesUpTo(g, es, j), recs[j..]) == Some(EdgesUpTo(g, es, |es|))
    decreases |es| - j
  {
    if j < |es| {
      var e := es[j];
      LoadEdgesCons(EdgesUpTo(g, es, j), recs[j..], e, EdgeAttrs(g, e));
      assert e !in es[..j] by {
        forall k | 0 <= k < j ensures es[k] != e {}
      }
      EdgesUpToStep(g, es, j);
      assert recs[j..][1..] == recs[j + 1..];
      LoadEdgesFrom(g, es, recs, j + 1);
    }
  }

  /** Saving then loading gives back the nodes in their order, every node's
      attributes and every edge with its attributes; the edge order becomes
      the order in which networkx lists edges. */
  lemma SaveLoad(g: Graph)
    requires Valid(g) && NoReservedKeys(g)
    ensures Load(Save(g)) == Some(Graph(g.nodes, g.attrs, EdgeView(g), g.edges))
  {
    SaveLoadNodes(g);
    SaveLoadEdges(g);
  }

  lemma SaveLoadNodes(g: Graph)
    requires Valid(g) && NoReservedKeys(g)
    ensures LoadNodes(Empty, SaveNodes(g)) == Some(Graph(g.nodes, g.attrs, [], map[]))
  {
    LoadNodesFrom(g, 0);
    assert SaveNodes(g)[0..] == SaveNodes(g);
    NodesUpToEnds(g);
  }

  lemma NodesUpToEnds(g: Graph)
    requires Valid(g)
    ensures NodesUpTo(g, 0) == Empty
    ensures NodesUpTo(g, |g.nodes|) == Graph(g.nodes, g.attrs, [], map[])
  {
    assert g.nodes[..|g.nodes|] == g.nodes;
    assert NodesUpTo(g, |g.nodes|).attrs == g.attrs;
  }

  lemma SaveLoadEdges(g: Graph)
    requires Valid(g) && NoReservedKeys(g)
    ensures LoadEdges(Graph(g.nodes, g.attrs, [], map[]), SaveEdges(g)) == Some(Graph(g.nodes, g.attrs, EdgeView(g), g.edges))
  {
    var ev := EdgeView(g);
    LoadEdgesFrom(g, ev, SaveEdges(g), 0);
    assert SaveEdges(g)[0..] == SaveEdges(g);
    EdgesUpToEnds(g);
  }

  lemma EdgesUpToEnds(g: Graph)
    requires Valid(g)
    ensures EdgesUpTo(g, EdgeView(g), 0) == Graph(g.nodes, g.attrs, [], map[])
    ensures EdgesUpTo(g, EdgeView(g), |EdgeView(g)|) == Graph(g.nodes, g.attrs, EdgeView(g), g.edges)
  {
    var ev := EdgeView(g);
    assert ev[..|ev|] == ev;
    assert EdgesUpTo(g, ev, |ev|).edges == g.edges;
  }

  lemma {:induction false} TargetsConcat(a: seq<Edge>, b: seq<Edge>, n: string)
    ensures Targets(a + b, n) == Targets(a, n) + Targets(b, n)
  {
    if a != [] {
      assert (a + b)[1..] == a[1..] + b;
      TargetsConcat(a[1..], b, n);
    } else {
      assert a + b == b;
    }
  }

  /** The targets of `n` among the out-edges of `m`: all of them when
      `m` is `n`, none otherwise. */
  lemma {:induction false} TargetsOfOutEdges(es: seq<Edge>, m: string, n: string)
    ensures Targets(OutEdges(es, m), n) == if m == n then Targets(es, n) else []
  {
    if es != [] {
      TargetsOfOutEdges(es[1..], m, n);
      var keep := (e: Edge) => e.0 == m;
      assert OutEdges(es, m) == if keep(es[0]) then [es[0]] + OutEdges(es[1..], m) else OutEdges(es[1..], m);
      if keep(es[0]) {
        TargetsConcat([es[0]], OutEdges(es[1..], m), n);
      }
    }
  }

  lemma {:induction false} TargetsBySource(ns: seq<string>, es: seq<Edge>, n: string)
    requires NoDup(ns)
    ensures Targets(EdgesBySource(ns, es), n) == if n in ns then Targets(es, n) else []
  {
    if ns != [] {
      TargetsConcat(OutEdges(es, ns[0]), EdgesBySource(ns[1..], es), n);
      TargetsOfOutEdges(es, ns[0], n);
      TargetsBySource(ns[1..], es, n);
      assert ns == [ns[0]] + ns[1..];
      if n == ns[0] {
        assert n !in ns[1..];
      } else {
        assert n in ns <==> n in ns[1..];
      }
    }
  }

  lemma {:induction false} TargetsOfNone(es: seq<Edge>, n: string)
    requires forall e | e in es :: e.0 != n
    ensures Targets(es, n) == []
  {
    if es != [] {
      TargetsOfNone(es[1..], n);
    }
  }

  /** Saving then loading keeps every node's successor list, order included:
      networkx lists a node's out-edges in the order they were added. */
  lemma SaveLoadSuccessors(g: Graph, n: string)
    requires Valid(g) && NoReservedKeys(g)
    ensures Load(Save(g)).Some?
    ensures Successors(Load(Save(g)).value, n) == Successors(g, n)
  {
    SaveLoad(g);
    TargetsBySource(g.nodes, g.edgeOrder, n);
    if n !in g.nodes {
      TargetsOfNone(g.edgeOrder, n);
    }
  }

  /** Three nodes `a`, `b`, `c` with the edges `b->c` then `a->c`. */
  function ReorderExample(): Graph {
    Graph(
      ["a", "b", "c"],
      map["a" := map[], "b" := map[], "c" := map[]],
      [("b", "c"), ("a", "c")],
      map[("b", "c") := map[], ("a", "c") := map[]])
  }

  lemma ReorderExampleValid()
    ensures Valid(ReorderExample()) && NoReservedKeys(ReorderExample())
  {
    var g := ReorderExample();
    ReorderNodes(g);
    ReorderEdges(g);
    ReorderKeys(g);
  }

  lemma ReorderNodes(g: Graph)
    requires g == ReorderExample()
    ensures NoDup(g.nodes) && forall n :: n in g.attrs <==> n in g.nodes
  {
    assert "a" != "b" && "a" != "c" && "b" != "c";
    assert g.attrs.Keys == {"a", "b", "c"};
  }

  lemma ReorderEdges(g: Graph)
    requires g == ReorderExample()
    ensures NoDup(g.edgeOrder) && (forall e :: e in g.edges <==> e in g.edgeOrder)
    ensures forall e | e in g.edges :: e.0 in g.attrs && e.1 in g.attrs
  {
    assert "a" != "b";
    assert g.edges.Keys == {("b", "c"), ("a", "c")};
  }

  lemma ReorderKeys(g: Graph)
    requires g == ReorderExample()
    ensures NoReservedKeys(g)
  {
    assert forall n | n in g.attrs :: g.attrs[n] == map[];
    assert forall e | e in g.edges :: g.edges[e] == map[];
  }

  lemma ReorderExampleView()
    ensures EdgeView(ReorderExample()) == [("a", "c"), ("b", "c")]
  {
    var g := ReorderExample();
    var es := g.edgeOrder;
    assert OutEdges(es, "a") == [("a", "c")] by {
      assert OutEdges(es[1..], "a") == [("a", "c")] + OutEdges(es[2..], "a");
    }
    assert OutEdges(es, "b") == [("b", "c")] by {
      assert OutEdges(es[1..], "b") == OutEdges(es[2..], "b");
    }
    assert OutEdges(es, "c") == [] by {
      assert OutEdges(es[1..], "c") == OutEdges(es[2..], "c");
    }
    var ns := g.nodes;
    assert ns[1..][1..][1..] == [];
  }

  /** After saving and loading, a node's predecessors come in the order of
      the saved edge list. */
  lemma ReloadPredecessors(g: Graph, n: string)
    requires Valid(g) && NoReservedKeys(g)
    ensures Load(Save(g)).Some?
    ensures Predecessors(Load(Save(g)).value, n) == Sources(EdgeView(g), n)
  {
    SaveLoad(g);
  }

  /** Predecessor order is not kept: with edges added as `b->c` then `a->c`,
      the predecessors of `c` are `[b, a]`; the saved edge list puts the
      out-edges of `a` first, so after loading they are `[a, b]`. */
  lemma PredecessorOrderChanges(g: Graph)
    requires g == ReorderExample()
    ensures Valid(g) && NoReservedKeys(g)
    ensures Predecessors(g, "c") == ["b", "a"]
    ensures Load(Save(g)).Some? && Predecessors(Load(Save(g)).value, "c") == ["a", "b"]
  {
    ReorderExampleValid();
    ReorderExampleView();
    ReloadPredecessors(g, "c");
    TwoSources("a", "b", "c");
    TwoSources("b", "a", "c");
  }

  lemma TwoSources(x: string, y: string, n: string)
    ensures Sources([(x, n), (y, n)], n) == [x, y]
  {
    var es := [(x, n), (y, n)];
    assert es[1..] == [(y, n)];
    assert es[1..][1..] == [];
    assert Sources(es[1..][1..], n) == [];
    assert Sources(es[1..], n) == [y] + Sources(es[1..][1..], n);
    assert Sources(es, n) == [x] + Sources(es[1..], n);
  }
}
