/** The node operations `KnowledgeGraphBuilder` offers once a graph exists
    (`modify_node`, `delete_node`, `get_node_info`). Each one first asks
    whether the id is a node of the graph and reports a missing node
    instead of failing. */
module GraphEdit {
  import opened DiGraph

  /** The attribute `modify_node` overwrites: `content` when the node has
      one, `description` otherwise. */
  function EditedField(a: Attrs): (r: string)
    ensures r == "content" <==> "content" in a
    ensures r == "content" || r == "description"
  {
    if "content" in a then "content" else "description"
  }

  /** `modify_node`: the new text goes into the edited field and the node is
      flagged `modified`; a missing node gives `false` and no change. */
  function ModifyNode(g: Graph, n: string, details: string): (r: (Graph, bool))
    ensures r.1 <==> n in g.attrs
    ensures !r.1 ==> r.0 == g
    ensures r.0.nodes == g.nodes && r.0.edgeOrder == g.edgeOrder && r.0.edges == g.edges
    ensures r.0.attrs.Keys == g.attrs.Keys
    ensures forall m | m in g.attrs && m != n :: r.0.attrs[m] == g.attrs[m]
    ensures r.1 ==>
              var f := EditedField(g.attrs[n]);
              && r.0.attrs[n].Keys == g.attrs[n].Keys + {f, "modified"}
              && r.0.attrs[n][f] == Str(details)
              && r.0.attrs[n]["modified"] == Bool(true)
              && forall k | k in g.attrs[n] && k != f && k != "modified" :: r.0.attrs[n][k] == g.attrs[n][k]
  {
    if n !in g.attrs then (g, false)
    else
      var a := g.attrs[n];
      var a1 := a[EditedField(a) := Str(details)];
      (g.(attrs := g.attrs[n := a1["modified" := Bool(true)]]), true)
  }

  /** Modifying keeps the representation invariant. */
  lemma ModifyValid(g: Graph, n: string, details: string)
    requires Valid(g)
    ensures Valid(ModifyNode(g, n, details).0)
  {
    var r := ModifyNode(g, n, details).0;
    assert forall m :: m in r.attrs <==> m in g.attrs;
  }

  /** Repeating a modification with the same text changes nothing more: the
      edited field is chosen the same way the second time. */
  lemma ModifyIdempotent(g: Graph, n: string, details: string)
    ensures var g1 := ModifyNode(g, n, details).0;
            ModifyNode(g1, n, details) == (g1, n in g.attrs)
  {
    var g1 := ModifyNode(g, n, details).0;
    if n in g.attrs {
      var f := EditedField(g.attrs[n]);
      assert EditedField(g1.attrs[n]) == f;
      var a2 := g1.attrs[n][f := Str(details)]["modified" := Bool(true)];
      assert a2 == g1.attrs[n];
      assert g1.attrs[n := a2] == g1.attrs;
    }
  }

  /** `delete_node`: the node and every edge at it go; a missing node gives
      `false` and no change. */
  function DeleteNode(g: Graph, n: string): (r: (Graph, bool))
    ensures r.1 <==> n in g.attrs
    ensures !r.1 ==> r.0 == g
    ensures r.1 ==> r.0 == RemoveNode(g, n)
    ensures n !in r.0.attrs
    ensures r.0.attrs.Keys == g.attrs.Keys - {n}
    ensures r.1 ==> forall e | e in r.0.edges :: e.0 != n && e.1 != n
  {
    if n !in g.attrs then (g, false) else (RemoveNode(g, n), true)
  }

  /** Deleting keeps the representation invariant, removes the node from the
      node order, keeps every other node and every edge not at the node. */
  lemma DeleteKeepsOthers(g: Graph, n: string)
    requires Valid(g)
    ensures var r := DeleteNode(g, n).0;
            && Valid(r)
            && n !in r.nodes
            && (forall m | m in g.nodes && m != n :: m in r.nodes && r.attrs[m] == g.attrs[m])
            && (forall e | e in g.edges && e.0 != n && e.1 != n :: e in r.edges && r.edges[e] == g.edges[e])
  {
  }

  /** A second deletion of the same node finds nothing. */
  lemma DeleteTwice(g: Graph, n: string)
    ensures var r := DeleteNode(g, n).0;
            DeleteNode(r, n) == (r, false)
  {
  }

  /** What `get_node_info` returns: `{}` for a missing node, otherwise a copy
      of the attributes with `id` set to the node and `connected_to` holding
      the predecessor and successor lists. */
  datatype NodeInfo =
    | Absent
    | Info(data: Attrs, incoming: seq<string>, outgoing: seq<string>)

  /** `get_node_info`. The `connected_to` key of the result carries the two
      lists, so a node attribute of that name does not survive into `data`. */
  function GetNodeInfo(g: Graph, n: string): (r: NodeInfo)
    ensures r.Absent? <==> n !in g.attrs
    ensures r.Info? ==>
              && r.data.Keys == g.attrs[n].Keys + {"id"} - {"connected_to"}
              && r.data["id"] == Str(n)
              && (forall k | k in g.attrs[n] && k != "id" && k != "connected_to" :: r.data[k] == g.attrs[n][k])
    ensures r.Info? && Valid(g) ==>
              && NoDup(r.incoming) && (forall s :: s in r.incoming <==> (s, n) in g.edges)
              && NoDup(r.outgoing) && (forall t :: t in r.outgoing <==> (n, t) in g.edges)
    ensures r.Info? ==> r.incoming == Predecessors(g, n) && r.outgoing == Successors(g, n)
  {
    if n !in g.attrs then Absent
    else
      var data := g.attrs[n]["id" := Str(n)] - {"connected_to"};
      Info(data, Predecessors(g, n), Successors(g, n))
  }

  /** After a modification the node's information shows the new text under
      the edited field and the `modified` flag, unless the edited field is
      the reserved `connected_to` key, which it never is. */
  lemma ModifyThenInfo(g: Graph, n: string, details: string)
    requires n in g.attrs
    ensures var info := GetNodeInfo(ModifyNode(g, n, details).0, n);
            var f := EditedField(g.attrs[n]);
            && info.Info?
            && f in info.data && info.data[f] == Str(details)
            && "modified" in info.data && info.data["modified"] == Bool(true)
  {
  }

  /** After a deletion the node's information is `{}`. */
  lemma DeleteThenInfo(g: Graph, n: string)
    ensures GetNodeInfo(DeleteNode(g, n).0, n) == Absent
  {
  }
}
