/** The read-only views of `GraphVisualizer`: the text rendering of
    `visualize_graph_text`, where nodes are grouped by their `type` in the
    order the types are first met and every edge gets one line, and the
    per-type counts of `get_graph_stats`. The rendering is modelled as a
    list of typed rows, each of which prints as one line. */
module Visualizer {
  import opened Text
  import opened DiGraph
  import opened Context

  const ContentClip: nat := 50

  /** `node_data.get("type", "unknown")`. */
  function TypeKey(a: Attrs): (r: Value)
    ensures "type" !in a ==> r == Str("unknown")
  {
    if "type" in a then a["type"] else Str("unknown")
  }

  /** Node `n` of `g` has type `t`. */
  predicate OfType(g: Graph, t: Value, n: string) {
    n in g.attrs && TypeKey(g.attrs[n]) == t
  }

  /** Some node of `ns` has type `t`. */
  predicate TypeOccurs(g: Graph, ns: seq<string>, t: Value) {
    exists n | n in ns :: OfType(g, t, n)
  }

  function HasType(g: Graph, t: Value): string -> bool {
    n => OfType(g, t, n)
  }

  // ----- grouping -----

  /** One entry of `nodes_by_type`: a type and its node ids. */
  datatype Group = Group(key: Value, members: seq<string>)

  /** Some group has the key `t`. */
  predicate KeyIn(gs: seq<Group>, t: Value) {
    exists k | 0 <= k < |gs| :: gs[k].key == t
  }

  predicate DistinctKeys(gs: seq<Group>) {
    forall i, j | 0 <= i < j < |gs| :: gs[i].key != gs[j].key
  }

  /** One step of the grouping loop: `n` is appended to the group of `t`,
      which is created at the end when `t` is new. */
  function Place(gs: seq<Group>, t: Value, n: string): (r: seq<Group>)
    ensures |r| == if KeyIn(gs, t) then |gs| else |gs| + 1
    ensures forall k | 0 <= k < |r| :: r[k].key == if k < |gs| then gs[k].key else t
    decreases |gs|
  {
    if gs == [] then [Group(t, [n])]
    else if gs[0].key == t then [Group(t, gs[0].members + [n])] + gs[1..]
    else
      var rest := Place(gs[1..], t, n);
      assert forall k | 1 <= k < |gs| :: gs[1..][k - 1] == gs[k];
      assert KeyIn(gs, t) ==> KeyIn(gs[1..], t) by {
        if KeyIn(gs, t) {
          var k :| 0 <= k < |gs| && gs[k].key == t;
          assert gs[1..][k - 1].key == t;
        }
      }
      [gs[0]] + rest
  }

  /** The grouping loop over `ns`, in order. */
  function GroupNodes(g: Graph, ns: seq<string>): seq<Group>
    requires forall n | n in ns :: n in g.attrs
  {
    if ns == [] then []
    else
      var last := ns[|ns| - 1];
      Place(GroupNodes(g, ns[..|ns| - 1]), TypeKey(g.attrs[last]), last)
  }

  /** `gs` is the grouping of `ns`: one group per type that occurs, each
      listing the nodes of that type in the order of `ns`. */
  ghost predicate GroupsOf(g: Graph, ns: seq<string>, gs: seq<Group>) {
    && DistinctKeys(gs)
    && (forall t :: KeyIn(gs, t) <==> TypeOccurs(g, ns, t))
    && (forall k | 0 <= k < |gs| :: gs[k].members == Filter(ns, HasType(g, gs[k].key)))
  }

  lemma PlaceMembers(gs: seq<Group>, t: Value, n: string)
    requires DistinctKeys(gs)
    ensures forall k | 0 <= k < |gs| ::
              Place(gs, t, n)[k].members == gs[k].members + (if gs[k].key == t then [n] else [])
    ensures !KeyIn(gs, t) ==> Place(gs, t, n)[|gs|].members == [n]
  {
    PlaceOld(gs, t, n);
    if !KeyIn(gs, t) {
      PlaceNew(gs, t, n);
    }
  }

  lemma {:induction false} PlaceOld(gs: seq<Group>, t: Value, n: string)
    requires DistinctKeys(gs)
    ensures forall k | 0 <= k < |gs| ::
              Place(gs, t, n)[k].members == gs[k].members + (if gs[k].key == t then [n] else [])
    decreases |gs|
  {
    if gs != [] && gs[0].key != t {
      var p, rest := Place(gs, t, n), gs[1..];
      PlaceOld(rest, t, n);
      assert p == [gs[0]] + Place(rest, t, n);
      forall k | 1 <= k < |gs|
        ensures p[k].members == gs[k].members + (if gs[k].key == t then [n] else [])
      {
        assert p[k] == Place(rest, t, n)[k - 1] && gs[k] == rest[k - 1];
      }
    }
  }

  lemma {:induction false} PlaceNew(gs: seq<Group>, t: Value, n: string)
    requires !KeyIn(gs, t)
    ensures Place(gs, t, n)[|gs|].members == [n]
    decreases |gs|
  {
    if gs != [] {
      KeyInTail(gs, t);
      PlaceNew(gs[1..], t, n);
      assert Place(gs, t, n) == [gs[0]] + Place(gs[1..], t, n);
    }
  }

  lemma KeyInTail(gs: seq<Group>, t: Value)
    requires gs != []
    ensures KeyIn(gs[1..], t) ==> KeyIn(gs, t)
  {
    if KeyIn(gs[1..], t) {
      var k :| 0 <= k < |gs[1..]| && gs[1..][k].key == t;
      assert gs[k + 1].key == t;
    }
  }

  lemma FilterNone<T(!new)>(s: seq<T>, keep: T -> bool)
    requires forall x | x in s :: !keep(x)
    ensures Filter(s, keep) == []
  {
    if Filter(s, keep) != [] {
      assert Filter(s, keep)[0] in Filter(s, keep);
    }
  }

  /** The loop builds exactly the grouping of the nodes it visits. */
  lemma {:induction false} GroupNodesCorrect(g: Graph, ns: seq<string>)
    requires forall n | n in ns :: n in g.attrs
    ensures GroupsOf(g, ns, GroupNodes(g, ns))
  {
    if ns != [] {
      var init, last := ns[..|ns| - 1], ns[|ns| - 1];
      assert ns == init + [last];
      GroupNodesCorrect(g, init);
      GroupStepKeys(g, init, last, GroupNodes(g, init));
      GroupStepMembers(g, init, last, GroupNodes(g, init));
    }
  }

  lemma GroupStepKeys(g: Graph, init: seq<string>, last: string, gs: seq<Group>)
    requires last in g.attrs && GroupsOf(g, init, gs)
    ensures var r := Place(gs, TypeKey(g.attrs[last]), last);
            && DistinctKeys(r)
            && forall u :: KeyIn(r, u) <==> TypeOccurs(g, init + [last], u)
  {
    var t := TypeKey(g.attrs[last]);
    var r := Place(gs, t, last);
    PlaceKeyIn(gs, t, last);
    PlaceDistinct(gs, t, last);
    TypesSnoc(g, init, last);
    forall u ensures KeyIn(r, u) <==> TypeOccurs(g, init + [last], u) {
      assert KeyIn(r, u) <==> KeyIn(gs, u) || u == t;
      assert KeyIn(gs, u) <==> TypeOccurs(g, init, u);
    }
  }

  lemma PlaceKeyIn(gs: seq<Group>, t: Value, n: string)
    ensures forall u :: KeyIn(Place(gs, t, n), u) <==> KeyIn(gs, u) || u == t
  {
    var r := Place(gs, t, n);
    forall u ensures KeyIn(r, u) <==> KeyIn(gs, u) || u == t {
      if KeyIn(r, u) && u != t {
        var k :| 0 <= k < |r| && r[k].key == u;
        assert gs[k].key == u;
      }
      if u == t && !KeyIn(gs, t) {
        assert r[|gs|].key == t;
      }
      if KeyIn(gs, u) {
        var k :| 0 <= k < |gs| && gs[k].key == u;
        assert r[k].key == u;
      }
    }
  }

  lemma PlaceDistinct(gs: seq<Group>, t: Value, n: string)
    requires DistinctKeys(gs)
    ensures DistinctKeys(Place(gs, t, n))
  {
    var r := Place(gs, t, n);
    forall i, j | 0 <= i < j < |r| ensures r[i].key != r[j].key {
      if j == |gs| {
        assert !KeyIn(gs, t) && r[i].key == gs[i].key;
      }
    }
  }

  /** The types met in `init + [last]` are those met in `init` and the type of `last`. */
  lemma TypesSnoc(g: Graph, init: seq<string>, last: string)
    requires last in g.attrs
    ensures forall u :: TypeOccurs(g, init + [last], u) <==>
                        TypeOccurs(g, init, u) || u == TypeKey(g.attrs[last])
  {
    forall u ensures TypeOccurs(g, init + [last], u) <==>
                     TypeOccurs(g, init, u) || u == TypeKey(g.attrs[last]) {
      if u == TypeKey(g.attrs[last]) {
        assert last in init + [last] && OfType(g, u, last);
      }
      if TypeOccurs(g, init, u) {
        var m :| m in init && OfType(g, u, m);
        assert m in init + [last];
      }
      if TypeOccurs(g, init + [last], u) {
        var m :| m in init + [last] && OfType(g, u, m);
        if m != last {
          assert m in init;
        }
      }
    }
  }

  lemma GroupStepMembers(g: Graph, init: seq<string>, last: string, gs: seq<Group>)
    requires last in g.attrs && GroupsOf(g, init, gs)
    ensures var r := Place(gs, TypeKey(g.attrs[last]), last);
            forall k | 0 <= k < |r| :: r[k].members == Filter(init + [last], HasType(g, r[k].key))
  {
    var t := TypeKey(g.attrs[last]);
    var r := Place(gs, t, last);
    PlaceMembers(gs, t, last);
    forall k | 0 <= k < |r|
      ensures r[k].members == Filter(init + [last], HasType(g, r[k].key))
    {
      FilterSnoc(init, last, HasType(g, r[k].key));
      if k == |gs| {
        FilterNone(init, HasType(g, t));
      }
    }
  }

  /** A node of `ns` is in the group of its own type and in no other. */
  lemma GroupMembership(g: Graph, ns: seq<string>, gs: seq<Group>, n: string)
    requires GroupsOf(g, ns, gs) && n in ns && n in g.attrs
    ensures exists k | 0 <= k < |gs| :: gs[k].key == TypeKey(g.attrs[n]) && n in gs[k].members
    ensures forall k | 0 <= k < |gs| && n in gs[k].members :: gs[k].key == TypeKey(g.attrs[n])
  {
    var t := TypeKey(g.attrs[n]);
    assert OfType(g, t, n);
    assert KeyIn(gs, t);
    var k :| 0 <= k < |gs| && gs[k].key == t;
    assert n in Filter(ns, HasType(g, gs[k].key));
  }

  /** A member of a group is a node of that group's type. */
  lemma MemberHasKey(g: Graph, ns: seq<string>, gs: seq<Group>, k: nat, n: string)
    requires GroupsOf(g, ns, gs) && k < |gs| && n in gs[k].members
    ensures n in ns && n in g.attrs && TypeKey(g.attrs[n]) == gs[k].key
  {
    assert n in Filter(ns, HasType(g, gs[k].key));
  }

  /** Every node lands in exactly one group, the group of its own type
      (`unknown` when it has none). */
  lemma GroupedOnce(g: Graph, gs: seq<Group>)
    requires Valid(g) && gs == GroupNodes(g, g.nodes)
    ensures forall n | n in g.nodes :: exists k | 0 <= k < |gs| :: gs[k].key == TypeKey(g.attrs[n]) && n in gs[k].members
    ensures forall j, k, n | 0 <= j < |gs| && 0 <= k < |gs| && n in gs[j].members && n in gs[k].members :: j == k
  {
    GroupNodesCorrect(g, g.nodes);
    GroupingPartitions(g, gs);
  }

  lemma GroupingPartitions(g: Graph, gs: seq<Group>)
    requires Valid(g) && GroupsOf(g, g.nodes, gs)
    ensures forall n | n in g.nodes :: exists k | 0 <= k < |gs| :: gs[k].key == TypeKey(g.attrs[n]) && n in gs[k].members
    ensures forall j, k, n | 0 <= j < |gs| && 0 <= k < |gs| && n in gs[j].members && n in gs[k].members :: j == k
  {
    forall n | n in g.nodes
      ensures exists k | 0 <= k < |gs| :: gs[k].key == TypeKey(g.attrs[n]) && n in gs[k].members
    {
      GroupMembership(g, g.nodes, gs, n);
    }
    forall j, k, n | 0 <= j < |gs| && 0 <= k < |gs| && n in gs[j].members && n in gs[k].members
      ensures j == k
    {
      MemberHasKey(g, g.nodes, gs, j, n);
      MemberHasKey(g, g.nodes, gs, k, n);
    }
  }

  // ----- counting -----

  /** One step of the counting loop of `get_graph_stats`. */
  function Bump(cs: seq<(Value, nat)>, t: Value): (r: seq<(Value, nat)>)
    decreases |cs|
  {
    if cs == [] then [(t, 1)]
    else if cs[0].0 == t then [(t, cs[0].1 + 1)] + cs[1..]
    else [cs[0]] + Bump(cs[1..], t)
  }

  /** `nodes_by_type` of `get_graph_stats`, in insertion order. */
  function CountByType(g: Graph, ns: seq<string>): seq<(Value, nat)>
    requires forall n | n in ns :: n in g.attrs
  {
    if ns == [] then []
    else
      var last := ns[|ns| - 1];
      Bump(CountByType(g, ns[..|ns| - 1]), TypeKey(g.attrs[last]))
  }

  function Total(cs: seq<(Value, nat)>): nat {
    if cs == [] then 0 else cs[0].1 + Total(cs[1..])
  }

  lemma {:induction false} BumpTotal(cs: seq<(Value, nat)>, t: Value)
    ensures Total(Bump(cs, t)) == Total(cs) + 1
    decreases |cs|
  {
    if cs != [] && cs[0].0 != t {
      BumpTotal(cs[1..], t);
      assert Bump(cs, t)[1..] == Bump(cs[1..], t);
    } else if cs != [] {
      assert Bump(cs, t)[1..] == cs[1..];
    }
  }

  /** Counts are the sizes of the groups of the same loop. */
  predicate Sizes(cs: seq<(Value, nat)>, gs: seq<Group>) {
    |cs| == |gs| && forall k | 0 <= k < |gs| :: cs[k] == (gs[k].key, |gs[k].members|)
  }

  lemma {:induction false} BumpPlace(cs: seq<(Value, nat)>, gs: seq<Group>, t: Value, n: string)
    requires Sizes(cs, gs)
    ensures Sizes(Bump(cs, t), Place(gs, t, n))
    decreases |gs|
  {
    if gs != [] && gs[0].key != t {
      assert Sizes(cs[1..], gs[1..]);
      BumpPlace(cs[1..], gs[1..], t, n);
      var b, p := Bump(cs, t), Place(gs, t, n);
      assert b == [cs[0]] + Bump(cs[1..], t) && p == [gs[0]] + Place(gs[1..], t, n);
      assert forall k | 1 <= k < |p| :: b[k] == Bump(cs[1..], t)[k - 1] && p[k] == Place(gs[1..], t, n)[k - 1];
    }
  }

  lemma {:induction false} CountsAreSizes(g: Graph, ns: seq<string>)
    requires forall n | n in ns :: n in g.attrs
    ensures Sizes(CountByType(g, ns), GroupNodes(g, ns))
    ensures Total(CountByType(g, ns)) == |ns|
  {
    if ns != [] {
      var init, last := ns[..|ns| - 1], ns[|ns| - 1];
      CountsAreSizes(g, init);
      BumpPlace(CountByType(g, init), GroupNodes(g, init), TypeKey(g.attrs[last]), last);
      BumpTotal(CountByType(g, init), TypeKey(g.attrs[last]));
    }
  }

  /** What `get_graph_stats` returns, without `is_connected` and `density`. */
  datatype Stats = Stats(totalNodes: nat, totalEdges: nat, nodesByType: seq<(Value, nat)>)

  /** `get_graph_stats`: the per-type counts add up to the node count, and
      each count is the number of nodes of that type, the types being those
      that occur, once each. */
  function GraphStats(g: Graph): (r: Stats)
    requires Valid(g)
    ensures r.totalNodes == |g.nodes| && r.totalEdges == |g.edges|
    ensures Total(r.nodesByType) == r.totalNodes
    ensures forall k | 0 <= k < |r.nodesByType| ::
              r.nodesByType[k].1 == |Filter(g.nodes, HasType(g, r.nodesByType[k].0))|
    ensures forall t :: (exists k | 0 <= k < |r.nodesByType| :: r.nodesByType[k].0 == t) <==>
                        TypeOccurs(g, g.nodes, t)
  {
    var cs := CountByType(g, g.nodes);
    CountsAreSizes(g, g.nodes);
    GroupNodesCorrect(g, g.nodes);
    CountsMatchGroups(g, cs, GroupNodes(g, g.nodes));
    Stats(|g.nodes|, |g.edges|, cs)
  }

  lemma CountsMatchGroups(g: Graph, cs: seq<(Value, nat)>, gs: seq<Group>)
    requires GroupsOf(g, g.nodes, gs) && Sizes(cs, gs)
    ensures forall k | 0 <= k < |cs| :: cs[k].1 == |Filter(g.nodes, HasType(g, cs[k].0))|
    ensures forall t :: (exists k | 0 <= k < |cs| :: cs[k].0 == t) <==> TypeOccurs(g, g.nodes, t)
  {
    forall t ensures (exists k | 0 <= k < |cs| :: cs[k].0 == t) <==> KeyIn(gs, t) {
      if KeyIn(gs, t) {
        var k :| 0 <= k < |gs| && gs[k].key == t;
        assert cs[k].0 == t;
      }
    }
  }

  // ----- rendering -----

  /** A line of the rendering. */
  datatype Row =
    | Plain(text: string)
    | NodeRow(id: string, shown: string)
    | ContentRow(clip: string)
    | EdgeRow(source: string, relation: string, target: string)

  function RenderRow(r: Row): string {
    match r
    case Plain(t) => t
    case NodeRow(n, l) => "  " + n + ": " + l
    case ContentRow(c) => "      Content: " + c + "..."
    case EdgeRow(s, rel, t) => "  " + s + " --[" + rel + "]--> " + t
  }

  /** Every node's `type`, when present, is a string: `upper()` raises otherwise. */
  predicate Typed(g: Graph) {
    forall n | n in g.attrs :: "type" in g.attrs[n] ==> g.attrs[n]["type"].Str?
  }

  /** The label shown for `n`: its `label`, or its id. */
  function LabelOf(a: Attrs, n: string): string {
    if "label" in a then Show(a["label"]) else n
  }

  /** The rows of one node: its label line, then a content line when the
      content is longer than fifty characters. */
  function NodeRows(g: Graph, n: string): (r: seq<Row>)
    requires n in g.attrs && Renderable(g)
    ensures |r| == 1 || |r| == 2
    ensures r[0] == NodeRow(n, LabelOf(g.attrs[n], n))
    ensures |r| == 2 <==> "content" in g.attrs[n] && |g.attrs[n]["content"].s| > ContentClip
    ensures |r| == 2 ==> RenderRow(r[1]) == "      Content: " + Ellipsize(g.attrs[n]["content"].s, ContentClip)
  {
    var a := g.attrs[n];
    var content := if "content" in a then a["content"].s else "";
    [NodeRow(n, LabelOf(a, n))]
      + if |content| > ContentClip then [ContentRow(content[..ContentClip])] else []
  }

  function MemberRows(g: Graph, ns: seq<string>): seq<Row>
    requires Renderable(g) && forall n | n in ns :: n in g.attrs
  {
    if ns == [] then [] else NodeRows(g, ns[0]) + MemberRows(g, ns[1..])
  }

  /** The heading of a group and its rule. */
  function GroupHead(t: string): seq<Row> {
    [Plain("\n" + Upper(t) + " NODES:"), Plain(Repeat('-', 40))]
  }

  /** The groups are well formed for rendering. */
  predicate Printable(g: Graph, gs: seq<Group>) {
    forall k | 0 <= k < |gs| :: gs[k].key.Str? && forall n | n in gs[k].members :: n in g.attrs
  }

  function GroupRows(g: Graph, gs: seq<Group>): seq<Row>
    requires Renderable(g) && Printable(g, gs)
  {
    if gs == [] then []
    else GroupHead(gs[0].key.s) + MemberRows(g, gs[0].members) + GroupRows(g, gs[1..])
  }

  /** `edge_data.get("relationship", "connected_to")`. */
  function RelationOf(a: Attrs): string {
    if "relationship" in a then Show(a["relationship"]) else "connected_to"
  }

  function EdgeRows(g: Graph, es: seq<Edge>): (r: seq<Row>)
    requires forall e | e in es :: e in g.edges
    ensures |r| == |es|
    ensures forall i | 0 <= i < |es| :: r[i] == EdgeRow(es[i].0, RelationOf(g.edges[es[i]]), es[i].1)
  {
    seq(|es|, i requires 0 <= i < |es| => EdgeRow(es[i].0, RelationOf(g.edges[es[i]]), es[i].1))
  }

  const Banner: seq<Row> := [Plain(Repeat('=', 60)), Plain("KNOWLEDGE GRAPH VISUALIZATION"), Plain(Repeat('=', 60))]
  const EdgeHead: seq<Row> := [Plain("\nRELATIONSHIPS:"), Plain(Repeat('-', 40))]
  const Closing: seq<Row> := [Plain("\n" + Repeat('=', 60))]

  /** The grouping of a typed graph can be rendered. */
  lemma GroupsPrintable(g: Graph)
    requires Valid(g) && Typed(g)
    ensures GroupsOf(g, g.nodes, GroupNodes(g, g.nodes))
    ensures Printable(g, GroupNodes(g, g.nodes))
  {
    var gs := GroupNodes(g, g.nodes);
    GroupNodesCorrect(g, g.nodes);
    forall k | 0 <= k < |gs| ensures gs[k].key.Str? {
      assert KeyIn(gs, gs[k].key);
      var n :| n in g.nodes && OfType(g, gs[k].key, n);
    }
  }

  /** Everything `visualize_graph_text` puts in its output list. */
  function VisualizeRows(g: Graph): seq<Row>
    requires Valid(g) && Renderable(g) && Typed(g)
  {
    var gs := GroupNodes(g, g.nodes);
    GroupsPrintable(g);
    Banner + GroupRows(g, gs) + EdgeHead + EdgeRows(g, EdgeView(g)) + Closing
  }

  function JoinRows(rs: seq<Row>): string {
    if rs == [] then ""
    else if |rs| == 1 then RenderRow(rs[0])
    else RenderRow(rs[0]) + "\n" + JoinRows(rs[1..])
  }

  /** `visualize_graph_text`. */
  function VisualizeGraphText(g: Graph): (r: string)
    requires Valid(g) && Renderable(g) && Typed(g)
    ensures StartsWith(r, Repeat('=', 60))
  {
    var rs := VisualizeRows(g);
    assert rs[0] == Banner[0];
    assert JoinRows(rs)[..60] == Repeat('=', 60);
    JoinRows(rs)
  }

  // ----- what the rendering shows -----

  /** The ids of the node rows, in order. */
  function NodeIds(rs: seq<Row>): seq<string> {
    if rs == [] then [] else (if rs[0].NodeRow? then [rs[0].id] else []) + NodeIds(rs[1..])
  }

  /** The edges of the edge rows, in order. */
  function EdgesShown(rs: seq<Row>): seq<Edge> {
    if rs == [] then [] else (if rs[0].EdgeRow? then [(rs[0].source, rs[0].target)] else []) + EdgesShown(rs[1..])
  }

  lemma {:induction false} NodeIdsAppend(a: seq<Row>, b: seq<Row>)
    ensures NodeIds(a + b) == NodeIds(a) + NodeIds(b)
  {
    if a == [] {
      assert a + b == b;
    } else {
      assert (a + b)[0] == a[0];
      assert (a + b)[1..] == a[1..] + b;
      NodeIdsAppend(a[1..], b);
    }
  }

  lemma {:induction false} EdgesShownAppend(a: seq<Row>, b: seq<Row>)
    ensures EdgesShown(a + b) == EdgesShown(a) + EdgesShown(b)
  {
    if a == [] {
      assert a + b == b;
    } else {
      assert (a + b)[0] == a[0];
      assert (a + b)[1..] == a[1..] + b;
      EdgesShownAppend(a[1..], b);
    }
  }

  lemma {:induction false} MemberRowsShow(g: Graph, ns: seq<string>)
    requires Renderable(g) && forall n | n in ns :: n in g.attrs
    ensures NodeIds(MemberRows(g, ns)) == ns
    ensures EdgesShown(MemberRows(g, ns)) == []
  {
    if ns != [] {
      var head := NodeRows(g, ns[0]);
      MemberRowsShow(g, ns[1..]);
      NodeIdsAppend(head, MemberRows(g, ns[1..]));
      EdgesShownAppend(head, MemberRows(g, ns[1..]));
      assert head[1..] == [] || head[1..] == [head[1]];
    }
  }

  /** The members of all groups, in group order. */
  function Flatten(gs: seq<Group>): seq<string> {
    if gs == [] then [] else gs[0].members + Flatten(gs[1..])
  }

  lemma GroupRowsSplit(g: Graph, gs: seq<Group>)
    requires Renderable(g) && Printable(g, gs) && gs != []
    ensures Printable(g, gs[1..])
    ensures GroupRows(g, gs) == GroupHead(gs[0].key.s) + MemberRows(g, gs[0].members) + GroupRows(g, gs[1..])
  {
    assert forall k | 0 <= k < |gs[1..]| :: gs[1..][k] == gs[k + 1];
  }

  lemma {:induction false} GroupRowsNodes(g: Graph, gs: seq<Group>)
    requires Renderable(g) && Printable(g, gs)
    ensures NodeIds(GroupRows(g, gs)) == Flatten(gs)
  {
    if gs != [] {
      var block := GroupHead(gs[0].key.s) + MemberRows(g, gs[0].members);
      GroupRowsSplit(g, gs);
      GroupRowsNodes(g, gs[1..]);
      BlockShows(g, gs[0].key.s, gs[0].members);
      NodeIdsAppend(block, GroupRows(g, gs[1..]));
    }
  }

  /** A group's block names its members and shows no edge. */
  lemma BlockShows(g: Graph, t: string, ns: seq<string>)
    requires Renderable(g) && forall n | n in ns :: n in g.attrs
    ensures NodeIds(GroupHead(t) + MemberRows(g, ns)) == ns
    ensures EdgesShown(GroupHead(t) + MemberRows(g, ns)) == []
  {
    MemberRowsShow(g, ns);
    PlainShowsNothing(GroupHead(t));
    NodeIdsAppend(GroupHead(t), MemberRows(g, ns));
    EdgesShownAppend(GroupHead(t), MemberRows(g, ns));
  }

  lemma {:induction false} GroupRowsEdges(g: Graph, gs: seq<Group>)
    requires Renderable(g) && Printable(g, gs)
    ensures EdgesShown(GroupRows(g, gs)) == []
  {
    if gs != [] {
      var block := GroupHead(gs[0].key.s) + MemberRows(g, gs[0].members);
      GroupRowsSplit(g, gs);
      GroupRowsEdges(g, gs[1..]);
      BlockShows(g, gs[0].key.s, gs[0].members);
      EdgesShownAppend(block, GroupRows(g, gs[1..]));
    }
  }

  /** Plain rows name no node and show no edge. */
  lemma {:induction false} PlainShowsNothing(rs: seq<Row>)
    requires forall i | 0 <= i < |rs| :: rs[i].Plain?
    ensures NodeIds(rs) == [] && EdgesShown(rs) == []
  {
    if rs != [] {
      PlainShowsNothing(rs[1..]);
    }
  }

  /** Groups with distinct keys whose members all have their group's type
      share no member, so their concatenation repeats nothing. */
  lemma {:induction false} FlattenNoDup(g: Graph, gs: seq<Group>)
    requires DistinctKeys(gs)
    requires forall k | 0 <= k < |gs| :: NoDup(gs[k].members)
    requires forall k, n | 0 <= k < |gs| && n in gs[k].members :: OfType(g, gs[k].key, n)
    ensures NoDup(Flatten(gs))
    ensures forall n :: n in Flatten(gs) <==> exists k | 0 <= k < |gs| :: n in gs[k].members
  {
    if gs != [] {
      assert forall k | 1 <= k < |gs| :: gs[k] == gs[1..][k - 1];
      FlattenNoDup(g, gs[1..]);
      forall n | n in gs[0].members ensures n !in Flatten(gs[1..]) {
        forall k | 0 <= k < |gs[1..]| ensures n !in gs[1..][k].members {
          assert gs[1..][k] == gs[k + 1];
          assert gs[0].key != gs[k + 1].key;
        }
      }
      NoDupConcat(gs[0].members, Flatten(gs[1..]));
      forall n | exists k | 0 <= k < |gs| :: n in gs[k].members
        ensures n in Flatten(gs)
      {
        var k :| 0 <= k < |gs| && n in gs[k].members;
        if k > 0 {
          assert n in gs[1..][k - 1].members;
        }
      }
    }
  }

  /** The rendering names every node exactly once and shows every edge
      exactly once, in the order networkx lists the edges. */
  lemma VisualizeShowsAll(g: Graph)
    requires Valid(g) && Renderable(g) && Typed(g)
    ensures var ids := NodeIds(VisualizeRows(g));
            && NoDup(ids) && |ids| == |g.nodes|
            && forall n :: n in ids <==> n in g.nodes
    ensures EdgesShown(VisualizeRows(g)) == EdgeView(g)
    ensures |EdgesShown(VisualizeRows(g))| == |g.edges|
  {
    VisualizeNodes(g);
    VisualizeEdges(g);
    EdgeViewCount(g);
  }

  lemma VisualizeNodes(g: Graph)
    requires Valid(g) && Renderable(g) && Typed(g)
    ensures NodeIds(VisualizeRows(g)) == Flatten(GroupNodes(g, g.nodes))
    ensures var ids := NodeIds(VisualizeRows(g));
            && NoDup(ids) && |ids| == |g.nodes|
            && forall n :: n in ids <==> n in g.nodes
  {
    var gs := GroupNodes(g, g.nodes);
    GroupsPrintable(g);
    var grouped := GroupRows(g, gs);
    var es := EdgeRows(g, EdgeView(g));
    assert VisualizeRows(g) == Banner + grouped + EdgeHead + es + Closing;
    GroupRowsNodes(g, gs);
    EdgeRowsShow(g, EdgeView(g));
    FixedRowsShowNothing();
    AssembleShows(Banner, grouped, EdgeHead, es, Closing);
    FlattenCoversNodes(g);
  }

  /** The fixed rows name no node and show no edge. */
  lemma FixedRowsShowNothing()
    ensures NodeIds(Banner) == [] && EdgesShown(Banner) == []
    ensures NodeIds(EdgeHead) == [] && EdgesShown(EdgeHead) == []
    ensures NodeIds(Closing) == [] && EdgesShown(Closing) == []
  {
    PlainShowsNothing(Banner);
    PlainShowsNothing(EdgeHead);
    PlainShowsNothing(Closing);
  }

  lemma AssembleShows(top: seq<Row>, a: seq<Row>, mid: seq<Row>, b: seq<Row>, bottom: seq<Row>)
    requires NodeIds(top) == [] && NodeIds(mid) == [] && NodeIds(bottom) == []
    requires EdgesShown(top) == [] && EdgesShown(mid) == [] && EdgesShown(bottom) == []
    ensures NodeIds(top + a + mid + b + bottom) == NodeIds(a) + NodeIds(b)
    ensures EdgesShown(top + a + mid + b + bottom) == EdgesShown(a) + EdgesShown(b)
  {
    AssembleNodes(top, a, mid, b, bottom);
    AssembleEdges(top, a, mid, b, bottom);
  }

  lemma AssembleNodes(top: seq<Row>, a: seq<Row>, mid: seq<Row>, b: seq<Row>, bottom: seq<Row>)
    requires NodeIds(top) == [] && NodeIds(mid) == [] && NodeIds(bottom) == []
    ensures NodeIds(top + a + mid + b + bottom) == NodeIds(a) + NodeIds(b)
  {
    NodeIdsAppend(top + a + mid + b, bottom);
    NodeIdsAppend(top + a + mid, b);
    NodeIdsAppend(top + a, mid);
    NodeIdsAppend(top, a);
  }

  lemma AssembleEdges(top: seq<Row>, a: seq<Row>, mid: seq<Row>, b: seq<Row>, bottom: seq<Row>)
    requires EdgesShown(top) == [] && EdgesShown(mid) == [] && EdgesShown(bottom) == []
    ensures EdgesShown(top + a + mid + b + bottom) == EdgesShown(a) + EdgesShown(b)
  {
    EdgesShownAppend(top + a + mid + b, bottom);
    EdgesShownAppend(top + a + mid, b);
    EdgesShownAppend(top + a, mid);
    EdgesShownAppend(top, a);
  }

  /** The groups of a graph, flattened, list every node once. */
  lemma FlattenCoversNodes(g: Graph)
    requires Valid(g)
    ensures var ids := Flatten(GroupNodes(g, g.nodes));
            && NoDup(ids) && |ids| == |g.nodes|
            && forall n :: n in ids <==> n in g.nodes
  {
    var gs := GroupNodes(g, g.nodes);
    GroupNodesCorrect(g, g.nodes);
    FlattenNoDup(g, gs);
    var ids := Flatten(gs);
    forall n ensures n in ids <==> n in g.nodes {
      if n in g.nodes {
        GroupMembership(g, g.nodes, gs, n);
      }
      if n in ids {
        var k :| 0 <= k < |gs| && n in gs[k].members;
        MemberHasKey(g, g.nodes, gs, k, n);
      }
    }
    SameElementsSameLength(ids, g.nodes);
  }

  lemma SameElementsSameLength<T(!new)>(a: seq<T>, b: seq<T>)
    requires NoDup(a) && NoDup(b) && forall x :: x in a <==> x in b
    ensures |a| == |b|
  {
    CardNoDup(a);
    CardNoDup(b);
    assert (set x | x in a) == (set x | x in b);
  }

  lemma VisualizeEdges(g: Graph)
    requires Valid(g) && Renderable(g) && Typed(g)
    ensures EdgesShown(VisualizeRows(g)) == EdgeView(g)
  {
    var gs := GroupNodes(g, g.nodes);
    GroupsPrintable(g);
    var grouped := GroupRows(g, gs);
    var es := EdgeRows(g, EdgeView(g));
    assert VisualizeRows(g) == Banner + grouped + EdgeHead + es + Closing;
    GroupRowsEdges(g, gs);
    EdgeRowsShow(g, EdgeView(g));
    FixedRowsShowNothing();
    AssembleShows(Banner, grouped, EdgeHead, es, Closing);
  }

  lemma {:induction false} EdgeRowsShow(g: Graph, es: seq<Edge>)
    requires forall e | e in es :: e in g.edges
    ensures NodeIds(EdgeRows(g, es)) == []
    ensures EdgesShown(EdgeRows(g, es)) == es
  {
    if es != [] {
      assert EdgeRows(g, es) == [EdgeRows(g, es)[0]] + EdgeRows(g, es[1..]);
      EdgeRowsShow(g, es[1..]);
    }
  }
}
