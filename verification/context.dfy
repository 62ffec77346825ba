/** Context rendering (`GraphRAGSystem._extract_graph_context`): the first
    eight requested ids that are nodes become text blocks giving the node's
    title, type, clipped content, description and up to three neighbours
    each way; the blocks are separated by blank lines. */
module Context {
  import opened Text
  import opened DiGraph

  const MaxNodes: nat := 8
  const MaxContent: nat := 300
  const MaxNeighbours: nat := 3

  /** What is returned when no block is rendered. */
  const NoNodesFound: string := "No relevant nodes" + " found in the knowledge graph."

  /** A node whose `content`, when present, is a string: `len(content)`
      raises otherwise. */
  predicate Renderable(g: Graph) {
    forall n | n in g.attrs :: "content" in g.attrs[n] ==> g.attrs[n]["content"].Str?
  }

  /** `xs[:n]`. */
  function Prefix<T>(xs: seq<T>, n: nat): (r: seq<T>)
    ensures |r| <= n && |r| <= |xs|
    ensures |xs| <= n ==> r == xs
    ensures r == xs[..|r|]
  {
    if |xs| <= n then xs else xs[..n]
  }

  /** `f"{title}{a[key]}\n"` when the node has `key`, nothing otherwise. */
  function FieldLine(a: Attrs, key: string, title: string): string {
    if key in a then title + Show(a[key]) + "\n" else ""
  }

  /** The content line: content longer than 300 characters is clipped to
      300 characters and `...`; shorter content is shown verbatim. */
  function ContentLine(a: Attrs): (r: string)
    requires "content" in a ==> a["content"].Str?
    ensures "content" !in a ==> r == ""
    ensures "content" in a && |a["content"].s| <= MaxContent ==>
              r == "Content: " + a["content"].s + "\n"
    ensures "content" in a && |a["content"].s| > MaxContent ==>
              r == "Content: " + a["content"].s[..MaxContent] + "..." + "\n"
  {
    if "content" in a then "Content: " + Ellipsize(a["content"].s, MaxContent) + "\n" else ""
  }

  /** `f"{title}{', '.join(ns[:3])}\n"` when `ns` is nonempty. */
  function NeighbourLine(title: string, ns: seq<string>): (r: string)
    ensures r == "" <==> ns == []
  {
    if ns == [] then "" else title + Join(", ", Prefix(ns, MaxNeighbours)) + "\n"
  }

  /** Only the first three neighbours are shown. */
  lemma NeighbourLineFirstThree(title: string, ns: seq<string>)
    ensures NeighbourLine(title, ns) == NeighbourLine(title, Prefix(ns, MaxNeighbours))
  {
  }

  /** The block of one node: the header, the title and type lines, the
      clipped content line, the description line, and the two neighbour
      lines, each present only when its field or list is. */
  function NodeBlock(g: Graph, n: string): (r: string)
    requires n in g.attrs && Renderable(g)
    ensures StartsWith(r, "NODE: " + n + "\n")
    ensures var a := g.attrs[n];
            r == "NODE: " + n + "\n"
                 + FieldLine(a, "label", "Title: ")
                 + FieldLine(a, "type", "Type: ")
                 + ContentLine(a)
                 + FieldLine(a, "description", "Description: ")
                 + NeighbourLine("Connected from: ", Predecessors(g, n))
                 + NeighbourLine("Connects to: ", Successors(g, n))
  {
    var a := g.attrs[n];
    var head := "NODE: " + n + "\n";
    var r := head
      + FieldLine(a, "label", "Title: ")
      + FieldLine(a, "type", "Type: ")
      + ContentLine(a)
      + FieldLine(a, "description", "Description: ")
      + NeighbourLine("Connected from: ", Predecessors(g, n))
      + NeighbourLine("Connects to: ", Successors(g, n));
    assert r[..|head|] == head;
    r
  }

  /** The ids that get a block: those among the first eight that are nodes. */
  function RenderedIds(g: Graph, ids: seq<string>): (r: seq<string>)
    ensures |r| <= MaxNodes
    ensures forall n :: n in r <==> n in Prefix(ids, MaxNodes) && n in g.attrs
  {
    Filter(Prefix(ids, MaxNodes), (n: string) => n in g.attrs)
  }

  /** The blocks, one per rendered id, in order. */
  function Blocks(g: Graph, ns: seq<string>): (r: seq<string>)
    requires Renderable(g) && forall n | n in ns :: n in g.attrs
    ensures |r| == |ns|
    ensures forall i | 0 <= i < |ns| :: StartsWith(r[i], "NODE: " + ns[i] + "\n")
  {
    if ns == [] then []
    else
      var rest := Blocks(g, ns[1..]);
      assert forall i | 1 <= i < |ns| :: ns[i] == ns[1..][i - 1];
      [NodeBlock(g, ns[0])] + rest
  }

  /** `_extract_graph_context`: the sentinel when no block is rendered,
      otherwise the blocks joined by blank lines. */
  function ExtractGraphContext(g: Graph, ids: seq<string>): (r: string)
    requires Renderable(g)
    ensures RenderedIds(g, ids) == [] ==> r == NoNodesFound
    ensures RenderedIds(g, ids) != [] ==> r == Join("\n\n", Blocks(g, RenderedIds(g, ids)))
  {
    var parts := Blocks(g, RenderedIds(g, ids));
    if parts == [] then NoNodesFound else Join("\n\n", parts)
  }

  lemma StartsWithTrans(s: string, t: string, u: string)
    requires StartsWith(s, t) && StartsWith(t, u)
    ensures StartsWith(s, u)
  {
    assert s[..|u|] == s[..|t|][..|u|];
  }

  /** The context is never empty, and it is the sentinel exactly when no id
      among the first eight is a node; otherwise it is the blocks of the
      rendered ids, in order, joined by blank lines, and so opens with the
      block of the first rendered id. */
  lemma ContextShape(g: Graph, ids: seq<string>)
    requires Renderable(g)
    ensures ExtractGraphContext(g, ids) != ""
    ensures ExtractGraphContext(g, ids) == NoNodesFound <==> RenderedIds(g, ids) == []
    ensures RenderedIds(g, ids) != [] ==>
              && ExtractGraphContext(g, ids) == Join("\n\n", Blocks(g, RenderedIds(g, ids)))
              && StartsWith(ExtractGraphContext(g, ids), "NODE: " + RenderedIds(g, ids)[0] + "\n")
  {
    var ns := RenderedIds(g, ids);
    var parts := Blocks(g, ns);
    if ns != [] {
      var r := ExtractGraphContext(g, ids);
      StartsWithTrans(r, parts[0], "NODE: " + ns[0] + "\n");
      BlockNotSentinel(r, ns[0]);
    }
  }

  /** Text opening like a block is neither empty nor the sentinel (whose
      second letter is lower-case). */
  lemma BlockNotSentinel(r: string, n: string)
    requires StartsWith(r, "NODE: " + n + "\n")
    ensures r != "" && r != NoNodesFound
  {
    assert r[1] == 'O';
    assert NoNodesFound[1] == 'o';
  }

  /** One node attribute compared between two graphs. */
  predicate SameField(a: Attrs, b: Attrs, k: string) {
    (k in a <==> k in b) && (k in a ==> a[k] == b[k])
  }

  /** A block depends only on the title, type and description, the content
      up to its 300-character clip, and the first three neighbours each way:
      two graphs that agree on those render the node identically. */
  lemma NodeBlockSameView(g: Graph, h: Graph, n: string)
    requires n in g.attrs && Renderable(g) && n in h.attrs && Renderable(h)
    requires SameField(g.attrs[n], h.attrs[n], "label")
    requires SameField(g.attrs[n], h.attrs[n], "type")
    requires SameField(g.attrs[n], h.attrs[n], "description")
    requires "content" in g.attrs[n] <==> "content" in h.attrs[n]
    requires "content" in g.attrs[n] ==>
               Ellipsize(g.attrs[n]["content"].s, MaxContent) == Ellipsize(h.attrs[n]["content"].s, MaxContent)
    requires Prefix(Predecessors(g, n), MaxNeighbours) == Prefix(Predecessors(h, n), MaxNeighbours)
    requires Prefix(Successors(g, n), MaxNeighbours) == Prefix(Successors(h, n), MaxNeighbours)
    ensures NodeBlock(g, n) == NodeBlock(h, n)
  {
  }

  /** Only the first eight ids matter, and ids that are not nodes are
      skipped: rendering the rendered ids again gives the same context. */
  lemma ContextOfRendered(g: Graph, ids: seq<string>)
    requires Renderable(g)
    ensures ExtractGraphContext(g, Prefix(ids, MaxNodes)) == ExtractGraphContext(g, ids)
    ensures ExtractGraphContext(g, RenderedIds(g, ids)) == ExtractGraphContext(g, ids)
  {
    var ns := RenderedIds(g, ids);
    FilterAllKept(ns, (n: string) => n in g.attrs);
  }

  lemma {:induction false} FilterAllKept<T(!new)>(s: seq<T>, keep: T -> bool)
    requires forall x | x in s :: keep(x)
    ensures Filter(s, keep) == s
  {
    if s != [] {
      FilterAllKept(s[1..], keep);
    }
  }
}
