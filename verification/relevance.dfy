/** Keyword retrieval (`GraphRAGSystem._find_relevant_nodes_in_graph`): a
    node is relevant to a question when one of a fixed vocabulary of fifteen
    words occurs both in the lowercased question and in the lowercased text
    of the node. Nodes are visited in node order. */
module Relevance {
  import opened Wrappers
  import opened Text
  import opened DiGraph

  /** The fixed vocabulary, in the order it is tried. */
  const Keywords: seq<string> := [
    "compliance", "requirement", "policy", "data", "security",
    "encryption", "audit", "storage", "processing", "sharing",
    "consent", "protection", "governance", "risk", "review"]

  /** The first of `content`, `label`, `description` the node has. */
  function FirstTextField(a: Attrs): Option<Value> {
    if "content" in a then Some(a["content"])
    else if "label" in a then Some(a["label"])
    else if "description" in a then Some(a["description"])
    else None
  }

  /** The lowercased text of a node: its first text field, or `""` when it
      has none. `None` when that field is not a string, where `.lower()`
      raises. */
  function NodeText(a: Attrs): (r: Option<string>)
    ensures r.None? <==> FirstTextField(a).Some? && !FirstTextField(a).value.Str?
    ensures FirstTextField(a).None? ==> r == Some("")
    ensures r.Some? && FirstTextField(a).Some? ==> r.value == Lower(FirstTextField(a).value.s)
  {
    match FirstTextField(a)
    case None => Some("")
    case Some(v) => if v.Str? then Some(Lower(v.s)) else None
  }

  /** Every node's text can be lowercased, so the search does not raise. */
  predicate Searchable(g: Graph) {
    forall n | n in g.attrs :: NodeText(g.attrs[n]).Some?
  }

  /** Some vocabulary word occurs in both texts. */
  predicate SharesKeyword(question: string, text: string) {
    exists k | 0 <= k < |Keywords| :: Contains(question, Keywords[k]) && Contains(text, Keywords[k])
  }

  /** Node `n` is relevant to the lowercased question `q`. */
  predicate IsRelevant(g: Graph, q: string, n: string) {
    n in g.attrs && NodeText(g.attrs[n]).Some? && SharesKeyword(q, NodeText(g.attrs[n]).value)
  }

  function RelevantTo(g: Graph, q: string): string -> bool {
    n => IsRelevant(g, q, n)
  }

  /** The reference result: the relevant nodes in node order. */
  function RelevantNodes(g: Graph, question: string): (r: seq<string>)
    ensures forall n :: n in r <==> n in g.nodes && IsRelevant(g, Lower(question), n)
    ensures NoDup(g.nodes) ==> NoDup(r)
  {
    Filter(g.nodes, RelevantTo(g, Lower(question)))
  }

  /** `a` is `b` with some elements left out, order kept. */
  predicate IsSubsequence<T(==)>(a: seq<T>, b: seq<T>)
    decreases |b|
  {
    if a == [] then true
    else if b == [] then false
    else (a[0] == b[0] && IsSubsequence(a[1..], b[1..])) || IsSubsequence(a, b[1..])
  }

  lemma {:induction false} FilterIsSubsequence<T(!new)>(s: seq<T>, keep: T -> bool)
    ensures IsSubsequence(Filter(s, keep), s)
  {
    if s != [] {
      FilterIsSubsequence(s[1..], keep);
      if keep(s[0]) {
        assert Filter(s, keep) == [s[0]] + Filter(s[1..], keep);
        assert Filter(s, keep)[1..] == Filter(s[1..], keep);
      }
    }
  }

  /** The relevant list is duplicate-free and lists nodes in node order. */
  lemma RelevantInNodeOrder(g: Graph, question: string)
    requires Valid(g)
    ensures NoDup(RelevantNodes(g, question))
    ensures IsSubsequence(RelevantNodes(g, question), g.nodes)
  {
    FilterIsSubsequence(g.nodes, RelevantTo(g, Lower(question)));
  }

  /** The keyword loop: the words are tried in order and the first one
      found in both texts ends it. */
  method MatchesKeyword(question: string, text: string) returns (found: bool)
    ensures found <==> SharesKeyword(question, text)
  {
    found := false;
    var k := 0;
    while k < |Keywords|
      invariant 0 <= k <= |Keywords|
      invariant forall j | 0 <= j < k :: !(Contains(question, Keywords[j]) && Contains(text, Keywords[j]))
    {
      if Contains(question, Keywords[k]) && Contains(text, Keywords[k]) {
        found := true;
        return;
      }
      k := k + 1;
    }
  }

  /** The relevant nodes among the first `i` nodes, in node order: what the
      search has collected after `i` nodes. */
  function RelevantPrefix(g: Graph, q: string, i: nat): (r: seq<string>)
    requires i <= |g.nodes|
    ensures forall x | x in r :: x in g.nodes[..i]
  {
    if i == 0 then []
    else
      var r := RelevantPrefix(g, q, i - 1);
      assert forall x | x in g.nodes[..i - 1] :: x in g.nodes[..i];
      r + if IsRelevant(g, q, g.nodes[i - 1]) then [g.nodes[i - 1]] else []
  }

  lemma {:induction false} RelevantPrefixFilter(g: Graph, q: string, i: nat)
    requires i <= |g.nodes|
    ensures RelevantPrefix(g, q, i) == Filter(g.nodes[..i], RelevantTo(g, q))
  {
    if i > 0 {
      RelevantPrefixFilter(g, q, i - 1);
      assert g.nodes[..i] == g.nodes[..i - 1] + [g.nodes[i - 1]];
      FilterSnoc(g.nodes[..i - 1], g.nodes[i - 1], RelevantTo(g, q));
    }
  }

  /** `_find_relevant_nodes_in_graph`. */
  method FindRelevantNodes(g: Graph, question: string) returns (r: seq<string>)
    requires Valid(g) && Searchable(g)
    ensures r == RelevantNodes(g, question)
  {
    var q := Lower(question);
    r := [];
    var i := 0;
    while i < |g.nodes|
      invariant 0 <= i <= |g.nodes|
      invariant r == RelevantPrefix(g, q, i)
    {
      var n := g.nodes[i];
      var text := NodeText(g.attrs[n]).value;
      var hit := MatchesKeyword(q, text);
      assert n !in r by {
        assert n !in g.nodes[..i];
      }
      if hit && n !in r {
        r := r + [n];
      }
      i := i + 1;
    }
    RelevantPrefixFilter(g, q, i);
    assert g.nodes[..i] == g.nodes;
  }
}
