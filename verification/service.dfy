/** The question-answering entry point and the thin request wrappers of
    `GraphRAGSystem`: the guards of `query_graph`, the answer step around
    the language model, the `modify_node` and `delete_node` responses, and
    the name a processed document's graph is saved under. The language
    model is a parameter. */
module RagService {
  import opened Wrappers
  import opened Text
  import opened DiGraph
  import opened GraphEdit
  import opened Relevance
  import opened Context

  const NoGraphAnswer: string := "No knowledge graph" + " available. Please upload a document first."
  const NoModelAnswer: string := "LLM not available for answering questions."
  const NoContextAnswer: string := "I couldn't find relevant" + " information in the knowledge graph to answer this question."

  /** What the text-generation pipeline does with a prompt: it generates a
      text, or it raises with a message. */
  datatype ModelReply = Generated(text: string) | Raised(message: string)

  /** The prompt built around the context and the question. */
  function Prompt(question: string, context: string): string {
    PromptHead + context + "\n\nQUESTION: " + question + PromptTail
  }

  const PromptHead: string :=
    "Based on the following knowledge graph structure, answer the question concisely and accurately.\n\n"
    + "KNOWLEDGE GRAPH CONTEXT:\n"
  const PromptTail: string :=
    "\n\nProvide a clear answer based only on the information in the knowledge graph context.\n\n"
    + "ANSWER: "

  /** `_generate_with_llm_using_graph`. */
  function GenerateAnswer(question: string, context: string, model: string -> ModelReply): (r: string)
    ensures context == "" ==> r == NoContextAnswer
    ensures context != "" && model(Prompt(question, context)).Generated? ==>
              r == Trim(model(Prompt(question, context)).text)
    ensures context != "" && model(Prompt(question, context)).Raised? ==>
              r == "Error generating answer: " + model(Prompt(question, context)).message
  {
    if context == "" then NoContextAnswer
    else
      match model(Prompt(question, context))
      case Generated(t) => Trim(t)
      case Raised(m) => "Error generating answer: " + m
  }

  /** `query_graph`. An empty graph is reported before a missing model; the
      context handed to the model is never empty, so the answer is always
      the model's trimmed text or the error it raised. */
  method QueryGraph(g: Graph, question: string, modelLoaded: bool, model: string -> ModelReply)
    returns (answer: string)
    requires Valid(g) && Searchable(g) && Renderable(g)
    ensures g.nodes == [] ==> answer == NoGraphAnswer
    ensures g.nodes != [] && !modelLoaded ==> answer == NoModelAnswer
    ensures g.nodes != [] && modelLoaded ==>
              var context := ExtractGraphContext(g, RelevantNodes(g, question));
              match model(Prompt(question, context))
              case Generated(t) => answer == Trim(t)
              case Raised(m) => answer == "Error generating answer: " + m
  {
    if |g.nodes| == 0 {
      return NoGraphAnswer;
    }
    if !modelLoaded {
      return NoModelAnswer;
    }
    var relevant := FindRelevantNodes(g, question);
    var context := ExtractGraphContext(g, relevant);
    ContextShape(g, relevant);
    answer := GenerateAnswer(question, context, model);
  }

  /** The three fields of a wrapper's response. */
  datatype Response = Response(answer: string, node: string, status: string)

  const NodeNotFound: string := "Node not found"
  const ModifyMissing: string := "Modification failed - missing parameters"
  const ModifyDone: string := "Node updated successfully and graph re-indexed"
  const DeleteMissing: string := "Deletion failed - missing node_id"
  const DeleteDone: string := "Node deleted successfully and graph re-indexed"

  /** `GraphRAGSystem.modify_node`: an empty id or text is refused without
      touching the graph; otherwise the builder's answer decides. */
  function ModifyRequest(g: Graph, nodeId: string, details: string): (r: (Graph, Response))
    ensures nodeId == "" || details == "" ==> r.0 == g && r.1.status == ModifyMissing
    ensures nodeId != "" && details != "" ==> r.0 == ModifyNode(g, nodeId, details).0
    ensures r.1.status == NodeNotFound <==> nodeId != "" && details != "" && nodeId !in g.attrs
    ensures r.1.status == ModifyDone <==> nodeId != "" && details != "" && nodeId in g.attrs
    ensures r.1.node == if nodeId == "" then "unknown" else nodeId
  {
    if nodeId == "" || details == "" then
      (g, Response("Both node_id and new_details are required",
                   if nodeId == "" then "unknown" else nodeId, ModifyMissing))
    else
      var (h, ok) := ModifyNode(g, nodeId, details);
      if ok then
        (h, Response("Node " + nodeId + " has been successfully updated with the new details", nodeId, ModifyDone))
      else
        (h, Response("Node " + nodeId + " not found in the knowledge graph", nodeId, NodeNotFound))
  }

  /** `GraphRAGSystem.delete_node`. */
  function DeleteRequest(g: Graph, nodeId: string): (r: (Graph, Response))
    ensures nodeId == "" ==> r.0 == g && r.1 == Response("node_id is required", "unknown", DeleteMissing)
    ensures nodeId != "" ==> r.0 == DeleteNode(g, nodeId).0 && r.1.node == nodeId
    ensures r.1.status == NodeNotFound <==> nodeId != "" && nodeId !in g.attrs
    ensures r.1.status == DeleteDone <==> nodeId != "" && nodeId in g.attrs
  {
    if nodeId == "" then
      (g, Response("node_id is required", "unknown", DeleteMissing))
    else
      var (h, ok) := DeleteNode(g, nodeId);
      if ok then
        (h, Response("Node " + nodeId + " has been successfully deleted from the knowledge graph", nodeId, DeleteDone))
      else
        (h, Response("Node " + nodeId + " not found in the knowledge graph", nodeId, NodeNotFound))
  }

  /** Where the POSIX `os.path.basename(path)` starts: just after the last `/`. */
  function BaseStart(path: string): (k: nat)
    ensures k <= |path| && (k == 0 || path[k - 1] == '/') && '/' !in path[k..]
  {
    match FindLastChar(path, '/')
    case None => assert path[0..] == path; 0
    case Some(j) => j + 1
  }

  /** Only one position starts a stretch that runs to the end without a
      `/` and follows a `/` or the start. */
  lemma BaseStartUnique(path: string, k: nat)
    requires k <= |path| && (k == 0 || path[k - 1] == '/') && '/' !in path[k..]
    ensures k == BaseStart(path)
  {
  }

  /** Where `s.split('.')[0]` ends: at the first `.`, or the end. */
  function StemEnd(s: string): (j: nat)
    ensures j <= |s| && (j == |s| || s[j] == '.') && '.' !in s[..j]
  {
    match FindChar(s, '.')
    case None => assert s[..|s|] == s; |s|
    case Some(j) => j
  }

  lemma StemEndUnique(s: string, j: nat)
    requires j <= |s| && (j == |s| || s[j] == '.') && '.' !in s[..j]
    ensures j == StemEnd(s)
  {
  }

  /** `os.path.basename(path)` with POSIX path rules: only `/` separates. */
  function Basename(path: string): (r: string)
    ensures '/' !in r
  {
    path[BaseStart(path)..]
  }

  /** `os.path.basename(path).split('.')[0]`: the graph's saved name. */
  function DocName(path: string): (r: string)
    ensures '/' !in r && '.' !in r
  {
    var b := Basename(path);
    var r := b[..StemEnd(b)];
    assert forall i | 0 <= i < |r| :: r[i] == b[i];
    r
  }

  /** The saved name is the stretch of the path after its last `/` and up
      to the first `.` after that: the path splits as a directory part
      (empty or ending in `/`), the name, and a rest (empty or starting with
      `.`) that has no `/`. */
  lemma DocNameSplit(path: string)
    ensures var k := BaseStart(path);
            var pre := path[..k];
            var post := Basename(path)[StemEnd(Basename(path))..];
            && path == pre + DocName(path) + post
            && (pre == [] || pre[|pre| - 1] == '/')
            && '/' !in post
            && (post == [] || post[0] == '.')
  {
    var k := BaseStart(path);
    var b := Basename(path);
    ThreeParts(path, k, StemEnd(b));
  }

  lemma ThreeParts(path: string, k: nat, j: nat)
    requires k <= |path| && j <= |path| - k && '/' !in path[k..]
    requires k == 0 || path[k - 1] == '/'
    requires j == |path| - k || path[k..][j] == '.'
    ensures var b := path[k..];
            var pre, post := path[..k], b[j..];
            && path == pre + b[..j] + post
            && (pre == [] || pre[|pre| - 1] == '/')
            && '/' !in post
            && (post == [] || post[0] == '.')
  {
    var b := path[k..];
    assert path == path[..k] + b;
    StemSplit(b, j);
  }

  lemma StemSplit(b: string, j: nat)
    requires j <= |b| && '/' !in b
    ensures b == b[..j] + b[j..] && '/' !in b[j..]
  {
    assert forall i | 0 <= i < |b[j..]| :: b[j..][i] == b[j + i];
  }

  /** The split is unique, so it pins the name down. */
  lemma DocNameUnique(path: string, pre: string, name: string, post: string)
    requires path == pre + name + post
    requires pre == [] || pre[|pre| - 1] == '/'
    requires '/' !in name && '.' !in name && '/' !in post
    requires post == [] || post[0] == '.'
    ensures name == DocName(path)
  {
    var b := name + post;
    assert path == pre + b;
    assert path[|pre|..] == b;
    assert '/' !in b;
    BaseStartUnique(path, |pre|);
    assert b[..|name|] == name;
    StemEndUnique(b, |name|);
  }

  /** `a/b.c.pdf` is saved as `b`. */
  lemma DocNameExample()
    ensures DocName("a/b.c.pdf") == "b"
  {
    DocNameUnique("a/b.c.pdf", "a/", "b", ".c.pdf");
  }
}
