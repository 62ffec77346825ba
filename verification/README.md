# Graph-based RAG system: a Dafny model of its core

This project models the pure core of a document question-answering system
that turns a language model's reply into a knowledge graph and answers
questions from that graph. The model covers five parts.

- **Recovery parsing** (`EntityExtractor`):
  - code fences are stripped from the reply;
  - the first balanced `{...}` span is cut out, with a first-`{`-to-last-`}` fallback;
  - parsing is retried up to three times, with a textual repair between attempts;
  - the result is normalised into a canonical extraction in which every section,
    requirement, relationship and entity carries its defaulted fields.
  - Modules: `Fences`, `Braces`, `JsonRepair`, `Extraction`, `RecoverySpec`, `Recovery`.
- **Graph construction and editing** (`KnowledgeGraphBuilder`):
  - the ordered build: framework node, sections, requirements, entities,
    explicit relationships, then relationships inferred by substring search;
  - the canonical section and requirement ids;
  - `modify_node`, `delete_node` and `get_node_info`;
  - the conversion of a graph to node and edge records and back.
  - The build runs on a model of `networkx.DiGraph`:
    - nodes are kept in insertion order;
    - re-adding a node or an edge merges its attributes;
    - there is at most one edge per ordered pair;
    - adding an edge creates missing endpoints;
    - successors and predecessors come in edge insertion order;
    - the edge listing goes node by node.
  - Modules: `DiGraph`, `Builder`, `GraphEdit`, `Persistence`.
- **Retrieval and context** (`GraphRAGSystem`):
  - the fifteen-word keyword filter over the nodes, in node order;
  - the bounded rendering of at most eight nodes, with content clipped to 300
    characters and at most three neighbours each way.
  - Modules: `Relevance`, `Context`.
- **Text visualisation and statistics** (`GraphVisualizer`):
  - nodes are grouped by `type` in the order the types are first met, with
    `unknown` for a node without one;
  - each node gets a label line and, for content longer than 50 characters, a
    clipped content line;
  - each edge gets one relationship line;
  - the per-type counts of the statistics add up to the node count.
  - Module: `Visualizer`.
- **Service guards** (`GraphRAGSystem`): the guards of `query_graph`, the answer
  step around the language model, the `modify_node`/`delete_node` responses, and
  the name a document's graph is saved under. Module: `RagService`.

`Text` models the Python string operations the code uses. `Wrappers` holds
`Option`.

The following are parameters rather than code:
- the language model;
- the JSON parser;
- the nested-brace regular expression of the second fallback;
- rewrites 3 to 10 of the repair list;
- Python's salted string `hash`.

Four behaviours of the code are worth knowing. The model states each one as a
lemma.

- An entity whose id is `Policy_Framework` is merged into the framework node.
  That node's `type` then reads `entity` (`Builder.BuildFrameworkRetyped`).
  The framework keeps its own attributes only when no requirement or entity
  takes its id (`Builder.BuildFrameworkAttrs`).
- The trailing-comma rewrites are not idempotent. `,,}` needs two passes to
  lose both commas (`JsonRepair.RepairNotIdempotent`).
- Saving and reloading a graph keeps node order, every node's attributes,
  every edge's attributes and every successor list
  (`Persistence.SaveLoad`, `Persistence.SaveLoadSuccessors`).
  It does not keep predecessor order (`Persistence.PredecessorOrderChanges`).
- The context handed to the model is never empty. The "couldn't find relevant
  information" branch of the answer step therefore cannot be reached from
  `query_graph` (`Context.ContextShape`, `RagService.QueryGraph`).

## Model

| member | source | states |
|---|---|---|
| Fences.RemoveFenceLeavesNone | src/entity_extractor.py:221 | after the second fence pass, no three backticks remain anywhere, not even ones formed by joining the text around a removed marker |
| Fences.StripFencesLeavesNone | src/entity_extractor.py:220-222 | the cleaned text contains neither the "```json" marker nor the "```" marker |
| Braces.ScanFirstObject | src/entity_extractor.py:223-240 | the scan returns a span exactly when some opening brace read at depth 0 is closed again; the span runs from the first such brace to where the depth first returns to 0; with no span, the depth stays positive after the first depth-0 brace |
| Braces.ScannedSpanShape | src/entity_extractor.py:227-238 | a scanned span begins with `{`, ends with `}` and holds as many `{` as `}` |
| Braces.FirstOpenUnique | src/entity_extractor.py:228-231 | the start of the returned span is determined: there is only one first depth-0 opening brace |
| Braces.NaiveSlice | src/entity_extractor.py:244-249 | a nonempty result is the slice from the first `{` to the last `}`; the result is empty exactly when a brace is missing or the last `}` does not come after the first `{` |
| Recovery.ExtractFromCleaned | src/entity_extractor.py:223-249 | the scanned span when one closes; otherwise the regular-expression match, or, failing that, the naive slice |
| Recovery.ExtractFirstJsonObject | src/entity_extractor.py:218-249 | the returned span is the one the fence cleaning followed by the three-stage search selects |
| RecoverySpec.RetryFrom | src/entity_extractor.py:199-212 | between one and three parses; every attempt before the last failed; the last successful parse is the result; a third failure gives `{}` |
| Recovery.ParseWithRetries | src/entity_extractor.py:199-212 | the loop computes the retry reference definition and applies one repair fewer than it parses |
| Recovery.ExtractAndValidate | src/entity_extractor.py:186-216 | an empty span gives `{}` with no parse and no repair; otherwise the retry loop runs on the span |
| Recovery.RecoverExtraction | src/entity_extractor.py:174-176 | the result is canonical; it is the empty extraction when no span is found, and otherwise the normalised value the retry loop settles on for the span the search selects |
| JsonRepair.TrailingCommaRemoved | src/entity_extractor.py:253-254 | a comma followed only by whitespace up to the closing bracket is deleted, and the text on either side is rewritten independently |
| JsonRepair.StripTrailingCommasNoComma | src/entity_extractor.py:253-254 | text without commas is left unchanged |
| JsonRepair.RepairNotIdempotent | src/entity_extractor.py:251-269 | `,,}` becomes `,}` after one pass and `}` only after a second |
| Extraction.Normalize | src/entity_extractor.py:271-315 | the result is canonical; a non-object becomes the empty three-key extraction; list lengths are kept |
| Extraction.NormalizePrefersPolicySections | src/entity_extractor.py:280-298 | the normalised sections come entry by entry from `policy_sections` when present, otherwise from `sections`, each keeping its source entry's title and any present id and content; with neither key the list is empty |
| Extraction.NormalizeSectionDefaults | src/entity_extractor.py:286-298 | present fields are kept; an absent section id, content or requirement list and an absent requirement id or reference get `section_{i+1}`, the title or `""`, `[]`, `req_{i+1}.{j+1}` and `Section {i+1}.{j+1}` |
| Extraction.NormalizeRelationshipsAndEntities | src/entity_extractor.py:300-306 | relationship texts default to the description, else `Relationship {from} to {to}`; entity sentences default to the description, else `""`; other fields are kept |
| Extraction.NormalizeCanonical | src/entity_extractor.py:286-306 | a canonical extraction is left unchanged, because only absent keys are filled |
| Extraction.NormalizeIdempotent | src/entity_extractor.py:271-315 | normalising twice gives the same result as normalising once |
| Text.NatToStringInjective | src/entity_extractor.py:288 | distinct positions give distinct default numbers |
| Builder.NormalizeSectionId | src/graph_builder.py:203-212 | the result carries the section prefix; a prefixed id is kept; otherwise the suffix is a nonempty string of digits |
| Builder.SectionIdSuffix | src/graph_builder.py:205-211 | the suffix is every digit of the id in order, or, with no digit, the decimal form of a number in 0..9999 |
| Builder.SectionIdHashFree | src/graph_builder.py:205-209 | only ids with neither the prefix nor a digit depend on the hash |
| Builder.SectionIdIdempotent | src/graph_builder.py:203-212 | normalising a canonical section id changes nothing |
| Builder.SectionIdNotInjective | src/graph_builder.py:207-209 | `s1_2` and `s12` both become `Policy_Section_12` |
| Builder.NormalizeRequirementId | src/graph_builder.py:214-218 | the length is kept; a prefixed id is kept; otherwise each space or period becomes `_` and every other character is kept |
| Builder.RequirementIdClean | src/graph_builder.py:215-217 | no space or period remains in a rewritten id |
| Builder.RequirementIdIdempotent | src/graph_builder.py:214-218 | normalising a normalised requirement id changes nothing |
| Builder.AddFramework | src/graph_builder.py:39-46 | on the empty graph, the framework node is the only node, with its three attributes |
| Builder.AddSection | src/graph_builder.py:53-76 | a section without an id is skipped; otherwise the canonical section node carries type `policy_section`, the title (default `Section {id}`), the content (default `""`), the requirement count and the `Policy section:` description, and a `contains_section` edge joins the framework to it; nodes without the section prefix keep their attributes |
| Builder.AddSections | src/graph_builder.py:48-78 | every section with an id has its containment edge from the framework |
| Builder.AddRequirement | src/graph_builder.py:89-111 | a requirement without an id is skipped; otherwise the canonical requirement node carries type `requirement`, the full reference (default the id), the text as content and the `Requirement:` description clipped to 100 characters, and a `contains_requirement` edge joins the section to it; other nodes keep their attributes |
| Builder.AddRequirementsOf | src/graph_builder.py:87-111 | every requirement of the section with an id has its containment edge; nodes outside the requirement ids keep their attributes |
| Builder.AddRequirements | src/graph_builder.py:80-113 | every requirement with an id gets an edge from its own section's canonical id |
| Builder.AddEntity | src/graph_builder.py:120-133 | an entity with an id and a text becomes a node with type `entity`, the text as label and original text, the entity type (default `ENTITY`) and the sentence, else the description, else `""`; every other node keeps its attributes |
| Builder.AddEntities | src/graph_builder.py:115-135 | every entity with an id and a text is a node; nodes outside the entity ids keep their attributes |
| Builder.AddRelationship | src/graph_builder.py:142-159 | the edge is added exactly when both endpoints are given and are nodes, with the relationship (default `related_to`) and the text (default `Relationship`); no node changes; otherwise the graph is unchanged |
| Builder.RelationshipsAddedIff | src/graph_builder.py:137-161 | an entry's edge is in the result if and only if both its endpoints are nodes, and no other edge appears; a skipped entry does not stop later ones |
| Builder.MentionCandidatesSources | src/graph_builder.py:173-184 | the section candidates for an entity start exactly at the canonical ids of the sections whose lowercased content contains the lowercased entity text |
| Builder.InvolveCandidatesSources | src/graph_builder.py:186-199 | the requirement candidates start exactly at the canonical ids of the requirements whose lowercased text contains the lowercased entity text |
| Builder.AutoCandidatesSound | src/graph_builder.py:163-201 | every candidate edge is an inferred edge |
| Builder.AutoCandidatesComplete | src/graph_builder.py:163-201 | every inferred edge is a candidate |
| Builder.MentionCandidates | src/graph_builder.py:173-184 | every section candidate points at the entity and is labelled `mentions_entity` with the description `Section mentions {text}` |
| Builder.InvolveCandidates | src/graph_builder.py:186-199 | every requirement candidate points at the entity and is labelled `involves_entity` with the description `Requirement involves {text}` |
| Builder.AddCandidate | src/graph_builder.py:177-198 | a candidate edge is added exactly when its source is a node, and carries the candidate's attributes; the target is not checked |
| Builder.CandidatesAddedIff | src/graph_builder.py:177-198 | when every target is a node, an edge is in the result iff it was there or it is a candidate whose source is a node |
| Builder.AddAutoRelationships | src/graph_builder.py:163-201 | no existing node's attributes change, and no node is added when every entity is already a node |
| Builder.BuildNodes | src/graph_builder.py:13-23 | the node-adding steps give a valid graph whose first node is the framework and which holds every entity |
| Builder.BuildNodesOnly | src/graph_builder.py:25-27 | the two relationship steps add no node and change no node's attributes; the framework stays first |
| Builder.BuildContainment | src/graph_builder.py:66-71 | the built graph has an edge from the framework to every section and an edge from each requirement's own section to the requirement |
| Builder.BuildEdges | src/graph_builder.py:11-37 | an edge is in the built graph iff it is a containment edge, the edge of an explicit relationship whose endpoints are nodes, or an inferred edge whose source is a node |
| Builder.BuildFrameworkAttrs | src/graph_builder.py:39-46 | when no requirement or entity takes the id `Policy_Framework`, the framework node has exactly its own three attributes |
| Builder.BuildFrameworkRetyped | src/graph_builder.py:120-129 | an entity with the id `Policy_Framework` makes the framework node's `type` read `entity` |
| Builder.EntitiesRetype | src/graph_builder.py:120-129 | after the entity step, every node named by an entity with a text has `type` `entity` |
| DiGraph.AddNode | src/graph_builder.py:57-64 | a new id is appended; on an existing id the attributes merge, with new keys overwriting and old keys surviving; nothing else changes |
| DiGraph.AddEdgeNodes | src/graph_builder.py:66-71 | adding an edge creates missing endpoints with no attributes and leaves existing nodes alone |
| DiGraph.AddEdgeAttrs | src/graph_builder.py:148-153 | re-adding an edge merges attributes, so no parallel edge exists |
| DiGraph.AddEdgeOrder | src/graph_builder.py:178-183 | a new edge goes to the end of the edge order; a re-added one keeps its place |
| DiGraph.RemoveNode | src/graph_builder.py:278 | the node and every edge at it disappear; everything else keeps its attributes |
| DiGraph.Successors | src/graph_builder.py:289 | duplicate-free, listing exactly the targets of the node's out-edges |
| DiGraph.Predecessors | src/graph_builder.py:288 | duplicate-free, listing exactly the sources of the node's in-edges |
| DiGraph.AddEdgeNeighbours | src/graph_rag.py:215-221 | neighbours come in edge insertion order: a new edge `u -> v` puts `v` last among the successors of `u` and `u` last among the predecessors of `v`, leaving every other list alone; re-adding an edge changes no list |
| DiGraph.EdgeViewCount | src/graph_builder.py:233 | the edge listing has exactly one entry per edge |
| GraphEdit.EditedField | src/graph_builder.py:266-269 | `content` is edited exactly when the node has it, else `description` |
| GraphEdit.ModifyNode | src/graph_builder.py:262-272 | true iff the node exists; a miss changes nothing; a hit sets the edited field and `modified`, keeps the other keys, and leaves other nodes and all edges untouched |
| GraphEdit.ModifyValid | src/graph_builder.py:262-272 | modifying keeps the graph's representation invariant |
| GraphEdit.ModifyIdempotent | src/graph_builder.py:262-272 | repeating a modification with the same text changes nothing more |
| GraphEdit.DeleteNode | src/graph_builder.py:274-279 | true iff the node exists; a miss changes nothing; a hit removes the node and every edge at it |
| GraphEdit.DeleteKeepsOthers | src/graph_builder.py:274-279 | every other node and every edge not at the node remain, with their attributes |
| GraphEdit.DeleteTwice | src/graph_builder.py:274-279 | a second deletion of the same node reports a miss and changes nothing |
| GraphEdit.GetNodeInfo | src/graph_builder.py:281-296 | `{}` iff the node is absent; otherwise its attributes with `id` set, and the incoming and outgoing lists are the predecessor and successor lists in networkx order (duplicate-free, exactly its neighbours) |
| GraphEdit.ModifyThenInfo | src/graph_builder.py:262-296 | after a modification, the node's information shows the new text and the flag |
| GraphEdit.DeleteThenInfo | src/graph_builder.py:274-296 | after a deletion, the node's information is `{}` |
| Persistence.NodeRecord | src/graph_builder.py:228-231 | the record has `id` plus the node's keys, and a node attribute called `id` overrides the id |
| Persistence.EdgeRecord | src/graph_builder.py:234-238 | the record has `source` and `target` plus the edge's keys, with the same overriding |
| Persistence.SaveNodes | src/graph_builder.py:227-231 | one record per node, in node order |
| Persistence.SaveEdges | src/graph_builder.py:233-238 | one record per edge, in the order networkx lists edges |
| Persistence.Pop | src/graph_builder.py:252 | the pop succeeds exactly on a present string value and returns the record without that key |
| Persistence.Load | src/graph_builder.py:244-260 | loading succeeds exactly when every node record has a string id, every edge record has both endpoints as strings, and no record carries a key named after a parameter of `add_node` (`self`, `node_for_adding`) or `add_edge` (`self`, `u_of_edge`, `v_of_edge`); it gives a valid graph |
| Persistence.LoadRefusesClash | src/graph_builder.py:251-258 | a node record with a `node_for_adding` key, or an edge record with a `u_of_edge` key, fails to load |
| Persistence.SaveLoad | src/graph_builder.py:220-260 | with no attribute called `id`, `source` or `target`, loading the saved records gives back the nodes in order and all node and edge attributes; the edge order becomes the listing order |
| Persistence.SaveLoadSuccessors | src/graph_builder.py:233-258 | every successor list survives saving and loading, order included |
| Persistence.ReloadPredecessors | src/graph_builder.py:233-258 | after reloading, predecessors come in the order of the saved edge list |
| Persistence.PredecessorOrderChanges | src/graph_builder.py:233-258 | with nodes `a`, `b`, `c` added first and then edges `b->c` and `a->c`, the predecessors of `c` change from `[b, a]` to `[a, b]` |
| Relevance.NodeText | src/graph_rag.py:173-179 | the lowercased first present field among `content`, `label`, `description`, or `""` when none is present |
| Relevance.MatchesKeyword | src/graph_rag.py:181-189 | the loop finds a match iff some vocabulary word occurs in both the question and the node text |
| Relevance.RelevantNodes | src/graph_rag.py:166-192 | a node is listed iff it is a node and shares a vocabulary word with the lowercased question |
| Relevance.RelevantInNodeOrder | src/graph_rag.py:172-188 | the relevant list is duplicate-free and a subsequence of the node order |
| Relevance.FindRelevantNodes | src/graph_rag.py:166-192 | the loop computes exactly the reference relevant list |
| Text.Ellipsize | src/graph_rag.py:208-211 | content of at most 300 characters is kept; longer content becomes its first 300 characters and `...` |
| Context.NeighbourLine | src/graph_rag.py:218-221 | a neighbour line is emitted exactly when the list is nonempty |
| Context.NeighbourLineFirstThree | src/graph_rag.py:219-221 | only the first three neighbours are shown |
| Context.ContentLine | src/graph_rag.py:207-211 | content longer than 300 characters is shown as its first 300 characters and `...`; shorter content is shown verbatim; no line without content |
| Context.NodeBlock | src/graph_rag.py:202-223 | the block is the `NODE:` header, then the title and type lines, the content line, the description line, and the `Connected from:` and `Connects to:` lines over the predecessor and successor lists, in that order |
| Context.NodeBlockSameView | src/graph_rag.py:202-223 | a block depends only on the title, type and description, the clipped content and the first three neighbours each way |
| Context.RenderedIds | src/graph_rag.py:198-199 | at most eight ids get a block: those among the first eight ids that are nodes |
| Context.Blocks | src/graph_rag.py:198-223 | one block per rendered id, in order, each opening with its header |
| Context.ExtractGraphContext | src/graph_rag.py:194-228 | the sentinel when no id gets a block, otherwise the blocks of the rendered ids, in order, joined by blank lines |
| Context.ContextShape | src/graph_rag.py:225-231 | the context is never empty; it is the sentinel iff no id gets a block; otherwise it is the `"\n\n"` join of every block, and so opens with the first block |
| Context.ContextOfRendered | src/graph_rag.py:198-199 | ids beyond the eighth and ids that are not nodes do not affect the context |
| RagService.GenerateAnswer | src/graph_rag.py:230-258 | an empty context gives the fixed reply; otherwise the model's trimmed text, or `Error generating answer: ` and the error |
| RagService.QueryGraph | src/graph_rag.py:144-164 | an empty graph is reported before a missing model; otherwise the answer is the model's reply to the prompt built from the rendered relevant nodes |
| RagService.ModifyRequest | src/graph_rag.py:260-282 | an empty id or text is refused without touching the graph; otherwise the status is `Node not found` iff the node is absent |
| RagService.DeleteRequest | src/graph_rag.py:284-305 | an empty id is refused without touching the graph; otherwise the status is `Node not found` iff the node is absent |
| RagService.DocName | src/graph_rag.py:89 | the saved name contains no `/` and no `.` |
| RagService.DocNameSplit | src/graph_rag.py:89 | the path splits as a directory part (empty or ending in `/`), the name, and a rest without `/` that is empty or starts with `.` |
| RagService.DocNameUnique | src/graph_rag.py:89 | any such split has the saved name as its middle part |
| RagService.DocNameExample | src/graph_rag.py:89 | `a/b.c.pdf` is saved as `b` |
| Visualizer.TypeKey | src/graph_visualizer.py:22 | a node without `type` is grouped under `unknown` |
| Visualizer.GroupNodesCorrect | src/graph_visualizer.py:20-25 | the grouping loop gives one group per type that occurs, with distinct keys, each listing exactly the nodes of its type in node order |
| Visualizer.GroupedOnce | src/graph_visualizer.py:20-25 | every node is in the group of its own type, and in no other group |
| Visualizer.NodeRows | src/graph_visualizer.py:30-36 | a node's first line shows its id and its label, or its id when it has no label; a second line appears iff the content is longer than 50 characters, and shows its first 50 characters and `...` |
| Visualizer.EdgeRows | src/graph_visualizer.py:40-42 | one line per edge, in order, naming its source, its `relationship` (default `connected_to`) and its target |
| Visualizer.VisualizeShowsAll | src/graph_visualizer.py:13-45 | the rendering names every node exactly once, and its relationship lines list every edge exactly once in the order networkx lists edges |
| Visualizer.VisualizeGraphText | src/graph_visualizer.py:16 | the text opens with a rule of sixty `=` |
| Visualizer.CountsAreSizes | src/graph_visualizer.py:49-52 | the counting loop gives each type the size of its group, and the counts add up to the number of nodes counted |
| Visualizer.GraphStats | src/graph_visualizer.py:47-57 | the totals are the node and edge counts; the per-type counts add up to the node total; each count is the number of nodes of that type; a type is listed iff some node has it |

## Left out

- The `is_connected` and `density` statistics are left out: they are a networkx graph algorithm and a floating-point ratio.
- The unused `colors` table of `GraphVisualizer` is left out.
- Visualizer.GraphStats: type values are compared as modelled values, so `True` and `1` count as two types, where a Python dict would merge them into one key.
- Visualizer.VisualizeGraphText: assumes every present `type` and `content` is a string. `upper()` raises on any other type and `len` on a truthy non-string content; a falsy `0` or `False` content, which the source skips without raising, is excluded too.
- Visualizer.VisualizeGraphText: states only the opening rule; what the rendering shows is stated by `Visualizer.VisualizeShowsAll`.
- The language model, the JSON parser and the nested-brace regular expression are parameters. Rewrites 3 to 10 of `_fix_json_issues` are one opaque parameter, because they are regular-expression substitutions over arbitrary text.
- Python's `hash` is a parameter, because it is salted per process.
- Reading PDF and text files, writing and reading the JSON file, `print` logging, the step counters and the `hasattr` guard of `query_graph` are left out: they are I/O or have no effect on results.
- Lowercasing and whitespace are modelled for ASCII letters and the `\s` class; Unicode case mapping is left out.
- Attribute values are strings, integers or booleans, and node ids are strings. A JSON value of another type is modelled only as "not an object" or as a missing key.
- Builder.BuildNodes: the build requires every section to have an id, every entity an id and a text, and, when there is an entity, every requirement an id. The source raises `KeyError` outside any `try` otherwise; the model states this as a precondition instead of modelling the abort.
- Builder.BuildFrameworkAttrs: assumes no requirement or entity takes the framework's id, because the source merges such a node into the framework node (see `Builder.BuildFrameworkRetyped`).
- Persistence.SaveLoad: assumes no node attribute named `id` and no edge attribute named `source` or `target`, because the record unpacking lets those attributes override the ids; and no node attribute named `self` or `node_for_adding` and no edge attribute named `self`, `u_of_edge` or `v_of_edge`, because such a record does not load.
- Persistence.Load: node ids are strings, so a record whose `id`, `source` or `target` is a number or another non-string JSON value is refused, where networkx would load it as a node of that type.
- Persistence.Pop: for the same reason, popping a non-string value gives `None`, where `dict.pop` returns any value.
- Relevance.FindRelevantNodes: assumes every node's first text field is a string, because `.lower()` raises on other values.
- RagService.QueryGraph: assumes, in addition, that every present `content` is a string, because `len` raises on other values.
- Builder.NormalizeSectionId: recognises only the ASCII digits `0`-`9`. Python's `str.isdigit` also accepts other Unicode digits such as `٣` or `²`, so an id whose only digits are of that kind is kept digit-based by the source but hashed by the model.
- Builder.SectionIdSuffix: "every digit" means every ASCII digit, for the reason given for `Builder.NormalizeSectionId`.
- Builder.SectionIdHashFree: an id whose only digits are non-ASCII is hash-free in the source but not in the model, for the reason given for `Builder.NormalizeSectionId`.
- Builder.BuildContainment: states that the containment edges exist, not their `relationship` label. A later explicit relationship with the same endpoints, or an inferred `mentions_entity` edge whose entity id equals a requirement id, re-adds the edge and overwrites the label, because networkx merges attributes on a re-added edge.
- RagService.DocName: follows POSIX path rules, where only `/` separates directories. Under Windows path rules `os.path.basename` also splits at `\` and after a drive colon.
- The pipeline of `process_document_with_query` is left out apart from the saved-name derivation, because it only sequences the modelled steps around I/O.
