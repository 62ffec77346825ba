/** `KnowledgeGraphBuilder`: the ordered build of the knowledge graph from a
    normalised extraction (framework node, sections, requirements, entities,
    explicit relationships, inferred relationships) and the canonical node
    ids.

    Python's salted `hash` of a string, used for sections without digits, is
    the parameter `hash`. */
module Builder {
  import opened Wrappers
  import opened Text
  import opened DiGraph
  import opened Extraction

  const FrameworkId: string := "Policy_Framework"
  const SectionPrefix: string := "Policy_Section_"

  // ----- canonical ids -----

  /** `_normalize_section_id`: an id that already carries the prefix is kept;
      otherwise the prefix is followed by the id's ASCII digits, or, when it
      has none, by `hash(id) % 10000`. */
  function NormalizeSectionId(id: string, hash: string -> int): (r: string)
    ensures StartsWith(r, SectionPrefix)
    ensures StartsWith(id, SectionPrefix) ==> r == id
    ensures !StartsWith(id, SectionPrefix) ==> AllDigits(r[|SectionPrefix|..]) && |r| > |SectionPrefix|
  {
    if StartsWith(id, SectionPrefix) then id
    else
      var numbers := Digits(id);
      var suffix := if numbers != [] then numbers else NatToString(hash(id) % 10000);
      assert (SectionPrefix + suffix)[..|SectionPrefix|] == SectionPrefix;
      assert (SectionPrefix + suffix)[|SectionPrefix|..] == suffix;
      SectionPrefix + suffix
  }

  /** Without the prefix, the suffix is every digit of the id in order when
      there is one, and otherwise the decimal form of a number below 10000. */
  lemma SectionIdSuffix(id: string, hash: string -> int)
    requires !StartsWith(id, SectionPrefix)
    ensures Digits(id) != [] ==> NormalizeSectionId(id, hash) == SectionPrefix + Digits(id)
    ensures Digits(id) == [] ==>
              exists k :: 0 <= k < 10000 && NormalizeSectionId(id, hash) == SectionPrefix + NatToString(k)
  {
    if Digits(id) == [] {
      var k := hash(id) % 10000;
      assert NormalizeSectionId(id, hash) == SectionPrefix + NatToString(k);
    }
  }

  /** Only ids with neither the prefix nor a digit depend on the hash. */
  lemma SectionIdHashFree(id: string, h1: string -> int, h2: string -> int)
    requires StartsWith(id, SectionPrefix) || Digits(id) != []
    ensures NormalizeSectionId(id, h1) == NormalizeSectionId(id, h2)
  {
  }

  /** Normalising a normalised section id changes nothing. */
  lemma SectionIdIdempotent(id: string, hash: string -> int)
    ensures NormalizeSectionId(NormalizeSectionId(id, hash), hash) == NormalizeSectionId(id, hash)
  {
  }

  /** Different ids can share a canonical id: digits are kept but everything
      between them is dropped. */
  lemma SectionIdNotInjective(hash: string -> int)
    ensures NormalizeSectionId("s1_2", hash) == NormalizeSectionId("s12", hash) == "Policy_Section_12"
  {
    assert !StartsWith("s1_2", SectionPrefix) && !StartsWith("s12", SectionPrefix);
    assert Digits("2") == "2";
    assert Digits("_2") == "2";
    assert Digits("1_2") == "12";
    assert Digits("s1_2") == "12";
    assert Digits("12") == "12";
    assert Digits("s12") == "12";
  }

  /** `_normalize_requirement_id`: an id that carries the section prefix is
      kept; otherwise every space and every period becomes `_`. */
  function NormalizeRequirementId(id: string): (r: string)
    ensures |r| == |id|
    ensures StartsWith(id, SectionPrefix) ==> r == id
    ensures !StartsWith(id, SectionPrefix) ==>
              forall i | 0 <= i < |id| :: r[i] == (if id[i] == ' ' || id[i] == '.' then '_' else id[i])
  {
    if StartsWith(id, SectionPrefix) then id
    else ReplaceChar(ReplaceChar(id, ' ', '_'), '.', '_')
  }

  /** No space or period is left in a rewritten requirement id. */
  lemma RequirementIdClean(id: string)
    requires !StartsWith(id, SectionPrefix)
    ensures ' ' !in NormalizeRequirementId(id) && '.' !in NormalizeRequirementId(id)
  {
    var r := NormalizeRequirementId(id);
    forall i | 0 <= i < |r| ensures r[i] != ' ' && r[i] != '.' {
    }
  }

  /** Normalising a normalised requirement id changes nothing. */
  lemma RequirementIdIdempotent(id: string)
    ensures NormalizeRequirementId(NormalizeRequirementId(id)) == NormalizeRequirementId(id)
  {
    var r := NormalizeRequirementId(id);
    if !StartsWith(id, SectionPrefix) && !StartsWith(r, SectionPrefix) {
      RequirementIdClean(id);
      var t := NormalizeRequirementId(r);
      assert forall i | 0 <= i < |r| :: t[i] == r[i];
    }
  }

  // ----- the build -----

  const FrameworkAttrs: Attrs := map[
    "type" := Str("framework"),
    "label" := Str("Document Knowledge Framework"),
    "description" := Str("Overall document knowledge structure")]

  /** `_add_framework_node`. */
  function AddFramework(g: Graph): (r: Graph)
    ensures Valid(g) ==> Valid(r)
    ensures Extends(g, r)
    ensures FrameworkId in r.attrs
    ensures g == Empty ==> r.nodes == [FrameworkId] && r.attrs[FrameworkId] == FrameworkAttrs
  {
    AddNode(g, FrameworkId, FrameworkAttrs)
  }

  function SectionAttrs(s: Section, sid: string): Attrs {
    map[
      "type" := Str("policy_section"),
      "label" := Str(s.title.GetOr("Section " + sid)),
      "content" := Str(s.content.GetOr("")),
      "requirements_count" := Int(|s.requirements.GetOr([])|),
      "description" := Str("Policy section: " + s.title.GetOr(""))]
  }

  lemma SectionAttrsFields(s: Section, sid: string)
    ensures var a := SectionAttrs(s, sid);
            && Has(a, "type", Str("policy_section"))
            && Has(a, "label", Str(s.title.GetOr("Section " + sid)))
            && Has(a, "content", Str(s.content.GetOr("")))
            && Has(a, "requirements_count", Int(|s.requirements.GetOr([])|))
            && Has(a, "description", Str("Policy section: " + s.title.GetOr("")))
  {
  }

  const ContainsSectionAttrs: Attrs := map[
    "relationship" := Str("contains_section"),
    "description" := Str("Framework contains this section")]

  /** One iteration of `_add_policy_sections`: a section without an id is
      skipped (the `KeyError` is caught); otherwise its node is added under
      the canonical id, with an edge to it from the framework node. */
  function AddSection(g: Graph, s: Section, hash: string -> int): (r: Graph)
    ensures Valid(g) ==> Valid(r)
    ensures Extends(g, r)
    ensures s.id.None? ==> r == g
    ensures s.id.Some? ==> (FrameworkId, NormalizeSectionId(s.id.value, hash)) in r.edges
    ensures s.id.Some? ==>
              var e := r.edges[(FrameworkId, NormalizeSectionId(s.id.value, hash))];
              "relationship" in e && e["relationship"] == Str("contains_section")
    ensures s.id.Some? ==>
              var sid := NormalizeSectionId(s.id.value, hash);
              && sid in r.attrs
              && Has(r.attrs[sid], "type", Str("policy_section"))
              && Has(r.attrs[sid], "label", Str(s.title.GetOr("Section " + sid)))
              && Has(r.attrs[sid], "content", Str(s.content.GetOr("")))
              && Has(r.attrs[sid], "requirements_count", Int(|s.requirements.GetOr([])|))
              && Has(r.attrs[sid], "description", Str("Policy section: " + s.title.GetOr("")))
    ensures forall m | m in g.attrs && !StartsWith(m, SectionPrefix) :: r.attrs[m] == g.attrs[m]
  {
    if s.id.None? then g
    else
      var sid := NormalizeSectionId(s.id.value, hash);
      var g1 := AddNode(g, sid, SectionAttrs(s, sid));
      SectionAttrsFields(s, sid);
      AddNodeThenEdge(g, sid, SectionAttrs(s, sid), FrameworkId, sid, ContainsSectionAttrs);
      ExtendsTrans(g, g1, AddEdge(g1, FrameworkId, sid, ContainsSectionAttrs));
      AddEdgeNodes(g1, FrameworkId, sid, ContainsSectionAttrs);
      AddEdgeOthers(g1, FrameworkId, sid, ContainsSectionAttrs);
      AddEdgeGet(g1, FrameworkId, sid, ContainsSectionAttrs, "relationship");
      AddEdge(g1, FrameworkId, sid, ContainsSectionAttrs)
  }

  /** `_add_policy_sections`: the sections in order. */
  function AddSections(g: Graph, ss: seq<Section>, hash: string -> int): (r: Graph)
    ensures Valid(g) ==> Valid(r)
    ensures Extends(g, r)
    ensures forall m | m in g.attrs && !StartsWith(m, SectionPrefix) :: r.attrs[m] == g.attrs[m]
    ensures forall s | s in ss && s.id.Some? :: (FrameworkId, NormalizeSectionId(s.id.value, hash)) in r.edges
    decreases |ss|
  {
    if ss == [] then g
    else
      var g1 := AddSection(g, ss[0], hash);
      var r := AddSections(g1, ss[1..], hash);
      ExtendsTrans(g, g1, r);
      assert forall s | s in ss :: s == ss[0] || s in ss[1..];
      r
  }

  function RequirementAttrs(q: Requirement, rid: string): Attrs {
    var text := q.text.GetOr("");
    map[
      "type" := Str("requirement"),
      "label" := Str(q.fullReference.GetOr(rid)),
      "content" := Str(text),
      "description" := Str("Requirement: " + Take(text, 100) + "...")]
  }

  lemma RequirementAttrsFields(q: Requirement, rid: string)
    ensures var a := RequirementAttrs(q, rid);
            && Has(a, "type", Str("requirement"))
            && Has(a, "label", Str(q.fullReference.GetOr(rid)))
            && Has(a, "content", Str(q.text.GetOr("")))
            && Has(a, "description", Str("Requirement: " + Take(q.text.GetOr(""), 100) + "..."))
  {
  }

  function ContainsRequirementAttrs(rid: string): Attrs {
    map[
      "relationship" := Str("contains_requirement"),
      "description" := Str("Section contains requirement " + rid)]
  }

  /** One inner iteration of `_add_requirements`: a requirement without an
      id is skipped (the `KeyError` is caught); otherwise its node is added
      under the canonical id, with an edge to it from its section `sid`. */
  function AddRequirement(g: Graph, sid: string, q: Requirement): (r: Graph)
    ensures Valid(g) ==> Valid(r)
    ensures Extends(g, r)
    ensures q.id.None? ==> r == g
    ensures q.id.Some? ==> (sid, NormalizeRequirementId(q.id.value)) in r.edges
    ensures q.id.Some? ==>
              var e := r.edges[(sid, NormalizeRequirementId(q.id.value))];
              "relationship" in e && e["relationship"] == Str("contains_requirement")
    ensures q.id.Some? ==>
              var rid := NormalizeRequirementId(q.id.value);
              && rid in r.attrs
              && Has(r.attrs[rid], "type", Str("requirement"))
              && Has(r.attrs[rid], "label", Str(q.fullReference.GetOr(rid)))
              && Has(r.attrs[rid], "content", Str(q.text.GetOr("")))
              && Has(r.attrs[rid], "description", Str("Requirement: " + Take(q.text.GetOr(""), 100) + "..."))
    ensures forall m | m in g.attrs && (q.id.None? || m != NormalizeRequirementId(q.id.value)) ::
              r.attrs[m] == g.attrs[m]
  {
    if q.id.None? then g
    else
      var rid := NormalizeRequirementId(q.id.value);
      var g1 := AddNode(g, rid, RequirementAttrs(q, rid));
      RequirementAttrsFields(q, rid);
      AddNodeThenEdge(g, rid, RequirementAttrs(q, rid), sid, rid, ContainsRequirementAttrs(rid));
      ExtendsTrans(g, g1, AddEdge(g1, sid, rid, ContainsRequirementAttrs(rid)));
      AddEdgeNodes(g1, sid, rid, ContainsRequirementAttrs(rid));
      AddEdgeOthers(g1, sid, rid, ContainsRequirementAttrs(rid));
      AddEdgeGet(g1, sid, rid, ContainsRequirementAttrs(rid), "relationship");
      AddEdge(g1, sid, rid, ContainsRequirementAttrs(rid))
  }

  /** The canonical ids of the requirements in `qs` that have an id. */
  function RequirementIds(qs: seq<Requirement>): (r: set<string>)
    ensures forall q | q in qs && q.id.Some? :: NormalizeRequirementId(q.id.value) in r
  {
    set q | q in qs && q.id.Some? :: NormalizeRequirementId(q.id.value)
  }

  /** The requirements of one section, in order, under the section's id. */
  function AddRequirementsOf(g: Graph, sid: string, qs: seq<Requirement>): (r: Graph)
    ensures Valid(g) ==> Valid(r)
    ensures Extends(g, r)
    ensures forall m | m in g.attrs && m !in RequirementIds(qs) :: r.attrs[m] == g.attrs[m]
    ensures forall q | q in qs && q.id.Some? :: (sid, NormalizeRequirementId(q.id.value)) in r.edges
    decreases |qs|
  {
    if qs == [] then g
    else
      var g1 := AddRequirement(g, sid, qs[0]);
      var r := AddRequirementsOf(g1, sid, qs[1..]);
      ExtendsTrans(g, g1, r);
      assert forall q | q in qs :: q == qs[0] || q in qs[1..];
      assert RequirementIds(qs) == RequirementIds(qs[..1]) + RequirementIds(qs[1..]);
      r
  }

  /** The requirement ids of every section. */
  function AllRequirementIds(ss: seq<Section>): (r: set<string>)
    ensures forall i | 0 <= i < |ss| :: RequirementIds(ss[i].requirements.GetOr([])) <= r
  {
    if ss == [] then {} else RequirementIds(ss[0].requirements.GetOr([])) + AllRequirementIds(ss[1..])
  }

  /** `_add_requirements`: for each section in order, its requirements. The
      section id is read outside the `try`, so every section must have one. */
  function AddRequirements(g: Graph, ss: seq<Section>, hash: string -> int): (r: Graph)
    requires forall s | s in ss :: s.id.Some?
    ensures Valid(g) ==> Valid(r)
    ensures Extends(g, r)
    ensures forall m | m in g.attrs && m !in AllRequirementIds(ss) :: r.attrs[m] == g.attrs[m]
    ensures forall s, q | s in ss && q in s.requirements.GetOr([]) && q.id.Some? ::
              (NormalizeSectionId(s.id.value, hash), NormalizeRequirementId(q.id.value)) in r.edges
    decreases |ss|
  {
    if ss == [] then g
    else
      var g1 := AddRequirementsOf(g, NormalizeSectionId(ss[0].id.value, hash), ss[0].requirements.GetOr([]));
      var r := AddRequirements(g1, ss[1..], hash);
      ExtendsTrans(g, g1, r);
      assert forall s | s in ss :: s == ss[0] || s in ss[1..];
      r
  }

  function EntityAttrs(e: Entity, text: string): Attrs {
    map[
      "type" := Str("entity"),
      "label" := Str(text),
      "entity_type" := Str(e.entityType.GetOr("ENTITY")),
      "description" := Str(e.sentence.GetOr(e.description.GetOr(""))),
      "original_text" := Str(text)]
  }

  lemma EntityAttrsFields(e: Entity, text: string)
    ensures var a := EntityAttrs(e, text);
            && Has(a, "type", Str("entity"))
            && Has(a, "label", Str(text))
            && Has(a, "entity_type", Str(e.entityType.GetOr("ENTITY")))
            && Has(a, "description", Str(e.sentence.GetOr(e.description.GetOr(""))))
            && Has(a, "original_text", Str(text))
  {
  }

  /** One iteration of `_add_entities`: an entity without an id or a text is
      skipped (the `KeyError` is caught); otherwise its node is added under
      its own id. */
  function AddEntity(g: Graph, e: Entity): (r: Graph)
    ensures Valid(g) ==> Valid(r)
    ensures Extends(g, r)
    ensures e.id.Some? && e.text.Some? ==> e.id.value in r.attrs
    ensures e.id.Some? && e.text.Some? ==>
              var a := r.attrs[e.id.value];
              && Has(a, "type", Str("entity"))
              && Has(a, "label", Str(e.text.value))
              && Has(a, "entity_type", Str(e.entityType.GetOr("ENTITY")))
              && Has(a, "description", Str(e.sentence.GetOr(e.description.GetOr(""))))
              && Has(a, "original_text", Str(e.text.value))
    ensures forall m | m in g.attrs && (e.id.None? || m != e.id.value) :: r.attrs[m] == g.attrs[m]
  {
    if e.id.None? || e.text.None? then g
    else
      EntityAttrsFields(e, e.text.value);
      AddNode(g, e.id.value, EntityAttrs(e, e.text.value))
  }

  /** The ids of the entities in `es` that have one. */
  function EntityIds(es: seq<Entity>): (r: set<string>)
    ensures forall e | e in es && e.id.Some? :: e.id.value in r
  {
    set e | e in es && e.id.Some? :: e.id.value
  }

  /** `_add_entities`: the entities in order. */
  function AddEntities(g: Graph, es: seq<Entity>): (r: Graph)
    ensures Valid(g) ==> Valid(r)
    ensures Extends(g, r)
    ensures forall m | m in g.attrs && m !in EntityIds(es) :: r.attrs[m] == g.attrs[m]
    ensures forall e | e in es && e.id.Some? && e.text.Some? :: e.id.value in r.attrs
    decreases |es|
  {
    if es == [] then g
    else
      var g1 := AddEntity(g, es[0]);
      var r := AddEntities(g1, es[1..]);
      ExtendsTrans(g, g1, r);
      assert forall e | e in es :: e == es[0] || e in es[1..];
      assert EntityIds(es) == EntityIds(es[..1]) + EntityIds(es[1..]);
      r
  }

  function RelationshipAttrs(rel: Relationship): Attrs {
    map[
      "relationship" := Str(rel.relationship.GetOr("related_to")),
      "description" := Str(rel.text.GetOr("Relationship"))]
  }

  /** Both endpoints of `rel` are given and are already nodes of `g`. */
  predicate Connectable(g: Graph, rel: Relationship) {
    rel.from.Some? && rel.to.Some? && rel.from.value in g.attrs && rel.to.value in g.attrs
  }

  /** One iteration of `_add_relationships`: the edge is added, with the
      defaults `related_to` and `"Relationship"`, exactly when both endpoints
      are already nodes; otherwise (an endpoint missing from the graph, or a
      `from`/`to` key missing from the entry) nothing changes. */
  function AddRelationship(g: Graph, rel: Relationship): (r: Graph)
    ensures Valid(g) ==> Valid(r)
    ensures Extends(g, r)
    ensures r.nodes == g.nodes && r.attrs == g.attrs
    ensures !Connectable(g, rel) ==> r == g
    ensures Connectable(g, rel) ==> r.edges.Keys == g.edges.Keys + {(rel.from.value, rel.to.value)}
    ensures Connectable(g, rel) ==>
              var e := r.edges[(rel.from.value, rel.to.value)];
              && Has(e, "relationship", Str(rel.relationship.GetOr("related_to")))
              && Has(e, "description", Str(rel.text.GetOr("Relationship")))
  {
    if Connectable(g, rel) then
      AddEdgeOthers(g, rel.from.value, rel.to.value, RelationshipAttrs(rel));
      AddEdgeGet(g, rel.from.value, rel.to.value, RelationshipAttrs(rel), "relationship");
      AddEdgeGet(g, rel.from.value, rel.to.value, RelationshipAttrs(rel), "description");
      AddEdge(g, rel.from.value, rel.to.value, RelationshipAttrs(rel))
    else g
  }

  /** `_add_relationships`: the entries in order; one that is skipped does
      not stop the ones after it. */
  function AddRelationships(g: Graph, rs: seq<Relationship>): (r: Graph)
    ensures Valid(g) ==> Valid(r)
    ensures Extends(g, r)
    ensures r.nodes == g.nodes && r.attrs == g.attrs
    decreases |rs|
  {
    if rs == [] then g
    else
      var g1 := AddRelationship(g, rs[0]);
      var r := AddRelationships(g1, rs[1..]);
      ExtendsTrans(g, g1, r);
      r
  }

  /** The edge an entry asks for. */
  function Endpoints(rel: Relationship): Edge
    requires rel.from.Some? && rel.to.Some?
  {
    (rel.from.value, rel.to.value)
  }

  /** The explicit relationships step adds the edge of an entry if and only
      if both its endpoints are nodes when the step starts (the step adds no
      node, so this is also when the entry is read), and adds no other edge. */
  lemma {:induction false} RelationshipsAddedIff(g: Graph, rs: seq<Relationship>)
    ensures forall k | 0 <= k < |rs| && Connectable(g, rs[k]) :: Endpoints(rs[k]) in AddRelationships(g, rs).edges
    ensures forall e | e in AddRelationships(g, rs).edges ::
              e in g.edges || exists k | 0 <= k < |rs| :: Connectable(g, rs[k]) && e == Endpoints(rs[k])
    decreases |rs|
  {
    if rs != [] {
      var g1 := AddRelationship(g, rs[0]);
      var r := AddRelationships(g1, rs[1..]);
      assert r == AddRelationships(g, rs);
      RelationshipsAddedIff(g1, rs[1..]);
      assert forall x :: Connectable(g1, x) == Connectable(g, x);
      forall k | 0 <= k < |rs| && Connectable(g, rs[k]) ensures Endpoints(rs[k]) in r.edges {
        if k > 0 {
          assert rs[k] == rs[1..][k - 1];
        }
      }
      forall e | e in r.edges
        ensures e in g.edges || exists k | 0 <= k < |rs| :: Connectable(g, rs[k]) && e == Endpoints(rs[k])
      {
        if e !in g1.edges {
          var k' :| 0 <= k' < |rs[1..]| && Connectable(g1, rs[1..][k']) && e == Endpoints(rs[1..][k']);
          assert rs[1..][k'] == rs[k' + 1];
        } else if e !in g.edges {
          assert Connectable(g, rs[0]) && e == Endpoints(rs[0]);
        }
      }
    }
  }

  // ----- inferred relationships -----

  /** A candidate edge of `_add_auto_relationships`. */
  datatype Candidate = Candidate(src: string, dst: string, attrs: Attrs)

  /** The lower-cased entity text occurs in the lower-cased field (an absent
      field reads as ""). */
  predicate Mentioned(text: string, field: Option<string>) {
    Contains(Lower(field.GetOr("")), Lower(text))
  }

  function MentionAttrs(text: string): Attrs {
    map["relationship" := Str("mentions_entity"), "description" := Str("Section mentions " + text)]
  }

  function InvolveAttrs(text: string): Attrs {
    map["relationship" := Str("involves_entity"), "description" := Str("Requirement involves " + text)]
  }

  /** Every requirement of every section, in loop order. */
  function Requirements(ss: seq<Section>): (r: seq<Requirement>)
    ensures forall s, q | s in ss && q in s.requirements.GetOr([]) :: q in r
    ensures forall q | q in r :: exists s | s in ss :: q in s.requirements.GetOr([])
  {
    if ss == [] then [] else ss[0].requirements.GetOr([]) + Requirements(ss[1..])
  }

  /** Some candidate of `cs` starts at `u`. */
  predicate HasSource(cs: seq<Candidate>, u: string) {
    exists c | c in cs :: c.src == u
  }

  /** Some section of `ss` mentions `text` and has the canonical id `u`. */
  predicate SectionMentions(ss: seq<Section>, text: string, hash: string -> int, u: string)
    requires forall s | s in ss :: s.id.Some?
  {
    exists s | s in ss :: Mentioned(text, s.content) && NormalizeSectionId(s.id.value, hash) == u
  }

  /** Some requirement of `qs` mentions `text` and has the canonical id `u`. */
  predicate RequirementMentions(qs: seq<Requirement>, text: string, u: string)
    requires forall q | q in qs :: q.id.Some?
  {
    exists q | q in qs :: Mentioned(text, q.text) && NormalizeRequirementId(q.id.value) == u
  }

  /** The section candidates for one entity: every section whose content
      mentions the entity text, in order. */
  function MentionCandidates(eid: string, text: string, ss: seq<Section>, hash: string -> int): (r: seq<Candidate>)
    requires forall s | s in ss :: s.id.Some?
    ensures forall c | c in r :: c.dst == eid
    ensures forall c | c in r ::
              && Has(c.attrs, "relationship", Str("mentions_entity"))
              && Has(c.attrs, "description", Str("Section mentions " + text))
  {
    if ss == [] then []
    else
      var here := if Mentioned(text, ss[0].content)
                  then [Candidate(NormalizeSectionId(ss[0].id.value, hash), eid, MentionAttrs(text))] else [];
      here + MentionCandidates(eid, text, ss[1..], hash)
  }

  /** The section candidates start exactly at the sections that mention the text. */
  lemma {:induction false} MentionCandidatesSources(eid: string, text: string, ss: seq<Section>, hash: string -> int)
    requires forall s | s in ss :: s.id.Some?
    ensures forall u :: HasSource(MentionCandidates(eid, text, ss, hash), u) <==> SectionMentions(ss, text, hash, u)
  {
    if ss != [] {
      var r := MentionCandidates(eid, text, ss, hash);
      var rest := MentionCandidates(eid, text, ss[1..], hash);
      var here := if Mentioned(text, ss[0].content)
                  then [Candidate(NormalizeSectionId(ss[0].id.value, hash), eid, MentionAttrs(text))] else [];
      assert r == here + rest;
      MentionCandidatesSources(eid, text, ss[1..], hash);
      forall u ensures HasSource(r, u) <==> SectionMentions(ss, text, hash, u) {
        if HasSource(r, u) {
          var c :| c in r && c.src == u;
          if c in here {
            assert ss[0] in ss;
          } else {
            assert HasSource(rest, u);
            var s :| s in ss[1..] && Mentioned(text, s.content) && NormalizeSectionId(s.id.value, hash) == u;
            assert s in ss;
          }
        }
        if SectionMentions(ss, text, hash, u) {
          var s :| s in ss && Mentioned(text, s.content) && NormalizeSectionId(s.id.value, hash) == u;
          if s == ss[0] {
            assert here[0] in r;
          } else {
            assert s in ss[1..];
            assert SectionMentions(ss[1..], text, hash, u);
            var c :| c in rest && c.src == u;
            assert c in r;
          }
        }
      }
    }
  }

  /** The requirement candidates for one entity: every requirement whose
      text mentions the entity text, in order. */
  function InvolveCandidates(eid: string, text: string, qs: seq<Requirement>): (r: seq<Candidate>)
    requires forall q | q in qs :: q.id.Some?
    ensures forall c | c in r :: c.dst == eid
    ensures forall c | c in r ::
              && Has(c.attrs, "relationship", Str("involves_entity"))
              && Has(c.attrs, "description", Str("Requirement involves " + text))
  {
    if qs == [] then []
    else
      var here := if Mentioned(text, qs[0].text)
                  then [Candidate(NormalizeRequirementId(qs[0].id.value), eid, InvolveAttrs(text))] else [];
      here + InvolveCandidates(eid, text, qs[1..])
  }

  /** The requirement candidates start exactly at the requirements that mention the text. */
  lemma {:induction false} InvolveCandidatesSources(eid: string, text: string, qs: seq<Requirement>)
    requires forall q | q in qs :: q.id.Some?
    ensures forall u :: HasSource(InvolveCandidates(eid, text, qs), u) <==> RequirementMentions(qs, text, u)
  {
    if qs != [] {
      var r := InvolveCandidates(eid, text, qs);
      var rest := InvolveCandidates(eid, text, qs[1..]);
      var here := if Mentioned(text, qs[0].text)
                  then [Candidate(NormalizeRequirementId(qs[0].id.value), eid, InvolveAttrs(text))] else [];
      assert r == here + rest;
      InvolveCandidatesSources(eid, text, qs[1..]);
      forall u ensures HasSource(r, u) <==> RequirementMentions(qs, text, u) {
        if HasSource(r, u) {
          var c :| c in r && c.src == u;
          if c in here {
            assert qs[0] in qs;
          } else {
            assert HasSource(rest, u);
            var q :| q in qs[1..] && Mentioned(text, q.text) && NormalizeRequirementId(q.id.value) == u;
            assert q in qs;
          }
        }
        if RequirementMentions(qs, text, u) {
          var q :| q in qs && Mentioned(text, q.text) && NormalizeRequirementId(q.id.value) == u;
          if q == qs[0] {
            assert here[0] in r;
          } else {
            assert q in qs[1..];
            assert RequirementMentions(qs[1..], text, u);
            var c :| c in rest && c.src == u;
            assert c in r;
          }
        }
      }
    }
  }

  /** What `_add_auto_relationships` reads outside its `try`-free loops: every
      entity's id and text, every section's id and every requirement's id. */
  predicate AutoReady(es: seq<Entity>, ss: seq<Section>) {
    && (forall e | e in es :: e.id.Some? && e.text.Some?)
    && (forall s | s in ss :: s.id.Some?)
    && (es != [] ==> forall q | q in Requirements(ss) :: q.id.Some?)
  }

  /** The candidates of `_add_auto_relationships`, entity by entity: the
      sections mentioning the entity, then the requirements mentioning it. */
  function AutoCandidates(es: seq<Entity>, ss: seq<Section>, hash: string -> int): (r: seq<Candidate>)
    requires AutoReady(es, ss)
    ensures forall c | c in r :: exists e | e in es :: c.dst == e.id.value
  {
    if es == [] then []
    else
      var e := es[0];
      var m := MentionCandidates(e.id.value, e.text.value, ss, hash);
      var v := InvolveCandidates(e.id.value, e.text.value, Requirements(ss));
      var rest := AutoCandidates(es[1..], ss, hash);
      assert forall c | c in rest :: exists x | x in es :: c.dst == x.id.value by {
        forall c | c in rest ensures exists x | x in es :: c.dst == x.id.value {
          var x :| x in es[1..] && c.dst == x.id.value;
          assert x in es;
        }
      }
      m + v + rest
  }

  /** Some candidate of `cs` is the edge `e`. */
  predicate HasPair(cs: seq<Candidate>, e: Edge) {
    exists c | c in cs :: c.src == e.0 && c.dst == e.1
  }

  /** `e` is an inferred edge: its target is an entity whose text some
      section with the canonical id `e.0` mentions, or some requirement with
      that canonical id mentions. */
  predicate Inferred(es: seq<Entity>, ss: seq<Section>, hash: string -> int, e: Edge)
    requires AutoReady(es, ss)
  {
    exists x | x in es ::
      && x.id.value == e.1
      && (SectionMentions(ss, x.text.value, hash, e.0) || RequirementMentions(Requirements(ss), x.text.value, e.0))
  }

  /** Every candidate is an inferred edge. */
  lemma {:induction false} AutoCandidatesSound(es: seq<Entity>, ss: seq<Section>, hash: string -> int, e: Edge)
    requires AutoReady(es, ss)
    requires HasPair(AutoCandidates(es, ss, hash), e)
    ensures Inferred(es, ss, hash, e)
  {
    var x0 := es[0];
    var m := MentionCandidates(x0.id.value, x0.text.value, ss, hash);
    var v := InvolveCandidates(x0.id.value, x0.text.value, Requirements(ss));
    var rest := AutoCandidates(es[1..], ss, hash);
    assert AutoCandidates(es, ss, hash) == m + v + rest;
    var c: Candidate :| c in m + v + rest && c.src == e.0 && c.dst == e.1;
    if c in m {
      MentionCandidatesSources(x0.id.value, x0.text.value, ss, hash);
      assert HasSource(m, e.0);
      assert x0 in es;
    } else if c in v {
      InvolveCandidatesSources(x0.id.value, x0.text.value, Requirements(ss));
      assert HasSource(v, e.0);
      assert x0 in es;
    } else {
      assert HasPair(rest, e);
      AutoCandidatesSound(es[1..], ss, hash, e);
      var x :| x in es[1..] && x.id.value == e.1
        && (SectionMentions(ss, x.text.value, hash, e.0) || RequirementMentions(Requirements(ss), x.text.value, e.0));
      assert x in es;
    }
  }

  /** Every inferred edge is a candidate. */
  lemma {:induction false} AutoCandidatesComplete(es: seq<Entity>, ss: seq<Section>, hash: string -> int, e: Edge)
    requires AutoReady(es, ss)
    requires Inferred(es, ss, hash, e)
    ensures HasPair(AutoCandidates(es, ss, hash), e)
  {
    var x0 := es[0];
    var m := MentionCandidates(x0.id.value, x0.text.value, ss, hash);
    var v := InvolveCandidates(x0.id.value, x0.text.value, Requirements(ss));
    var rest := AutoCandidates(es[1..], ss, hash);
    var r := AutoCandidates(es, ss, hash);
    assert r == m + v + rest;
    var x :| x in es && x.id.value == e.1
      && (SectionMentions(ss, x.text.value, hash, e.0) || RequirementMentions(Requirements(ss), x.text.value, e.0));
    if x == x0 {
      if SectionMentions(ss, x.text.value, hash, e.0) {
        MentionCandidatesSources(x0.id.value, x0.text.value, ss, hash);
        var c :| c in m && c.src == e.0;
        assert c in r;
      } else {
        InvolveCandidatesSources(x0.id.value, x0.text.value, Requirements(ss));
        var c :| c in v && c.src == e.0;
        assert c in r;
      }
    } else {
      assert x in es[1..];
      assert Inferred(es[1..], ss, hash, e);
      AutoCandidatesComplete(es[1..], ss, hash, e);
      var c :| c in rest && c.src == e.0 && c.dst == e.1;
      assert c in r;
    }
  }

  /** One candidate of `_add_auto_relationships`: the edge is added when its
      source is a node (the target, an entity id, is not checked). */
  function AddCandidate(g: Graph, c: Candidate): (r: Graph)
    ensures Valid(g) ==> Valid(r)
    ensures Extends(g, r)
    ensures forall m | m in g.attrs :: r.attrs[m] == g.attrs[m]
    ensures c.dst in g.attrs ==> r.nodes == g.nodes && r.attrs == g.attrs
    ensures c.src !in g.attrs ==> r == g
    ensures c.src in g.attrs ==> r.edges.Keys == g.edges.Keys + {(c.src, c.dst)}
    ensures c.src in g.attrs ==> forall k | k in c.attrs :: Has(r.edges[(c.src, c.dst)], k, c.attrs[k])
  {
    if c.src in g.attrs then
      AddEdgeNodes(g, c.src, c.dst, c.attrs);
      AddEdgeAttrs(g, c.src, c.dst, c.attrs);
      AddEdgeOthers(g, c.src, c.dst, c.attrs);
      AddEdge(g, c.src, c.dst, c.attrs)
    else g
  }

  /** The candidates in order. */
  function AddCandidates(g: Graph, cs: seq<Candidate>): (r: Graph)
    ensures Valid(g) ==> Valid(r)
    ensures Extends(g, r)
    ensures forall m | m in g.attrs :: r.attrs[m] == g.attrs[m]
    ensures (forall c | c in cs :: c.dst in g.attrs) ==> r.nodes == g.nodes && r.attrs == g.attrs
    decreases |cs|
  {
    if cs == [] then g
    else
      var g1 := AddCandidate(g, cs[0]);
      var r := AddCandidates(g1, cs[1..]);
      ExtendsTrans(g, g1, r);
      assert forall c | c in cs[1..] :: c in cs;
      r
  }

  /** When every target is already a node, the candidate edges added are
      exactly those whose source is a node. */
  lemma {:induction false} CandidatesAddedIff(g: Graph, cs: seq<Candidate>, e: Edge)
    requires forall c | c in cs :: c.dst in g.attrs
    ensures e in AddCandidates(g, cs).edges <==> e in g.edges || (e.0 in g.attrs && HasPair(cs, e))
    decreases |cs|
  {
    if cs != [] {
      var g1 := AddCandidate(g, cs[0]);
      assert forall c | c in cs[1..] :: c in cs;
      CandidatesAddedIff(g1, cs[1..], e);
      HasPairCons(cs, e);
    }
  }

  lemma HasPairCons(cs: seq<Candidate>, e: Edge)
    requires cs != []
    ensures HasPair(cs, e) <==> (cs[0].src == e.0 && cs[0].dst == e.1) || HasPair(cs[1..], e)
  {
    if HasPair(cs[1..], e) {
      var c :| c in cs[1..] && c.src == e.0 && c.dst == e.1;
      assert c in cs;
    }
    if HasPair(cs, e) {
      var c :| c in cs && c.src == e.0 && c.dst == e.1;
      assert c == cs[0] || c in cs[1..];
    }
  }

  /** `_add_auto_relationships`. */
  function AddAutoRelationships(g: Graph, es: seq<Entity>, ss: seq<Section>, hash: string -> int): (r: Graph)
    requires AutoReady(es, ss)
    ensures Valid(g) ==> Valid(r)
    ensures Extends(g, r)
    ensures forall m | m in g.attrs :: r.attrs[m] == g.attrs[m]
    ensures (forall e | e in es :: e.id.value in g.attrs) ==> r.nodes == g.nodes && r.attrs == g.attrs
  {
    AddCandidates(g, AutoCandidates(es, ss, hash))
  }

  // ----- the whole build -----

  /** The keys `build_from_extraction` reads outside a `try`: the extraction
      is an object, every section has an id, every entity has an id and a
      text, and, when there is an entity, every requirement has an id. A
      missing one raises `KeyError` and aborts the build. */
  predicate BuildReady(x: Extraction) {
    x.Object? && AutoReady(x.entities.GetOr([]), x.policySections.GetOr([]))
  }

  /** The graph after the four node-adding steps: framework, sections,
      requirements, entities. */
  function BuildNodes(x: Extraction, hash: string -> int): (r: Graph)
    requires BuildReady(x)
    ensures Valid(r)
    ensures |r.nodes| > 0 && r.nodes[0] == FrameworkId
    ensures forall e | e in x.entities.GetOr([]) :: e.id.value in r.attrs
  {
    var ss := x.policySections.GetOr([]);
    EmptyValid();
    var g1 := AddFramework(Empty);
    var g2 := AddSections(g1, ss, hash);
    var g3 := AddRequirements(g2, ss, hash);
    var g4 := AddEntities(g3, x.entities.GetOr([]));
    ExtendsTrans(g1, g2, g3);
    ExtendsTrans(g1, g3, g4);
    assert g4.nodes[..1] == g1.nodes;
    g4
  }

  /** `build_from_extraction`: a fresh graph, the node-adding steps, then the
      explicit and the inferred relationships. */
  function Build(x: Extraction, hash: string -> int): (r: Graph)
    requires BuildReady(x)
    ensures Valid(r)
  {
    var n := BuildNodes(x, hash);
    AddAutoRelationships(
      AddRelationships(n, x.relationships.GetOr([])),
      x.entities.GetOr([]), x.policySections.GetOr([]), hash)
  }

  /** The framework node comes first, and the two relationship steps add no
      node and change no node's attributes. */
  lemma BuildNodesOnly(x: Extraction, hash: string -> int)
    requires BuildReady(x)
    ensures Build(x, hash).nodes == BuildNodes(x, hash).nodes
    ensures Build(x, hash).attrs == BuildNodes(x, hash).attrs
    ensures |Build(x, hash).nodes| > 0 && Build(x, hash).nodes[0] == FrameworkId
  {
    var n := BuildNodes(x, hash);
    var g5 := AddRelationships(n, x.relationships.GetOr([]));
    assert forall e | e in x.entities.GetOr([]) :: e.id.value in g5.attrs;
  }

  /** Every section gets a `contains_section` edge from the framework node,
      and every requirement with an id one from its section's canonical id. */
  lemma BuildContainment(x: Extraction, hash: string -> int)
    requires BuildReady(x)
    ensures forall s | s in x.policySections.GetOr([]) ::
              (FrameworkId, NormalizeSectionId(s.id.value, hash)) in Build(x, hash).edges
    ensures forall s, q | s in x.policySections.GetOr([]) && q in s.requirements.GetOr([]) && q.id.Some? ::
              (NormalizeSectionId(s.id.value, hash), NormalizeRequirementId(q.id.value)) in Build(x, hash).edges
  {
    var ss := x.policySections.GetOr([]);
    var g1 := AddFramework(Empty);
    var g2 := AddSections(g1, ss, hash);
    var g3 := AddRequirements(g2, ss, hash);
    var g4 := AddEntities(g3, x.entities.GetOr([]));
    assert g4 == BuildNodes(x, hash);
    var g5 := AddRelationships(g4, x.relationships.GetOr([]));
    var r := AddAutoRelationships(g5, x.entities.GetOr([]), ss, hash);
    assert r == Build(x, hash);
    ExtendsTrans(g2, g3, g4);
    ExtendsTrans(g2, g4, g5);
    ExtendsTrans(g2, g5, r);
    ExtendsTrans(g3, g4, g5);
    ExtendsTrans(g3, g5, r);
  }

  /** The edges of the build are exactly: the containment edges of the
      node-adding steps, the edge of every explicit relationship whose two
      endpoints are nodes by then, and every inferred edge whose source is a
      node by then. */
  lemma BuildEdges(x: Extraction, hash: string -> int, e: Edge)
    requires BuildReady(x)
    ensures var n := BuildNodes(x, hash);
            var rs := x.relationships.GetOr([]);
            e in Build(x, hash).edges <==>
              || e in n.edges
              || (exists k | 0 <= k < |rs| :: Connectable(n, rs[k]) && e == Endpoints(rs[k]))
              || (e.0 in n.attrs && Inferred(x.entities.GetOr([]), x.policySections.GetOr([]), hash, e))
  {
    var n := BuildNodes(x, hash);
    var rs := x.relationships.GetOr([]);
    var es := x.entities.GetOr([]);
    var ss := x.policySections.GetOr([]);
    var g5 := AddRelationships(n, rs);
    var cs := AutoCandidates(es, ss, hash);
    RelationshipsAddedIff(n, rs);
    assert forall c | c in cs :: c.dst in g5.attrs;
    CandidatesAddedIff(g5, cs, e);
    if HasPair(cs, e) {
      AutoCandidatesSound(es, ss, hash, e);
    }
    if Inferred(es, ss, hash, e) {
      AutoCandidatesComplete(es, ss, hash, e);
    }
  }

  /** When no requirement or entity takes the id `Policy_Framework`, the
      framework node keeps exactly its own attributes, `type` `framework`
      among them. (A section cannot take it: its canonical id carries the
      section prefix.) */
  lemma BuildFrameworkAttrs(x: Extraction, hash: string -> int)
    requires BuildReady(x)
    requires FrameworkId !in AllRequirementIds(x.policySections.GetOr([]))
    requires FrameworkId !in EntityIds(x.entities.GetOr([]))
    ensures FrameworkId in Build(x, hash).attrs
    ensures Build(x, hash).attrs[FrameworkId] == FrameworkAttrs
  {
    NodesFrameworkAttrs(x, hash);
    BuildNodesOnly(x, hash);
  }

  lemma NodesFrameworkAttrs(x: Extraction, hash: string -> int)
    requires BuildReady(x)
    requires FrameworkId !in AllRequirementIds(x.policySections.GetOr([]))
    requires FrameworkId !in EntityIds(x.entities.GetOr([]))
    ensures FrameworkId in BuildNodes(x, hash).attrs
    ensures BuildNodes(x, hash).attrs[FrameworkId] == FrameworkAttrs
  {
    BuildNodesUnfold(x, hash);
    FrameworkNotSection();
    StepsKeepAttrs(AddFramework(Empty), x.policySections.GetOr([]), x.entities.GetOr([]), hash, FrameworkId);
  }

  lemma BuildNodesUnfold(x: Extraction, hash: string -> int)
    requires BuildReady(x)
    ensures var ss := x.policySections.GetOr([]);
            BuildNodes(x, hash) == AddEntities(AddRequirements(AddSections(AddFramework(Empty), ss, hash), ss, hash), x.entities.GetOr([]))
  {}

  lemma FrameworkNotSection()
    ensures !StartsWith(FrameworkId, SectionPrefix)
  {
    assert FrameworkId[7] != SectionPrefix[7];
  }

  /** A node that no section, requirement or entity step touches keeps its
      attributes through the three steps. */
  lemma StepsKeepAttrs(g: Graph, ss: seq<Section>, es: seq<Entity>, hash: string -> int, m: string)
    requires forall s | s in ss :: s.id.Some?
    requires m in g.attrs && !StartsWith(m, SectionPrefix)
    requires m !in AllRequirementIds(ss) && m !in EntityIds(es)
    ensures AddEntities(AddRequirements(AddSections(g, ss, hash), ss, hash), es).attrs[m] == g.attrs[m]
  {
    var g2 := AddSections(g, ss, hash);
    var g3 := AddRequirements(g2, ss, hash);
    assert g2.attrs[m] == g.attrs[m];
    assert g3.attrs[m] == g2.attrs[m];
  }

  /** Node `m` carries `type` `entity`. */
  predicate TypedEntity(g: Graph, m: string) {
    m in g.attrs && "type" in g.attrs[m] && g.attrs[m]["type"] == Str("entity")
  }

  lemma AddEntityType(g: Graph, e: Entity)
    requires e.id.Some? && e.text.Some?
    ensures TypedEntity(AddEntity(g, e), e.id.value)
  {
    assert "type" in EntityAttrs(e, e.text.value);
  }

  /** After the entity step, a node that some entity with a text names has
      `type` `entity`, whatever it had before; one that had it keeps it. */
  lemma {:induction false} EntitiesRetype(g: Graph, es: seq<Entity>, m: string)
    requires TypedEntity(g, m) || exists e | e in es :: e.id == Some(m) && e.text.Some?
    ensures TypedEntity(AddEntities(g, es), m)
    decreases |es|
  {
    if es != [] {
      var g1 := AddEntity(g, es[0]);
      if es[0].id == Some(m) && es[0].text.Some? {
        AddEntityType(g, es[0]);
      } else if !TypedEntity(g, m) {
        var e :| e in es && e.id == Some(m) && e.text.Some?;
        assert e in es[1..];
      }
      EntitiesRetype(g1, es[1..], m);
    }
  }

  /** An entity whose id is `Policy_Framework` is merged into the framework
      node, whose `type` then reads `entity` instead of `framework`. */
  lemma BuildFrameworkRetyped(x: Extraction, hash: string -> int)
    requires BuildReady(x)
    requires exists e | e in x.entities.GetOr([]) :: e.id == Some(FrameworkId)
    ensures TypedEntity(Build(x, hash), FrameworkId)
  {
    var ss := x.policySections.GetOr([]);
    BuildNodesUnfold(x, hash);
    EntitiesRetype(AddRequirements(AddSections(AddFramework(Empty), ss, hash), ss, hash), x.entities.GetOr([]), FrameworkId);
    BuildNodesOnly(x, hash);
  }
}
