/** The extraction result that the language model is asked to produce, and
    the normaliser that gives it a canonical shape (`EntityExtractor.
    _ensure_extraction_structure`). Every field is optional: a JSON object
    key is either absent (`None`) or present with a string value. */
module Extraction {
  import opened Wrappers
  import opened Text

  datatype Requirement = Requirement(
    id: Option<string>,
    text: Option<string>,
    fullReference: Option<string>)

  datatype Section = Section(
    id: Option<string>,
    title: Option<string>,
    content: Option<string>,
    requirements: Option<seq<Requirement>>)

  datatype Entity = Entity(
    id: Option<string>,
    text: Option<string>,
    // the JSON key `type`
    entityType: Option<string>,
    sentence: Option<string>,
    description: Option<string>)

  datatype Relationship = Relationship(
    from: Option<string>,
    to: Option<string>,
    relationship: Option<string>,
    text: Option<string>,
    description: Option<string>)

  /** A parsed reply: a JSON object with the four list-valued keys the
      system reads (`policy_sections`, its alias `sections`, `entities`,
      `relationships`), or any other JSON value. */
  datatype Extraction =
    | NotObject
    | Object(
        policySections: Option<seq<Section>>,
        sections: Option<seq<Section>>,
        entities: Option<seq<Entity>>,
        relationships: Option<seq<Relationship>>)

  /** The empty JSON object `{}`. */
  const EmptyObject: Extraction := Object(None, None, None, None)

  /** `{"entities": [], "relationships": [], "policy_sections": []}`. */
  const EmptyExtraction: Extraction := Object(Some([]), None, Some([]), Some([]))

  /** `section_{i+1}`: the id given to the section at 0-based position `i`. */
  function SectionDefaultId(i: nat): string {
    "section_" + NatToString(i + 1)
  }

  /** `req_{i+1}.{j+1}`. */
  function RequirementDefaultId(i: nat, j: nat): string {
    "req_" + NatToString(i + 1) + "." + NatToString(j + 1)
  }

  /** `Section {i+1}.{j+1}`. */
  function RequirementDefaultReference(i: nat, j: nat): string {
    "Section " + NatToString(i + 1) + "." + NatToString(j + 1)
  }

  /** Python's `str(x)` of an optional string: `None` when absent. */
  function ShowOptional(o: Option<string>): string {
    match o
    case Some(s) => s
    case None => "None"
  }

  /** Keeps a present value, otherwise takes the default. */
  function Fill(o: Option<string>, default: string): (r: Option<string>)
    ensures r.Some?
    ensures o.Some? ==> r == o
    ensures o.None? ==> r == Some(default)
  {
    if o.Some? then o else Some(default)
  }

  function NormalizeRequirement(r: Requirement, i: nat, j: nat): Requirement {
    r.(id := Fill(r.id, RequirementDefaultId(i, j)),
       fullReference := Fill(r.fullReference, RequirementDefaultReference(i, j)))
  }

  function NormalizeSection(s: Section, i: nat): Section {
    var reqs := s.requirements.GetOr([]);
    s.(id := Fill(s.id, SectionDefaultId(i)),
       content := Fill(s.content, s.title.GetOr("")),
       requirements := Some(seq(|reqs|, j requires 0 <= j < |reqs| => NormalizeRequirement(reqs[j], i, j))))
  }

  function NormalizeRelationship(r: Relationship): Relationship {
    r.(text := Fill(r.text, r.description.GetOr(
         "Relationship " + ShowOptional(r.from) + " to " + ShowOptional(r.to))))
  }

  function NormalizeEntity(e: Entity): Entity {
    e.(sentence := Fill(e.sentence, e.description.GetOr("")))
  }

  /** The section list the normaliser reads: `policy_sections`, else the
      alias `sections`, else empty. */
  function SourceSections(x: Extraction): seq<Section>
    requires x.Object?
  {
    if x.policySections.Some? then x.policySections.value else x.sections.GetOr([])
  }

  /** A requirement carries every field the normaliser fills. */
  predicate RequirementComplete(r: Requirement) {
    r.id.Some? && r.fullReference.Some?
  }

  /** A section carries every field the normaliser fills, and so do its requirements. */
  predicate SectionComplete(s: Section) {
    && s.id.Some? && s.content.Some? && s.requirements.Some?
    && forall r | r in s.requirements.value :: RequirementComplete(r)
  }

  /** The canonical shape: exactly the three keys, every section,
      requirement, relationship and entity carrying its defaulted fields. */
  predicate Canonical(x: Extraction) {
    && x.Object? && x.policySections.Some? && x.sections.None?
    && x.entities.Some? && x.relationships.Some?
    && (forall s | s in x.policySections.value :: SectionComplete(s))
    && (forall r | r in x.relationships.value :: r.text.Some?)
    && (forall e | e in x.entities.value :: e.sentence.Some?)
  }

  /** `_ensure_extraction_structure`: a non-object becomes the empty
      extraction; an object keeps its lists (sections taken from
      `policy_sections`, else from `sections`) and every absent field
      receives its positional default. */
  function Normalize(x: Extraction): (r: Extraction)
    ensures Canonical(r)
    ensures x.NotObject? ==> r == EmptyExtraction
    ensures x.Object? ==> |r.policySections.value| == |SourceSections(x)|
    ensures x.Object? ==> |r.entities.value| == |x.entities.GetOr([])|
    ensures x.Object? ==> |r.relationships.value| == |x.relationships.GetOr([])|
  {
    match x
    case NotObject => EmptyExtraction
    case Object(_, _, _, _) =>
      var ss := SourceSections(x);
      var es := x.entities.GetOr([]);
      var rs := x.relationships.GetOr([]);
      Object(
        Some(seq(|ss|, i requires 0 <= i < |ss| => NormalizeSection(ss[i], i))),
        None,
        Some(seq(|es|, k requires 0 <= k < |es| => NormalizeEntity(es[k]))),
        Some(seq(|rs|, k requires 0 <= k < |rs| => NormalizeRelationship(rs[k]))))
  }

  /** `{}` normalises to the empty extraction. */
  lemma NormalizeEmpty()
    ensures Normalize(EmptyObject) == EmptyExtraction
  {
  }

  /** Present values are never overwritten; absent ones get the positional
      defaults `section_{i+1}`, the title (or ""), `[]`, `req_{i+1}.{j+1}`
      and `Section {i+1}.{j+1}`. */
  lemma NormalizeSectionDefaults(x: Extraction, i: nat, j: nat)
    requires x.Object? && i < |SourceSections(x)|
    ensures var s := SourceSections(x)[i];
            var t := Normalize(x).policySections.value[i];
            && (s.id.Some? ==> t.id == s.id)
            && (s.id.None? ==> t.id == Some("section_" + NatToString(i + 1)))
            && (s.title == t.title)
            && (s.content.Some? ==> t.content == s.content)
            && (s.content.None? ==> t.content == Some(s.title.GetOr("")))
            && (s.requirements.None? ==> t.requirements == Some([]))
            && (s.requirements.Some? ==> |t.requirements.value| == |s.requirements.value|)
    ensures var s := SourceSections(x)[i];
            var t := Normalize(x).policySections.value[i];
            s.requirements.Some? && j < |s.requirements.value| ==>
              var q := s.requirements.value[j];
              var u := t.requirements.value[j];
              && u.text == q.text
              && (q.id.Some? ==> u.id == q.id)
              && (q.id.None? ==> u.id == Some("req_" + NatToString(i + 1) + "." + NatToString(j + 1)))
              && (q.fullReference.Some? ==> u.fullReference == q.fullReference)
              && (q.fullReference.None? ==> u.fullReference == Some("Section " + NatToString(i + 1) + "." + NatToString(j + 1)))
  {
  }

  /** `policy_sections` wins over the `sections` alias, which is used only
      when `policy_sections` is absent. */
  lemma NormalizePrefersPolicySections(x: Extraction)
    requires x.Object?
    ensures x.policySections.Some? ==> DrawnFrom(Normalize(x).policySections.value, x.policySections.value)
    ensures x.policySections.None? && x.sections.Some? ==> DrawnFrom(Normalize(x).policySections.value, x.sections.value)
    ensures x.policySections.None? && x.sections.None? ==> Normalize(x).policySections.value == []
  {
  }

  /** The normalised sections `out` come from `src`, entry by entry: each
      keeps the title and, when present, the id and content of its source. */
  predicate DrawnFrom(out: seq<Section>, src: seq<Section>) {
    && |out| == |src|
    && forall i | 0 <= i < |src| ::
         && out[i].title == src[i].title
         && (src[i].id.Some? ==> out[i].id == src[i].id)
         && (src[i].content.Some? ==> out[i].content == src[i].content)
  }

  /** Relationship texts and entity sentences are filled only when absent. */
  lemma NormalizeRelationshipsAndEntities(x: Extraction, k: nat)
    requires x.Object?
    ensures k < |x.relationships.GetOr([])| ==>
              var r := x.relationships.value[k];
              var t := Normalize(x).relationships.value[k];
              && t.from == r.from && t.to == r.to && t.relationship == r.relationship
              && (r.text.Some? ==> t.text == r.text)
              && (r.text.None? && r.description.Some? ==> t.text == r.description)
              && (r.text.None? && r.description.None? ==>
                    t.text == Some("Relationship " + ShowOptional(r.from) + " to " + ShowOptional(r.to)))
    ensures k < |x.entities.GetOr([])| ==>
              var e := x.entities.value[k];
              var t := Normalize(x).entities.value[k];
              && t.id == e.id && t.text == e.text && t.entityType == e.entityType
              && (e.sentence.Some? ==> t.sentence == e.sentence)
              && (e.sentence.None? ==> t.sentence == Some(e.description.GetOr("")))
  {
  }

  /** Every canonical extraction is left as it is. */
  lemma {:induction false} NormalizeCanonical(x: Extraction)
    requires Canonical(x)
    ensures Normalize(x) == x
  {
    var r := Normalize(x);
    var ss := x.policySections.value;
    forall i | 0 <= i < |ss| ensures r.policySections.value[i] == ss[i] {
      var s := ss[i];
      assert SectionComplete(s);
      var reqs := s.requirements.value;
      var t := NormalizeSection(s, i);
      assert t.requirements.value == reqs by {
        forall j | 0 <= j < |reqs| ensures t.requirements.value[j] == reqs[j] {
          assert RequirementComplete(reqs[j]);
        }
      }
    }
    assert r.policySections.value == ss;
    var rs := x.relationships.value;
    forall k | 0 <= k < |rs| ensures r.relationships.value[k] == rs[k] {
      assert rs[k].text.Some?;
    }
    assert r.relationships.value == rs;
    var es := x.entities.value;
    forall k | 0 <= k < |es| ensures r.entities.value[k] == es[k] {
      assert es[k].sentence.Some?;
    }
    assert r.entities.value == es;
  }

  /** Normalising twice changes nothing further. */
  lemma NormalizeIdempotent(x: Extraction)
    ensures Normalize(Normalize(x)) == Normalize(x)
  {
    NormalizeCanonical(Normalize(x));
  }
}
