/** Recovery of a structured value from the model's raw reply
    (`EntityExtractor._extract_first_json_object` and
    `_extract_and_validate_json`): code fences are stripped, the first
    top-level balanced `{...}` span is cut out, and parsing is retried a
    bounded number of times with textual repairs in between.

    The JSON parser, the nested-brace regular expression used as the second
    fallback and rewrites 3 to 10 of the repair list are parameters. */
/** What the recovery path promises, stated apart from the methods that
    compute it. */
module RecoverySpec {
  import opened Wrappers
  import opened Extraction
  import opened Fences
  import opened Braces

  /** The span `_extract_first_json_object` returns for `text`: after the
      fences are stripped, the first balanced object when one closes, and
      otherwise the regular-expression match or, failing that, the naive
      slice from the first `{` to the last `}`. */
  ghost predicate SpanOf(text: string, nested: string -> Option<string>, r: string) {
    var t := StripFences(text);
    && (Closes(t) ==> ScannedFrom(t, r))
    && (!Closes(t) ==> r == nested(t).GetOr(NaiveSlice(t)))
  }

  /** The `k`-th text handed to the parser: the extracted span after `k`
      applications of the repair `fix`. */
  function Attempt(span: string, k: nat, fix: string -> string): string {
    if k == 0 then span else fix(Attempt(span, k - 1, fix))
  }

  /** The retry loop of `_extract_and_validate_json` from attempt `k` on,
      as a reference definition: the `k`-th text is parsed; a success ends
      the loop with that value, a failure moves on to the repaired text, and
      the third failure gives `{}`. The second component counts the parse
      calls made in all. */
  function RetryFrom(span: string, parse: string -> Option<Extraction>, fix: string -> string, k: nat)
    : (r: (Extraction, nat))
    requires k < 3
    ensures k < r.1 <= 3
    ensures forall j | k <= j < r.1 - 1 :: parse(Attempt(span, j, fix)).None?
    ensures parse(Attempt(span, r.1 - 1, fix)).Some? ==> r.0 == parse(Attempt(span, r.1 - 1, fix)).value
    ensures parse(Attempt(span, r.1 - 1, fix)).None? ==> r.1 == 3 && r.0 == EmptyObject
    decreases 3 - k
  {
    match parse(Attempt(span, k, fix))
    case Some(d) => (d, k + 1)
    case None => if k == 2 then (EmptyObject, 3) else RetryFrom(span, parse, fix, k + 1)
  }
}

module Recovery {
  import opened Wrappers
  import opened Text
  import opened Extraction
  import opened Fences
  import opened Braces
  import opened JsonRepair
  import opened RecoverySpec

  /** The search after the cleaning: the scan, then the nested-brace regular
      expression (a parameter), then the naive slice. */
  method ExtractFromCleaned(t: string, nested: string -> Option<string>) returns (r: string)
    ensures Closes(t) ==> ScannedFrom(t, r)
    ensures !Closes(t) ==> r == nested(t).GetOr(NaiveSlice(t))
  {
    var scanned := ScanFirstObject(t);
    if scanned.Some? {
      return scanned.value;
    }
    var m := nested(t);
    if m.Some? {
      return m.value;
    }
    return NaiveSlice(t);
  }

  /** `_extract_first_json_object`: the fence cleaning, then the search. */
  method ExtractFirstJsonObject(text: string, nested: string -> Option<string>) returns (r: string)
    ensures SpanOf(text, nested, r)
  {
    r := ExtractFromCleaned(StripFences(text), nested);
  }

  /** The retry loop of `_extract_and_validate_json` on a nonempty span: up
      to three parse attempts with a repair between consecutive attempts, so
      one repair fewer than parses. */
  method ParseWithRetries(span: string, parse: string -> Option<Extraction>, fix: string -> string)
    returns (d: Extraction, parses: nat, repairs: nat)
    ensures (d, parses) == RetryFrom(span, parse, fix, 0)
    ensures repairs == parses - 1
  {
    parses, repairs := 0, 0;
    var current := span;
    var attempt := 0;
    while attempt < 3
      invariant 0 <= attempt <= 3
      invariant parses == attempt
      invariant repairs == if attempt == 3 then 2 else attempt
      invariant attempt < 3 ==> current == Attempt(span, attempt, fix)
      invariant attempt < 3 ==> RetryFrom(span, parse, fix, 0) == RetryFrom(span, parse, fix, attempt)
      invariant attempt == 3 ==> RetryFrom(span, parse, fix, 0) == (EmptyObject, 3)
    {
      var p := parse(current);
      parses := parses + 1;
      if p.Some? {
        return p.value, parses, repairs;
      }
      if attempt < 2 {
        current := fix(current);
        repairs := repairs + 1;
      }
      attempt := attempt + 1;
    }
    return EmptyObject, parses, repairs;
  }

  /** `_extract_and_validate_json`: the span search, then `{}` for an empty
      span and the retry loop otherwise. */
  method ExtractAndValidate(
    response: string,
    parse: string -> Option<Extraction>,
    fix: string -> string,
    nested: string -> Option<string>)
    returns (d: Extraction, span: string, parses: nat, repairs: nat)
    ensures SpanOf(response, nested, span)
    ensures span == [] ==> d == EmptyObject && parses == 0 && repairs == 0
    ensures span != [] ==> (d, parses) == RetryFrom(span, parse, fix, 0) && repairs == parses - 1
  {
    span := ExtractFirstJsonObject(response, nested);
    if span == [] {
      return EmptyObject, span, 0, 0;
    }
    d, parses, repairs := ParseWithRetries(span, parse, fix);
  }

  /** The repair handed to the retry loop: one pass of the rewrite list. */
  function RepairWith(laterRewrites: string -> string): string -> string {
    s => Repair(s, laterRewrites)
  }

  /** The extraction path after the model's reply: recovery, then
      normalisation. An empty span normalises `{}`, which gives the empty
      extraction; otherwise the value the retry loop settles on is
      normalised. */
  method RecoverExtraction(
    response: string,
    parse: string -> Option<Extraction>,
    laterRewrites: string -> string,
    nested: string -> Option<string>)
    returns (x: Extraction, span: string)
    ensures Canonical(x)
    ensures SpanOf(response, nested, span)
    ensures span == [] ==> x == EmptyExtraction
    ensures span != [] ==> x == Normalize(RetryFrom(span, parse, RepairWith(laterRewrites), 0).0)
  {
    var d, parses, repairs;
    d, span, parses, repairs := ExtractAndValidate(response, parse, RepairWith(laterRewrites), nested);
    x := Normalize(d);
    if span == [] {
      NormalizeEmpty();
    }
  }
}
