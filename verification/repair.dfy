/** The first two rewrites of `EntityExtractor._fix_json_issues`, which
    delete a comma that is followed only by whitespace before `}` or `]`. The
    other eight rewrites are a parameter of `Repair`. */
module JsonRepair {
  import opened Text

  /** The scan state of `re.sub(r',\s*' + closer, closer, ...)`: copying, or
      holding back a comma and the whitespace read after it until it is known
      whether `closer` follows. */
  datatype Mode = Copy | Pending(spaces: string)

  /** What a held-back comma contributes when the match fails. */
  function Flush(m: Mode): string {
    match m
    case Copy => []
    case Pending(w) => [','] + w
  }

  /** Reading one character: the text emitted and the next state. A comma
      followed by whitespace and `closer` becomes `closer`; when anything else
      follows, the held-back text is released unchanged (a new comma starts a
      new candidate, as the left-to-right regular-expression search does). */
  function Feed(m: Mode, ch: char, closer: char): (string, Mode) {
    match m
    case Copy => if ch == ',' then ([], Pending([])) else ([ch], Copy)
    case Pending(w) =>
      if IsSpace(ch) then ([], Pending(w + [ch]))
      else if ch == closer then ([closer], Copy)
      else if ch == ',' then ([','] + w, Pending([]))
      else ([','] + w + [ch], Copy)
  }

  /** The text emitted while reading `s[i..]` from state `m`. */
  function Emit(s: string, closer: char, i: nat, m: Mode): string
    requires i <= |s|
    decreases |s| - i
  {
    if i == |s| then []
    else
      var step := Feed(m, s[i], closer);
      step.0 + Emit(s, closer, i + 1, step.1)
  }

  /** The state after reading `s[i..]` from state `m`. */
  function After(s: string, closer: char, i: nat, m: Mode): Mode
    requires i <= |s|
    decreases |s| - i
  {
    if i == |s| then m else After(s, closer, i + 1, Feed(m, s[i], closer).1)
  }

  /** One trailing-comma rewrite over the whole text: the scan, then the
      release of a comma still held back at the end. */
  function StripTrailingCommas(s: string, closer: char): string {
    Emit(s, closer, 0, Copy) + Flush(After(s, closer, 0, Copy))
  }

  /** Reading a suffix does not depend on what precedes it. */
  lemma {:induction false} EmitShift(p: string, b: string, closer: char, j: nat, m: Mode)
    requires j <= |b|
    ensures Emit(p + b, closer, |p| + j, m) == Emit(b, closer, j, m)
    decreases |b| - j
  {
    if j < |b| {
      assert (p + b)[|p| + j] == b[j];
      var step := Feed(m, b[j], closer);
      EmitShift(p, b, closer, j + 1, step.1);
      assert Emit(p + b, closer, |p| + j, m) == step.0 + Emit(p + b, closer, |p| + j + 1, step.1);
    }
  }

  lemma {:induction false} AfterShift(p: string, b: string, closer: char, j: nat, m: Mode)
    requires j <= |b|
    ensures After(p + b, closer, |p| + j, m) == After(b, closer, j, m)
    decreases |b| - j
  {
    if j < |b| {
      assert (p + b)[|p| + j] == b[j];
      AfterShift(p, b, closer, j + 1, Feed(m, b[j], closer).1);
    }
  }

  /** Reading `a + t` is reading `a`, then reading `t` from the state `a` leaves. */
  lemma {:induction false} AfterAppend(a: string, t: string, closer: char, i: nat, m: Mode)
    requires i <= |a|
    ensures After(a + t, closer, i, m) == After(t, closer, 0, After(a, closer, i, m))
    decreases |a| - i
  {
    if i < |a| {
      assert (a + t)[i] == a[i];
      AfterAppend(a, t, closer, i + 1, Feed(m, a[i], closer).1);
    } else {
      AfterShift(a, t, closer, 0, m);
    }
  }

  lemma {:induction false} EmitAppend(a: string, t: string, closer: char, i: nat, m: Mode)
    requires i <= |a|
    ensures Emit(a + t, closer, i, m) == Emit(a, closer, i, m) + Emit(t, closer, 0, After(a, closer, i, m))
    decreases |a| - i
  {
    if i < |a| {
      assert (a + t)[i] == a[i];
      var step := Feed(m, a[i], closer);
      EmitAppend(a, t, closer, i + 1, step.1);
      assert Emit(a + t, closer, i, m) == step.0 + Emit(a + t, closer, i + 1, step.1);
      assert Emit(a, closer, i, m) == step.0 + Emit(a, closer, i + 1, step.1);
    } else {
      EmitShift(a, t, closer, 0, m);
    }
  }

  /** Whitespace read while a comma is held back emits nothing and keeps it held. */
  lemma {:induction false} EmitSpaces(w: string, closer: char, i: nat, m: Mode)
    requires i <= |w| && AllSpace(w) && m.Pending?
    ensures Emit(w, closer, i, m) == []
    decreases |w| - i
  {
    if i < |w| {
      assert IsSpace(w[i]);
      EmitSpaces(w, closer, i + 1, Feed(m, w[i], closer).1);
    }
  }

  lemma {:induction false} AfterSpaces(w: string, closer: char, i: nat, m: Mode)
    requires i <= |w| && AllSpace(w) && m.Pending?
    ensures After(w, closer, i, m).Pending?
    decreases |w| - i
  {
    if i < |w| {
      assert IsSpace(w[i]);
      AfterSpaces(w, closer, i + 1, Feed(m, w[i], closer).1);
    }
  }

  /** A leading comma releases whatever was held back and is itself held back. */
  lemma ScanComma(rest: string, closer: char, m: Mode)
    requires closer != ','
    ensures Emit([','] + rest, closer, 0, m) == Flush(m) + Emit(rest, closer, 0, Pending([]))
    ensures After([','] + rest, closer, 0, m) == After(rest, closer, 0, Pending([]))
  {
    EmitShift([','], rest, closer, 0, Pending([]));
    AfterShift([','], rest, closer, 0, Pending([]));
  }

  /** `closer` read while a comma is held back is emitted alone. */
  lemma ScanCloser(b: string, closer: char, m: Mode)
    requires !IsSpace(closer) && m.Pending?
    ensures Emit([closer] + b, closer, 0, m) == [closer] + Emit(b, closer, 0, Copy)
    ensures After([closer] + b, closer, 0, m) == After(b, closer, 0, Copy)
  {
    EmitShift([closer], b, closer, 0, Copy);
    AfterShift([closer], b, closer, 0, Copy);
  }

  /** A comma, whitespace and `closer`, read from any state: the held-back
      text is released, then `closer` alone is emitted. */
  lemma CommaRunToCloser(w: string, b: string, closer: char, m: Mode)
    requires closer != ',' && !IsSpace(closer) && AllSpace(w)
    ensures Emit([','] + w + [closer] + b, closer, 0, m)
            == Flush(m) + [closer] + Emit(b, closer, 0, Copy)
    ensures After([','] + w + [closer] + b, closer, 0, m) == After(b, closer, 0, Copy)
  {
    var cb := [closer] + b;
    assert [','] + w + [closer] + b == [','] + (w + cb);
    ScanComma(w + cb, closer, m);
    EmitAppend(w, cb, closer, 0, Pending([]));
    AfterAppend(w, cb, closer, 0, Pending([]));
    EmitSpaces(w, closer, 0, Pending([]));
    AfterSpaces(w, closer, 0, Pending([]));
    ScanCloser(b, closer, After(w, closer, 0, Pending([])));
  }

  /** Whatever precedes it, a comma followed only by whitespace up to the
      closing bracket is removed, and the text on either side is rewritten
      independently. */
  lemma TrailingCommaRemoved(a: string, w: string, b: string, closer: char)
    requires closer != ',' && !IsSpace(closer)
    requires AllSpace(w)
    ensures StripTrailingCommas(a + [','] + w + [closer] + b, closer)
            == StripTrailingCommas(a, closer) + [closer] + StripTrailingCommas(b, closer)
  {
    var t := [','] + w + [closer] + b;
    assert a + [','] + w + [closer] + b == a + t;
    EmitAppend(a, t, closer, 0, Copy);
    AfterAppend(a, t, closer, 0, Copy);
    CommaRunToCloser(w, b, closer, After(a, closer, 0, Copy));
  }

  /** Text without commas is left alone. */
  lemma {:induction false} EmitNoComma(s: string, closer: char, i: nat)
    requires i <= |s| && ',' !in s
    ensures Emit(s, closer, i, Copy) == s[i..]
    decreases |s| - i
  {
    if i < |s| {
      assert s[i] != ',';
      EmitNoComma(s, closer, i + 1);
      assert s[i..] == [s[i]] + s[i + 1..];
    }
  }

  lemma {:induction false} AfterNoComma(s: string, closer: char, i: nat)
    requires i <= |s| && ',' !in s
    ensures After(s, closer, i, Copy) == Copy
    decreases |s| - i
  {
    if i < |s| {
      assert s[i] != ',';
      AfterNoComma(s, closer, i + 1);
    }
  }

  lemma StripTrailingCommasNoComma(s: string, closer: char)
    requires ',' !in s
    ensures StripTrailingCommas(s, closer) == s
  {
    EmitNoComma(s, closer, 0);
    AfterNoComma(s, closer, 0);
  }

  /** One application of the rewrite list: the two trailing-comma rules,
      then the remaining rules (a parameter). */
  function Repair(s: string, laterRewrites: string -> string): string {
    laterRewrites(StripTrailingCommas(StripTrailingCommas(s, '}'), ']'))
  }

  /** The rewrites are not idempotent, unlike what a single pass suggests:
      two commas before a brace need two passes. */
  lemma RepairNotIdempotent()
    ensures StripTrailingCommas(",,}", '}') == ",}"
    ensures StripTrailingCommas(",}", '}') == "}"
  {
    assert !IsSpace(',') && !IsSpace('}');
    assert Emit(",,}", '}', 3, Copy) == [];
    assert Emit(",,}", '}', 2, Pending([])) == "}";
    assert Emit(",,}", '}', 1, Pending([])) == ",}";
    assert After(",,}", '}', 0, Copy) == Copy;
    assert Emit(",}", '}', 2, Copy) == [];
    assert Emit(",}", '}', 1, Pending([])) == "}";
    assert After(",}", '}', 0, Copy) == Copy;
  }
}
