/** The brace-depth scan of `EntityExtractor._extract_first_json_object`
    and its last fallback, the first-`{`-to-last-`}` slice. */
module Braces {
  import opened Wrappers
  import opened Text

  /** The number of occurrences of `c` in `s`. */
  function Count(s: string, c: char): nat {
    if s == [] then 0 else Count(s[..|s| - 1], c) + (if s[|s| - 1] == c then 1 else 0)
  }

  /** Brace nesting depth after reading `s`: opening minus closing braces. */
  function Depth(s: string): int {
    Count(s, '{') - Count(s, '}')
  }

  lemma {:induction false} CountAppend(a: string, b: string, c: char)
    ensures Count(a + b, c) == Count(a, c) + Count(b, c)
    decreases |b|
  {
    if b == [] {
      assert a + b == a;
    } else {
      assert (a + b)[..|a + b| - 1] == a + b[..|b| - 1];
      CountAppend(a, b[..|b| - 1], c);
    }
  }

  lemma DepthSplit(s: string, i: nat, j: nat)
    requires i <= j <= |s|
    ensures Depth(s[..j]) == Depth(s[..i]) + Depth(s[i..j])
  {
    assert s[..j] == s[..i] + s[i..j];
    CountAppend(s[..i], s[i..j], '{');
    CountAppend(s[..i], s[i..j], '}');
  }

  lemma DepthStep(s: string, i: nat)
    requires i < |s|
    ensures Depth(s[..i + 1]) == Depth(s[..i]) + (if s[i] == '{' then 1 else if s[i] == '}' then -1 else 0)
  {
    assert s[..i + 1][..i] == s[..i];
  }

  /** Position `i` holds an opening brace read at depth 0. */
  predicate OpensAt(s: string, i: int) {
    0 <= i < |s| && s[i] == '{' && Depth(s[..i]) == 0
  }

  /** `i` is the first such position. */
  predicate FirstOpen(s: string, i: int) {
    OpensAt(s, i) && forall k | 0 <= k < i :: !OpensAt(s, k)
  }

  /** After reading from `i` through `k`, the depth is still above 0. */
  predicate StillOpen(s: string, i: int, k: int) {
    0 <= i <= k < |s| && Depth(s[i..k + 1]) > 0
  }

  /** `j` is where the depth first returns to 0 after the opening brace at `i`. */
  predicate ClosesAt(s: string, i: int, j: int) {
    0 <= i < j < |s| && Depth(s[i..j + 1]) == 0
    && forall k | i <= k < j :: StillOpen(s, i, k)
  }

  lemma FirstOpenUnique(s: string, i: int, k: int)
    requires FirstOpen(s, i) && FirstOpen(s, k)
    ensures i == k
  {
  }

  /** `r` is the span from the first opening brace read at depth 0 to the
      point where the depth first returns to 0. */
  ghost predicate ScannedFrom(s: string, r: string) {
    exists i, j :: FirstOpen(s, i) && ClosesAt(s, i, j) && r == s[i..j + 1]
  }

  /** Some opening brace read at depth 0 is closed again. */
  ghost predicate Closes(s: string) {
    exists i, j :: FirstOpen(s, i) && ClosesAt(s, i, j)
  }

  /** The brace-depth scan, as written: a depth counter that goes negative
      on stray closing braces, a start index set only by an opening brace at
      depth 0, and a return the first time the depth comes back to 0. Braces
      inside string literals are counted like any other. */
  method ScanFirstObject(s: string) returns (r: Option<string>)
    ensures r.Some? ==> ScannedFrom(s, r.value)
    ensures r.None? ==> forall i, j | FirstOpen(s, i) && i <= j < |s| :: StillOpen(s, i, j)
    ensures r.Some? <==> Closes(s)
  {
    var depth := 0;
    var start := -1;
    var chars: string := [];
    var i := 0;
    while i < |s|
      invariant 0 <= i <= |s|
      invariant depth == Depth(s[..i])
      invariant start == -1 ==> forall k | 0 <= k < i :: !OpensAt(s, k)
      invariant start != -1 ==> 0 <= start < i && FirstOpen(s, start)
      invariant start != -1 ==> chars == s[start..i]
      invariant start != -1 ==> depth == Depth(s[start..i]) && depth > 0
      invariant start != -1 ==> forall k | start <= k < i :: StillOpen(s, start, k)
    {
      var c := s[i];
      DepthStep(s, i);
      if start != -1 {
        DepthSplit(s, start, i);
        DepthSplit(s, start, i + 1);
        assert s[start..i + 1] == s[start..i] + [c];
      }
      if c == '{' {
        if depth == 0 {
          assert start == -1;
          start := i;
          chars := [];
          assert OpensAt(s, i);
        }
        depth := depth + 1;
        chars := chars + [c];
      } else if c == '}' {
        depth := depth - 1;
        chars := chars + [c];
        if depth == 0 && start != -1 {
          assert ClosesAt(s, start, i);
          return Some(chars);
        }
      } else if start != -1 {
        chars := chars + [c];
      }
      i := i + 1;
    }
    if start != -1 {
      forall i', j | FirstOpen(s, i') && i' <= j < |s| ensures StillOpen(s, i', j) {
        FirstOpenUnique(s, i', start);
      }
    }
    NeverClosed(s);
    r := None;
  }

  /** When the depth stays above 0 after the first opening brace, nothing closes. */
  lemma NeverClosed(s: string)
    requires forall i, j | FirstOpen(s, i) && i <= j < |s| :: StillOpen(s, i, j)
    ensures !Closes(s)
  {
    forall i, j | FirstOpen(s, i) ensures !ClosesAt(s, i, j) {
      if 0 <= i < j < |s| {
        assert StillOpen(s, i, j);
      }
    }
  }

  /** A span the scan returns begins with `{`, ends with `}` and holds as
      many opening as closing braces. */
  lemma ScannedSpanShape(s: string, i: int, j: int)
    requires ClosesAt(s, i, j) && s[i] == '{'
    ensures var t := s[i..j + 1];
            t[0] == '{' && t[|t| - 1] == '}' && Count(t, '{') == Count(t, '}')
  {
    var t := s[i..j + 1];
    assert t[..|t| - 1] == s[i..j];
    assert StillOpen(s, i, j - 1);
  }

  /** The last fallback: `text[text.find('{') : text.rfind('}') + 1]` when
      both braces exist and the last `}` comes after the first `{`, else "". */
  function NaiveSlice(s: string): (r: string)
    ensures r != [] ==> exists b, e :: (0 <= b < e < |s| && r == s[b..e + 1]
              && s[b] == '{' && '{' !in s[..b] && s[e] == '}' && '}' !in s[e + 1..])
    ensures r == [] <==> ('{' !in s || '}' !in s || FindLastChar(s, '}').value <= FindChar(s, '{').value)
  {
    var b := FindChar(s, '{');
    var e := FindLastChar(s, '}');
    if b.Some? && e.Some? && e.value > b.value then s[b.value..e.value + 1] else []
  }
}
