/** The cleaning that precedes the brace scan in
    `EntityExtractor._extract_first_json_object`: every "```json" and "```"
    marker is deleted together with the whitespace after it, then the text is
    stripped. */
module Fences {
  import opened Text

  /** One `re.sub(marker + r'\s*', '', s)` pass: every non-overlapping
      occurrence of `marker`, together with the whitespace run after it, is
      deleted, scanning left to right. */
  function RemoveMarker(s: string, marker: string): (r: string)
    requires |marker| > 0
    ensures |r| <= |s|
    decreases |s|
  {
    if s == [] then []
    else if StartsWith(s, marker) then RemoveMarker(TrimLeft(s[|marker|..]), marker)
    else [s[0]] + RemoveMarker(s[1..], marker)
  }

  const Fence: string := "```"
  const JsonFence: string := "```json"

  /** The cleaning before the scan: both fence patterns removed, then `strip()`. */
  function StripFences(s: string): string
  {
    Trim(RemoveMarker(RemoveMarker(s, JsonFence), Fence))
  }

  /** Three backticks start at position `i` of `s`. */
  predicate TripleAt(s: string, i: int) {
    0 <= i && i + 3 <= |s| && s[i] == '`' && s[i + 1] == '`' && s[i + 2] == '`'
  }

  /** Where no fence starts, the first character is kept. */
  lemma RemoveFenceCons(s: string)
    requires s != [] && !StartsWith(s, Fence)
    ensures RemoveMarker(s, Fence) == [s[0]] + RemoveMarker(s[1..], Fence)
  {
  }

  /** If `s` does not start with a backtick, neither does the fence removal of it. */
  lemma RemoveFenceHead(s: string)
    requires s != [] && s[0] != '`'
    ensures RemoveMarker(s, Fence) != [] && RemoveMarker(s, Fence)[0] == s[0]
  {
    assert !StartsWith(s, Fence) by {
      if |s| >= 3 {
        assert s[..3][0] == s[0];
      }
    }
    RemoveFenceCons(s);
  }

  /** A backtick followed by another character keeps both at the head. */
  lemma FenceHeadPair(s: string)
    requires |s| >= 2 && s[0] == '`' && s[1] != '`'
    ensures |RemoveMarker(s, Fence)| >= 2
    ensures RemoveMarker(s, Fence)[0] == '`' && RemoveMarker(s, Fence)[1] == s[1]
  {
    assert !StartsWith(s, Fence) by {
      if |s| >= 3 {
        assert s[..3][1] == s[1];
      }
    }
    RemoveFenceCons(s);
    RemoveFenceHead(s[1..]);
  }

  /** No triple backtick survives the fence removal, even one formed by
      joining the text around a removed marker. */
  lemma {:induction false} RemoveFenceLeavesNone(s: string)
    ensures forall i :: !TripleAt(RemoveMarker(s, Fence), i)
    decreases |s|
  {
    if s == [] {
    } else if StartsWith(s, Fence) {
      RemoveFenceSkip(s);
      RemoveFenceLeavesNone(TrimLeft(s[3..]));
    } else {
      var r := RemoveMarker(s, Fence);
      var rest := RemoveMarker(s[1..], Fence);
      RemoveFenceCons(s);
      RemoveFenceLeavesNone(s[1..]);
      NoTripleAtHead(s);
      forall i ensures !TripleAt(r, i) {
        TripleShift(s[0], rest, i);
      }
    }
  }

  /** Where a fence starts, it and the whitespace after it are dropped. */
  lemma RemoveFenceSkip(s: string)
    requires s != [] && StartsWith(s, Fence)
    ensures RemoveMarker(s, Fence) == RemoveMarker(TrimLeft(s[3..]), Fence)
  {
  }

  /** A triple past the head of `[c] + rest` is a triple of `rest`. */
  lemma TripleShift(c: char, rest: string, i: int)
    ensures i >= 1 && TripleAt([c] + rest, i) ==> TripleAt(rest, i - 1)
  {
  }

  /** The case of the proof above where the triple would start at the head. */
  lemma NoTripleAtHead(s: string)
    requires s != [] && !StartsWith(s, Fence)
    ensures !TripleAt(RemoveMarker(s, Fence), 0)
  {
    if |s| < 3 {
    } else if s[0] != '`' {
      RemoveFenceHead(s);
    } else if s[1] != '`' {
      FenceHeadPair(s);
    } else {
      NoTripleAfterTwoTicks(s);
    }
  }

  /** Two backticks not followed by a third: the third character survives. */
  lemma NoTripleAfterTwoTicks(s: string)
    requires |s| >= 3 && s[0] == '`' && s[1] == '`' && !StartsWith(s, Fence)
    ensures |RemoveMarker(s, Fence)| >= 3 && RemoveMarker(s, Fence)[2] == s[2] != '`'
  {
    assert s[..3] == [s[0], s[1], s[2]];
    RemoveFenceCons(s);
    FenceHeadPair(s[1..]);
  }

  /** A fence occurrence is three backticks. */
  lemma FenceIsTriple(r: string, i: int)
    requires OccursAt(r, Fence, i)
    ensures TripleAt(r, i)
  {
    assert r[i..i + 3][0] == r[i] && r[i..i + 3][1] == r[i + 1] && r[i..i + 3][2] == r[i + 2];
  }

  /** A JSON fence occurrence begins with a plain fence. */
  lemma JsonFenceIsFence(r: string, i: int)
    requires OccursAt(r, JsonFence, i)
    ensures OccursAt(r, Fence, i)
  {
    assert r[i..i + 3] == r[i..i + 7][..3];
  }

  /** Three backticks in a slice are three backticks in the whole text. */
  lemma TripleInSlice(t: string, r: string, a: int, i: int)
    requires OccursAt(t, r, a) && TripleAt(r, i)
    ensures TripleAt(t, a + i)
  {
    assert t[a..a + |r|][i] == t[a + i];
    assert t[a..a + |r|][i + 1] == t[a + i + 1];
    assert t[a..a + |r|][i + 2] == t[a + i + 2];
  }

  /** After cleaning, the text contains no code-fence marker at all. */
  lemma StripFencesLeavesNone(s: string)
    ensures !Contains(StripFences(s), Fence)
    ensures !Contains(StripFences(s), JsonFence)
  {
    var u := RemoveMarker(s, JsonFence);
    var t := RemoveMarker(u, Fence);
    var r := StripFences(s);
    assert r == Trim(t);
    assert Contains(t, r);
    var a :| OccursAt(t, r, a);
    forall i | OccursAt(r, JsonFence, i) ensures OccursAt(r, Fence, i) {
      JsonFenceIsFence(r, i);
    }
    forall i | OccursAt(r, Fence, i) ensures TripleAt(t, a + i) {
      FenceIsTriple(r, i);
      TripleInSlice(t, r, a, i);
    }
    RemoveFenceLeavesNone(u);
  }
}
