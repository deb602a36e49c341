/**
  The few Python `str` operations the two tools rely on: `strip()`,
  `startswith`, `replace` and `join`, with CPython's semantics.
 */
module PyStrings {

  /** The characters for which Python's `str.isspace()` holds; `strip()` removes exactly these. */
  predicate IsSpace(c: char) {
    || c == ' '
    || ('\t' <= c <= '\r')
    || ('\U{1C}' <= c <= '\U{1F}')
    || c == '\U{85}' || c == '\U{A0}' || c == '\U{1680}'
    || ('\U{2000}' <= c <= '\U{200A}')
    || c == '\U{2028}' || c == '\U{2029}' || c == '\U{202F}' || c == '\U{205F}' || c == '\U{3000}'
  }

  function TrimStart(s: string): (r: string)
    ensures |r| <= |s| && r == s[|s| - |r|..]
    ensures forall t :: 0 <= t < |s| - |r| ==> IsSpace(s[t])
    ensures r != [] ==> !IsSpace(r[0])
  {
    if s != [] && IsSpace(s[0]) then TrimStart(s[1..]) else s
  }

  function TrimEnd(s: string): (r: string)
    ensures |r| <= |s| && r == s[..|r|]
    ensures forall t :: |r| <= t < |s| ==> IsSpace(s[t])
    ensures r != [] ==> !IsSpace(r[|r| - 1])
  {
    if s != [] && IsSpace(s[|s| - 1]) then TrimEnd(s[..|s| - 1]) else s
  }

  /** Python's `s.strip()` with no argument. */
  function Strip(s: string): string {
    TrimEnd(TrimStart(s))
  }

  /**
    `strip()` leaves no whitespace at either end, takes an all-whitespace
    text to the empty one, and keeps a text without surrounding whitespace.
   */
  lemma StripTrims(s: string)
    ensures |Strip(s)| <= |s|
    ensures Strip(s) != [] ==> !IsSpace(Strip(s)[0]) && !IsSpace(Strip(s)[|Strip(s)| - 1])
    ensures (forall t :: 0 <= t < |s| ==> IsSpace(s[t])) ==> Strip(s) == []
    ensures s != [] && !IsSpace(s[0]) && !IsSpace(s[|s| - 1]) ==> Strip(s) == s
  {
  }

  /** Python's `s.startswith(p)`. */
  predicate StartsWith(s: string, p: string) {
    |p| <= |s| && s[..|p|] == p
  }

  /** `pat` occurs in `s` starting at index `k`. */
  predicate OccursAt(s: string, pat: string, k: nat) {
    k + |pat| <= |s| && s[k..k + |pat|] == pat
  }

  /** Python's `s.replace("", rep)`: `rep` before every character and at the end. */
  function ReplaceEmpty(s: string, rep: string): string {
    if s == [] then rep else rep + [s[0]] + ReplaceEmpty(s[1..], rep)
  }

  /**
    Python's `s.replace(pat, rep)`: every occurrence of `pat`, found left to
    right without overlap, is replaced by `rep`.
   */
  function Replace(s: string, pat: string, rep: string): string
    decreases |s|
  {
    if pat == [] then ReplaceEmpty(s, rep)
    else if StartsWith(s, pat) then rep + Replace(s[|pat|..], pat, rep)
    else if s == [] then []
    else [s[0]] + Replace(s[1..], pat, rep)
  }

  /** The total length of a list of strings. */
  function TotalLength(parts: seq<string>): nat {
    if parts == [] then 0 else |parts[0]| + TotalLength(parts[1..])
  }

  /** Python's `sep.join(parts)`. */
  function Join(sep: string, parts: seq<string>): (r: string)
    ensures parts == [] ==> r == []
    ensures parts != [] ==> StartsWith(r, parts[0])
    ensures parts != [] ==> |r| == TotalLength(parts) + (|parts| - 1) * |sep|
  {
    if |parts| == 0 then ""
    else if |parts| == 1 then parts[0]
    else parts[0] + sep + Join(sep, parts[1..])
  }

  /** Replacing a pattern that does not occur leaves the text as it was. */
  lemma {:induction false} ReplaceWithoutOccurrence(s: string, pat: string, rep: string)
    requires pat != []
    requires forall k: nat :: k < |s| ==> !OccursAt(s, pat, k)
    ensures Replace(s, pat, rep) == s
  {
    if s != [] {
      assert !OccursAt(s, pat, 0);
      assert !StartsWith(s, pat);
      forall k: nat | k < |s[1..]|
        ensures !OccursAt(s[1..], pat, k)
      {
        assert !OccursAt(s, pat, k + 1);
        if k + |pat| <= |s[1..]| {
          assert s[1..][k..k + |pat|] == s[k + 1..k + 1 + |pat|];
        }
      }
      ReplaceWithoutOccurrence(s[1..], pat, rep);
    }
  }

  /** A text whose first character cannot start the pattern keeps that character. */
  lemma ReplaceKeepsFirst(p: string, q: string, pat: string, rep: string)
    requires pat != [] && p != [] && p[0] != pat[0]
    ensures Replace(p + q, pat, rep) == [p[0]] + Replace(p[1..] + q, pat, rep)
  {
    var s := p + q;
    assert s[0] == p[0];
    if |pat| <= |s| {
      assert s[..|pat|][0] == s[0];
    }
    assert s[1..] == p[1..] + q;
  }

  /** A prefix none of whose characters can start the pattern is copied unchanged. */
  lemma {:induction false} ReplaceSkipsPrefix(p: string, q: string, pat: string, rep: string)
    requires pat != []
    requires forall k :: 0 <= k < |p| ==> p[k] != pat[0]
    ensures Replace(p + q, pat, rep) == p + Replace(q, pat, rep)
  {
    if p != [] {
      var tail := p[1..];
      var r := Replace(q, pat, rep);
      calc {
        Replace(p + q, pat, rep);
        { ReplaceKeepsFirst(p, q, pat, rep); }
        [p[0]] + Replace(tail + q, pat, rep);
        { assert forall k :: 0 <= k < |tail| ==> tail[k] == p[k + 1];
          ReplaceSkipsPrefix(tail, q, pat, rep); }
        [p[0]] + (tail + r);
        { assert p == [p[0]] + tail; }
        p + r;
      }
    } else {
      assert p + q == q;
    }
  }

  /** An occurrence at the very start is replaced, and the scan resumes after it. */
  lemma ReplaceLeading(pat: string, q: string, rep: string)
    requires pat != []
    ensures Replace(pat + q, pat, rep) == rep + Replace(q, pat, rep)
  {
    var s := pat + q;
    assert s[..|pat|] == pat;
    assert s[|pat|..] == q;
  }

  /** `pat` occurs in `s` at `at` and nowhere else. */
  predicate OccursOnlyAt(s: string, pat: string, at: nat) {
    OccursAt(s, pat, at) && forall k: nat :: k < |s| && OccursAt(s, pat, k) ==> k == at
  }

  /** A leading part in which no occurrence of the pattern starts is copied unchanged. */
  lemma {:induction false} ReplaceNoStart(p: string, q: string, pat: string, rep: string)
    requires pat != []
    requires forall k: nat :: k < |p| ==> !OccursAt(p + q, pat, k)
    ensures Replace(p + q, pat, rep) == p + Replace(q, pat, rep)
  {
    if p != [] {
      var tail := p[1..];
      var r := Replace(q, pat, rep);
      assert Replace(p + q, pat, rep) == [p[0]] + Replace(tail + q, pat, rep) by {
        var s := p + q;
        assert !OccursAt(s, pat, 0);
        assert !StartsWith(s, pat);
        assert s[1..] == tail + q;
      }
      forall k: nat | k < |tail|
        ensures !OccursAt(tail + q, pat, k)
      {
        assert !OccursAt(p + q, pat, k + 1);
        if k + |pat| <= |tail + q| {
          assert (tail + q)[k..k + |pat|] == (p + q)[k + 1..k + 1 + |pat|];
        }
      }
      ReplaceNoStart(tail, q, pat, rep);
      calc {
        Replace(p + q, pat, rep);
        [p[0]] + Replace(tail + q, pat, rep);
        [p[0]] + (tail + r);
        { assert p == [p[0]] + tail; }
        p + r;
      }
    } else {
      assert p + q == q;
    }
  }

  /** An occurrence in the part after `a + pat` is an occurrence in the whole text. */
  lemma OccurrenceInTail(a: string, pat: string, b: string, k: nat)
    requires OccursAt(b, pat, k)
    ensures OccursAt(a + pat + b, pat, |a| + |pat| + k)
  {
    var s := a + pat + b;
    assert s[|a| + |pat|..] == b;
    assert s[|a| + |pat| + k..|a| + |pat| + k + |pat|] == b[k..k + |pat|];
  }

  /** A pattern that occurs exactly once is replaced there, and the rest of the text is kept. */
  lemma ReplaceOnlyOccurrence(a: string, pat: string, b: string, rep: string)
    requires pat != []
    requires OccursOnlyAt(a + pat + b, pat, |a|)
    ensures Replace(a + pat + b, pat, rep) == a + rep + b
  {
    assert a + pat + b == a + (pat + b);
    ReplaceNoStart(a, pat + b, pat, rep);
    ReplaceLeading(pat, b, rep);
    forall k: nat | k < |b|
      ensures !OccursAt(b, pat, k)
    {
      if OccursAt(b, pat, k) {
        OccurrenceInTail(a, pat, b, k);
      }
    }
    ReplaceWithoutOccurrence(b, pat, rep);
    calc {
      Replace(a + pat + b, pat, rep);
      a + Replace(pat + b, pat, rep);
      a + (rep + Replace(b, pat, rep));
      a + (rep + b);
    }
  }

  /** A text shorter than the pattern is left as it was. */
  lemma ReplaceShort(s: string, pat: string, rep: string)
    requires pat != [] && |s| < |pat|
    ensures Replace(s, pat, rep) == s
  {
    ReplaceWithoutOccurrence(s, pat, rep);
  }
}
