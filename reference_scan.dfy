/**
  The reference scan of rename_images.py: `re.findall` with the pattern
  `!\[.*?\]\((\.\/1[\/\\]([^)]+))\)`, written out as a left-to-right scanner.

  At each position the scanner tries `![`, then the shortest alt text (no
  newline, as `.` excludes it) after which `](./1` and a `/` or `\` follow,
  then the longest run of non-`)` characters (at least one, newlines
  allowed), then `)`. A hit resumes the search after its `)`; a miss
  resumes one position further on.
 */
module ReferenceScan {
  import opened Wrappers

  /**
    One hit: the captured reference (group 1), the captured file name
    (group 2), where its `![` starts and where the reference starts.
   */
  datatype RefMatch = RefMatch(ref: string, name: string, at: nat, refAt: nat)

  /** Index just past the closing `)`. */
  function End(m: RefMatch): nat {
    m.refAt + |m.ref| + 1
  }

  predicate IsSep(c: char) {
    c == '/' || c == '\\'
  }

  /** `m` is a genuine occurrence of `![alt](./1/<name>)` or `![alt](./1\<name>)` in `s`. */
  ghost predicate Located(s: string, m: RefMatch) {
    && m.at + 4 <= m.refAt
    && End(m) <= |s|
    && s[m.at] == '!' && s[m.at + 1] == '['
    && (forall t :: m.at + 2 <= t < m.refAt - 2 ==> s[t] != '\n')
    && s[m.refAt - 2] == ']' && s[m.refAt - 1] == '('
    && s[m.refAt..End(m) - 1] == m.ref
    && s[End(m) - 1] == ')'
    && (m.ref == "./1/" + m.name || m.ref == "./1\\" + m.name)
    && m.name != []
    && (forall t :: 0 <= t < |m.name| ==> m.name[t] != ')')
  }

  /** The first `)` at or after `j`, or `|s|` when there is none. */
  function CloseAfter(s: string, j: nat): (m: nat)
    requires j <= |s|
    ensures j <= m <= |s|
    ensures m < |s| ==> s[m] == ')'
    ensures forall t :: j <= t < m ==> s[t] != ')'
    decreases |s| - j
  {
    if j == |s| || s[j] == ')' then j else CloseAfter(s, j + 1)
  }

  /** The `](./1` + separator + name + `)` tail at `k`, as the index of its `)`. */
  function TailAt(s: string, k: nat): (r: Option<nat>)
    requires k <= |s|
    ensures r.Some? ==>
      && k + 7 <= r.value < |s|
      && s[k] == ']' && s[k + 1] == '(' && s[k + 2] == '.' && s[k + 3] == '/' && s[k + 4] == '1'
      && IsSep(s[k + 5]) && s[r.value] == ')'
      && forall t :: k + 6 <= t < r.value ==> s[t] != ')'
  {
    if k + 6 <= |s| && s[k] == ']' && s[k + 1] == '(' && s[k + 2] == '.' && s[k + 3] == '/' && s[k + 4] == '1'
      && IsSep(s[k + 5])
    then
      var m := CloseAfter(s, k + 6);
      if k + 6 < m < |s| then Some(m) else None
    else None
  }

  /** The lazy `.*?`: try the tail after the alt text `s[at + 2..k]`, else extend the alt by one character. */
  function AltFrom(s: string, at: nat, k: nat): (r: Option<RefMatch>)
    requires at + 2 <= k <= |s| && s[at] == '!' && s[at + 1] == '['
    requires forall t :: at + 2 <= t < k ==> s[t] != '\n'
    ensures r.Some? ==> Located(s, r.value) && r.value.at == at
    decreases |s| - k
  {
    match TailAt(s, k)
    case Some(close) =>
      var m := RefMatch(s[k + 2..close], s[k + 6..close], at, k + 2);
      assert m.ref == s[k + 2..k + 6] + m.name;
      assert s[k + 2..k + 6] == ['.', '/', '1', s[k + 5]];
      Some(m)
    case None =>
      if k < |s| && s[k] != '\n' then AltFrom(s, at, k + 1) else None
  }

  /** A match starting exactly at `i`. */
  function MatchAt(s: string, i: nat): (r: Option<RefMatch>)
    requires i <= |s|
    ensures r.Some? ==> Located(s, r.value) && r.value.at == i
  {
    if i + 2 <= |s| && s[i] == '!' && s[i + 1] == '[' then AltFrom(s, i, i + 2) else None
  }

  /** `re.findall` from position `i`: every hit in text order, duplicates included. */
  function FindAll(s: string, i: nat): (r: seq<RefMatch>)
    requires i <= |s|
    ensures forall j :: 0 <= j < |r| ==> Located(s, r[j]) && i <= r[j].at
    ensures forall j, j' :: 0 <= j < j' < |r| ==> End(r[j]) <= r[j'].at
    decreases |s| - i
  {
    if i == |s| then []
    else
      match MatchAt(s, i)
      case Some(m) => [m] + FindAll(s, End(m))
      case None => FindAll(s, i + 1)
  }

  /** `image_matches = re.findall(image_pattern, md_content)`. */
  function FindImageRefs(s: string): seq<RefMatch> {
    FindAll(s, 0)
  }

  /** `referenced_images = [match[1] for match in image_matches]`. */
  function ReferencedNames(ms: seq<RefMatch>): (names: seq<string>)
    ensures |names| == |ms| && forall j :: 0 <= j < |ms| ==> names[j] == ms[j].name
  {
    seq(|ms|, j requires 0 <= j < |ms| => ms[j].name)
  }

  /** While the alt text meets neither `]` nor a newline, the lazy match just extends it. */
  lemma {:induction false} AltSkips(s: string, at: nat, k: nat, k': nat)
    requires at + 2 <= k <= k' <= |s| && s[at] == '!' && s[at + 1] == '['
    requires forall t :: at + 2 <= t < k' ==> s[t] != '\n' && s[t] != ']'
    ensures AltFrom(s, at, k) == AltFrom(s, at, k')
    decreases k' - k
  {
    if k < k' {
      assert TailAt(s, k).None?;
      AltSkips(s, at, k + 1, k');
    }
  }

  /** Where no `](./1<sep>` tail can start, the lazy match finds nothing. */
  lemma {:induction false} AltFails(s: string, at: nat, k: nat)
    requires at + 2 <= k <= |s| && s[at] == '!' && s[at + 1] == '['
    requires forall t :: at + 2 <= t < k ==> s[t] != '\n'
    requires forall t :: k <= t <= |s| ==> TailAt(s, t).None?
    ensures AltFrom(s, at, k).None?
    decreases |s| - k
  {
    if k < |s| && s[k] != '\n' {
      AltFails(s, at, k + 1);
    }
  }

  /** A text with no `](./1<sep>...)` tail from `i` on holds no reference from `i` on. */
  lemma {:induction false} NoTailNoReference(s: string, i: nat)
    requires i <= |s|
    requires forall t :: i <= t <= |s| ==> TailAt(s, t).None?
    ensures FindAll(s, i) == []
    decreases |s| - i
  {
    if i < |s| {
      if i + 2 <= |s| && s[i] == '!' && s[i + 1] == '[' {
        AltFails(s, i, i + 2);
      }
      NoTailNoReference(s, i + 1);
    }
  }

  /** A text with no `!` from `i` on holds no reference from `i` on. */
  lemma {:induction false} NoBangNoReference(s: string, i: nat)
    requires i <= |s|
    requires forall t :: i <= t < |s| ==> s[t] != '!'
    ensures FindAll(s, i) == []
    decreases |s| - i
  {
    if i < |s| {
      NoBangNoReference(s, i + 1);
    }
  }

  /** A reference laid out at indices `at < k < close` of `s` is the match at `at`. */
  lemma {:induction false} FindsAt(s: string, at: nat, k: nat, close: nat)
    requires at + 2 <= k && k + 6 < close < |s|
    requires s[at] == '!' && s[at + 1] == '['
    requires forall t :: at + 2 <= t < k ==> s[t] != '\n' && s[t] != ']'
    requires s[k] == ']' && s[k + 1] == '(' && s[k + 2] == '.' && s[k + 3] == '/' && s[k + 4] == '1'
    requires IsSep(s[k + 5])
    requires forall t :: k + 6 <= t < close ==> s[t] != ')'
    requires s[close] == ')'
    ensures MatchAt(s, at) == Some(RefMatch(s[k + 2..close], s[k + 6..close], at, k + 2))
  {
    TailFound(s, k, close);
    AltFound(s, at, k, close);
    AltSkips(s, at, at + 2, k);
  }

  /** The `](./1<sep>name)` tail at `k`, with its `)` at `close`. */
  lemma TailFound(s: string, k: nat, close: nat)
    requires k + 6 < close < |s|
    requires s[k] == ']' && s[k + 1] == '(' && s[k + 2] == '.' && s[k + 3] == '/' && s[k + 4] == '1'
    requires IsSep(s[k + 5])
    requires forall t :: k + 6 <= t < close ==> s[t] != ')'
    requires s[close] == ')'
    ensures TailAt(s, k) == Some(close)
  {
    CloseAfterIs(s, k + 6, close);
  }

  /** Once the tail is found at `k`, the lazy match stops there. */
  lemma AltFound(s: string, at: nat, k: nat, close: nat)
    requires at + 2 <= k <= |s| && s[at] == '!' && s[at + 1] == '['
    requires forall t :: at + 2 <= t < k ==> s[t] != '\n'
    requires TailAt(s, k) == Some(close)
    ensures AltFrom(s, at, k) == Some(RefMatch(s[k + 2..close], s[k + 6..close], at, k + 2))
  {
  }

  /** A match at `i` is the next hit, and the scan goes on after it. */
  lemma HitAt(s: string, i: nat, m: RefMatch)
    requires i < |s| && MatchAt(s, i) == Some(m)
    ensures FindAll(s, i) == [m] + FindAll(s, End(m))
  {
  }

  lemma {:induction false} CloseAfterIs(s: string, j: nat, close: nat)
    requires j <= close < |s| && s[close] == ')'
    requires forall t :: j <= t < close ==> s[t] != ')'
    ensures CloseAfter(s, j) == close
    decreases close - j
  {
    if j < close {
      CloseAfterIs(s, j + 1, close);
    }
  }

  /** The text `pre` + `![alt](./1<sep>name)` + `post`. */
  function RefText(pre: string, alt: string, sep: char, name: string, post: string): string {
    pre + "![" + alt + "](./1" + [sep] + name + ")" + post
  }

  /** Where each part of `![alt](./1<sep>name)` lands in the concatenated text. */
  lemma ReferenceLayout(pre: string, alt: string, sep: char, name: string, post: string)
    ensures var s := RefText(pre, alt, sep, name, post);
      var k := |pre| + 2 + |alt|;
      && |s| == k + 7 + |name| + |post|
      && s[..|pre|] == pre
      && s[k + 7 + |name|..] == post
      && s[|pre|..|pre| + 2] == "!["
      && s[|pre| + 2..k] == alt
      && s[k..k + 6] == "](./1" + [sep]
      && s[k + 6..k + 6 + |name|] == name
      && s[k + 6 + |name|] == ')'
  {
    var s := RefText(pre, alt, sep, name, post);
    var k := |pre| + 2 + |alt|;
    var a := pre + "![" + alt;
    var b := "](./1" + [sep] + name + ")" + post;
    assert s == a + b;
    assert s[k..] == b;
    assert b[..6] == "](./1" + [sep];
    assert b[6..6 + |name|] == name;
    assert b[7 + |name|..] == post;
  }

  /** The slice-level form of `FindsReference`. */
  lemma {:induction false} FindsLaidOut(s: string, at: nat, alt: string, sep: char, name: string)
    requires forall t :: 0 <= t < |alt| ==> alt[t] != ']' && alt[t] != '\n'
    requires IsSep(sep)
    requires name != [] && forall t :: 0 <= t < |name| ==> name[t] != ')'
    requires at + 2 + |alt| + 7 + |name| <= |s|
    requires s[at..at + 2] == "!["
    requires s[at + 2..at + 2 + |alt|] == alt
    requires s[at + 2 + |alt|..at + 8 + |alt|] == "](./1" + [sep]
    requires s[at + 8 + |alt|..at + 8 + |alt| + |name|] == name
    requires s[at + 8 + |alt| + |name|] == ')'
    ensures MatchAt(s, at) == Some(RefMatch("./1" + [sep] + name, name, at, at + 4 + |alt|))
  {
    var k := at + 2 + |alt|;
    var close := k + 6 + |name|;
    LaidOutChars(s, at, alt, sep, name);
    FindsAt(s, at, k, close);
    assert s[k + 2..close] == "./1" + [sep] + name by {
      LaidOutRef(s, k, sep, name);
    }
  }

  /** The characters the scan looks at, read off the slices of a laid-out reference. */
  lemma LaidOutChars(s: string, at: nat, alt: string, sep: char, name: string)
    requires forall t :: 0 <= t < |alt| ==> alt[t] != ']' && alt[t] != '\n'
    requires forall t :: 0 <= t < |name| ==> name[t] != ')'
    requires at + 2 + |alt| + 7 + |name| <= |s|
    requires s[at..at + 2] == "!["
    requires s[at + 2..at + 2 + |alt|] == alt
    requires s[at + 2 + |alt|..at + 8 + |alt|] == "](./1" + [sep]
    requires s[at + 8 + |alt|..at + 8 + |alt| + |name|] == name
    ensures var k := at + 2 + |alt|;
      && s[at] == '!' && s[at + 1] == '['
      && (forall t :: at + 2 <= t < k ==> s[t] != '\n' && s[t] != ']')
      && s[k] == ']' && s[k + 1] == '(' && s[k + 2] == '.' && s[k + 3] == '/' && s[k + 4] == '1' && s[k + 5] == sep
      && (forall t :: k + 6 <= t < k + 6 + |name| ==> s[t] != ')')
  {
    var k := at + 2 + |alt|;
    var close := k + 6 + |name|;
    assert s[at] == s[at..at + 2][0] && s[at + 1] == s[at..at + 2][1];
    forall t | at + 2 <= t < k
      ensures s[t] != '\n' && s[t] != ']'
    {
      assert s[t] == s[at + 2..k][t - at - 2];
    }
    forall t | k + 6 <= t < close
      ensures s[t] != ')'
    {
      assert s[t] == s[k + 6..close][t - k - 6];
    }
    assert s[k] == s[k..k + 6][0] && s[k + 1] == s[k..k + 6][1] && s[k + 2] == s[k..k + 6][2];
    assert s[k + 3] == s[k..k + 6][3] && s[k + 4] == s[k..k + 6][4] && s[k + 5] == s[k..k + 6][5];
  }

  /** The captured reference of a laid-out reference is `./1<sep>name`. */
  lemma LaidOutRef(s: string, k: nat, sep: char, name: string)
    requires k + 6 + |name| <= |s|
    requires s[k..k + 6] == "](./1" + [sep]
    requires s[k + 6..k + 6 + |name|] == name
    ensures s[k + 2..k + 6 + |name|] == "./1" + [sep] + name
  {
    var close := k + 6 + |name|;
    assert s[k + 2..close] == s[k + 2..k + 6] + s[k + 6..close];
    assert s[k + 2..k + 6] == s[k..k + 6][2..] == ['.', '/', '1', sep];
  }

  /** No match starts at any position in `[i, j)`. */
  predicate NoMatchIn(s: string, i: nat, j: nat) {
    forall t: nat :: i <= t < j && t <= |s| ==> MatchAt(s, t).None?
  }

  /** The parts of `![alt](./1<sep>name)` have the shape the pattern takes whole. */
  predicate WellFormedRef(alt: string, sep: char, name: string) {
    && (forall t :: 0 <= t < |alt| ==> alt[t] != ']' && alt[t] != '\n')
    && IsSep(sep)
    && name != [] && (forall t :: 0 <= t < |name| ==> name[t] != ')')
  }

  /** A stretch of text without `!` holds no match. */
  lemma NoBangNoMatch(s: string, i: nat, j: nat)
    requires j <= |s|
    requires forall t :: i <= t < j ==> s[t] != '!'
    ensures NoMatchIn(s, i, j)
  {
  }

  /** The scan passes over a stretch where no match starts. */
  lemma {:induction false} SkipNoMatch(s: string, i: nat, j: nat)
    requires i <= j <= |s|
    requires NoMatchIn(s, i, j)
    ensures FindAll(s, i) == FindAll(s, j)
    decreases j - i
  {
    if i < j {
      SkipOne(s, i);
      SkipNoMatch(s, i + 1, j);
    }
  }

  /** Where no match starts at `i`, the scan moves on to `i + 1`. */
  lemma SkipOne(s: string, i: nat)
    requires i < |s| && MatchAt(s, i).None?
    ensures FindAll(s, i) == FindAll(s, i + 1)
  {
  }

  /** Where no match starts from `i` to the end, the scan finds nothing more. */
  lemma NoMatchToEnd(s: string, i: nat)
    requires i <= |s|
    requires NoMatchIn(s, i, |s|)
    ensures FindAll(s, i) == []
  {
    SkipNoMatch(s, i, |s|);
  }

  /** A lone reference, with no other match starting before or after it, is the only hit. */
  lemma {:induction false} FindsLoneReference(pre: string, alt: string, sep: char, name: string, post: string)
    requires WellFormedRef(alt, sep, name)
    requires NoMatchIn(RefText(pre, alt, sep, name, post), 0, |pre|)
    requires NoMatchIn(RefText(pre, alt, sep, name, post), |pre| + 9 + |alt| + |name|, |RefText(pre, alt, sep, name, post)|)
    ensures FindImageRefs(RefText(pre, alt, sep, name, post)) ==
      [RefMatch("./1" + [sep] + name, name, |pre|, |pre| + 4 + |alt|)]
  {
    var s := RefText(pre, alt, sep, name, post);
    var m := RefMatch("./1" + [sep] + name, name, |pre|, |pre| + 4 + |alt|);
    FindsReference(pre, alt, sep, name, post);
    assert End(m) == |pre| + 9 + |alt| + |name|;
    NoMatchToEnd(s, End(m));
    HitThen(s, m, End(m), []);
  }

  /** A slice of a suffix is a slice of the whole text. */
  lemma SliceOfSuffix(s: string, i: nat, t: string, x: nat, y: nat)
    requires i <= |s| && s[i..] == t && x <= y <= |t|
    ensures s[i + x..i + y] == t[x..y]
  {
    forall k | 0 <= k < y - x
      ensures s[i + x..i + y][k] == t[x..y][k]
    {
      assert s[i + x + k] == s[i..][x + k];
    }
  }

  /** Two references in a row: `![alt1](./1<sep1>name1)`, then `mid`, then `![alt2](./1<sep2>name2)`. */
  function TwoRefText(pre: string, alt1: string, sep1: char, name1: string, mid: string,
                      alt2: string, sep2: char, name2: string, post: string): string
  {
    RefText(pre, alt1, sep1, name1, mid + RefText([], alt2, sep2, name2, post))
  }

  /** The second reference of a `TwoRefText`, where it stands. */
  lemma SecondReferenceLayout(pre: string, alt1: string, sep1: char, name1: string, mid: string,
                              alt2: string, sep2: char, name2: string, post: string)
    ensures var s := TwoRefText(pre, alt1, sep1, name1, mid, alt2, sep2, name2, post);
      var at := |pre| + 9 + |alt1| + |name1| + |mid|;
      && at + 9 + |alt2| + |name2| + |post| == |s|
      && s[at..at + 2] == "!["
      && s[at + 2..at + 2 + |alt2|] == alt2
      && s[at + 2 + |alt2|..at + 8 + |alt2|] == "](./1" + [sep2]
      && s[at + 8 + |alt2|..at + 8 + |alt2| + |name2|] == name2
      && s[at + 8 + |alt2| + |name2|] == ')'
  {
    var inner := RefText([], alt2, sep2, name2, post);
    var s := TwoRefText(pre, alt1, sep1, name1, mid, alt2, sep2, name2, post);
    var end1 := |pre| + 9 + |alt1| + |name1|;
    var at := end1 + |mid|;
    ReferenceLayout(pre, alt1, sep1, name1, mid + inner);
    ReferenceLayout([], alt2, sep2, name2, post);
    assert s[at..] == inner by {
      assert s[end1..] == mid + inner;
      assert s[at..] == s[end1..][|mid|..];
    }
    SliceOfSuffix(s, at, inner, 0, 2);
    SliceOfSuffix(s, at, inner, 2, 2 + |alt2|);
    SliceOfSuffix(s, at, inner, 2 + |alt2|, 8 + |alt2|);
    SliceOfSuffix(s, at, inner, 8 + |alt2|, 8 + |alt2| + |name2|);
    assert s[at + 8 + |alt2| + |name2|] == inner[8 + |alt2| + |name2|];
  }

  /**
    A well-formed reference laid out at `at`, with no other match starting
    from `from` up to it or after it, is all the scan finds from `from`.
   */
  lemma {:induction false} FindsLaidOutAlone(s: string, from: nat, at: nat, alt: string, sep: char, name: string)
    requires WellFormedRef(alt, sep, name)
    requires from <= at && at + 9 + |alt| + |name| <= |s|
    requires s[at..at + 2] == "!["
    requires s[at + 2..at + 2 + |alt|] == alt
    requires s[at + 2 + |alt|..at + 8 + |alt|] == "](./1" + [sep]
    requires s[at + 8 + |alt|..at + 8 + |alt| + |name|] == name
    requires s[at + 8 + |alt| + |name|] == ')'
    requires NoMatchIn(s, from, at) && NoMatchIn(s, at + 9 + |alt| + |name|, |s|)
    ensures FindAll(s, from) == [RefMatch("./1" + [sep] + name, name, at, at + 4 + |alt|)]
  {
    var m := RefMatch("./1" + [sep] + name, name, at, at + 4 + |alt|);
    SkipNoMatch(s, from, at);
    FindsLaidOut(s, at, alt, sep, name);
    HitAt(s, at, m);
    NoMatchToEnd(s, End(m));
  }

  /** From the end of the first reference of a `TwoRefText`, the scan finds the second one alone. */
  lemma {:induction false} FindsSecondReference(pre: string, alt1: string, sep1: char, name1: string, mid: string,
                             alt2: string, sep2: char, name2: string, post: string)
    requires WellFormedRef(alt2, sep2, name2)
    requires var s := TwoRefText(pre, alt1, sep1, name1, mid, alt2, sep2, name2, post);
      var end1 := |pre| + 9 + |alt1| + |name1|;
      && end1 <= |s|
      && NoMatchIn(s, end1, end1 + |mid|)
      && NoMatchIn(s, end1 + |mid| + 9 + |alt2| + |name2|, |s|)
    ensures var end1 := |pre| + 9 + |alt1| + |name1|;
      FindAll(TwoRefText(pre, alt1, sep1, name1, mid, alt2, sep2, name2, post), end1) ==
      [RefMatch("./1" + [sep2] + name2, name2, end1 + |mid|, end1 + |mid| + 4 + |alt2|)]
  {
    var s := TwoRefText(pre, alt1, sep1, name1, mid, alt2, sep2, name2, post);
    var end1 := |pre| + 9 + |alt1| + |name1|;
    var at := end1 + |mid|;
    SecondReferenceLayout(pre, alt1, sep1, name1, mid, alt2, sep2, name2, post);
    FindsLaidOutAlone(s, end1, at, alt2, sep2, name2);
  }

  /**
    Two well-formed references with no other match starting before, between
    or after them are the two hits, in text order.
   */
  lemma {:induction false} FindsTwoReferences(pre: string, alt1: string, sep1: char, name1: string, mid: string,
                           alt2: string, sep2: char, name2: string, post: string)
    requires WellFormedRef(alt1, sep1, name1) && WellFormedRef(alt2, sep2, name2)
    requires var s := TwoRefText(pre, alt1, sep1, name1, mid, alt2, sep2, name2, post);
      var end1 := |pre| + 9 + |alt1| + |name1|;
      && NoMatchIn(s, 0, |pre|)
      && NoMatchIn(s, end1, end1 + |mid|)
      && NoMatchIn(s, end1 + |mid| + 9 + |alt2| + |name2|, |s|)
    ensures var end1 := |pre| + 9 + |alt1| + |name1|;
      FindImageRefs(TwoRefText(pre, alt1, sep1, name1, mid, alt2, sep2, name2, post)) ==
      [RefMatch("./1" + [sep1] + name1, name1, |pre|, |pre| + 4 + |alt1|)] +
      [RefMatch("./1" + [sep2] + name2, name2, end1 + |mid|, end1 + |mid| + 4 + |alt2|)]
  {
    var s := TwoRefText(pre, alt1, sep1, name1, mid, alt2, sep2, name2, post);
    var end1 := |pre| + 9 + |alt1| + |name1|;
    var m1 := RefMatch("./1" + [sep1] + name1, name1, |pre|, |pre| + 4 + |alt1|);
    var m2 := RefMatch("./1" + [sep2] + name2, name2, end1 + |mid|, end1 + |mid| + 4 + |alt2|);
    FindsFirstReference(pre, alt1, sep1, name1, mid, alt2, sep2, name2, post);
    FindsSecondReference(pre, alt1, sep1, name1, mid, alt2, sep2, name2, post);
    HitThen(s, m1, end1, [m2]);
  }

  /** The first reference of a `TwoRefText` is the match at `|pre|`. */
  lemma FindsFirstReference(pre: string, alt1: string, sep1: char, name1: string, mid: string,
                            alt2: string, sep2: char, name2: string, post: string)
    requires WellFormedRef(alt1, sep1, name1)
    ensures var s := TwoRefText(pre, alt1, sep1, name1, mid, alt2, sep2, name2, post);
      var m1 := RefMatch("./1" + [sep1] + name1, name1, |pre|, |pre| + 4 + |alt1|);
      && |pre| < |s| && MatchAt(s, |pre|) == Some(m1) && End(m1) == |pre| + 9 + |alt1| + |name1|
  {
    FindsReference(pre, alt1, sep1, name1, mid + RefText([], alt2, sep2, name2, post));
  }

  /** No match before the hit `m`, and the hits `ms` after it: the scan finds `m`, then `ms`. */
  lemma HitThen(s: string, m: RefMatch, end: nat, ms: seq<RefMatch>)
    requires m.at < |s| && MatchAt(s, m.at) == Some(m) && End(m) == end
    requires NoMatchIn(s, 0, m.at) && FindAll(s, end) == ms
    ensures FindImageRefs(s) == [m] + ms
  {
    SkipNoMatch(s, 0, m.at);
    HitAt(s, m.at, m);
  }

  /**
    A well-formed reference after `pre` is the hit found at `|pre|`, with the
    reference and name the pattern captures.
   */
  lemma {:induction false} FindsReference(pre: string, alt: string, sep: char, name: string, post: string)
    requires forall t :: 0 <= t < |alt| ==> alt[t] != ']' && alt[t] != '\n'
    requires IsSep(sep)
    requires name != [] && forall t :: 0 <= t < |name| ==> name[t] != ')'
    ensures var s := RefText(pre, alt, sep, name, post);
      var m := RefMatch("./1" + [sep] + name, name, |pre|, |pre| + 4 + |alt|);
      && End(m) + |post| == |s|
      && MatchAt(s, |pre|) == Some(m)
      && FindAll(s, |pre|) == [m] + FindAll(s, End(m))
  {
    var s := RefText(pre, alt, sep, name, post);
    ReferenceLayout(pre, alt, sep, name, post);
    FindsLaidOut(s, |pre|, alt, sep, name);
    HitAt(s, |pre|, RefMatch("./1" + [sep] + name, name, |pre|, |pre| + 4 + |alt|));
  }

  /** The text `![alt](./dir/name)`. */
  function DirRefText(alt: string, dir: string, name: string): string {
    "![" + alt + "](./" + dir + "/" + name + ")"
  }

  lemma DirRefLayout(alt: string, dir: string, name: string)
    ensures var s := DirRefText(alt, dir, name);
      var k := 2 + |alt|;
      && |s| == k + 6 + |dir| + |name|
      && s[..2] == "!["
      && s[2..k] == alt
      && s[k..k + 4] == "](./"
      && s[k + 4..] == dir + "/" + name + ")"
  {
    var s := DirRefText(alt, dir, name);
    var k := 2 + |alt|;
    assert s == ("![" + alt) + ("](./" + (dir + "/" + name + ")"));
    assert s[k..] == "](./" + (dir + "/" + name + ")");
  }

  /**
    The directory `1` is part of the pattern: a reference into any other
    directory, such as `2` or `10`, is not captured, however well formed.
   */
  lemma OtherDirectoryNotRecognised(alt: string, dir: string, name: string)
    requires forall t :: 0 <= t < |alt| ==> alt[t] != ']'
    requires forall t :: 0 <= t < |dir| ==> dir[t] != ']'
    requires forall t :: 0 <= t < |name| ==> name[t] != ']'
    requires !(dir != [] && dir[0] == '1' && (|dir| == 1 || IsSep(dir[1])))
    ensures FindImageRefs(DirRefText(alt, dir, name)) == []
  {
    var s := DirRefText(alt, dir, name);
    var k := 2 + |alt|;
    var rest := dir + "/" + name + ")";
    DirRefLayout(alt, dir, name);
    forall t | 0 <= t <= |s|
      ensures TailAt(s, t).None?
    {
      if t < k {
        if t >= 2 {
          assert s[t] == s[2..k][t - 2];
        } else {
          assert s[t] == s[..2][t];
        }
      } else if t == k {
        assert s[k + 4] == rest[0];
        if dir != [] && dir[0] == '1' {
          assert s[k + 5] == rest[1] == dir[1];
        }
      } else if t < k + 4 {
        assert s[t] == s[k..k + 4][t - k];
      } else if t < |s| {
        assert s[t] == rest[t - k - 4];
        if t - k - 4 < |dir| {
          assert rest[t - k - 4] == dir[t - k - 4];
        } else if t - k - 4 > |dir| && t - k - 4 < |dir| + 1 + |name| {
          assert rest[t - k - 4] == name[t - k - 5 - |dir|];
        }
      }
    }
    NoTailNoReference(s, 0);
  }
}
