/**
 * The primary course importer (`scripts/import-all-courses.ts`): the strict
 * line parser, the cleaning of department labels, the staging of unique
 * courses keyed by code and department, and the insertion pass with its
 * success and error counters.
 */
module ImportAllCourses {
  import opened Base
  import opened Text
  import opened Seqs
  import opened Types
  import opened CourseCode

  // ---------------------------------------------------------------------------
  // Parsing one catalogue line.
  //
  // Long form:  ^(.+?)\s+-\s+([A-Z]+\s+\d+[A-Z]*(?:\s+-\s+[A-Z]+)?)\s*$
  // Short form: ^([A-Z]+\s+\d+[A-Z]*)\s*$
  // The lazy name group ends at the first position from which the rest of the
  // pattern matches; each other repetition is maximal (see CourseCode).
  // ---------------------------------------------------------------------------

  /** A tag suffix `\s+-\s+[A-Z]+` at `s[i..c]`: dash at `a`, letters from `b`. */
  ghost predicate TagShape(s: string, i: nat, a: nat, b: nat, c: nat)
  {
    && i < a && a + 1 < b < c <= |s|
    && RunOf(s, i, a, Space) && s[a] == '-' && RunOf(s, a + 1, b, Space) && RunOf(s, b, c, Upper)
    && (c == |s| || !IsUpper(s[c]))
  }

  /** End of the tag suffix `\s+-\s+[A-Z]+` that starts at `i`, if one does. */
  function TagEnd(s: string, i: nat): (r: Option<nat>)
    requires i <= |s|
    ensures r.Some? ==> exists a: nat, b: nat :: TagShape(s, i, a, b, r.value)
  {
    var a := Span(s, i, Space);
    if a == i || a == |s| || s[a] != '-' then None
    else
      var b := Span(s, a + 1, Space);
      var c := Span(s, b, Upper);
      if b == a + 1 || c == b then None
      else
        assert TagShape(s, i, a, b, c);
        Some(c)
  }

  /**
   * How the part of the long form after the name matches when the name ends
   * at `k`: the dash, the code token `s[codeStart..codeEnd]`, and the end of
   * the second capture group (after the optional tag).
   */
  datatype LongMatch = LongMatch(dash: nat, codeStart: nat, codeEnd: nat, groupEnd: nat)

  /** `\s+-\s+(CODE(?:TAG)?)\s*$` matched at `k`. */
  function LongFormTail(s: string, k: nat): (r: Option<LongMatch>)
    requires k <= |s|
    ensures r.Some? ==>
      var m := r.value;
      && k < m.dash && m.dash + 1 < m.codeStart < m.codeEnd <= m.groupEnd <= |s|
      && RunOf(s, k, m.dash, Space) && s[m.dash] == '-' && RunOf(s, m.dash + 1, m.codeStart, Space)
      && IsCode(s[m.codeStart..m.codeEnd])
      && (m.groupEnd == m.codeEnd || TagEnd(s, m.codeEnd) == Some(m.groupEnd))
      && RunOf(s, m.groupEnd, |s|, Space)
  {
    var a := Span(s, k, Space);
    if a == k || a == |s| || s[a] != '-' then None
    else AfterDash(s, a)
  }

  /** `\s+(CODE(?:TAG)?)\s*$` after the dash at `a`. */
  function AfterDash(s: string, a: nat): (r: Option<LongMatch>)
    requires a < |s|
    ensures r.Some? ==>
      && a + 1 < r.value.codeStart <= |s| && RunOf(s, a + 1, r.value.codeStart, Space)
      && r == CodeTail(s, a, r.value.codeStart)
  {
    var b := Span(s, a + 1, Space);
    if b == a + 1 then None
    else CodeTail(s, a, b)
  }

  /** `(CODE(?:TAG)?)\s*$` at `b`, after the dash at `a`. */
  function CodeTail(s: string, a: nat, b: nat): (r: Option<LongMatch>)
    requires b <= |s|
    ensures r.Some? ==>
      var m := r.value;
      && m.dash == a && m.codeStart == b && b < m.codeEnd <= m.groupEnd <= |s|
      && IsCode(s[b..m.codeEnd])
      && (m.groupEnd == m.codeEnd || TagEnd(s, m.codeEnd) == Some(m.groupEnd))
      && RunOf(s, m.groupEnd, |s|, Space)
  {
    match CodeEnd(s, b)
    case None => None
    case Some(e) =>
      match GroupEnd(s, e)
      case None => None
      case Some(g) => Some(LongMatch(a, b, e, g))
  }

  /**
   * `(?:\s+-\s+[A-Z]+)?\s*$` after a code that ends at `e`: the end of the
   * tag when one is followed only by whitespace, else `e` itself when only
   * whitespace follows the code.
   */
  function GroupEnd(s: string, e: nat): (r: Option<nat>)
    requires e <= |s|
    ensures r.Some? ==> e <= r.value <= |s| && (r.value == e || TagEnd(s, e) == Some(r.value))
    ensures r.Some? ==> RunOf(s, r.value, |s|, Space)
  {
    var t := TagEnd(s, e);
    if t.Some? && Span(s, t.value, Space) == |s| then t
    else if Span(s, e, Space) == |s| then Some(e)
    else None
  }

  /** Every tag suffix of the pattern's shape is found, whatever the lengths of its whitespace runs. */
  lemma {:induction false} TagEndComplete(s: string, i: nat, a: nat, b: nat, c: nat)
    requires TagShape(s, i, a, b, c)
    ensures TagEnd(s, i) == Some(c)
  {
    SpanUnique(s, i, a, Space);
    assert IsUpper(s[b]);
    SpanUnique(s, a + 1, b, Space);
    SpanUnique(s, b, c, Upper);
  }

  /**
   * Conversely, every tail of the pattern's shape after `k` is found: runs of
   * whitespace of any length around the dash, a code followed by an optional
   * tag, and trailing whitespace up to the end. The match found is that one.
   */
  lemma {:induction false} LongFormTailComplete(s: string, k: nat, a: nat, b: nat, e: nat, g: nat)
    requires k < a && a + 1 < b < e <= g <= |s|
    requires RunOf(s, k, a, Space) && s[a] == '-' && RunOf(s, a + 1, b, Space)
    requires IsCode(s[b..e])
    requires g == e || exists a': nat, b': nat :: TagShape(s, e, a', b', g)
    requires RunOf(s, g, |s|, Space)
    ensures LongFormTail(s, k) == Some(LongMatch(a, b, e, g))
  {
    SpanUnique(s, k, a, Space);
    CodeChars(s[b..e]);
    assert s[b..e][0] == s[b];
    SpanUnique(s, a + 1, b, Space);
    if g == e {
      assert e == |s| || IsSpace(s[e]);
      GroupEndUntagged(s, e);
    } else {
      var a': nat, b': nat :| TagShape(s, e, a', b', g);
      assert IsSpace(s[e]);
      GroupEndTagged(s, e, a', b', g);
    }
    CodeEndComplete(s, b, e);
    DashDecided(s, k, a);
    SpacesDecided(s, a, b);
    CodeTailDecided(s, a, b, e, g);
  }

  /** The tail matcher's three decisions, each once its inputs are known. */
  lemma {:induction false} DashDecided(s: string, k: nat, a: nat)
    requires k < a < |s| && Span(s, k, Space) == a && s[a] == '-'
    ensures LongFormTail(s, k) == AfterDash(s, a)
  {
  }

  lemma {:induction false} SpacesDecided(s: string, a: nat, b: nat)
    requires a + 1 < b <= |s| && Span(s, a + 1, Space) == b
    ensures AfterDash(s, a) == CodeTail(s, a, b)
  {
  }

  lemma {:induction false} CodeTailDecided(s: string, a: nat, b: nat, e: nat, g: nat)
    requires b <= |s| && CodeEnd(s, b) == Some(e) && GroupEnd(s, e) == Some(g)
    ensures CodeTail(s, a, b) == Some(LongMatch(a, b, e, g))
  {
  }

  /** With only whitespace after the code, the group ends with the code. */
  lemma {:induction false} GroupEndUntagged(s: string, e: nat)
    requires e <= |s| && RunOf(s, e, |s|, Space)
    ensures GroupEnd(s, e) == Some(e)
  {
    SpanUnique(s, e, |s|, Space);
  }

  /** With a tag followed only by whitespace, the group ends with the tag. */
  lemma {:induction false} GroupEndTagged(s: string, e: nat, a: nat, b: nat, g: nat)
    requires TagShape(s, e, a, b, g) && RunOf(s, g, |s|, Space)
    ensures GroupEnd(s, e) == Some(g)
  {
    TagEndComplete(s, e, a, b, g);
    SpanUnique(s, g, |s|, Space);
  }

  /** The long form matches with the name group `s[..k]` (which `.` must match throughout). */
  predicate LongFormAt(s: string, k: nat)
  {
    && 1 <= k <= |s|
    && (forall m | 0 <= m < k :: !IsLineTerminator(s[m]))
    && LongFormTail(s, k).Some?
  }

  /** The end of the lazy name group: the least `k' >= k` at which the long form matches. */
  function FirstNameEnd(s: string, k: nat): (r: Option<nat>)
    requires 1 <= k
    requires forall m | 0 <= m < k - 1 && m < |s| :: !IsLineTerminator(s[m])
    ensures r.Some? ==> k <= r.value && LongFormAt(s, r.value)
    ensures forall k' | k <= k' && (r.None? || k' < r.value) :: !LongFormAt(s, k')
    decreases |s| + 1 - k
  {
    if k > |s| then None
    else if IsLineTerminator(s[k - 1]) then
      TerminatorEndsName(s, k);
      None
    else if LongFormTail(s, k).Some? then
      NameEndHere(s, k);
      Some(k)
    else
      var r := FirstNameEnd(s, k + 1);
      NoNameEndAt(s, k, r);
      r
  }

  /** The long form matches at `k` when its tail does and no line terminator comes first. */
  lemma {:induction false} NameEndHere(s: string, k: nat)
    requires 1 <= k <= |s| && !IsLineTerminator(s[k - 1]) && LongFormTail(s, k).Some?
    requires forall m | 0 <= m < k - 1 :: !IsLineTerminator(s[m])
    ensures LongFormAt(s, k)
  {
  }

  /** A name end that is not at `k` and not between `k + 1` and `r` is not between `k` and `r`. */
  lemma {:induction false} NoNameEndAt(s: string, k: nat, r: Option<nat>)
    requires !LongFormAt(s, k)
    requires forall k' | k + 1 <= k' && (r.None? || k' < r.value) :: !LongFormAt(s, k')
    ensures forall k' | k <= k' && (r.None? || k' < r.value) :: !LongFormAt(s, k')
  {
  }

  /** `.` stops at a line terminator, so no name group reaches past one. */
  lemma {:induction false} TerminatorEndsName(s: string, k: nat)
    requires 1 <= k <= |s| && IsLineTerminator(s[k - 1])
    ensures forall k' | k <= k' :: !LongFormAt(s, k')
  {
    forall k' | k <= k'
      ensures !LongFormAt(s, k')
    {
      assert IsLineTerminator(s[k - 1]);
    }
  }

  /** The first position at or after `p` where `\s+-\s+[A-Z]+$` matches. */
  function TagStart(g: string, p: nat): (r: Option<nat>)
    requires p <= |g|
    ensures r.Some? ==> p <= r.value <= |g| && TagEnd(g, r.value) == Some(|g|)
    ensures forall q | p <= q <= |g| && (r.None? || q < r.value) :: TagEnd(g, q) != Some(|g|)
    decreases |g| - p
  {
    if TagEnd(g, p) == Some(|g|) then Some(p)
    else if p == |g| then None
    else TagStart(g, p + 1)
  }

  /** `g.replace(/\s+-\s+[A-Z]+$/, '')` */
  function StripTag(g: string): (r: string)
    ensures |r| <= |g| && r == g[..|r|]
  {
    match TagStart(g, 0)
    case Some(p) => g[..p]
    case None => g
  }

  /** The code token of the short form, when the whole line is a code plus trailing whitespace. */
  function ShortFormCode(line: string): (r: Option<string>)
    ensures r.Some? ==> IsCode(r.value) && |r.value| <= |line| && line[..|r.value|] == r.value
    ensures r.Some? ==> RunOf(line, |r.value|, |line|, Space)
  {
    match CodeEnd(line, 0)
    case None => None
    case Some(e) => if Span(line, e, Space) == |line| then Some(line[..e]) else None
  }

  datatype ParsedCourse = ParsedCourse(code: string, name: string)

  /** No tag suffix starts inside a code at the front of `g`. */
  lemma {:induction false} NoTagInCode(g: string, n: nat, q: nat)
    requires q < n <= |g| && !IsSpace(g[n - 1])
    requires forall m | 0 <= m < n :: IsUpper(g[m]) || IsSpace(g[m]) || IsDigit(g[m])
    ensures TagEnd(g, q) != Some(|g|)
  {
    SpanStopsBefore(g, q, n, Space);
  }

  /**
   * Removing the tag from the second capture group leaves exactly the code
   * token: the tag pattern cannot match inside the code, and it matches the
   * tag itself when there is one.
   */
  lemma {:induction false} StripTagGroup(s: string, cs: nat, ce: nat, ge: nat)
    requires cs < ce <= ge <= |s| && IsCode(s[cs..ce])
    requires ge == ce || TagEnd(s, ce) == Some(ge)
    ensures StripTag(s[cs..ge]) == s[cs..ce]
  {
    if ge != ce {
      StripTagTagged(s, cs, ce, ge);
    } else {
      NoTagInGroupCode(s, cs, ce, ge);
      StripTagNone(s[cs..ge]);
    }
  }

  /** The tagged case: the tag found is the one after the code. */
  lemma {:induction false} StripTagTagged(s: string, cs: nat, ce: nat, ge: nat)
    requires cs < ce < ge <= |s| && IsCode(s[cs..ce]) && TagEnd(s, ce) == Some(ge)
    ensures StripTag(s[cs..ge]) == s[cs..ce]
  {
    var g := s[cs..ge];
    var n := ce - cs;
    NoTagInGroupCode(s, cs, ce, ge);
    TagInGroup(s, cs, ce, ge);
    StripTagAt(g, n);
    assert g[..n] == s[cs..ce];
  }

  /** With the leftmost tag at `n`, removing it keeps `g[..n]`. */
  lemma {:induction false} StripTagAt(g: string, n: nat)
    requires n <= |g| && TagEnd(g, n) == Some(|g|)
    requires forall q | 0 <= q < n :: TagEnd(g, q) != Some(|g|)
    ensures StripTag(g) == g[..n]
  {
    TagStartIs(g, n);
  }

  /** Without a tag, removing it changes nothing. */
  lemma {:induction false} StripTagNone(g: string)
    requires forall q | 0 <= q < |g| :: TagEnd(g, q) != Some(|g|)
    ensures StripTag(g) == g
  {
    assert TagEnd(g, |g|).None?;
  }

  /** No tag suffix that runs to the end of the group starts inside its leading code. */
  lemma {:induction false} NoTagInGroupCode(s: string, cs: nat, ce: nat, ge: nat)
    requires cs < ce <= ge <= |s| && IsCode(s[cs..ce])
    ensures forall q | 0 <= q < ce - cs :: TagEnd(s[cs..ge], q) != Some(|s[cs..ge]|)
  {
    var g := s[cs..ge];
    var n := ce - cs;
    CodeChars(s[cs..ce]);
    assert forall m | 0 <= m < n :: g[m] == s[cs..ce][m];
    forall q | 0 <= q < n ensures TagEnd(g, q) != Some(|g|) {
      NoTagInCode(g, n, q);
    }
  }

  /** The tag after the code is, inside the group, the tag that runs to the group's end. */
  lemma {:induction false} TagInGroup(s: string, cs: nat, ce: nat, ge: nat)
    requires cs < ce < ge <= |s| && TagEnd(s, ce) == Some(ge)
    ensures TagEnd(s[cs..ge], ce - cs) == Some(|s[cs..ge]|)
  {
    var g := s[cs..ge];
    var a := Span(s, ce, Space);
    var b := Span(s, a + 1, Space);
    assert a != ce && a < |s| && s[a] == '-' && b != a + 1 && Span(s, b, Upper) == ge;
    SpanInSlice(s, cs, ge, ce, Space);
    SpanInSlice(s, cs, ge, a + 1, Space);
    SpanInSlice(s, cs, ge, b, Upper);
    assert g[a - cs] == s[a];
  }

  /** The leftmost tag position is `n` when a tag runs to the end from `n` and from no earlier position. */
  lemma {:induction false} TagStartIs(g: string, n: nat)
    requires n <= |g| && TagEnd(g, n) == Some(|g|)
    requires forall q | 0 <= q < n :: TagEnd(g, q) != Some(|g|)
    ensures TagStart(g, 0) == Some(n)
  {
  }

  /** The lazy name group ends at `k`: the long form matches there and at no earlier end. */
  ghost predicate LeastNameEnd(s: string, k: nat)
  {
    LongFormAt(s, k) && forall k' | 1 <= k' < k :: !LongFormAt(s, k')
  }

  /**
   * `parseCourseLine`: the long form first, then the short form, else nothing.
   * A long-form match gives the name before the lazy group's end, trimmed, and
   * the code token without its tag; otherwise a short-form line is its own
   * code and name.
   */
  function ParseCourseLine(line: string): (r: Option<ParsedCourse>)
    ensures r.Some? ==> IsCode(r.value.code) && IsTrimmed(r.value.name)
    ensures r.Some? ==> exists i: nat :: OccursAt(line, r.value.code, i)
    ensures r.Some? <==> (exists k :: LongFormAt(line, k)) || ShortFormCode(line).Some?
    ensures forall k: nat | LeastNameEnd(line, k) ::
      var m := LongFormTail(line, k).value;
      r == Some(ParsedCourse(line[m.codeStart..m.codeEnd], Trim(line[..k])))
    ensures (forall k: nat :: !LongFormAt(line, k)) ==>
      r == match ShortFormCode(line) case Some(c) => Some(ParsedCourse(c, c)) case None => None
  {
    LongFormSomewhere(line);
    match FirstNameEnd(line, 1)
    case Some(k) =>
      var m := LongFormTail(line, k).value;
      LongFormCode(line, m.codeStart, m.codeEnd, m.groupEnd);
      LeastNameEndIs(line, k);
      Some(ParsedCourse(Trim(StripTag(line[m.codeStart..m.groupEnd])), Trim(line[..k])))
    case None =>
      match ShortFormCode(line)
      case Some(code) =>
        ShortFormIsCode(line);
        Some(ParsedCourse(Trim(code), Trim(code)))
      case None => None
  }

  /** The end the lazy search finds is the only least name end. */
  lemma {:induction false} LeastNameEndIs(line: string, k: nat)
    requires FirstNameEnd(line, 1) == Some(k)
    ensures forall k': nat | LeastNameEnd(line, k') :: k' == k
  {
  }

  /** The long form matches somewhere exactly when the lazy name group finds an end. */
  lemma {:induction false} LongFormSomewhere(line: string)
    ensures (exists k :: LongFormAt(line, k)) <==> FirstNameEnd(line, 1).Some?
  {
    if FirstNameEnd(line, 1).None? {
      forall k ensures !LongFormAt(line, k) {
        if 1 <= k {
          assert !LongFormAt(line, k);
        }
      }
    }
  }

  /** The code the long form yields is the matched code token, trimmed and in place. */
  lemma {:induction false} LongFormCode(line: string, cs: nat, ce: nat, ge: nat)
    requires cs < ce <= ge <= |line| && IsCode(line[cs..ce])
    requires ge == ce || TagEnd(line, ce) == Some(ge)
    ensures var code := Trim(StripTag(line[cs..ge]));
      && code == line[cs..ce]
      && IsCode(code)
      && OccursAt(line, code, cs)
  {
    StripTrimGroup(line, cs, ce, ge);
    SliceOccurs(line, cs, ce);
  }

  /** A slice occurs where it was cut from. */
  lemma {:induction false} SliceOccurs(s: string, i: nat, j: nat)
    requires i <= j <= |s|
    ensures OccursAt(s, s[i..j], i)
  {
    assert |s[i..j]| == j - i;
  }

  /** Stripping the tag and trimming leaves exactly the code token. */
  lemma {:induction false} StripTrimGroup(line: string, cs: nat, ce: nat, ge: nat)
    requires cs < ce <= ge <= |line| && IsCode(line[cs..ce])
    requires ge == ce || TagEnd(line, ce) == Some(ge)
    ensures Trim(StripTag(line[cs..ge])) == line[cs..ce]
  {
    StripTagGroup(line, cs, ce, ge);
    CodeIsTrimmed(line[cs..ce]);
    TrimTrimmed(line[cs..ce]);
  }

  /** The short form's code is a trimmed code at the start of the line. */
  lemma {:induction false} ShortFormIsCode(line: string)
    requires ShortFormCode(line).Some?
    ensures var code := ShortFormCode(line).value;
      Trim(code) == code && IsCode(code) && OccursAt(line, code, 0)
  {
    var code := ShortFormCode(line).value;
    CodeIsTrimmed(code);
    TrimTrimmed(code);
  }

  /** The optional ` - TAG` suffix of a long-form line; empty when there is no tag. */
  function TagSuffix(tag: string): string
  {
    if tag == "" then "" else " - " + tag
  }

  /** The separator ` - ` after a non-empty name leads to the first letter of the code. */
  lemma {:induction false} SeparatorAfterName(line: string, n: nat)
    requires n + 3 < |line|
    requires line[n] == ' ' && line[n + 1] == '-' && line[n + 2] == ' ' && IsUpper(line[n + 3])
    ensures Span(line, n, Space) == n + 1 && Span(line, n + 2, Space) == n + 3
  {
    SpanUnique(line, n, n + 1, Space);
    SpanUnique(line, n + 2, n + 3, Space);
  }

  /** A ` - TAG` suffix that runs to the end of the line is the tag `TagEnd` finds. */
  lemma {:induction false} TagAtEnd(line: string, ce: nat)
    requires ce + 3 < |line|
    requires line[ce] == ' ' && line[ce + 1] == '-' && line[ce + 2] == ' '
    requires forall m | ce + 3 <= m < |line| :: IsUpper(line[m])
    ensures TagEnd(line, ce) == Some(|line|)
  {
    SpanUnique(line, ce, ce + 1, Space);
    SpanUnique(line, ce + 2, ce + 3, Space);
    SpanUnique(line, ce + 3, |line|, Upper);
  }

  /** The layout `... - CODE` or `... - CODE - TAG` after position `n`, with the code at `line[n + 3..ce]`. */
  predicate LongLayout(line: string, n: nat, ce: nat)
  {
    && n + 3 < ce <= |line|
    && line[n] == ' ' && line[n + 1] == '-' && line[n + 2] == ' '
    && (ce == |line|
        || (&& ce + 3 < |line| && line[ce] == ' ' && line[ce + 1] == '-' && line[ce + 2] == ' '
            && forall m | ce + 3 <= m < |line| :: IsUpper(line[m])))
  }

  /** In that layout the tail of the long form matches right after position `n`. */
  lemma {:induction false} LongTailAt(line: string, n: nat, ce: nat)
    requires LongLayout(line, n, ce) && IsCode(line[n + 3..ce])
    ensures LongFormTail(line, n) == Some(LongMatch(n + 1, n + 3, ce, |line|))
  {
    CodeChars(line[n + 3..ce]);
    assert line[n + 3] == line[n + 3..ce][0];
    SeparatorAfterName(line, n);
    if ce < |line| {
      LongTailTagged(line, n, ce);
    } else {
      LongTailUntagged(line, n, ce);
    }
  }

  /** The layout without a tag: the code runs to the end of the line. */
  lemma {:induction false} LongTailUntagged(line: string, n: nat, ce: nat)
    requires LongLayout(line, n, ce) && IsCode(line[n + 3..ce]) && ce == |line|
    requires Span(line, n, Space) == n + 1 && Span(line, n + 2, Space) == n + 3
    ensures LongFormTail(line, n) == Some(LongMatch(n + 1, n + 3, ce, |line|))
  {
    CodeEndComplete(line, n + 3, ce);
  }

  /** The layout with a tag that runs to the end of the line. */
  lemma {:induction false} LongTailTagged(line: string, n: nat, ce: nat)
    requires LongLayout(line, n, ce) && IsCode(line[n + 3..ce]) && ce < |line|
    requires Span(line, n, Space) == n + 1 && Span(line, n + 2, Space) == n + 3
    ensures LongFormTail(line, n) == Some(LongMatch(n + 1, n + 3, ce, |line|))
  {
    CodeEndComplete(line, n + 3, ce);
    TagAtEnd(line, ce);
  }

  /** The least name end is `n` when the long form matches there and nowhere before. */
  lemma {:induction false} FirstNameEndIs(s: string, n: nat)
    requires LongFormAt(s, n)
    requires forall k | 1 <= k < n :: !LongFormAt(s, k)
    ensures FirstNameEnd(s, 1) == Some(n)
  {
    var r := FirstNameEnd(s, 1);
    assert r.Some?;
    assert n <= r.value;
    assert !(r.value < n);
  }

  /** A line whose first `n` characters have no dash, ending in a non-space, has no long-form name end before `n`. */
  lemma {:induction false} NoNameEndBefore(line: string, n: nat)
    requires 0 < n <= |line| && !IsSpace(line[n - 1])
    requires forall m | 0 <= m < n :: line[m] != '-'
    ensures forall k | 1 <= k < n :: !LongFormAt(line, k)
  {
    forall k | 1 <= k < n ensures !LongFormAt(line, k) {
      SpanStopsBefore(line, k, n, Space);
    }
  }

  /**
   * A long-form line whose name group can end no earlier than `n` parses into
   * the code at `line[n + 3..ce]` and the trimmed `line[..n]`; the name may
   * itself hold dashes.
   */
  lemma {:induction false} ParseLongLine(line: string, n: nat, ce: nat)
    requires LongLayout(line, n, ce) && IsCode(line[n + 3..ce])
    requires 0 < n && forall m | 0 <= m < n :: !IsLineTerminator(line[m])
    requires forall k | 1 <= k < n :: !LongFormAt(line, k)
    ensures ParseCourseLine(line) == Some(ParsedCourse(line[n + 3..ce], Trim(line[..n])))
  {
    LongTailAt(line, n, ce);
    assert LeastNameEnd(line, n);
  }

  /**
   * A well-formed long-form line `<name> - <code>` or `<name> - <code> - <TAG>`,
   * whose name has no dash, is parsed into that code (without the tag) and the
   * trimmed name.
   */
  lemma {:induction false} ParseLongForm(name: string, code: string, tag: string)
    requires |name| > 0 && !IsSpace(name[|name| - 1])
    requires forall m | 0 <= m < |name| :: name[m] != '-' && !IsLineTerminator(name[m])
    requires IsCode(code)
    requires forall m | 0 <= m < |tag| :: IsUpper(tag[m])
    ensures ParseCourseLine(name + " - " + code + TagSuffix(tag)) == Some(ParsedCourse(code, Trim(name)))
  {
    var line := name + " - " + code + TagSuffix(tag);
    var n, ce := |name|, |name| + 3 + |code|;
    LongFormLine(name, code, tag, line, n, ce);
    NoNameEndBefore(line, n);
    ParseLongLine(line, n, ce);
  }

  /** The pieces of a composed long-form line sit where `ParseLongLine` expects them. */
  lemma {:induction false} LongFormLine(name: string, code: string, tag: string, line: string, n: nat, ce: nat)
    requires line == name + " - " + code + TagSuffix(tag) && n == |name| && ce == n + 3 + |code|
    requires |name| > 0 && !IsSpace(name[|name| - 1])
    requires forall m | 0 <= m < |name| :: name[m] != '-' && !IsLineTerminator(name[m])
    requires IsCode(code)
    requires forall m | 0 <= m < |tag| :: IsUpper(tag[m])
    ensures line[..n] == name && line[n + 3..ce] == code
    ensures LongLayout(line, n, ce) && IsCode(line[n + 3..ce])
    ensures 0 < n && !IsSpace(line[n - 1])
    ensures forall m | 0 <= m < n :: line[m] != '-' && !IsLineTerminator(line[m])
  {
    CodeChars(code);
    assert line[..n] == name;
    assert line[n + 3..ce] == code;
    if tag != "" {
      assert line[ce..] == " - " + tag;
      SuffixChars(line, ce, " - " + tag);
    }
  }

  /** A line without a dash has no long-form match. */
  lemma {:induction false} NoDashNoLongForm(line: string)
    requires forall m | 0 <= m < |line| :: line[m] != '-'
    ensures FirstNameEnd(line, 1).None?
  {
  }

  /** A bare code, possibly followed by whitespace, is both the code and the name. */
  lemma {:induction false} ParseShortForm(code: string, ws: string)
    requires IsCode(code) && AllSpace(ws)
    ensures ParseCourseLine(code + ws) == Some(ParsedCourse(code, code))
  {
    var line := code + ws;
    CodeChars(code);
    assert forall m | 0 <= m < |line| :: line[m] != '-';
    NoDashNoLongForm(line);
    assert line[..|code|] == code;
    CodeEndComplete(line, 0, |code|);
    SpanUnique(line, |code|, |line|, Space);
    CodeIsTrimmed(code);
    TrimTrimmed(code);
  }

  /** A code occurring in a line puts a digit in it. */
  lemma {:induction false} CodeBringsDigit(line: string, code: string, i: nat)
    requires IsCode(code) && OccursAt(line, code, i)
    ensures exists m | 0 <= m < |line| :: IsDigit(line[m])
  {
    var a: nat, b: nat, c: nat :| CodeShape(code, a, b, c);
    assert InClass(code[b], Digit);
    assert line[i + b] == code[b];
  }

  /** A line without a digit holds no code, so it is rejected. */
  lemma {:induction false} ParseNeedsDigit(line: string)
    requires forall m | 0 <= m < |line| :: !IsDigit(line[m])
    ensures ParseCourseLine(line) == None
  {
    var r := ParseCourseLine(line);
    if r.Some? {
      var i :| OccursAt(line, r.value.code, i);
      CodeBringsDigit(line, r.value.code, i);
    }
  }

  /** A course name with no dash, no line terminator and no surrounding whitespace. */
  ghost predicate PlainName(name: string)
  {
    && |name| > 0 && IsTrimmed(name)
    && forall m | 0 <= m < |name| :: name[m] != '-' && !IsLineTerminator(name[m])
  }

  /** A long-form line with a plain name gives back that name unchanged. */
  lemma {:induction false} ParsePlainName(name: string, code: string, tag: string)
    requires PlainName(name) && IsCode(code)
    requires forall m | 0 <= m < |tag| :: IsUpper(tag[m])
    ensures ParseCourseLine(name + " - " + code + TagSuffix(tag)) == Some(ParsedCourse(code, name))
  {
    ParseLongForm(name, code, tag);
    TrimTrimmed(name);
  }

  lemma {:induction false} IntroIsPlain(name: string)
    requires name == "Intro to Programming"
    ensures PlainName(name)
  {
  }

  lemma {:induction false} CalculusIsPlain(name: string)
    requires name == "Calculus I"
    ensures PlainName(name)
  {
  }

  lemma {:induction false} HonorsTag(tag: string)
    requires tag == "HON"
    ensures TagSuffix(tag) == " - " + tag
    ensures forall m | 0 <= m < |tag| :: IsUpper(tag[m])
  {
  }

  /** `"Intro to Programming - COMP 163"` gives code `"COMP 163"` and name `"Intro to Programming"`. */
  lemma {:induction false} ParseExample(line: string)
    requires line == "Intro to Programming - COMP 163"
    ensures ParseCourseLine(line) == Some(ParsedCourse("COMP 163", "Intro to Programming"))
  {
    var name, code := "Intro to Programming", "COMP 163";
    IntroIsPlain(name);
    assert CodeShape(code, 4, 5, 8);
    assert line == name + " - " + code + TagSuffix("");
    ParsePlainName(name, code, "");
  }

  /** A trailing tag is dropped from the code: `"Calculus I - MATH 131 - HON"` gives `"MATH 131"`. */
  lemma {:induction false} ParseTaggedExample(line: string)
    requires line == "Calculus I - MATH 131 - HON"
    ensures ParseCourseLine(line) == Some(ParsedCourse("MATH 131", "Calculus I"))
  {
    var name, code, tag := "Calculus I", "MATH 131", "HON";
    CalculusIsPlain(name);
    HonorsTag(tag);
    assert CodeShape(code, 4, 5, 8);
    assert line == name + " - " + code + TagSuffix(tag);
    ParsePlainName(name, code, tag);
  }

  /**
   * The lazy name group stops at the last separator that leaves a code behind
   * it: `"A - B - COMP 1"` gives the name `"A - B"` and the code `"COMP 1"`.
   */
  lemma {:induction false} ParseDashedNameExample(line: string)
    requires line == "A - B - COMP 1"
    ensures ParseCourseLine(line) == Some(ParsedCourse("COMP 1", "A - B"))
  {
    DashedNameLayout(line);
    DashedNameNoEarlierEnd(line);
    ParseLongLineAs(line, 5, 14, "A - B", "COMP 1");
  }

  /** `ParseLongLine` with the name and the code read off the line. */
  lemma {:induction false} ParseLongLineAs(line: string, n: nat, ce: nat, name: string, code: string)
    requires LongLayout(line, n, ce) && IsCode(line[n + 3..ce])
    requires 0 < n && forall m | 0 <= m < n :: !IsLineTerminator(line[m])
    requires forall k | 1 <= k < n :: !LongFormAt(line, k)
    requires line[..n] == name && IsTrimmed(name) && line[n + 3..ce] == code
    ensures ParseCourseLine(line) == Some(ParsedCourse(code, name))
  {
    ParseLongLine(line, n, ce);
    TrimTrimmed(name);
  }

  /** The pieces of `"A - B - COMP 1"`: name, separator and code. */
  lemma {:induction false} DashedNameLayout(line: string)
    requires line == "A - B - COMP 1"
    ensures LongLayout(line, 5, 14) && IsCode(line[8..14])
    ensures forall m | 0 <= m < 5 :: !IsLineTerminator(line[m])
    ensures line[..5] == "A - B" && line[8..14] == "COMP 1" && IsTrimmed("A - B")
  {
    assert CodeShape(line[8..14], 4, 5, 6);
  }

  /** In `"A - B - COMP 1"` no name group ends before the `B`. */
  lemma {:induction false} DashedNameNoEarlierEnd(line: string)
    requires line == "A - B - COMP 1"
    ensures forall k | 1 <= k < 5 :: !LongFormAt(line, k)
  {
    SpanUnique(line, 1, 2, Space);
    SpanUnique(line, 2, 2, Space);
    SpanUnique(line, 3, 4, Space);
    SpanUnique(line, 4, 4, Space);
    SpanUnique(line, 4, 5, Upper);
    SpanUnique(line, 5, 6, Space);
    SpanUnique(line, 6, 6, Digit);
  }

  // ---------------------------------------------------------------------------
  // Department labels and the department map.
  // ---------------------------------------------------------------------------

  predicate IsQuote(c: char)
  {
    c == '"' || c == '\''
  }

  /**
   * `label.replace(/^["']|["']$/g, '')`: one quote at the start and one at
   * the end are removed; a label that is a lone quote loses just that one.
   */
  function StripQuotes(raw: string): (r: string)
    ensures |raw| - 2 <= |r| <= |raw|
    ensures exists i: nat :: OccursAt(raw, r, i)
    ensures |r| == |raw| <==> |raw| == 0 || (!IsQuote(raw[0]) && !IsQuote(raw[|raw| - 1]))
    ensures |raw| > 0 && IsQuote(raw[0]) ==> OccursAt(raw, r, 1)
    ensures (|raw| == 0 || !IsQuote(raw[0])) ==> OccursAt(raw, r, 0)
    ensures |raw| > 1 && IsQuote(raw[|raw| - 1]) ==> EndsWith(raw[..|raw| - 1], r)
    ensures (|raw| == 0 || !IsQuote(raw[|raw| - 1])) ==> EndsWith(raw, r)
  {
    var start := if |raw| > 0 && IsQuote(raw[0]) then 1 else 0;
    var end := if |raw| > start && IsQuote(raw[|raw| - 1]) then |raw| - 1 else |raw|;
    assert OccursAt(raw, raw[start..end], start);
    raw[start..end]
  }

  /** The cleaned department label: quotes stripped, then trimmed. */
  function CleanLabel(raw: string): (r: string)
    ensures IsTrimmed(r)
  {
    Trim(StripQuotes(raw))
  }

  /** A label wrapped in quotes cleans to its trimmed inside. */
  lemma {:induction false} CleanQuotedLabel(q1: char, t: string, q2: char)
    requires IsQuote(q1) && IsQuote(q2)
    ensures CleanLabel([q1] + t + [q2]) == Trim(t)
  {
    assert ([q1] + t + [q2])[1..|t| + 1] == t;
  }

  /** A label that only starts with a quote loses that quote, then its surrounding whitespace. */
  lemma {:induction false} CleanLeadingQuote(q: char, t: string)
    requires IsQuote(q) && (|t| == 0 || !IsQuote(t[|t| - 1]))
    ensures CleanLabel([q] + t) == Trim(t)
  {
    assert ([q] + t)[1..] == t;
  }

  /** A label that only ends with a quote loses that quote, then its surrounding whitespace. */
  lemma {:induction false} CleanTrailingQuote(t: string, q: char)
    requires IsQuote(q) && |t| > 0 && !IsQuote(t[0])
    ensures CleanLabel(t + [q]) == Trim(t)
  {
    assert (t + [q])[..|t|] == t;
  }

  /** A label with no quote at either end only loses its surrounding whitespace. */
  lemma {:induction false} CleanPlainLabel(raw: string)
    requires |raw| > 0 && !IsQuote(raw[0]) && !IsQuote(raw[|raw| - 1])
    ensures CleanLabel(raw) == Trim(raw)
  {
    var r := StripQuotes(raw);
    var i: nat :| OccursAt(raw, r, i);
    assert i == 0 && raw[i..i + |r|] == raw;
  }

  /** The key of the department map: the lower-cased name. */
  function LowerName(d: Department): string
  {
    ToLower(d.name)
  }

  /** `departmentMap.get(name.toLowerCase())`, as the position of the department found. */
  function FindDepartment(depts: seq<Department>, name: string): (r: Option<nat>)
    ensures r.Some? ==> r.value < |depts| && ToLower(depts[r.value].name) == ToLower(name)
    ensures r.Some? ==> forall j | r.value < j < |depts| :: ToLower(depts[j].name) != ToLower(name)
    ensures r.None? ==> forall j | 0 <= j < |depts| :: ToLower(depts[j].name) != ToLower(name)
  {
    LastIndexOfKey(depts, LowerName, ToLower(name))
  }

  // ---------------------------------------------------------------------------
  // Staging unique courses.
  // ---------------------------------------------------------------------------

  /** One entry of the catalogue: its label and its lines; `None` when the value is not an array. */
  datatype Listing = Listing(title: string, lines: Option<seq<string>>)

  /** What the staging pass records for a course. */
  datatype CourseData = CourseData(code: string, name: string, departmentName: string)

  /** A parsed course with the id of the department it was matched to; the two make up its unique key. */
  datatype Candidate = Candidate(data: CourseData, departmentId: string)

  /** The staging key `${code}|${department.id}`. */
  function UniqueKey(code: string, departmentId: string): string
  {
    code + "|" + departmentId
  }

  function CandidateKey(c: Candidate): string
  {
    UniqueKey(c.data.code, c.departmentId)
  }

  /** The department map sends the candidate's label to the department whose id the candidate carries. */
  predicate Resolves(depts: seq<Department>, c: Candidate)
  {
    match FindDepartment(depts, c.data.departmentName)
    case Some(i) => depts[i].id == c.departmentId
    case None => false
  }

  /** The courses parsed from the lines of one listing, in order; lines that do not parse are skipped. */
  function LineCandidates(lines: seq<string>, clean: string, id: string): (r: seq<Candidate>)
    ensures |r| <= |lines|
    ensures forall c | c in r :: c.data.departmentName == clean && c.departmentId == id && IsCode(c.data.code)
  {
    if |lines| == 0 then []
    else
      LineCandidates(lines[..|lines| - 1], clean, id) + LineCandidate(lines[|lines| - 1], clean, id)
  }

  /** The courses of one listing: none when it is not an array or its department is unknown. */
  function ListingCandidates(depts: seq<Department>, listing: Listing): (r: seq<Candidate>)
    ensures forall c | c in r :: IsCode(c.data.code) && Resolves(depts, c)
  {
    if listing.lines.None? then []
    else
      var clean := CleanLabel(listing.title);
      match FindDepartment(depts, clean)
      case None => []
      case Some(i) => LineCandidates(listing.lines.value, clean, depts[i].id)
  }

  /** Every course of every listing, in catalogue order, before deduplication. */
  function Candidates(depts: seq<Department>, listings: seq<Listing>): (r: seq<Candidate>)
    ensures forall c | c in r :: IsCode(c.data.code) && Resolves(depts, c)
  {
    if |listings| == 0 then []
    else Candidates(depts, listings[..|listings| - 1]) + ListingCandidates(depts, listings[|listings| - 1])
  }

  function DataOf(cs: seq<Candidate>): (r: seq<CourseData>)
    ensures |r| == |cs| && forall i | 0 <= i < |cs| :: r[i] == cs[i].data
  {
    seq(|cs|, i requires 0 <= i < |cs| => cs[i].data)
  }

  /** Taking one more line adds that line's course after the earlier ones. */
  lemma {:induction false} LineCandidatesStep(lines: seq<string>, j: nat, clean: string, id: string, before: seq<Candidate>)
    requires j < |lines|
    ensures before + LineCandidates(lines[..j + 1], clean, id) ==
      before + LineCandidates(lines[..j], clean, id) + LineCandidate(lines[j], clean, id)
  {
    assert lines[..j + 1][..j] == lines[..j];
  }

  lemma {:induction false} CandidatesSnoc(depts: seq<Department>, listings: seq<Listing>, listing: Listing)
    ensures Candidates(depts, listings + [listing]) == Candidates(depts, listings) + ListingCandidates(depts, listing)
  {
    assert (listings + [listing])[..|listings|] == listings;
  }

  /** The courses one line contributes: its parsed course, if it parses. */
  function LineCandidate(line: string, clean: string, id: string): seq<Candidate>
  {
    match ParseCourseLine(line)
    case Some(p) => [Candidate(CourseData(p.code, p.name, clean), id)]
    case None => []
  }

  /** One step of the staging loop keeps the seen keys and the staged courses in step with `DedupBy`. */
  lemma {:induction false} StageStep(prefix: seq<Candidate>, c: Candidate)
    ensures KeysOf(prefix + [c], CandidateKey) == KeysOf(prefix, CandidateKey) + {CandidateKey(c)}
    ensures DataOf(DedupBy(prefix + [c], CandidateKey)) ==
      if CandidateKey(c) in KeysOf(prefix, CandidateKey) then DataOf(DedupBy(prefix, CandidateKey))
      else DataOf(DedupBy(prefix, CandidateKey)) + [c.data]
  {
    DedupBySnoc(prefix, c, CandidateKey);
    KeysOfSnoc(prefix, c, CandidateKey);
  }

  /**
   * The inner staging loop over the lines of one listing whose department is
   * `id`: each parsed course whose key is new is recorded.
   */
  method StageLines(lines: seq<string>, clean: string, id: string, ghost before: seq<Candidate>,
                    coursesSet0: set<string>, coursesToInsert0: seq<CourseData>)
    returns (coursesSet: set<string>, coursesToInsert: seq<CourseData>)
    requires coursesSet0 == KeysOf(before, CandidateKey)
    requires coursesToInsert0 == DataOf(DedupBy(before, CandidateKey))
    ensures coursesSet == KeysOf(before + LineCandidates(lines, clean, id), CandidateKey)
    ensures coursesToInsert == DataOf(DedupBy(before + LineCandidates(lines, clean, id), CandidateKey))
  {
    coursesSet, coursesToInsert := coursesSet0, coursesToInsert0;
    assert LineCandidates(lines[..0], clean, id) == [];
    assert before + [] == before;
    for j := 0 to |lines|
      invariant coursesSet == KeysOf(before + LineCandidates(lines[..j], clean, id), CandidateKey)
      invariant coursesToInsert == DataOf(DedupBy(before + LineCandidates(lines[..j], clean, id), CandidateKey))
    {
      ghost var prefix := before + LineCandidates(lines[..j], clean, id);
      LineCandidatesStep(lines, j, clean, id, before);
      var parsed := ParseCourseLine(lines[j]);
      if parsed.None? {
        assert LineCandidate(lines[j], clean, id) == [];
        assert prefix + [] == prefix;
        continue;
      }
      var uniqueKey := UniqueKey(parsed.value.code, id);
      ghost var c := Candidate(CourseData(parsed.value.code, parsed.value.name, clean), id);
      assert LineCandidate(lines[j], clean, id) == [c];
      assert uniqueKey == CandidateKey(c);
      StageStep(prefix, c);
      if uniqueKey in coursesSet {
        continue;
      }
      coursesSet := coursesSet + {uniqueKey};
      coursesToInsert := coursesToInsert + [CourseData(parsed.value.code, parsed.value.name, clean)];
    }
    assert lines[..|lines|] == lines;
  }

  /**
   * The staging loop: the courses to insert are the candidates whose unique
   * key has not been seen before, in catalogue order.
   */
  method StageCourses(depts: seq<Department>, listings: seq<Listing>) returns (coursesToInsert: seq<CourseData>)
    ensures coursesToInsert == DataOf(DedupBy(Candidates(depts, listings), CandidateKey))
  {
    var coursesSet: set<string> := {};
    coursesToInsert := [];
    for i := 0 to |listings|
      invariant coursesSet == KeysOf(Candidates(depts, listings[..i]), CandidateKey)
      invariant coursesToInsert == DataOf(DedupBy(Candidates(depts, listings[..i]), CandidateKey))
    {
      var listing := listings[i];
      assert listings[..i + 1] == listings[..i] + [listing];
      CandidatesSnoc(depts, listings[..i], listing);
      ghost var before := Candidates(depts, listings[..i]);
      if listing.lines.None? {
        assert before + [] == before;
        continue;
      }
      var clean := CleanLabel(listing.title);
      var found := FindDepartment(depts, clean);
      if found.None? {
        assert before + [] == before;
        continue;
      }
      coursesSet, coursesToInsert := StageLines(listing.lines.value, clean, depts[found.value].id, before, coursesSet, coursesToInsert);
    }
    assert listings[..|listings|] == listings;
  }

  /** Distinct (code, department) pairs give distinct keys: a code never contains `|`. */
  lemma {:induction false} UniqueKeyInjective(c1: string, d1: string, c2: string, d2: string)
    requires IsCode(c1) && IsCode(c2) && UniqueKey(c1, d1) == UniqueKey(c2, d2)
    ensures c1 == c2 && d1 == d2
  {
    var k := UniqueKey(c1, d1);
    CodeChars(c1);
    CodeChars(c2);
    assert forall m | 0 <= m < |c1| :: k[m] == c1[m] && k[m] != '|';
    assert forall m | 0 <= m < |c2| :: k[m] == c2[m] && k[m] != '|';
    assert k[|c1|] == '|' && k[|c2|] == '|';
    assert |c1| == |c2|;
    assert c1 == k[..|c1|] == c2;
    assert d1 == k[|c1| + 1..] == d2;
  }

  /**
   * Deduplicating by the string key keeps one candidate for every
   * (code, department) pair, and never two for the same pair.
   */
  lemma {:induction false} StagingKeepsEveryPair(cands: seq<Candidate>)
    requires forall c | c in cands :: IsCode(c.data.code)
    ensures var staged := DedupBy(cands, CandidateKey);
      && (forall i, j | 0 <= i < j < |staged| ::
            (staged[i].data.code, staged[i].departmentId) != (staged[j].data.code, staged[j].departmentId))
      && (forall c | c in cands :: exists s | s in staged ::
            s.data.code == c.data.code && s.departmentId == c.departmentId)
  {
    var staged := DedupBy(cands, CandidateKey);
    StagedAreCandidates(cands);
    forall c | c in cands
      ensures exists s | s in staged :: s.data.code == c.data.code && s.departmentId == c.departmentId
    {
      var m :| 0 <= m < |cands| && cands[m] == c;
      assert CandidateKey(c) in KeysOf(staged, CandidateKey);
      var i :| 0 <= i < |staged| && CandidateKey(staged[i]) == CandidateKey(c);
      UniqueKeyInjective(staged[i].data.code, staged[i].departmentId, c.data.code, c.departmentId);
    }
  }

  /** Every staged course is one of the candidates. */
  lemma {:induction false} StagedAreCandidates(cands: seq<Candidate>)
    ensures forall s | s in DedupBy(cands, CandidateKey) :: s in cands
  {
    var idx := DedupByFirstOccurrences(cands, CandidateKey);
    var staged := DedupBy(cands, CandidateKey);
    forall s | s in staged ensures s in cands {
      var i :| 0 <= i < |staged| && staged[i] == s;
      assert cands[idx[i]] == s;
    }
  }

  // ---------------------------------------------------------------------------
  // Inserting the staged courses.
  // ---------------------------------------------------------------------------

  /** A row the insertion pass writes to the course table. */
  datatype NewCourse = NewCourse(code: string, name: string, departmentId: string)

  /** What happened to one staged course. */
  datatype InsertOutcome = NoDepartment | AlreadyStored | Failed | Inserted(row: NewCourse)

  /** The course table, as the multiset of its codes, and the outcomes so far. */
  datatype InsertRun = InsertRun(stored: multiset<string>, outcomes: seq<InsertOutcome>)

  /**
   * The existence check `.eq('code', code).maybeSingle()` finds a row only when
   * the query answers and exactly one course has the code. With several rows
   * it reports an error and no data; a query that fails (`queryFails`: the
   * network, a permission, a time-out) also leaves no data. The importer
   * does not look at the error, so in both cases it goes on to insert.
   */
  predicate FindsExisting(stored: multiset<string>, code: string, queryFails: bool)
  {
    !queryFails && stored[code] == 1
  }

  /**
   * One iteration of the insertion loop; `queryFails` is whether the
   * existence query fails, `fails` the answer of the insert call.
   */
  function InsertStep(depts: seq<Department>, run: InsertRun, course: CourseData, queryFails: bool, fails: bool)
    : (r: InsertRun)
    ensures |r.outcomes| == |run.outcomes| + 1 && r.outcomes[..|run.outcomes|] == run.outcomes
  {
    match FindDepartment(depts, course.departmentName)
    case None => InsertRun(run.stored, run.outcomes + [NoDepartment])
    case Some(i) =>
      if FindsExisting(run.stored, course.code, queryFails) then InsertRun(run.stored, run.outcomes + [AlreadyStored])
      else if fails then InsertRun(run.stored, run.outcomes + [Failed])
      else InsertRun(run.stored + multiset{course.code},
                     run.outcomes + [Inserted(NewCourse(course.code, course.name, depts[i].id))])
  }

  /**
   * The insertion loop over `courses`, starting from a table holding
   * `existing`; for the `i`-th course the existence query fails when
   * `selectFails(i)` and the insert call fails when `insertFails(i)`.
   */
  function RunInserts(depts: seq<Department>, courses: seq<CourseData>, existing: multiset<string>,
                      selectFails: nat -> bool, insertFails: nat -> bool): (r: InsertRun)
    ensures |r.outcomes| == |courses|
  {
    if |courses| == 0 then InsertRun(existing, [])
    else
      var n := |courses| - 1;
      InsertStep(depts, RunInserts(depts, courses[..n], existing, selectFails, insertFails), courses[n], selectFails(n),
                 insertFails(n))
  }

  /** How many outcomes satisfy `p`. */
  function CountWhere(outcomes: seq<InsertOutcome>, p: InsertOutcome -> bool): (n: nat)
    ensures n <= |outcomes|
  {
    if |outcomes| == 0 then 0
    else CountWhere(outcomes[..|outcomes| - 1], p) + (if p(outcomes[|outcomes| - 1]) then 1 else 0)
  }

  predicate IsInserted(o: InsertOutcome) { o.Inserted? }
  predicate IsFailed(o: InsertOutcome) { o.Failed? }
  /** The courses the loop passes over with `continue`: no department, or already in the table. */
  predicate IsPassed(o: InsertOutcome) { o.NoDepartment? || o.AlreadyStored? }

  /**
   * Every outcome is counted once: the successes and the errors together are
   * the outcomes less the courses passed over, so they never exceed them.
   */
  lemma {:induction false} CountsPartition(outcomes: seq<InsertOutcome>)
    ensures CountWhere(outcomes, IsInserted) + CountWhere(outcomes, IsFailed)
            == |outcomes| - CountWhere(outcomes, IsPassed)
  {
    if |outcomes| > 0 {
      CountsPartition(outcomes[..|outcomes| - 1]);
    }
  }

  lemma {:induction false} CountWhereSnoc(outcomes: seq<InsertOutcome>, o: InsertOutcome, p: InsertOutcome -> bool)
    ensures CountWhere(outcomes + [o], p) == CountWhere(outcomes, p) + (if p(o) then 1 else 0)
  {
    assert (outcomes + [o])[..|outcomes|] == outcomes;
  }

  /**
   * The insertion loop: `successCount` and `errorCount` count the inserts
   * that succeeded and failed, and `stored` is the course table afterwards.
   */
  method InsertCourses(depts: seq<Department>, courses: seq<CourseData>, existing: multiset<string>,
                       selectFails: nat -> bool, insertFails: nat -> bool)
    returns (successCount: nat, errorCount: nat, stored: multiset<string>)
    ensures var run := RunInserts(depts, courses, existing, selectFails, insertFails);
      && stored == run.stored
      && successCount == CountWhere(run.outcomes, IsInserted)
      && errorCount == CountWhere(run.outcomes, IsFailed)
  {
    successCount, errorCount, stored := 0, 0, existing;
    ghost var outcomes: seq<InsertOutcome> := [];
    for i := 0 to |courses|
      invariant RunInserts(depts, courses[..i], existing, selectFails, insertFails) == InsertRun(stored, outcomes)
      invariant successCount == CountWhere(outcomes, IsInserted)
      invariant errorCount == CountWhere(outcomes, IsFailed)
    {
      var course := courses[i];
      assert courses[..i + 1][..i] == courses[..i];
      ghost var next := InsertStep(depts, InsertRun(stored, outcomes), course, selectFails(i), insertFails(i));
      var department := FindDepartment(depts, course.departmentName);
      if department.None? {
        CountWhereSnoc(outcomes, NoDepartment, IsInserted);
        CountWhereSnoc(outcomes, NoDepartment, IsFailed);
        outcomes := outcomes + [NoDepartment];
        continue;
      }
      if FindsExisting(stored, course.code, selectFails(i)) {
        CountWhereSnoc(outcomes, AlreadyStored, IsInserted);
        CountWhereSnoc(outcomes, AlreadyStored, IsFailed);
        outcomes := outcomes + [AlreadyStored];
        continue;
      }
      if insertFails(i) {
        CountWhereSnoc(outcomes, Failed, IsInserted);
        CountWhereSnoc(outcomes, Failed, IsFailed);
        outcomes := outcomes + [Failed];
        errorCount := errorCount + 1;
      } else {
        var row := NewCourse(course.code, course.name, depts[department.value].id);
        CountWhereSnoc(outcomes, Inserted(row), IsInserted);
        CountWhereSnoc(outcomes, Inserted(row), IsFailed);
        outcomes := outcomes + [Inserted(row)];
        stored := stored + multiset{course.code};
        successCount := successCount + 1;
      }
    }
    assert courses[..|courses|] == courses;
  }

  /** The codes of the rows the run inserted, in order. */
  function InsertedCodes(outcomes: seq<InsertOutcome>): seq<string>
  {
    if |outcomes| == 0 then []
    else
      InsertedCodes(outcomes[..|outcomes| - 1])
      + match outcomes[|outcomes| - 1]
        case Inserted(row) => [row.code]
        case _ => []
  }

  /** One iteration appends one outcome, and only a successful insert adds a row. */
  lemma {:induction false} InsertStepEffect(depts: seq<Department>, run: InsertRun, course: CourseData, queryFails: bool, fails: bool)
    ensures var r := InsertStep(depts, run, course, queryFails, fails);
      var o := r.outcomes[|run.outcomes|];
      && r.outcomes == run.outcomes + [o]
      && r.stored == run.stored + (if o.Inserted? then multiset{course.code} else multiset{})
      && (o.Inserted? ==> o.row.code == course.code && (queryFails || run.stored[course.code] != 1))
  {
  }

  lemma {:induction false} InsertedCodesSnoc(outcomes: seq<InsertOutcome>, o: InsertOutcome)
    ensures InsertedCodes(outcomes + [o]) == InsertedCodes(outcomes) + (if o.Inserted? then [o.row.code] else [])
  {
    assert (outcomes + [o])[..|outcomes|] == outcomes;
  }

  /** The table afterwards is the table before plus one row per successful insert. */
  lemma {:induction false} RunInsertsStore(depts: seq<Department>, courses: seq<CourseData>,
                                          existing: multiset<string>, selectFails: nat -> bool, insertFails: nat -> bool)
    ensures var run := RunInserts(depts, courses, existing, selectFails, insertFails);
      run.stored == existing + multiset(InsertedCodes(run.outcomes))
  {
    if |courses| > 0 {
      var n := |courses| - 1;
      var prev := RunInserts(depts, courses[..n], existing, selectFails, insertFails);
      RunInsertsStore(depts, courses[..n], existing, selectFails, insertFails);
      InsertStepEffect(depts, prev, courses[n], selectFails(n), insertFails(n));
      var o := RunInserts(depts, courses, existing, selectFails, insertFails).outcomes[n];
      InsertedCodesSnoc(prev.outcomes, o);
    }
  }

  /**
   * A code the table held at most once before the import is held at most
   * once after it, as long as every existence query answers: the importer
   * then never duplicates such a code.
   */
  lemma {:induction false} RunInsertsNoNewDuplicates(depts: seq<Department>, courses: seq<CourseData>,
                                                    existing: multiset<string>, selectFails: nat -> bool,
                                                    insertFails: nat -> bool, code: string)
    requires existing[code] <= 1
    requires forall i | 0 <= i < |courses| :: !selectFails(i)
    ensures RunInserts(depts, courses, existing, selectFails, insertFails).stored[code] <= 1
  {
    if |courses| > 0 {
      var n := |courses| - 1;
      var prev := RunInserts(depts, courses[..n], existing, selectFails, insertFails);
      RunInsertsNoNewDuplicates(depts, courses[..n], existing, selectFails, insertFails, code);
      InsertStepEffect(depts, prev, courses[n], selectFails(n), insertFails(n));
    }
  }

  /**
   * Without that assumption the guarantee is gone: when the existence query
   * for a course already in the table fails and the insert goes through, the
   * table holds the code twice.
   */
  lemma {:induction false} FailedQueryDuplicates(depts: seq<Department>, run: InsertRun, course: CourseData)
    requires run.stored[course.code] == 1
    requires FindDepartment(depts, course.departmentName).Some?
    ensures InsertStep(depts, run, course, true, false).stored[course.code] == 2
  {
  }

  /**
   * Each outcome is about its own course: there is no department exactly when
   * the course's label is not in the map, and an inserted row carries the
   * course's code and name and the id of the department the map returns.
   */
  lemma {:induction false} RunInsertsOutcome(depts: seq<Department>, courses: seq<CourseData>,
                                            existing: multiset<string>, selectFails: nat -> bool, insertFails: nat -> bool, i: nat)
    requires i < |courses|
    ensures var o := RunInserts(depts, courses, existing, selectFails, insertFails).outcomes[i];
      var found := FindDepartment(depts, courses[i].departmentName);
      && (o.NoDepartment? <==> found.None?)
      && (o.Inserted? ==> o.row == NewCourse(courses[i].code, courses[i].name, depts[found.value].id))
  {
    var n := |courses| - 1;
    if i < n {
      RunInsertsOutcome(depts, courses[..n], existing, selectFails, insertFails, i);
    }
  }

  /**
   * For the staged courses the second lookup always finds a department, and
   * it is the one the course was staged under.
   */
  lemma {:induction false} StagedCoursesResolve(depts: seq<Department>, listings: seq<Listing>, existing: multiset<string>,
                             selectFails: nat -> bool, insertFails: nat -> bool, i: nat)
    requires i < |DedupBy(Candidates(depts, listings), CandidateKey)|
    ensures var staged := DedupBy(Candidates(depts, listings), CandidateKey);
      var o := RunInserts(depts, DataOf(staged), existing, selectFails, insertFails).outcomes[i];
      && !o.NoDepartment?
      && (o.Inserted? ==> o.row == NewCourse(staged[i].data.code, staged[i].data.name, staged[i].departmentId))
  {
    var staged := DedupBy(Candidates(depts, listings), CandidateKey);
    StagedAreCandidates(Candidates(depts, listings));
    assert staged[i] in Candidates(depts, listings);
    RunInsertsOutcome(depts, DataOf(staged), existing, selectFails, insertFails, i);
  }

  /** The two counters of the importer's final report. */
  datatype ImportReport = ImportReport(successCount: nat, errorCount: nat)

  /**
   * The whole import: nothing happens when the department list cannot be
   * read; otherwise the staged courses are inserted one by one.
   */
  method ImportCourses(departments: Option<seq<Department>>, listings: seq<Listing>, existing: multiset<string>,
                       selectFails: nat -> bool, insertFails: nat -> bool)
    returns (report: Option<ImportReport>, stored: multiset<string>)
    ensures departments.None? ==> report.None? && stored == existing
    ensures departments.Some? ==>
      var staged := DataOf(DedupBy(Candidates(departments.value, listings), CandidateKey));
      var run := RunInserts(departments.value, staged, existing, selectFails, insertFails);
      && report == Some(ImportReport(CountWhere(run.outcomes, IsInserted), CountWhere(run.outcomes, IsFailed)))
      && report.value.successCount + report.value.errorCount == |staged| - CountWhere(run.outcomes, IsPassed)
      && report.value.successCount + report.value.errorCount <= |staged|
      && stored == run.stored
  {
    if departments.None? {
      return None, existing;
    }
    var coursesToInsert := StageCourses(departments.value, listings);
    var successCount, errorCount;
    successCount, errorCount, stored :=
      InsertCourses(departments.value, coursesToInsert, existing, selectFails, insertFails);
    CountsPartition(RunInserts(departments.value, coursesToInsert, existing, selectFails, insertFails).outcomes);
    report := Some(ImportReport(successCount, errorCount));
  }
}
