/**
 * The course-code token `[A-Z]+\s+\d+[A-Z]*` that both course importers look
 * for: a declarative description of its language, and the matcher both
 * parsers use.
 *
 * Why maximal runs are exact: in this pattern every repeated class is followed
 * by a class disjoint from it (letters by whitespace, whitespace by digits,
 * digits by letters or by whatever follows the token), so a backtracking engine
 * never succeeds with a shorter run than the longest one. Taking each run
 * maximal therefore finds the same match as JavaScript's engine.
 */
module CourseCode {
  import opened Base
  import opened Text

  /** `t` is letters `t[..a]`, whitespace `t[a..b]`, digits `t[b..c]`, letters `t[c..]`. */
  ghost predicate CodeShape(t: string, a: nat, b: nat, c: nat)
  {
    && 0 < a < b < c <= |t|
    && RunOf(t, 0, a, Upper) && RunOf(t, a, b, Space) && RunOf(t, b, c, Digit) && RunOf(t, c, |t|, Upper)
  }

  /** `t` is in the language of `[A-Z]+\s+\d+[A-Z]*`. */
  ghost predicate IsCode(t: string)
  {
    exists a: nat, b: nat, c: nat :: CodeShape(t, a, b, c)
  }

  /** A code is made of letters, whitespace and digits only. */
  lemma {:induction false} CodeChars(t: string)
    requires IsCode(t)
    ensures |t| > 0 && IsUpper(t[0]) && !IsSpace(t[|t| - 1])
    ensures forall i | 0 <= i < |t| :: IsUpper(t[i]) || IsSpace(t[i]) || IsDigit(t[i])
  {
    var a: nat, b: nat, c: nat :| CodeShape(t, a, b, c);
    assert InClass(t[0], Upper);
    assert InClass(t[|t| - 1], if c < |t| then Upper else Digit);
    forall i | 0 <= i < |t| ensures IsUpper(t[i]) || IsSpace(t[i]) || IsDigit(t[i]) {
      assert InClass(t[i], if i < a then Upper else if i < b then Space else if i < c then Digit else Upper);
    }
  }

  /** A code has no whitespace at either end. */
  lemma {:induction false} CodeIsTrimmed(t: string)
    requires IsCode(t)
    ensures IsTrimmed(t)
  {
    CodeChars(t);
  }

  /**
   * End of the code token that starts at `i`, taking every run as long as it
   * goes; `None` when no token starts at `i`.
   */
  function CodeEnd(s: string, i: nat): (r: Option<nat>)
    requires i <= |s|
    ensures r.Some? ==> i < r.value <= |s| && IsCode(s[i..r.value])
    ensures r.Some? ==> r.value == |s| || !IsUpper(s[r.value])
    ensures r.Some? ==> forall e | r.value < e <= |s| :: !IsCode(s[i..e])
  {
    var a := Span(s, i, Upper);
    var b := Span(s, a, Space);
    var c := Span(s, b, Digit);
    if a == i || b == a || c == b then None
    else
      var e := Span(s, c, Upper);
      assert CodeShape(s[i..e], a - i, b - i, c - i);
      CodeEndLongest(s, i, a, b, c, e);
      Some(e)
  }

  /** No code that starts at `i` reaches past the end of the maximal runs. */
  lemma {:induction false} CodeEndLongest(s: string, i: nat, a: nat, b: nat, c: nat, e: nat)
    requires i <= |s| && a == Span(s, i, Upper) && b == Span(s, a, Space)
    requires c == Span(s, b, Digit) && e == Span(s, c, Upper)
    ensures forall e' | e < e' <= |s| :: !IsCode(s[i..e'])
  {
    forall e' | e < e' <= |s| ensures !IsCode(s[i..e']) {
      if IsCode(s[i..e']) {
        CodeWithinRuns(s, i, e');
      }
    }
  }

  /** A code that starts at `i` ends within the maximal runs from `i`. */
  lemma {:induction false} CodeWithinRuns(s: string, i: nat, e: nat)
    requires i < e <= |s| && IsCode(s[i..e])
    ensures e <= Span(s, Span(s, Span(s, Span(s, i, Upper), Space), Digit), Upper)
  {
    var a, b, c := CodeRunsInContext(s, i, e);
    SpanUnique(s, i, a, Upper);
    SpanUnique(s, a, b, Space);
    SpanCovers(s, b, c, Digit);
    if c < e {
      SpanUnique(s, b, c, Digit);
      SpanCovers(s, c, e, Upper);
    }
  }

  /** A run inside a slice is a run of the whole string, shifted. */
  lemma {:induction false} RunOfSlice(s: string, i: nat, e: nat, lo: nat, hi: nat, k: CharClass)
    requires i <= e <= |s| && lo <= hi <= e - i
    requires RunOf(s[i..e], lo, hi, k)
    ensures RunOf(s, i + lo, i + hi, k)
  {
    forall m | i + lo <= m < i + hi ensures InClass(s[m], k) {
      assert s[m] == s[i..e][m - i];
    }
  }

  /** The run boundaries of a code that sits at `s[i..e]`, in `s`'s own positions. */
  lemma {:induction false} CodeRunsInContext(s: string, i: nat, e: nat) returns (a: nat, b: nat, c: nat)
    requires i < e <= |s| && IsCode(s[i..e])
    ensures i < a < b < c <= e
    ensures RunOf(s, i, a, Upper) && !InClass(s[a], Upper)
    ensures RunOf(s, a, b, Space) && !InClass(s[b], Space) && InClass(s[b], Digit)
    ensures RunOf(s, b, c, Digit) && RunOf(s, c, e, Upper)
    ensures c < e ==> !InClass(s[c], Digit)
  {
    var t := s[i..e];
    var a0: nat, b0: nat, c0: nat :| CodeShape(t, a0, b0, c0);
    a, b, c := i + a0, i + b0, i + c0;
    RunOfSlice(s, i, e, 0, a0, Upper);
    RunOfSlice(s, i, e, a0, b0, Space);
    RunOfSlice(s, i, e, b0, c0, Digit);
    RunOfSlice(s, i, e, c0, |t|, Upper);
    assert s[a] == t[a0] && s[b] == t[b0];
    assert InClass(t[a0], Space) && InClass(t[b0], Digit);
    if c < e {
      assert s[c] == t[c0] && InClass(t[c0], Upper);
    }
  }

  /**
   * A token followed by whitespace or by the end of the input is exactly the
   * one `CodeEnd` finds.
   */
  lemma {:induction false} CodeEndComplete(s: string, i: nat, e: nat)
    requires i < e <= |s| && IsCode(s[i..e])
    requires e == |s| || IsSpace(s[e])
    ensures CodeEnd(s, i) == Some(e)
  {
    var a, b, c := CodeRunsInContext(s, i, e);
    SpanUnique(s, i, a, Upper);
    SpanUnique(s, a, b, Space);
    SpanUnique(s, b, c, Digit);
    SpanUnique(s, c, e, Upper);
  }

  /** When no token starts at `i`, no prefix of `s[i..]` is a code. */
  lemma {:induction false} CodeEndNone(s: string, i: nat)
    requires i <= |s| && CodeEnd(s, i).None?
    ensures forall e | i <= e <= |s| :: !IsCode(s[i..e])
  {
    forall e | i <= e <= |s| ensures !IsCode(s[i..e]) {
      if IsCode(s[i..e]) {
        var a, b, c := CodeRunsInContext(s, i, e);
        SpanUnique(s, i, a, Upper);
        SpanUnique(s, a, b, Space);
        assert false;
      }
    }
  }

  /** A string without a digit holds no code. */
  lemma {:induction false} NoDigitNoCode(s: string, i: nat)
    requires i <= |s|
    requires forall m | 0 <= m < |s| :: !IsDigit(s[m])
    ensures CodeEnd(s, i).None?
  {
    var a := Span(s, i, Upper);
    var b := Span(s, a, Space);
    assert b == |s| || !InClass(s[b], Digit);
  }
}
