/**
 * Character classes and string helpers with the meaning JavaScript gives them:
 * `\s` in a regular expression, `String.prototype.trim`, `toLowerCase`
 * restricted to ASCII, `endsWith`, `includes`, and `length` counted in UTF-16
 * code units.
 */
module Text {
  import opened Base

  /**
   * JavaScript's whitespace: the `\s` class of a regular expression, which is
   * also exactly the set of characters `trim()` removes (WhiteSpace and
   * LineTerminator of ECMA-262).
   */
  predicate IsSpace(c: char)
  {
    c == ' ' || c == '\t' || c == '\n' || c == '\r' || c == '\U{B}' || c == '\U{C}'
    || c == '\U{A0}' || c == '\U{1680}' || ('\U{2000}' <= c <= '\U{200A}')
    || c == '\U{2028}' || c == '\U{2029}' || c == '\U{202F}' || c == '\U{205F}'
    || c == '\U{3000}' || c == '\U{FEFF}'
  }

  /** The characters a regular-expression `.` does not match (no `s` flag). */
  predicate IsLineTerminator(c: char)
  {
    c == '\n' || c == '\r' || c == '\U{2028}' || c == '\U{2029}'
  }

  /** `[A-Z]` */
  predicate IsUpper(c: char)
  {
    'A' <= c <= 'Z'
  }

  /** `\d` */
  predicate IsDigit(c: char)
  {
    '0' <= c <= '9'
  }

  /** The three classes the course-code patterns are built from. */
  datatype CharClass = Space | Upper | Digit

  predicate InClass(c: char, k: CharClass)
  {
    match k
    case Space => IsSpace(c)
    case Upper => IsUpper(c)
    case Digit => IsDigit(c)
  }

  /** Every character of `s[i..j]` is in class `k`. */
  predicate RunOf(s: string, i: nat, j: nat, k: CharClass)
    requires i <= j <= |s|
  {
    forall m | i <= m < j :: InClass(s[m], k)
  }

  predicate AllSpace(s: string)
  {
    forall m | 0 <= m < |s| :: IsSpace(s[m])
  }

  /** End of the longest run of class `k` that starts at `i`. */
  function Span(s: string, i: nat, k: CharClass): (j: nat)
    requires i <= |s|
    ensures i <= j <= |s|
    ensures RunOf(s, i, j, k)
    ensures j == |s| || !InClass(s[j], k)
    decreases |s| - i
  {
    if i < |s| && InClass(s[i], k) then Span(s, i + 1, k) else i
  }

  /** A run that cannot be extended is the one `Span` finds. */
  lemma {:induction false} SpanUnique(s: string, i: nat, j: nat, k: CharClass)
    requires i <= j <= |s|
    requires RunOf(s, i, j, k)
    requires j == |s| || !InClass(s[j], k)
    ensures Span(s, i, k) == j
  {
  }

  /** Every run of class `k` from `i` ends no later than the maximal one. */
  lemma {:induction false} SpanCovers(s: string, i: nat, j: nat, k: CharClass)
    requires i <= j <= |s| && RunOf(s, i, j, k)
    ensures j <= Span(s, i, k)
  {
  }

  /** A run of class `k` that starts before a character outside `k` stops before it. */
  lemma {:induction false} SpanStopsBefore(s: string, i: nat, n: nat, k: CharClass)
    requires i < n <= |s| && !InClass(s[n - 1], k)
    ensures Span(s, i, k) < n
  {
  }

  /** One past the last non-whitespace character of `s[..j]`, or 0. */
  function TrimEndIndex(s: string, j: nat): (e: nat)
    requires j <= |s|
    ensures e <= j
    ensures forall m | e <= m < j :: IsSpace(s[m])
    ensures e == 0 || !IsSpace(s[e - 1])
    decreases j
  {
    if j > 0 && IsSpace(s[j - 1]) then TrimEndIndex(s, j - 1) else j
  }

  /** A string with no whitespace at either end. */
  predicate IsTrimmed(t: string)
  {
    |t| == 0 || (!IsSpace(t[0]) && !IsSpace(t[|t| - 1]))
  }

  /** `s.trim()` */
  function Trim(s: string): (r: string)
    ensures IsTrimmed(r)
    ensures |r| <= |s|
  {
    var a := Span(s, 0, Space);
    var e := TrimEndIndex(s, |s|);
    if e <= a then "" else s[a..e]
  }

  /** The trimmed string is a piece of the original. */
  lemma {:induction false} TrimIsSlice(s: string)
    ensures exists a: nat :: OccursAt(s, Trim(s), a)
  {
    var a := Span(s, 0, Space);
    var e := TrimEndIndex(s, |s|);
    assert OccursAt(s, Trim(s), if e <= a then 0 else a);
  }

  /** Trimming removes exactly the whitespace padding around a trimmed core. */
  lemma {:induction false} TrimPadded(w1: string, t: string, w2: string)
    requires AllSpace(w1) && AllSpace(w2) && IsTrimmed(t)
    ensures Trim(w1 + t + w2) == t
  {
    var s := w1 + t + w2;
    if |t| == 0 {
      assert s == w1 + w2;
      SpanUnique(s, 0, |s|, Space);
    } else {
      SpanUnique(s, 0, |w1|, Space);
      assert s[|w1| + |t| - 1] == t[|t| - 1];
      assert forall m | |w1| + |t| <= m < |s| :: s[m] == w2[m - |w1| - |t|];
      assert s[|w1|..|w1| + |t|] == t;
    }
  }

  /** Trimming a trimmed string changes nothing. */
  lemma {:induction false} TrimTrimmed(t: string)
    requires IsTrimmed(t)
    ensures Trim(t) == t
  {
    TrimPadded("", t, "");
    assert "" + t + "" == t;
  }

  /** A string trims to nothing exactly when it is all whitespace. */
  lemma {:induction false} TrimEmpty(s: string)
    ensures Trim(s) == "" <==> AllSpace(s)
  {
    if AllSpace(s) {
      TrimPadded(s, "", "");
      assert s + "" + "" == s;
    } else {
      var m :| 0 <= m < |s| && !IsSpace(s[m]);
      var a := Span(s, 0, Space);
      var e := TrimEndIndex(s, |s|);
      SpanStopsBefore(s, 0, m + 1, Space);
      assert a <= m < e;
    }
  }

  /** ASCII `toLowerCase` of one character. */
  function LowerChar(c: char): char
  {
    if 'A' <= c <= 'Z' then (c as int + 32) as char else c
  }

  /** `s.toLowerCase()` on the ASCII letters; other characters are kept. */
  function ToLower(s: string): (r: string)
    ensures |r| == |s|
    ensures forall i | 0 <= i < |s| :: r[i] == LowerChar(s[i])
  {
    seq(|s|, i requires 0 <= i < |s| => LowerChar(s[i]))
  }

  /** `s.endsWith(suffix)` */
  predicate EndsWith(s: string, suffix: string)
  {
    |suffix| <= |s| && s[|s| - |suffix|..] == suffix
  }

  /** A run that ends inside a slice ends at the same place in the slice. */
  lemma {:induction false} SpanInSlice(s: string, lo: nat, hi: nat, i: nat, k: CharClass)
    requires lo <= i <= hi <= |s| && Span(s, i, k) <= hi
    ensures Span(s[lo..hi], i - lo, k) == Span(s, i, k) - lo
  {
    var t, j := s[lo..hi], Span(s, i, k);
    assert forall m | i - lo <= m < j - lo :: t[m] == s[m + lo];
    if j < hi {
      assert t[j - lo] == s[j];
    }
    SpanUnique(t, i - lo, j - lo, k);
  }

  /** The characters of a suffix, read off the whole string. */
  lemma {:induction false} SuffixChars(s: string, k: nat, t: string)
    requires k <= |s| && s[k..] == t
    ensures forall m | k <= m < |s| :: s[m] == t[m - k]
  {
    forall m | k <= m < |s| ensures s[m] == t[m - k] {
      assert s[k..][m - k] == s[m];
    }
  }

  /** The characters of a prefix, read off the whole string. */
  lemma {:induction false} PrefixChars(s: string, t: string)
    requires |t| <= |s| && s[..|t|] == t
    ensures forall m | 0 <= m < |t| :: s[m] == t[m]
  {
    forall m | 0 <= m < |t| ensures s[m] == t[m] {
      assert s[..|t|][m] == s[m];
    }
  }

  /** `sub` occurs in `s` starting at position `j`. */
  predicate OccursAt(s: string, sub: string, j: nat)
  {
    j + |sub| <= |s| && s[j..j + |sub|] == sub
  }

  /** Position of the first occurrence of `sub` in `s` at or after `from`, as `indexOf` finds it. */
  function IndexOf(s: string, sub: string, from: nat): (r: Option<nat>)
    requires from <= |s|
    ensures r.Some? ==> from <= r.value && OccursAt(s, sub, r.value)
    ensures forall j | from <= j && (r.None? || j < r.value) :: !OccursAt(s, sub, j)
    decreases |s| - from
  {
    if from + |sub| > |s| then None
    else if s[from..from + |sub|] == sub then Some(from)
    else
      assert |sub| > 0;
      IndexOf(s, sub, from + 1)
  }

  /** `s.includes(sub)` */
  predicate Contains(s: string, sub: string)
  {
    IndexOf(s, sub, 0).Some?
  }

  /** Length as JavaScript counts it: characters outside the Basic Multilingual Plane take two UTF-16 code units. */
  function Utf16Length(s: string): (n: nat)
    ensures |s| <= n <= 2 * |s|
    ensures n == |s| <==> forall i | 0 <= i < |s| :: (s[i] as int) < 0x1_0000
  {
    if |s| == 0 then 0
    else
      var n0 := Utf16Length(s[..|s| - 1]);
      assert forall i | 0 <= i < |s| - 1 :: s[..|s| - 1][i] == s[i];
      n0 + (if (s[|s| - 1] as int) < 0x1_0000 then 1 else 2)
  }

  /** A string of characters outside the Basic Multilingual Plane counts two code units per character. */
  lemma {:induction false} Utf16LengthAstral(s: string)
    requires forall i | 0 <= i < |s| :: (s[i] as int) >= 0x1_0000
    ensures Utf16Length(s) == 2 * |s|
    decreases |s|
  {
    if |s| > 0 {
      assert forall i | 0 <= i < |s| - 1 :: s[..|s| - 1][i] == s[i];
      Utf16LengthAstral(s[..|s| - 1]);
    }
  }
}
