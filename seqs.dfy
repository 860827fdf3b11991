/**
 * Sequence operations shared by the import scripts and the pages:
 * first-occurrence-wins deduplication (what a `Set`/`Map` guarded by `has`
 * does), grouping by key in first-seen order (a `Map` or object filled by
 * `forEach`/`reduce` with `push`), and splitting into batches.
 */
module Seqs {
  import opened Base

  /** The keys of the elements of `s`. */
  function KeysOf<T, K(==)>(s: seq<T>, key: T -> K): set<K>
  {
    set i | 0 <= i < |s| :: key(s[i])
  }

  lemma {:induction false} KeysOfSnoc<T, K>(s: seq<T>, x: T, key: T -> K)
    ensures KeysOf(s + [x], key) == KeysOf(s, key) + {key(x)}
  {
    assert forall i | 0 <= i < |s| :: (s + [x])[i] == s[i];
    assert (s + [x])[|s|] == x;
  }

  lemma {:induction false} KeysOfAppend<T, K>(s: seq<T>, t: seq<T>, key: T -> K)
    ensures KeysOf(s + t, key) == KeysOf(s, key) + KeysOf(t, key)
  {
    forall k | k in KeysOf(s + t, key) ensures k in KeysOf(s, key) + KeysOf(t, key) {
      var i :| 0 <= i < |s + t| && key((s + t)[i]) == k;
      if i >= |s| {
        assert key(t[i - |s|]) == k;
      }
    }
    forall k | k in KeysOf(t, key) ensures k in KeysOf(s + t, key) {
      var i :| 0 <= i < |t| && key(t[i]) == k;
      assert (s + t)[|s| + i] == t[i];
    }
    forall k | k in KeysOf(s, key) ensures k in KeysOf(s + t, key) {
      var i :| 0 <= i < |s| && key(s[i]) == k;
      assert (s + t)[i] == s[i];
    }
  }

  /** No element of `s` before position `j` has the key of `s[j]`. */
  ghost predicate IsFirstOccurrence<T, K>(s: seq<T>, key: T -> K, j: nat)
    requires j < |s|
  {
    forall m | 0 <= m < j :: key(s[m]) != key(s[j])
  }

  /**
   * The elements of `s` whose key has not been seen before, in input order:
   * the first occurrence of each key wins.
   */
  function DedupBy<T, K(==)>(s: seq<T>, key: T -> K): (r: seq<T>)
    ensures KeysOf(r, key) == KeysOf(s, key)
    ensures forall i, j | 0 <= i < j < |r| :: key(r[i]) != key(r[j])
    decreases |s|
  {
    if |s| == 0 then []
    else
      var s0 := s[..|s| - 1];
      var x := s[|s| - 1];
      var r0 := DedupBy(s0, key);
      assert s == s0 + [x];
      KeysOfSnoc(s0, x, key);
      if key(x) in KeysOf(r0, key) then r0
      else
        KeysOfSnoc(r0, x, key);
        r0 + [x]
  }

  /** Appending an element extends the deduplicated sequence exactly when its key is new. */
  lemma {:induction false} DedupBySnoc<T, K>(s: seq<T>, x: T, key: T -> K)
    ensures DedupBy(s + [x], key) ==
      if key(x) in KeysOf(s, key) then DedupBy(s, key) else DedupBy(s, key) + [x]
  {
    assert (s + [x])[..|s|] == s;
  }

  /**
   * `idx` lists, in increasing order, the positions of the first occurrences
   * of the keys of `s`, and `d` holds the elements at those positions.
   */
  ghost predicate IndexesFirstOccurrences<T, K>(s: seq<T>, key: T -> K, d: seq<T>, idx: seq<nat>)
  {
    && |idx| == |d|
    && (forall i | 0 <= i < |idx| ::
          idx[i] < |s| && d[i] == s[idx[i]] && IsFirstOccurrence(s, key, idx[i]))
    && (forall i, j | 0 <= i < j < |idx| :: idx[i] < idx[j])
    && (forall j | 0 <= j < |s| && IsFirstOccurrence(s, key, j) :: j in idx)
  }

  /**
   * `DedupBy` keeps exactly the first occurrence of every key, in input
   * order: `idx` gives, for each kept element, its position in `s`.
   */
  lemma {:induction false} DedupByFirstOccurrences<T, K>(s: seq<T>, key: T -> K) returns (idx: seq<nat>)
    ensures IndexesFirstOccurrences(s, key, DedupBy(s, key), idx)
    decreases |s|
  {
    if |s| == 0 {
      idx := [];
    } else {
      var s0 := s[..|s| - 1];
      var x := s[|s| - 1];
      assert s == s0 + [x];
      var idx0 := DedupByFirstOccurrences(s0, key);
      DedupBySnoc(s0, x, key);
      if key(x) in KeysOf(s0, key) {
        idx := idx0;
        FirstOccurrencesSeen(s0, x, key, DedupBy(s0, key), idx0);
      } else {
        idx := idx0 + [|s0|];
        FirstOccurrencesNew(s0, x, key, DedupBy(s0, key), idx0);
      }
    }
  }

  /** Appending an element leaves the first-occurrence status of the earlier ones unchanged. */
  lemma {:induction false} FirstOccurrenceSnoc<T, K>(s: seq<T>, x: T, key: T -> K)
    ensures forall j | 0 <= j < |s| :: IsFirstOccurrence(s + [x], key, j) == IsFirstOccurrence(s, key, j)
  {
    forall j | 0 <= j < |s| ensures IsFirstOccurrence(s + [x], key, j) == IsFirstOccurrence(s, key, j) {
      assert forall m | 0 <= m <= j :: (s + [x])[m] == s[m];
    }
  }

  /** An element whose key was seen before adds no first occurrence. */
  lemma {:induction false} FirstOccurrencesSeen<T, K>(s: seq<T>, x: T, key: T -> K, d: seq<T>, idx: seq<nat>)
    requires IndexesFirstOccurrences(s, key, d, idx) && key(x) in KeysOf(s, key)
    ensures IndexesFirstOccurrences(s + [x], key, d, idx)
  {
    FirstOccurrenceSnoc(s, x, key);
    var m :| 0 <= m < |s| && key(s[m]) == key(x);
    assert !IsFirstOccurrence(s + [x], key, |s|) by {
      assert (s + [x])[m] == s[m] && (s + [x])[|s|] == x;
    }
    forall i | 0 <= i < |idx| ensures (s + [x])[idx[i]] == s[idx[i]] {
    }
  }

  /** An element with a new key is a first occurrence, at the end. */
  lemma {:induction false} FirstOccurrencesNew<T, K>(s: seq<T>, x: T, key: T -> K, d: seq<T>, idx: seq<nat>)
    requires IndexesFirstOccurrences(s, key, d, idx) && key(x) !in KeysOf(s, key)
    ensures IndexesFirstOccurrences(s + [x], key, d + [x], idx + [|s|])
  {
    FirstOccurrenceSnoc(s, x, key);
    assert IsFirstOccurrence(s + [x], key, |s|) by {
      forall m | 0 <= m < |s| ensures key((s + [x])[m]) != key((s + [x])[|s|]) {
        assert (s + [x])[m] == s[m];
      }
    }
    forall i | 0 <= i < |idx| ensures (s + [x])[idx[i]] == s[idx[i]] {
    }
  }

  /** The identity, for a filter that keeps its elements as they are. */
  function Id<T>(x: T): T { x }

  /**
   * `r` is `s.filter(keep).map(f)`: `idx` lists, increasing, exactly the
   * positions of `s` whose element passes `keep`, and `r[i]` is `f` of the
   * element at `idx[i]`. So every kept element appears once, in input order.
   */
  ghost predicate IndexesKept<T, U>(s: seq<T>, keep: T -> bool, f: T -> U, r: seq<U>, idx: seq<nat>)
  {
    && |idx| == |r|
    && (forall i | 0 <= i < |idx| :: idx[i] < |s| && keep(s[idx[i]]) && r[i] == f(s[idx[i]]))
    && (forall i, j | 0 <= i < j < |idx| :: idx[i] < idx[j])
    && (forall j | 0 <= j < |s| && keep(s[j]) :: j in idx)
  }

  /** `s.filter(keep).map(f)`. */
  function FilterMap<T, U>(s: seq<T>, keep: T -> bool, f: T -> U): seq<U>
    decreases |s|
  {
    if |s| == 0 then []
    else
      var x := s[|s| - 1];
      FilterMap(s[..|s| - 1], keep, f) + (if keep(x) then [f(x)] else [])
  }

  /** The filter keeps each passing element once, in input order: `idx` gives their positions. */
  lemma {:induction false} FilterMapKept<T, U>(s: seq<T>, keep: T -> bool, f: T -> U) returns (idx: seq<nat>)
    ensures IndexesKept(s, keep, f, FilterMap(s, keep, f), idx)
    decreases |s|
  {
    if |s| == 0 {
      idx := [];
    } else {
      var s0, x := s[..|s| - 1], s[|s| - 1];
      assert s0 + [x] == s;
      var idx0 := FilterMapKept(s0, keep, f);
      idx := KeptSnoc(s0, x, keep, f, FilterMap(s0, keep, f), idx0);
    }
  }

  /** One more element read: the kept list grows by its image exactly when it passes `keep`. */
  lemma {:induction false} KeptSnoc<T, U>(s: seq<T>, x: T, keep: T -> bool, f: T -> U, r: seq<U>, idx: seq<nat>)
    returns (idx': seq<nat>)
    requires IndexesKept(s, keep, f, r, idx)
    ensures IndexesKept(s + [x], keep, f, r + (if keep(x) then [f(x)] else []), idx')
  {
    var s' := s + [x];
    forall i | 0 <= i < |idx| ensures idx[i] < |s| && s'[idx[i]] == s[idx[i]] {
    }
    if keep(x) {
      idx' := idx + [|s|];
      forall j | 0 <= j < |s'| && keep(s'[j]) ensures j in idx' {
        if j < |s| {
          assert s'[j] == s[j];
          assert j in idx;
        } else {
          assert idx'[|idx|] == j;
        }
      }
      assert IndexesKept(s', keep, f, r + [f(x)], idx');
    } else {
      idx' := idx;
      forall j | 0 <= j < |s'| && keep(s'[j]) ensures j in idx {
        assert s'[j] == s[j];
      }
      assert r + [] == r;
      assert IndexesKept(s', keep, f, r, idx);
    }
  }

  /** What a filter-and-map promises on its own: each result is the image of a kept element, and each kept element has its image in the result. */
  lemma {:induction false} KeptMembers<T, U>(s: seq<T>, keep: T -> bool, f: T -> U, r: seq<U>)
    requires exists idx :: IndexesKept(s, keep, f, r, idx)
    ensures |r| <= |s|
    ensures forall y | y in r :: exists x | x in s :: keep(x) && f(x) == y
    ensures forall x | x in s && keep(x) :: f(x) in r
    ensures |r| == 0 <==> forall x | x in s :: !keep(x)
  {
    var idx: seq<nat> :| IndexesKept(s, keep, f, r, idx);
    IncreasingBelow(idx, |s|);
    forall y | y in r ensures exists x | x in s :: keep(x) && f(x) == y {
      var i :| 0 <= i < |r| && r[i] == y;
      var x := s[idx[i]];
      assert x in s && keep(x) && f(x) == y;
    }
    forall x | x in s && keep(x) ensures f(x) in r {
      var j :| 0 <= j < |s| && s[j] == x;
      assert j in idx;
      var i :| 0 <= i < |idx| && idx[i] == j;
      assert r[i] == f(x);
    }
    if |r| > 0 {
      assert s[idx[0]] in s && keep(s[idx[0]]);
    }
  }

  /** `FilterMap` with its contract: the kept elements in order, each once, and what that gives for membership. */
  lemma {:induction false} FilterMapSpec<T, U>(s: seq<T>, keep: T -> bool, f: T -> U)
    ensures exists idx :: IndexesKept(s, keep, f, FilterMap(s, keep, f), idx)
    ensures |FilterMap(s, keep, f)| <= |s|
    ensures forall y | y in FilterMap(s, keep, f) :: exists x | x in s :: keep(x) && f(x) == y
    ensures forall x | x in s && keep(x) :: f(x) in FilterMap(s, keep, f)
    ensures |FilterMap(s, keep, f)| == 0 <==> forall x | x in s :: !keep(x)
  {
    var idx := FilterMapKept(s, keep, f);
    KeptMembers(s, keep, f, FilterMap(s, keep, f));
  }

  lemma {:induction false} FilterMapSnoc<T, U>(s: seq<T>, x: T, keep: T -> bool, f: T -> U)
    ensures FilterMap(s + [x], keep, f) == FilterMap(s, keep, f) + (if keep(x) then [f(x)] else [])
  {
    assert (s + [x])[..|s|] == s;
  }

  /** Nothing is dropped exactly when every element passes, and then the result is `f` of each element in turn. */
  lemma {:induction false} FilterMapAll<T, U>(s: seq<T>, keep: T -> bool, f: T -> U)
    ensures |FilterMap(s, keep, f)| <= |s|
    ensures |FilterMap(s, keep, f)| == |s| <==> forall i | 0 <= i < |s| :: keep(s[i])
    ensures (forall i | 0 <= i < |s| :: keep(s[i])) ==> forall i | 0 <= i < |s| :: FilterMap(s, keep, f)[i] == f(s[i])
    decreases |s|
  {
    if |s| > 0 {
      var n := |s| - 1;
      var s0, x := s[..n], s[n];
      var r0 := FilterMap(s0, keep, f);
      FilterMapAll(s0, keep, f);
      assert FilterMap(s, keep, f) == r0 + (if keep(x) then [f(x)] else []);
      assert forall i | 0 <= i < n :: s0[i] == s[i];
      if forall i | 0 <= i < |s| :: keep(s[i]) {
        assert forall i | 0 <= i < n :: keep(s0[i]);
        assert keep(x);
      } else if keep(x) {
        var j :| 0 <= j < |s| && !keep(s[j]);
        assert j < n && !keep(s0[j]);
      }
    }
  }

  /** A strictly increasing list of positions below `n` has at most `n` entries. */
  lemma {:induction false} IncreasingBelow(idx: seq<nat>, n: nat)
    requires forall i | 0 <= i < |idx| :: idx[i] < n
    requires forall i, j | 0 <= i < j < |idx| :: idx[i] < idx[j]
    ensures |idx| <= n
    decreases |idx|
  {
    if |idx| > 0 {
      var m := |idx| - 1;
      IncreasingBelow(idx[..m], idx[m]);
    }
  }

  /** The elements of `s` whose key is `k`, in input order (`filter`). */
  function FilterKey<T, K(==)>(s: seq<T>, key: T -> K, k: K): (r: seq<T>)
    ensures forall y | y in r :: y in s && key(y) == k
    ensures |r| <= |s|
    decreases |s|
  {
    if |s| == 0 then []
    else FilterKey(s[..|s| - 1], key, k) + (if key(s[|s| - 1]) == k then [s[|s| - 1]] else [])
  }

  lemma {:induction false} FilterKeySnoc<T, K>(s: seq<T>, x: T, key: T -> K, k: K)
    ensures FilterKey(s + [x], key, k) == FilterKey(s, key, k) + (if key(x) == k then [x] else [])
  {
    assert (s + [x])[..|s|] == s;
  }

  /** A key that does not occur selects nothing. */
  lemma {:induction false} FilterKeyAbsent<T, K>(s: seq<T>, key: T -> K, k: K)
    requires k !in KeysOf(s, key)
    ensures FilterKey(s, key, k) == []
    decreases |s|
  {
    if |s| > 0 {
      var s0 := s[..|s| - 1];
      assert s == s0 + [s[|s| - 1]];
      KeysOfSnoc(s0, s[|s| - 1], key);
      FilterKeyAbsent(s0, key, k);
    }
  }

  /** A key together with the elements that carry it. */
  datatype Group<K, T> = Group(key: K, members: seq<T>)

  /** Position of the group with key `k`, or `|gs|` when there is none. */
  function FindGroup<K(==), T>(gs: seq<Group<K, T>>, k: K): (i: nat)
    ensures i <= |gs|
    ensures i < |gs| ==> gs[i].key == k
    ensures forall j | 0 <= j < i :: gs[j].key != k
  {
    if |gs| == 0 then 0
    else if gs[0].key == k then 0
    else 1 + FindGroup(gs[1..], k)
  }

  /** One step of grouping: create the group for `k` if it is missing, then push `x` into it. */
  function AddToGroup<K(==), T>(gs: seq<Group<K, T>>, k: K, x: T): seq<Group<K, T>>
  {
    var i := FindGroup(gs, k);
    if i < |gs| then gs[i := Group(k, gs[i].members + [x])] else gs + [Group(k, [x])]
  }

  /** Groups of `s` by key: groups in first-seen order, members in input order. */
  function GroupBy<T, K(==)>(s: seq<T>, key: T -> K): seq<Group<K, T>>
    decreases |s|
  {
    if |s| == 0 then []
    else AddToGroup(GroupBy(s[..|s| - 1], key), key(s[|s| - 1]), s[|s| - 1])
  }

  lemma {:induction false} GroupBySnoc<T, K>(s: seq<T>, x: T, key: T -> K)
    ensures GroupBy(s + [x], key) == AddToGroup(GroupBy(s, key), key(x), x)
  {
    assert (s + [x])[..|s|] == s;
  }

  /** The keys of the groups, in order. */
  function GroupKeys<K, T>(gs: seq<Group<K, T>>): (ks: seq<K>)
    ensures |ks| == |gs|
    ensures forall i | 0 <= i < |gs| :: ks[i] == gs[i].key
  {
    seq(|gs|, i requires 0 <= i < |gs| => gs[i].key)
  }

  /** Sum of the group sizes. */
  function TotalSize<K, T>(gs: seq<Group<K, T>>): nat
  {
    if |gs| == 0 then 0 else TotalSize(gs[..|gs| - 1]) + |gs[|gs| - 1].members|
  }

  lemma {:induction false} TotalSizeUpdate<K, T>(gs: seq<Group<K, T>>, i: nat, g: Group<K, T>)
    requires i < |gs|
    ensures TotalSize(gs[i := g]) == TotalSize(gs) - |gs[i].members| + |g.members|
    decreases |gs|
  {
    var n := |gs| - 1;
    if i < n {
      assert gs[i := g][..n] == gs[..n][i := g];
      TotalSizeUpdate(gs[..n], i, g);
    } else {
      assert gs[i := g][..n] == gs[..n];
    }
  }

  lemma {:induction false} TotalSizeSnoc<K, T>(gs: seq<Group<K, T>>, g: Group<K, T>)
    ensures TotalSize(gs + [g]) == TotalSize(gs) + |g.members|
  {
    assert (gs + [g])[..|gs|] == gs;
  }

  /**
   * Groups come in first-seen order: group `i` has the key of the `i`-th
   * first occurrence, and that occurrence is its first member.
   */
  lemma {:induction false} GroupByKeys<T, K>(s: seq<T>, key: T -> K)
    ensures |GroupBy(s, key)| == |DedupBy(s, key)|
    ensures forall i | 0 <= i < |GroupBy(s, key)| ::
      && GroupBy(s, key)[i].key == key(DedupBy(s, key)[i])
      && |GroupBy(s, key)[i].members| > 0
      && GroupBy(s, key)[i].members[0] == DedupBy(s, key)[i]
    decreases |s|
  {
    if |s| > 0 {
      var s0 := s[..|s| - 1];
      var x := s[|s| - 1];
      assert s == s0 + [x];
      GroupByKeys(s0, key);
      GroupBySnoc(s0, x, key);
      DedupBySnoc(s0, x, key);
      var gs0 := GroupBy(s0, key);
      var r0 := DedupBy(s0, key);
      var i := FindGroup(gs0, key(x));
      if key(x) in KeysOf(s0, key) {
        assert key(x) in KeysOf(r0, key);
        var m :| 0 <= m < |r0| && key(r0[m]) == key(x);
        assert gs0[m].key == key(x);
        assert i < |gs0|;
      } else {
        assert forall m | 0 <= m < |r0| :: key(r0[m]) in KeysOf(r0, key);
        assert i == |gs0|;
      }
    }
  }

  /** The group keys are the distinct keys of `s`. */
  lemma {:induction false} GroupKeysDistinct<T, K>(s: seq<T>, key: T -> K)
    ensures forall i, j | 0 <= i < j < |GroupBy(s, key)| :: GroupBy(s, key)[i].key != GroupBy(s, key)[j].key
    ensures forall k :: k in KeysOf(s, key) <==> k in GroupKeys(GroupBy(s, key))
  {
    GroupByKeys(s, key);
    var gs := GroupBy(s, key);
    var r := DedupBy(s, key);
    forall k ensures k in KeysOf(s, key) <==> k in GroupKeys(gs) {
      if k in KeysOf(s, key) {
        assert k in KeysOf(r, key);
        var m :| 0 <= m < |r| && key(r[m]) == k;
        assert GroupKeys(gs)[m] == k;
      }
      if k in GroupKeys(gs) {
        var m :| 0 <= m < |gs| && GroupKeys(gs)[m] == k;
        assert key(r[m]) in KeysOf(r, key);
      }
    }
  }

  /**
   * Every group holds exactly the elements of `s` with its key, in input
   * order.
   */
  lemma {:induction false} GroupByMembers<T, K>(s: seq<T>, key: T -> K)
    ensures forall i | 0 <= i < |GroupBy(s, key)| ::
      GroupBy(s, key)[i].members == FilterKey(s, key, GroupBy(s, key)[i].key)
    decreases |s|
  {
    if |s| > 0 {
      var s0 := s[..|s| - 1];
      var x := s[|s| - 1];
      assert s == s0 + [x];
      GroupByMembers(s0, key);
      GroupKeysDistinct(s0, key);
      GroupBySnoc(s0, x, key);
      var gs0 := GroupBy(s0, key);
      var i := FindGroup(gs0, key(x));
      forall k ensures FilterKey(s, key, k) == FilterKey(s0, key, k) + (if key(x) == k then [x] else []) {
        FilterKeySnoc(s0, x, key, k);
      }
      if i == |gs0| {
        assert key(x) !in GroupKeys(gs0);
        FilterKeyAbsent(s0, key, key(x));
      }
    }
  }

  /** The group sizes add up to the number of elements grouped. */
  lemma {:induction false} GroupByTotal<T, K>(s: seq<T>, key: T -> K)
    ensures TotalSize(GroupBy(s, key)) == |s|
    decreases |s|
  {
    if |s| > 0 {
      var s0 := s[..|s| - 1];
      var x := s[|s| - 1];
      assert s == s0 + [x];
      GroupByTotal(s0, key);
      GroupBySnoc(s0, x, key);
      var gs0 := GroupBy(s0, key);
      var i := FindGroup(gs0, key(x));
      if i < |gs0| {
        TotalSizeUpdate(gs0, i, Group(key(x), gs0[i].members + [x]));
      } else {
        TotalSizeSnoc(gs0, Group(key(x), [x]));
      }
    }
  }

  /** Concatenation of a sequence of sequences. */
  function Flatten<T>(ss: seq<seq<T>>): seq<T>
  {
    if |ss| == 0 then [] else Flatten(ss[..|ss| - 1]) + ss[|ss| - 1]
  }

  lemma {:induction false} FlattenSnoc<T>(ss: seq<seq<T>>, b: seq<T>)
    ensures Flatten(ss + [b]) == Flatten(ss) + b
  {
    assert (ss + [b])[..|ss|] == ss;
  }

  /**
   * `batches` is what `for (i = 0; i < s.length; i += size) s.slice(i, i + size)`
   * produces: consecutive non-empty slices that cover `s` in order, each of
   * `size` elements except possibly the last.
   */
  ghost predicate IsBatching<T>(batches: seq<seq<T>>, s: seq<T>, size: nat)
  {
    && Flatten(batches) == s
    && (forall b | b in batches :: 0 < |b| <= size)
    && (forall i | 0 <= i < |batches| - 1 :: |batches[i]| == size)
  }

  /**
   * Position of the element a `new Map(s.map(x => [key(x), x]))` returns for
   * `k`: a later entry overwrites an earlier one, so the last element with
   * that key wins.
   */
  function LastIndexOfKey<T, K(==)>(s: seq<T>, key: T -> K, k: K): (r: Option<nat>)
    ensures r.Some? ==> r.value < |s| && key(s[r.value]) == k
    ensures r.Some? ==> forall j | r.value < j < |s| :: key(s[j]) != k
    ensures r.None? ==> forall j | 0 <= j < |s| :: key(s[j]) != k
  {
    if |s| == 0 then None
    else if key(s[|s| - 1]) == k then Some(|s| - 1)
    else LastIndexOfKey(s[..|s| - 1], key, k)
  }

  lemma {:induction false} FlattenCons<T>(b: seq<T>, ss: seq<seq<T>>)
    ensures Flatten([b] + ss) == b + Flatten(ss)
    decreases |ss|
  {
    if |ss| == 0 {
      assert [b] + ss == [] + [b];
    } else {
      var n := |ss| - 1;
      assert [b] + ss == ([b] + ss[..n]) + [ss[n]];
      FlattenSnoc([b] + ss[..n], ss[n]);
      FlattenCons(b, ss[..n]);
      FlattenSnoc(ss[..n], ss[n]);
      assert ss[..n] + [ss[n]] == ss;
    }
  }

  /** The slices `s.slice(i, i + size)` for `i = 0, size, 2 * size, ...` while `i < s.length`. */
  function Chunks<T>(s: seq<T>, size: nat): seq<seq<T>>
    requires size > 0
    decreases |s|
  {
    if |s| == 0 then []
    else if |s| <= size then [s]
    else [s[..size]] + Chunks(s[size..], size)
  }

  /** The chunks are a batching of `s`: they cover it in order, full except possibly the last. */
  lemma {:induction false} ChunksAreBatches<T>(s: seq<T>, size: nat)
    requires size > 0
    ensures IsBatching(Chunks(s, size), s, size)
    decreases |s|
  {
    if 0 < |s| <= size {
      assert Chunks(s, size) == [s];
      BatchingSingle(s, size);
    } else if |s| > size {
      var head, tail := s[..size], s[size..];
      assert Chunks(s, size) == [head] + Chunks(tail, size);
      ChunksAreBatches(tail, size);
      BatchingCons(head, Chunks(tail, size), tail, size);
      assert head + tail == s;
    }
  }

  /** A single short batch is a batching of itself. */
  lemma {:induction false} BatchingSingle<T>(s: seq<T>, size: nat)
    requires 0 < |s| <= size
    ensures IsBatching([s], s, size)
  {
    assert Flatten([s]) == Flatten([] + [s]);
  }

  /** A full batch in front of a batching is a batching of the joined sequence. */
  lemma {:induction false} BatchingCons<T>(b: seq<T>, bs: seq<seq<T>>, rest: seq<T>, size: nat)
    requires IsBatching(bs, rest, size) && |b| == size > 0
    ensures IsBatching([b] + bs, b + rest, size)
  {
    FlattenCons(b, bs);
    assert forall c | c in [b] + bs :: c == b || c in bs;
    assert forall i | 1 <= i < |bs| + 1 :: ([b] + bs)[i] == bs[i - 1];
  }

  /** The loop's step: from position `i`, the next slice is `s[i..min(i + size, |s|)]`. */
  lemma {:induction false} ChunksStep<T>(s: seq<T>, size: nat, i: nat)
    requires size > 0 && i < |s|
    ensures Chunks(s[i..], size) == [s[i..Min(i + size, |s|)]] + Chunks(s[Min(i + size, |s|)..], size)
  {
    if |s| - i <= size {
      assert Min(i + size, |s|) == |s|;
      assert s[|s|..] == [];
      assert s[i..|s|] == s[i..];
      assert Chunks(s[i..], size) == [s[i..]];
    } else {
      assert s[i..][..size] == s[i..i + size];
      assert s[i..][size..] == s[i + size..];
    }
  }

  /** One step of a batch loop: the batches sent so far grow by the batch starting at `i`. */
  lemma {:induction false} ChunksAdvance<T>(s: seq<T>, size: nat, i: nat, done: seq<seq<T>>)
    requires size > 0 && i < |s|
    requires Chunks(s, size) == done + Chunks(s[Min(i, |s|)..], size)
    ensures Chunks(s, size) == (done + [s[i..Min(i + size, |s|)]]) + Chunks(s[Min(i + size, |s|)..], size)
  {
    assert Min(i, |s|) == i;
    ChunksStep(s, size, i);
  }

  /** When a batch loop has passed the end, the batches sent are all of them. */
  lemma {:induction false} ChunksDone<T>(s: seq<T>, size: nat, i: nat, done: seq<seq<T>>)
    requires size > 0 && |s| <= i
    requires Chunks(s, size) == done + Chunks(s[Min(i, |s|)..], size)
    ensures Chunks(s, size) == done
  {
    assert Min(i, |s|) == |s| && s[|s|..] == [];
    assert done + [] == done;
  }

  /** The total size of the batches at positions `j` with `p(j) == want`. */
  function SizesWhere<T>(bs: seq<seq<T>>, p: nat -> bool, want: bool): nat
  {
    if |bs| == 0 then 0
    else SizesWhere(bs[..|bs| - 1], p, want) + (if p(|bs| - 1) == want then |bs[|bs| - 1]| else 0)
  }

  lemma {:induction false} SizesWhereSnoc<T>(bs: seq<seq<T>>, b: seq<T>, p: nat -> bool, want: bool)
    ensures SizesWhere(bs + [b], p, want) == SizesWhere(bs, p, want) + (if p(|bs|) == want then |b| else 0)
  {
    assert (bs + [b])[..|bs|] == bs;
  }

  /** Every element is counted on exactly one side. */
  lemma {:induction false} SizesWhereSplit<T>(bs: seq<seq<T>>, p: nat -> bool)
    ensures SizesWhere(bs, p, true) + SizesWhere(bs, p, false) == |Flatten(bs)|
    decreases |bs|
  {
    if |bs| > 0 {
      var n := |bs| - 1;
      SizesWhereSplit(bs[..n], p);
      FlattenSnoc(bs[..n], bs[n]);
      assert bs[..n] + [bs[n]] == bs;
    }
  }

  /** The batches at positions `j` with `p(j) == want`, concatenated in order. */
  function FlattenWhere<T>(bs: seq<seq<T>>, p: nat -> bool, want: bool): seq<T>
  {
    if |bs| == 0 then []
    else FlattenWhere(bs[..|bs| - 1], p, want) + (if p(|bs| - 1) == want then bs[|bs| - 1] else [])
  }

  lemma {:induction false} FlattenWhereSnoc<T>(bs: seq<seq<T>>, b: seq<T>, p: nat -> bool, want: bool)
    ensures FlattenWhere(bs + [b], p, want) == FlattenWhere(bs, p, want) + (if p(|bs|) == want then b else [])
  {
    assert (bs + [b])[..|bs|] == bs;
  }

  /** The selected batches hold as many elements as `SizesWhere` counts. */
  lemma {:induction false} FlattenWhereSize<T>(bs: seq<seq<T>>, p: nat -> bool, want: bool)
    ensures |FlattenWhere(bs, p, want)| == SizesWhere(bs, p, want)
    decreases |bs|
  {
    if |bs| > 0 {
      FlattenWhereSize(bs[..|bs| - 1], p, want);
    }
  }

  /** When every batch is selected, they are all concatenated. */
  lemma {:induction false} FlattenWhereAll<T>(bs: seq<seq<T>>, p: nat -> bool, want: bool)
    requires forall j: nat :: p(j) == want
    ensures FlattenWhere(bs, p, want) == Flatten(bs)
    decreases |bs|
  {
    if |bs| > 0 {
      FlattenWhereAll(bs[..|bs| - 1], p, want);
    }
  }

  /** The selected batches hold only elements of the batches. */
  lemma {:induction false} FlattenWhereMembers<T>(bs: seq<seq<T>>, p: nat -> bool, want: bool)
    ensures forall x | x in FlattenWhere(bs, p, want) :: x in Flatten(bs)
    decreases |bs|
  {
    if |bs| > 0 {
      var n := |bs| - 1;
      FlattenWhereMembers(bs[..n], p, want);
      FlattenSnoc(bs[..n], bs[n]);
      assert bs[..n] + [bs[n]] == bs;
    }
  }
}
