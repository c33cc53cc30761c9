/**
 * Character-level text operations used by the message parser and the
 * keyword filter: Python's whitespace class, `str.strip()` and a literal
 * leftmost substring search. The substring search is what `re.search` does
 * for a pattern that starts with a literal and can otherwise match the
 * empty string.
 *
 * Whitespace is the ASCII part of Python's `str.isspace()`. CPython uses
 * that test both for the regular-expression class `\s` and for `str.strip()`.
 */
module Text {
  import opened Wrappers

  /**
   * Tab, line feed, vertical tab, form feed and carriage return (9 to 13),
   * the four separators 28 to 31, and the space (32).
   */
  predicate IsSpace(c: char)
  {
    ('\t' <= c <= '\r') || ('\U{001C}' <= c <= ' ')
  }

  /** Every character of `s[lo..hi]` is whitespace. */
  ghost predicate AllSpaceIn(s: string, lo: nat, hi: nat)
    requires lo <= hi <= |s|
  {
    forall j :: lo <= j < hi ==> IsSpace(s[j])
  }

  /** Every character of `s` is whitespace. */
  ghost predicate AllSpace(s: string)
  {
    AllSpaceIn(s, 0, |s|)
  }

  /** Two runs of whitespace joined by a whitespace character form one run. */
  lemma SpaceRunsJoin(s: string, lo: nat, n: nat, hi: nat)
    requires lo <= n < hi <= |s|
    requires AllSpaceIn(s, lo, n) && IsSpace(s[n]) && AllSpaceIn(s, n + 1, hi)
    ensures AllSpaceIn(s, lo, hi)
  {
  }

  /** `s` neither starts nor ends with whitespace. */
  predicate IsStripped(s: string)
  {
    s == [] || (!IsSpace(s[0]) && !IsSpace(s[|s| - 1]))
  }

  /** The first index at or after `i` that does not hold whitespace (or `|s|`). */
  function SkipSpace(s: string, i: nat): (r: nat)
    requires i <= |s|
    ensures i <= r <= |s|
    ensures r == |s| || !IsSpace(s[r])
    decreases |s| - i
  {
    if i < |s| && IsSpace(s[i]) then SkipSpace(s, i + 1) else i
  }

  /**
   * Where the trailing whitespace of `s[lo..hi]` starts: `s[lo..r]` is that
   * slice with its trailing whitespace cut off.
   */
  function TrimEnd(s: string, lo: nat, hi: nat): (r: nat)
    requires lo <= hi <= |s|
    ensures lo <= r <= hi
    ensures r == lo || !IsSpace(s[r - 1])
    decreases hi - lo
  {
    if lo < hi && IsSpace(s[hi - 1]) then TrimEnd(s, lo, hi - 1) else hi
  }

  /** The index of the first line break at or after `i` (or `|s|`). */
  function LineEnd(s: string, i: nat): (r: nat)
    requires i <= |s|
    ensures i <= r <= |s|
    ensures r == |s| || s[r] == '\n'
    decreases |s| - i
  {
    if i < |s| && s[i] != '\n' then LineEnd(s, i + 1) else i
  }

  /** `SkipSpace` passes over whitespace only. */
  lemma {:induction false} SkipSpaceSkipsSpace(s: string, i: nat)
    requires i <= |s|
    ensures AllSpaceIn(s, i, SkipSpace(s, i))
    decreases |s| - i
  {
    if i < |s| && IsSpace(s[i]) {
      SkipSpaceSkipsSpace(s, i + 1);
    }
  }

  /** `TrimEnd` cuts whitespace only. */
  lemma {:induction false} TrimEndCutsSpace(s: string, lo: nat, hi: nat)
    requires lo <= hi <= |s|
    ensures AllSpaceIn(s, TrimEnd(s, lo, hi), hi)
    decreases hi - lo
  {
    if lo < hi && IsSpace(s[hi - 1]) {
      TrimEndCutsSpace(s, lo, hi - 1);
    }
  }

  /** `LineEnd` passes over no line break. */
  lemma {:induction false} LineEndCrossesNoBreak(s: string, i: nat)
    requires i <= |s|
    ensures forall j :: i <= j < LineEnd(s, i) ==> s[j] != '\n'
    decreases |s| - i
  {
    if i < |s| && s[i] != '\n' {
      LineEndCrossesNoBreak(s, i + 1);
    }
  }

  /** `SkipSpace` is determined by what it passes over and where it stops. */
  lemma {:induction false} SkipSpaceUnique(s: string, i: nat, r: nat)
    requires i <= r <= |s| && AllSpaceIn(s, i, r)
    requires r == |s| || !IsSpace(s[r])
    ensures SkipSpace(s, i) == r
    decreases r - i
  {
    if i < r {
      SkipSpaceUnique(s, i + 1, r);
    }
  }

  /** `TrimEnd` is determined by what it cuts and where it stops. */
  lemma {:induction false} TrimEndUnique(s: string, lo: nat, hi: nat, r: nat)
    requires lo <= r <= hi <= |s| && AllSpaceIn(s, r, hi)
    requires r == lo || !IsSpace(s[r - 1])
    ensures TrimEnd(s, lo, hi) == r
    decreases hi - r
  {
    if r < hi {
      TrimEndUnique(s, lo, hi - 1, r);
    }
  }

  /** `LineEnd` is determined by what it passes over and where it stops. */
  lemma {:induction false} LineEndUnique(s: string, i: nat, r: nat)
    requires i <= r <= |s| && forall j :: i <= j < r ==> s[j] != '\n'
    requires r == |s| || s[r] == '\n'
    ensures LineEnd(s, i) == r
    decreases r - i
  {
    if i < r {
      LineEndUnique(s, i + 1, r);
    }
  }

  /** `str.strip()`: cuts the leading and the trailing whitespace. */
  function Strip(s: string): (r: string)
    ensures IsStripped(r)
  {
    var a := SkipSpace(s, 0);
    s[a..TrimEnd(s, a, |s|)]
  }

  /**
   * Stripping a slice of `s` keeps exactly the part between its first
   * non-space index `a` and the start of its trailing whitespace.
   */
  lemma StripOfSlice(s: string, lo: nat, a: nat, hi: nat)
    requires lo <= a <= hi <= |s|
    requires AllSpaceIn(s, lo, a)
    requires a == hi || !IsSpace(s[a])
    ensures Strip(s[lo..hi]) == s[a..TrimEnd(s, a, hi)]
  {
    var t, b := s[lo..hi], TrimEnd(s, a, hi);
    assert SkipSpace(t, 0) == a - lo by {
      SkipSpaceOfSlice(s, lo, a, hi);
    }
    assert TrimEnd(t, a - lo, |t|) == b - lo by {
      TrimEndOfSlice(s, lo, a, hi);
    }
    assert t[a - lo..b - lo] == s[a..b] by {
      SliceOfSlice(s, lo, hi, a, b);
    }
    StripByBounds(t, a - lo, b - lo);
  }

  /** `StripOfSlice` for a slice that runs to the end of `s`. */
  lemma StripOfSuffix(s: string, lo: nat, a: nat)
    requires lo <= a <= |s|
    requires AllSpaceIn(s, lo, a)
    requires a == |s| || !IsSpace(s[a])
    ensures Strip(s[lo..]) == s[a..TrimEnd(s, a, |s|)]
  {
    assert s[lo..] == s[lo..|s|];
    StripOfSlice(s, lo, a, |s|);
  }

  /** The middle part of a concatenation, sliced back out. */
  lemma MiddleOfConcat(a: string, b: string, c: string)
    ensures (a + b + c)[|a|..|a| + |b|] == b
  {
  }

  lemma StripByBounds(t: string, a: nat, b: nat)
    requires a <= |t| && SkipSpace(t, 0) == a
    requires a <= b <= |t| && TrimEnd(t, a, |t|) == b
    ensures Strip(t) == t[a..b]
  {
  }

  lemma SliceOfSlice(s: string, lo: nat, hi: nat, a: nat, b: nat)
    requires lo <= a <= b <= hi <= |s|
    ensures s[lo..hi][a - lo..b - lo] == s[a..b]
  {
    var t := s[lo..hi][a - lo..b - lo];
    assert forall j :: 0 <= j < |t| ==> t[j] == s[a + j];
  }

  lemma SkipSpaceOfSlice(s: string, lo: nat, a: nat, hi: nat)
    requires lo <= a <= hi <= |s|
    requires AllSpaceIn(s, lo, a)
    requires a == hi || !IsSpace(s[a])
    ensures SkipSpace(s[lo..hi], 0) == a - lo
  {
    var t := s[lo..hi];
    assert forall j :: 0 <= j < a - lo ==> t[j] == s[lo + j];
    assert a < hi ==> t[a - lo] == s[a];
    SkipSpaceUnique(t, 0, a - lo);
  }

  lemma TrimEndOfSlice(s: string, lo: nat, a: nat, hi: nat)
    requires lo <= a <= hi <= |s|
    ensures TrimEnd(s[lo..hi], a - lo, |s[lo..hi]|) == TrimEnd(s, a, hi) - lo
  {
    var t := s[lo..hi];
    var b := TrimEnd(s, a, hi);
    TrimEndCutsSpace(s, a, hi);
    assert forall j :: b - lo <= j < |t| ==> t[j] == s[lo + j];
    assert b > a ==> t[b - lo - 1] == s[b - 1];
    TrimEndUnique(t, a - lo, |t|, b - lo);
  }

  /**
   * `strip()` is characterised by what it keeps: whatever text `m` without
   * surrounding whitespace is wrapped in whitespace `p` and `q`, stripping
   * gives back exactly `m`.
   */
  lemma StripCharacterization(p: string, m: string, q: string)
    requires AllSpace(p) && AllSpace(q) && IsStripped(m)
    ensures Strip(p + m + q) == m
  {
    var s := p + m + q;
    if m == [] {
      assert forall j :: 0 <= j < |p| ==> s[j] == p[j];
      assert forall j :: |p| <= j < |s| ==> s[j] == q[j - |p|];
      SkipSpaceUnique(s, 0, |s|);
      StripByBounds(s, |s|, |s|);
    } else {
      var b := |p| + |m|;
      assert forall j :: 0 <= j < |p| ==> s[j] == p[j];
      assert s[|p|] == m[0] && s[b - 1] == m[|m| - 1];
      assert forall j :: b <= j < |s| ==> s[j] == q[j - b];
      SkipSpaceUnique(s, 0, |p|);
      TrimEndUnique(s, |p|, |s|, b);
      StripByBounds(s, |p|, b);
      assert s[|p|..b] == m;
    }
  }

  /** `strip()` returns a slice of its argument with only whitespace cut off. */
  lemma StripIsSlice(s: string) returns (a: nat, b: nat)
    ensures a <= b <= |s| && Strip(s) == s[a..b]
    ensures AllSpace(s[..a]) && AllSpace(s[b..])
  {
    a := SkipSpace(s, 0);
    b := TrimEnd(s, a, |s|);
    SkipSpaceSkipsSpace(s, 0);
    TrimEndCutsSpace(s, a, |s|);
  }

  /** Text without surrounding whitespace is left as it is. */
  lemma StripOfStripped(m: string)
    requires IsStripped(m)
    ensures Strip(m) == m
  {
  }

  lemma StripIdempotent(s: string)
    ensures Strip(Strip(s)) == Strip(s)
  {
  }

  /** Leading whitespace never reaches the result of `strip()`. */
  lemma StripSkipsLeadingSpace(c: char, t: string)
    requires IsSpace(c)
    ensures Strip([c] + t) == Strip(t)
  {
    var s := [c] + t;
    var a := SkipSpace(s, 1);
    SkipSpaceSkipsSpace(s, 1);
    StripOfSlice(s, 0, a, |s|);
    StripOfSlice(s, 1, a, |s|);
    assert s[0..|s|] == s && s[1..|s|] == t;
  }

  /** A run of whitespace in front of a slice does not change its stripped form. */
  lemma StripDropsSpaceRun(s: string, lo: nat, a: nat, hi: nat)
    requires lo <= a <= hi <= |s|
    requires AllSpaceIn(s, lo, a)
    requires a == hi || !IsSpace(s[a])
    ensures Strip(s[lo..hi]) == Strip(s[a..hi])
  {
    StripOfSlice(s, lo, a, hi);
    StripOfSlice(s, a, a, hi);
  }

  /** The pattern `p` occurs in `s` starting at index `i`. */
  predicate OccursAt(s: string, p: string, i: nat)
  {
    i + |p| <= |s| && s[i..i + |p|] == p
  }

  /** One differing character rules out an occurrence. */
  lemma MismatchAt(s: string, p: string, i: nat, t: nat)
    requires t < |p| && i + t < |s| && s[i + t] != p[t]
    ensures !OccursAt(s, p, i)
  {
  }

  /** Matching every character gives an occurrence. */
  lemma MatchAt(s: string, p: string, i: nat)
    requires i + |p| <= |s|
    requires forall t :: 0 <= t < |p| ==> s[i + t] == p[t]
    ensures OccursAt(s, p, i)
  {
  }

  /** `p` occurs somewhere in `s`. */
  ghost predicate Occurs(s: string, p: string)
  {
    exists i: nat :: OccursAt(s, p, i)
  }

  /**
   * The leftmost occurrence of `p` in `s` at or after index `i`, or `None`
   * when there is none.
   */
  function FindFrom(s: string, p: string, i: nat): (r: Option<nat>)
    ensures r.Some? ==> i <= r.value && OccursAt(s, p, r.value)
    decreases |s| - i
  {
    if i + |p| > |s| then None
    else if OccursAt(s, p, i) then Some(i)
    else FindFrom(s, p, i + 1)
  }

  /** A search from `i` reports nothing exactly when `p` occurs nowhere at or after `i`. */
  lemma {:induction false} FindFromNoneIffAbsent(s: string, p: string, i: nat)
    ensures FindFrom(s, p, i).None? <==> forall j: nat :: i <= j ==> !OccursAt(s, p, j)
    decreases |s| - i
  {
    if i + |p| <= |s| && !OccursAt(s, p, i) {
      FindFromNoneIffAbsent(s, p, i + 1);
    }
  }

  /** A search from `i` skips no occurrence. */
  lemma {:induction false} FindFromSkipsNothing(s: string, p: string, i: nat)
    requires FindFrom(s, p, i).Some?
    ensures forall j: nat :: i <= j < FindFrom(s, p, i).value ==> !OccursAt(s, p, j)
    decreases |s| - i
  {
    if !OccursAt(s, p, i) {
      FindFromSkipsNothing(s, p, i + 1);
    }
  }

  /** `k` is the leftmost position where `p` occurs in `s`. */
  ghost predicate FirstOccurrence(s: string, p: string, k: nat)
  {
    OccursAt(s, p, k) && forall j: nat :: j < k ==> !OccursAt(s, p, j)
  }

  /** A search from the start reports the leftmost occurrence ... */
  lemma FindFromFindsFirst(s: string, p: string)
    requires FindFrom(s, p, 0).Some?
    ensures FirstOccurrence(s, p, FindFrom(s, p, 0).value)
  {
    FindFromSkipsNothing(s, p, 0);
  }

  /** ... and the leftmost occurrence is what a search from the start reports. */
  lemma FirstOccurrenceIsFound(s: string, p: string, k: nat)
    requires FirstOccurrence(s, p, k)
    ensures FindFrom(s, p, 0) == Some(k)
  {
    FindFromNoneIffAbsent(s, p, 0);
    FindFromSkipsNothing(s, p, 0);
  }

  /**
   * A line piece that starts at a non-space and holds no line break stays
   * without line breaks and is stripped once its trailing space is cut.
   */
  lemma TrimmedLineIsStripped(s: string, g0: nat, g1: nat)
    requires g0 <= g1 <= |s|
    requires g0 == |s| || !IsSpace(s[g0])
    requires forall j :: g0 <= j < g1 ==> s[j] != '\n'
    ensures '\n' !in s[g0..TrimEnd(s, g0, g1)]
    ensures IsStripped(s[g0..TrimEnd(s, g0, g1)])
  {
  }
}
