/**
 * Knuth-Morris-Pratt substring search: the `buildLPS` / `KMPsearch` pair of
 * pruebaKMPAplicacion.cpp. DyslexiaLogic.cpp repeats `buildLPS` line for line
 * and repeats the search loop on a lower-cased copy of the text; that copy is
 * made in module DyslexiaLogic, which then runs `Search` below.
 *
 * Both borders and occurrences are stated through `Agrees`, a character by
 * character comparison of a stretch of one string with a prefix of another:
 * `IsBorder(p, i, k)` says that the first `k` characters of `p[..i]` are also
 * its last `k` characters, with `k < i`, and `IsMatchAt(t, p, q)` says that
 * `p` occurs in `t` at position `q`. `BorderSlices` and `MatchSlices` restate
 * both as equations between slices.
 */
module Kmp {

  /** `k` is the length of a proper prefix of `p[..i]` that is also a suffix of `p[..i]`. */
  predicate IsBorder(p: string, i: nat, k: nat)
  {
    k < i <= |p| && Agrees(p, p, i - k, k)
  }

  /** The same, as an equation between slices. */
  lemma BorderSlices(p: string, i: nat, k: nat)
    requires k < i <= |p|
    ensures IsBorder(p, i, k) <==> p[..k] == p[i - k..i]
  {
    AgreesSlices(p, p, i - k, k);
  }

  /** The largest border of `p[..i]` that is at most `b`. */
  function LongestBorderAtMost(p: string, i: nat, b: nat): (k: nat)
    requires 0 < i <= |p| && b < i
    ensures k <= b && IsBorder(p, i, k)
    ensures forall k' :: k < k' <= b ==> !IsBorder(p, i, k')
    decreases b
  {
    if b == 0 || IsBorder(p, i, b) then b else LongestBorderAtMost(p, i, b - 1)
  }

  /** The prefix function: the length of the longest proper border of `p[..i]`. */
  function LongestBorder(p: string, i: nat): (k: nat)
    requires 0 < i <= |p|
    ensures k < i && IsBorder(p, i, k)
  {
    LongestBorderAtMost(p, i, i - 1)
  }

  /** No border of `p[..i]` is longer than the prefix function. */
  lemma LongestBorderMaximal(p: string, i: nat)
    requires 0 < i <= |p|
    ensures forall k' :: LongestBorder(p, i) < k' < i ==> !IsBorder(p, i, k')
  {
  }

  lemma LongestBorderIs(p: string, i: nat, k: nat)
    requires 0 < i <= |p|
    requires IsBorder(p, i, k)
    requires forall k' :: k < k' < i ==> !IsBorder(p, i, k')
    ensures LongestBorder(p, i) == k
  {
  }

  /** A border of `p[..i]` followed by `p[i]` is a border of `p[..i+1]`. */
  lemma ExtendBorder(p: string, i: nat, k: nat)
    requires IsBorder(p, i, k) && i < |p| && p[k] == p[i]
    ensures IsBorder(p, i + 1, k + 1)
  {
    assert (i + 1) - (k + 1) == i - k;
  }

  /** Every non-empty border of `p[..j]` is a border of `p[..j-1]` extended by `p[j-1]`. */
  lemma ShrinkBorder(p: string, j: nat, k: nat)
    requires 0 < k
    ensures IsBorder(p, j, k) ==> IsBorder(p, j - 1, k - 1) && p[k - 1] == p[j - 1]
  {
    if IsBorder(p, j, k) {
      assert (j - 1) - (k - 1) == j - k;
    }
  }

  /** A border of a border of `p[..i]` is a border of `p[..i]`. */
  lemma BorderOfBorder(p: string, i: nat, k: nat, k2: nat)
    requires IsBorder(p, i, k) && IsBorder(p, k, k2)
    ensures IsBorder(p, i, k2)
  {
    BorderSlices(p, i, k);
    BorderSlices(p, k, k2);
    BorderSlices(p, i, k2);
    assert p[k - k2..k] == p[..k][k - k2..];
    assert p[i - k2..i] == p[i - k..i][k - k2..];
  }

  /** A border of `p[..i]` shorter than another border `k` is a border of `p[..k]`. */
  lemma ShorterBorderOfBorder(p: string, i: nat, k: nat, k2: nat)
    requires IsBorder(p, i, k) && k2 < k
    ensures IsBorder(p, i, k2) ==> IsBorder(p, k, k2)
  {
    BorderSlices(p, i, k);
    BorderSlices(p, k, k2);
    BorderSlices(p, i, k2);
    assert p[k - k2..k] == p[..k][k - k2..];
    assert p[i - k2..i] == p[i - k..i][k - k2..];
  }

  /**
   * The table loop's knowledge about the candidates above `len`: none of the
   * borders of `p[..i]` longer than `len` can be extended by `p[i]`.
   */
  predicate NoLongerExtension(p: string, i: nat, len: nat)
    requires i < |p|
  {
    forall k :: len < k < i && IsBorder(p, i, k) ==> p[k] != p[i]
  }

  /** When `p[i]` extends the candidate `len`, the prefix function of `p[..i+1]` is `len + 1`. */
  lemma ExtendStep(p: string, i: nat, len: nat)
    requires i < |p| && IsBorder(p, i, len) && NoLongerExtension(p, i, len)
    requires p[i] == p[len]
    ensures LongestBorder(p, i + 1) == len + 1
    ensures i + 1 < |p| ==> NoLongerExtension(p, i + 1, len + 1)
  {
    var next := i + 1;
    forall k | len + 1 < k < next
      ensures !IsBorder(p, next, k)
    {
      ShrinkBorder(p, next, k);
    }
    LongestBorderIs(p, i + 1, len + 1);
  }

  /** When no candidate extends, the prefix function of `p[..i+1]` is 0. */
  lemma ZeroStep(p: string, i: nat)
    requires 0 < i < |p| && NoLongerExtension(p, i, 0)
    requires p[i] != p[0]
    ensures LongestBorder(p, i + 1) == 0
    ensures i + 1 < |p| ==> NoLongerExtension(p, i + 1, 0)
  {
    var next := i + 1;
    forall k | 0 < k < next
      ensures !IsBorder(p, next, k)
    {
      ShrinkBorder(p, next, k);
    }
    LongestBorderIs(p, i + 1, 0);
  }

  /** When `p[i]` does not extend `len`, the next candidate is the prefix function of `p[..len]`. */
  lemma FallbackStep(p: string, i: nat, len: nat)
    requires i < |p| && 0 < len && IsBorder(p, i, len) && NoLongerExtension(p, i, len)
    requires p[i] != p[len]
    ensures IsBorder(p, i, LongestBorder(p, len))
    ensures NoLongerExtension(p, i, LongestBorder(p, len))
  {
    var shorter := LongestBorder(p, len);
    BorderOfBorder(p, i, len, shorter);
    forall k | shorter < k < len
      ensures !IsBorder(p, i, k)
    {
      ShorterBorderOfBorder(p, i, len, k);
    }
  }

  /**
   * `buildLPS`: the table whose entry `i` is the prefix function of
   * `pattern[..i+1]`. The table is a buffer of `|pattern|` zeros that the loop
   * fills in; the loop ends because every pass either advances `i` or
   * replaces `len` by the strictly smaller `lps[len - 1]`.
   */
  method BuildLps(pattern: string) returns (lps: seq<nat>)
    ensures |lps| == |pattern|
    ensures forall i :: 0 <= i < |pattern| ==> lps[i] == LongestBorder(pattern, i + 1)
    ensures forall i :: 0 <= i < |pattern| ==> lps[i] <= i
  {
    var m := |pattern|;
    var table := new nat[m](_ => 0);
    var len: nat := 0;
    var i: nat := 1;
    while i < m
      invariant 1 <= i && (m == 0 || i <= m)
      invariant i <= m ==> IsBorder(pattern, i, len)
      invariant forall j :: 0 <= j < i && j < m ==> table[j] == LongestBorder(pattern, j + 1)
      invariant i < m ==> NoLongerExtension(pattern, i, len)
      decreases m - i, len
    {
      if pattern[i] == pattern[len] {
        ExtendStep(pattern, i, len);
        len := len + 1;
        table[i] := len;
        i := i + 1;
      } else {
        if len != 0 {
          FallbackStep(pattern, i, len);
          len := table[len - 1];
        } else {
          ZeroStep(pattern, i);
          table[i] := 0;
          i := i + 1;
        }
      }
    }
    lps := table[..];
  }

  /** `text[q..q + k] == pattern[..k]`, compared one character at a time as the search loop does. */
  predicate Agrees(text: string, pattern: string, q: nat, k: nat)
    requires q + k <= |text| && k <= |pattern|
    decreases k
  {
    k == 0 || (Agrees(text, pattern, q, k - 1) && text[q + k - 1] == pattern[k - 1])
  }

  lemma {:induction false} AgreesSlices(text: string, pattern: string, q: nat, k: nat)
    requires q + k <= |text| && k <= |pattern|
    ensures Agrees(text, pattern, q, k) <==> text[q..q + k] == pattern[..k]
    decreases k
  {
    if k > 0 {
      AgreesSlices(text, pattern, q, k - 1);
      assert text[q..q + k] == text[q..q + k - 1] + [text[q + k - 1]];
      assert pattern[..k] == pattern[..k - 1] + [pattern[k - 1]];
      if text[q..q + k] == pattern[..k] {
        assert text[q..q + k - 1] == text[q..q + k][..k - 1];
        assert pattern[..k - 1] == pattern[..k][..k - 1];
      }
    }
  }

  /** `pattern` occurs in `text` starting at position `q`. */
  predicate IsMatchAt(text: string, pattern: string, q: nat)
  {
    q + |pattern| <= |text| && Agrees(text, pattern, q, |pattern|)
  }

  /** The same, as an equation between slices. */
  lemma MatchSlices(text: string, pattern: string, q: nat)
    requires q + |pattern| <= |text|
    ensures IsMatchAt(text, pattern, q) <==> text[q..q + |pattern|] == pattern
  {
    AgreesSlices(text, pattern, q, |pattern|);
    assert pattern[..|pattern|] == pattern;
  }

  /** The same, character by character. */
  lemma MatchPointwise(text: string, pattern: string, q: nat)
    requires q + |pattern| <= |text|
    ensures IsMatchAt(text, pattern, q) <==> forall k :: 0 <= k < |pattern| ==> text[q + k] == pattern[k]
  {
    MatchSlices(text, pattern, q);
    if IsMatchAt(text, pattern, q) {
      forall k | 0 <= k < |pattern|
        ensures text[q + k] == pattern[k]
      {
        assert text[q..q + |pattern|][k] == pattern[k];
      }
    }
  }

  /** The start positions below `b` at which `pattern` occurs, in ascending order. */
  function MatchesBelow(text: string, pattern: string, b: nat): seq<nat>
    decreases b
  {
    if b == 0 then []
    else MatchesBelow(text, pattern, b - 1) + (if IsMatchAt(text, pattern, b - 1) then [b - 1] else [])
  }

  /** `MatchesBelow` holds exactly the occurrences below `b`, each once, in ascending order. */
  lemma {:induction false} MatchesBelowSpec(text: string, pattern: string, b: nat)
    ensures forall q: nat {:trigger q in MatchesBelow(text, pattern, b)} ::
              q in MatchesBelow(text, pattern, b) <==> q < b && IsMatchAt(text, pattern, q)
    ensures forall x :: 0 <= x < |MatchesBelow(text, pattern, b)| ==> MatchesBelow(text, pattern, b)[x] < b
    ensures forall x, y :: 0 <= x < y < |MatchesBelow(text, pattern, b)| ==>
              MatchesBelow(text, pattern, b)[x] < MatchesBelow(text, pattern, b)[y]
    decreases b
  {
    if b > 0 {
      MatchesBelowSpec(text, pattern, b - 1);
    }
  }

  /** Every start position of `pattern` in `text`, overlapping ones included, in ascending order. */
  function Occurrences(text: string, pattern: string): (r: seq<nat>)
    ensures forall q: nat {:trigger q in r} :: q in r <==> IsMatchAt(text, pattern, q)
    ensures forall x, y :: 0 <= x < y < |r| ==> r[x] < r[y]
    ensures |pattern| > |text| ==> r == []
  {
    var r := MatchesBelow(text, pattern, |text| + 1);
    MatchesBelowSpec(text, pattern, |text| + 1);
    assert |r| > 0 ==> r[0] in r;
    r
  }

  /** A window without occurrences adds nothing to `MatchesBelow`. */
  lemma {:induction false} MatchesBelowSkip(text: string, pattern: string, a: nat, b: nat)
    requires a <= b
    requires forall q: nat :: a <= q < b ==> !IsMatchAt(text, pattern, q)
    ensures MatchesBelow(text, pattern, b) == MatchesBelow(text, pattern, a)
    decreases b
  {
    if a < b {
      MatchesBelowSkip(text, pattern, a, b - 1);
    }
  }

  /** The search state: the last `j` characters of `text[..i]` are the first `j` of `pattern`. */
  predicate Window(text: string, pattern: string, i: nat, j: nat)
  {
    j <= |pattern| && j <= i <= |text| && Agrees(text, pattern, i - j, j)
  }

  /** A matching character extends the window by one. */
  lemma ExtendWindow(text: string, pattern: string, i: nat, j: nat, result: seq<nat>)
    requires Window(text, pattern, i, j) && i < |text| && j < |pattern|
    requires text[i] == pattern[j]
    requires result == MatchesBelow(text, pattern, i - j)
    ensures Window(text, pattern, i + 1, j + 1)
    ensures result == MatchesBelow(text, pattern, (i + 1) - (j + 1))
  {
    assert (i + 1) - (j + 1) == i - j;
  }

  /**
   * If `pattern` occurred at a start `q` strictly inside the window, the
   * overlap would be a border of `pattern[..j]`.
   */
  lemma MatchInsideWindowIsBorder(text: string, pattern: string, i: nat, j: nat, q: nat)
    requires Window(text, pattern, i, j)
    requires i - j < q < i
    ensures IsMatchAt(text, pattern, q) ==> IsBorder(pattern, j, i - q)
  {
    if IsMatchAt(text, pattern, q) {
      MatchSlices(text, pattern, q);
      AgreesSlices(text, pattern, i - j, j);
      var w := i - q;
      BorderSlices(pattern, j, w);
      assert pattern[..w] == text[q..q + |pattern|][..w] == text[q..i];
      assert pattern[j - w..j] == pattern[..j][j - w..] == text[i - j..i][j - w..] == text[q..i];
    }
  }

  /** Falling back from `j` matched characters to `LongestBorder(pattern, j)` keeps a valid search state. */
  lemma FallbackWindow(text: string, pattern: string, i: nat, j: nat)
    requires 0 < j && Window(text, pattern, i, j)
    ensures Window(text, pattern, i, LongestBorder(pattern, j))
  {
    var b := LongestBorder(pattern, j);
    AgreesSlices(text, pattern, i - j, j);
    AgreesSlices(text, pattern, i - b, b);
    BorderSlices(pattern, j, b);
    assert text[i - b..i] == text[i - j..i][j - b..] == pattern[..j][j - b..] == pattern[j - b..j];
  }

  /** Falling back from `j` to `LongestBorder(pattern, j)` skips only starts at which `pattern` does not occur. */
  lemma FallbackSkips(text: string, pattern: string, i: nat, j: nat)
    requires 0 < j && Window(text, pattern, i, j)
    ensures forall q: nat :: i - j < q < i - LongestBorder(pattern, j) ==> !IsMatchAt(text, pattern, q)
  {
    var b := LongestBorder(pattern, j);
    forall q: nat | i - j < q < i - b
      ensures !IsMatchAt(text, pattern, q)
    {
      MatchInsideWindowIsBorder(text, pattern, i, j, q);
    }
  }

  /** After a full match at `i - m` the scan resumes with `j = lps[m - 1]`; no start in between is lost. */
  lemma FullMatchStep(text: string, pattern: string, i: nat, k: nat, result: seq<nat>)
    requires 0 < |pattern| && Window(text, pattern, i, |pattern|)
    requires k == LongestBorder(pattern, |pattern|)
    requires result == MatchesBelow(text, pattern, i - |pattern|)
    ensures Window(text, pattern, i, k)
    ensures result + [i - |pattern|] == MatchesBelow(text, pattern, i - k)
  {
    var m := |pattern|;
    var lo: nat := i - m + 1;
    var hi: nat := i - k;
    FallbackWindow(text, pattern, i, m);
    assert MatchesBelow(text, pattern, lo) == result + [i - m] by {
      assert IsMatchAt(text, pattern, i - m);
    }
    FallbackSkips(text, pattern, i, m);
    MatchesBelowSkip(text, pattern, lo, hi);
  }

  /** A mismatch at `text[i]` rules out an occurrence at the window's start. */
  lemma MismatchRulesOut(text: string, pattern: string, i: nat, j: nat)
    requires j < |pattern| && j <= i < |text|
    requires text[i] != pattern[j]
    ensures !IsMatchAt(text, pattern, i - j)
  {
    var q := i - j;
    if q + |pattern| <= |text| {
      MatchSlices(text, pattern, q);
      assert text[q..q + |pattern|][j] == text[i];
    }
  }

  /** After a mismatch at `text[i]` with `j > 0` the scan falls back to `j = lps[j - 1]`. */
  lemma MismatchStep(text: string, pattern: string, i: nat, j: nat, k: nat, result: seq<nat>)
    requires 0 < j < |pattern| && i < |text| && Window(text, pattern, i, j)
    requires text[i] != pattern[j]
    requires k == LongestBorder(pattern, j)
    requires result == MatchesBelow(text, pattern, i - j)
    ensures Window(text, pattern, i, k)
    ensures result == MatchesBelow(text, pattern, i - k)
  {
    var lo: nat := i - j;
    var hi: nat := i - k;
    FallbackWindow(text, pattern, i, j);
    MismatchRulesOut(text, pattern, i, j);
    FallbackSkips(text, pattern, i, j);
    MatchesBelowSkip(text, pattern, lo, hi);
  }

  /** After a mismatch at `text[i]` with `j = 0` no occurrence starts at `i`. */
  lemma SkipStep(text: string, pattern: string, i: nat, j: nat, result: seq<nat>)
    requires 0 < |pattern| && i < |text| && j == 0
    requires text[i] != pattern[j]
    requires result == MatchesBelow(text, pattern, i - j)
    ensures result == MatchesBelow(text, pattern, (i + 1) - j)
  {
    MismatchRulesOut(text, pattern, i, 0);
  }

  /** When the scan reaches the end of the text, the occurrences below `|text| - j` are all of them. */
  lemma ScanComplete(text: string, pattern: string, j: nat, result: seq<nat>)
    requires j < |pattern| && j <= |text|
    requires result == MatchesBelow(text, pattern, |text| - j)
    ensures result == Occurrences(text, pattern)
  {
    MatchesBelowSkip(text, pattern, |text| - j, |text| + 1);
  }

  /**
   * One pass of the `KMPsearch` loop body: a matching character advances
   * both indices; then a full match is reported and `j` falls back to
   * `lps[m - 1]`, or a mismatch makes `j` fall back to `lps[j - 1]`, or, with
   * nothing matched, `i` moves on. The search state is kept, and either `i`
   * grows or `j` shrinks.
   */
  method SearchStep(text: string, pattern: string, lps: seq<nat>, i: nat, j: nat, result: seq<nat>)
    returns (i': nat, j': nat, result': seq<nat>)
    requires |lps| == |pattern| && forall k :: 0 <= k < |pattern| ==> lps[k] == LongestBorder(pattern, k + 1)
    requires i < |text| && j < |pattern| && Window(text, pattern, i, j)
    requires result == MatchesBelow(text, pattern, i - j)
    ensures j' < |pattern| && Window(text, pattern, i', j')
    ensures result' == MatchesBelow(text, pattern, i' - j')
    ensures i < i' || (i' == i && j' < j)
  {
    var n := |text|;
    var m := |pattern|;
    i', j', result' := i, j, result;
    if text[i'] == pattern[j'] {
      ExtendWindow(text, pattern, i', j', result');
      i' := i' + 1;
      j' := j' + 1;
    }
    if j' == m {
      FullMatchStep(text, pattern, i', lps[j' - 1], result');
      result' := result' + [i' - j'];
      j' := lps[j' - 1];
    } else if i' < n && text[i'] != pattern[j'] {
      if j' != 0 {
        MismatchStep(text, pattern, i', j', lps[j' - 1], result');
        j' := lps[j' - 1];
      } else {
        SkipStep(text, pattern, i', j', result');
        i' := i' + 1;
      }
    }
  }

  /**
   * `KMPsearch`: every start position of `pattern` in `text`. After a full
   * match the scan resumes at `lps[m - 1]`, so overlapping occurrences are
   * reported too. The loop ends because every pass either advances `i` or
   * replaces `j` by the strictly smaller `lps[j - 1]`.
   */
  method Search(text: string, pattern: string) returns (result: seq<nat>)
    requires |pattern| > 0
    ensures result == Occurrences(text, pattern)
  {
    var n := |text|;
    var m := |pattern|;
    var lps := BuildLps(pattern);
    var i: nat := 0;
    var j: nat := 0;
    result := [];
    while i < n
      invariant j < m && Window(text, pattern, i, j)
      invariant result == MatchesBelow(text, pattern, i - j)
      decreases n - i, j
    {
      i, j, result := SearchStep(text, pattern, lps, i, j, result);
    }
    ScanComplete(text, pattern, j, result);
  }

  /** Searching "aa" in "aaa" reports both overlapping occurrences. */
  lemma OverlappingOccurrences()
    ensures Occurrences("aaa", "aa") == [0, 1]
  {
    var t, p := "aaa", "aa";
    assert IsMatchAt(t, p, 0) && IsMatchAt(t, p, 1);
    assert !IsMatchAt(t, p, 2) && !IsMatchAt(t, p, 3);
    assert MatchesBelow(t, p, 1) == [0];
    assert MatchesBelow(t, p, 2) == [0, 1];
    assert MatchesBelow(t, p, 3) == [0, 1];
    assert MatchesBelow(t, p, 4) == [0, 1];
  }
}
