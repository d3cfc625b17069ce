/**
 * The console program of pruebaKMPAplicacion.cpp without its I/O: the text is
 * lower-cased, every pattern of a fixed list is searched for in the
 * lower-cased copy, the patterns that occur are collected together with
 * their positions, and `highlightText` wraps each reported occurrence of the
 * ORIGINAL text in square brackets.
 *
 * `highlightText` walks the collected patterns from the last to the first
 * but the positions of one pattern from the first to the last, and it never
 * shifts a position by the brackets already inserted. A pair of brackets
 * therefore surrounds its occurrence only when no bracket went in before that
 * occurrence earlier; otherwise it lands where the earlier brackets pushed the
 * characters (`SecondMatchShifted`). Insertion itself never loses or reorders
 * a character of the text (`HighlightedKeepsText`).
 */
module Highlighter {
  import opened AsciiCase
  import Kmp

  datatype Option<T> = None | Some(value: T)

  /** One entry of `allMatches`: a pattern and the positions at which it was found. */
  datatype PatternMatches = PatternMatches(pattern: string, positions: seq<nat>)

  /** `std::string::insert(at, piece)`; an `at` past the end throws, so callers check it first. */
  function InsertAt(s: string, at: nat, piece: string): (r: string)
    requires at <= |s|
    ensures |r| == |s| + |piece|
  {
    s[..at] + piece + s[at..]
  }

  /** Inserting at the seam between `a` and `b`. */
  lemma InsertAtSeam(a: string, b: string, piece: string)
    ensures InsertAt(a + b, |a|, piece) == a + piece + b
  {
    assert (a + b)[..|a|] == a;
    assert (a + b)[|a|..] == b;
  }

  /**
   * The inner loop of `highlightText` on one pattern of length `len`, from
   * position number `k` on: for each position in turn, "]" goes in at
   * `pos + len` and then "[" at `pos`, both indices taken in the string as it
   * is at that moment. `None` stands for the `out_of_range` the first
   * insertion throws when `pos + len` is past the end.
   */
  function Bracket(s: string, len: nat, positions: seq<nat>, k: nat): Option<string>
    requires k <= |positions|
    decreases |positions| - k
  {
    if k == |positions| then Some(s)
    else
      var pos := positions[k];
      if pos + len <= |s| then
        Bracket(InsertAt(InsertAt(s, pos + len, "]"), pos, "["), len, positions, k + 1)
      else
        None
  }

  /** The outer loop of `highlightText` on the first `n` entries, from entry `n - 1` down to entry 0. */
  function HighlightedUpTo(s: string, matches: seq<PatternMatches>, n: nat): Option<string>
    requires n <= |matches|
    decreases n
  {
    if n == 0 then Some(s)
    else
      match Bracket(s, |matches[n - 1].pattern|, matches[n - 1].positions, 0)
      case None => None
      case Some(s') => HighlightedUpTo(s', matches, n - 1)
  }

  /** `highlightText`: the entries of `matches` applied to `s` from the last to the first. */
  function Highlighted(s: string, matches: seq<PatternMatches>): Option<string>
  {
    HighlightedUpTo(s, matches, |matches|)
  }

  method HighlightText(text: string, matches: seq<PatternMatches>) returns (r: Option<string>)
    ensures r == Highlighted(text, matches)
  {
    var highlighted := text;
    var p: int := |matches| - 1;
    while p >= 0
      invariant -1 <= p < |matches|
      invariant HighlightedUpTo(highlighted, matches, p + 1) == Highlighted(text, matches)
    {
      var pattern := matches[p].pattern;
      var positions := matches[p].positions;
      ghost var before := highlighted;
      for k := 0 to |positions|
        invariant Bracket(highlighted, |pattern|, positions, k) == Bracket(before, |pattern|, positions, 0)
      {
        var pos := positions[k];
        if pos + |pattern| > |highlighted| {
          return None;
        }
        highlighted := InsertAt(highlighted, pos + |pattern|, "]");
        highlighted := InsertAt(highlighted, pos, "[");
      }
      p := p - 1;
    }
    r := Some(highlighted);
  }

  /** The number of positions over the first `n` entries. */
  function PositionsUpTo(matches: seq<PatternMatches>, n: nat): nat
    requires n <= |matches|
    decreases n
  {
    if n == 0 then 0 else PositionsUpTo(matches, n - 1) + |matches[n - 1].positions|
  }

  /** The number of positions over all entries. */
  function TotalPositions(matches: seq<PatternMatches>): nat
  {
    PositionsUpTo(matches, |matches|)
  }

  /** Every position of every entry leaves room for its pattern inside a string of length `n`. */
  predicate FitsIn(matches: seq<PatternMatches>, n: nat)
  {
    forall e, pos :: e in matches && pos in e.positions ==> pos + |e.pattern| <= n
  }

  /** Positions that fit in the string never throw, and each adds two characters. */
  lemma {:induction false} BracketFits(s: string, len: nat, positions: seq<nat>, k: nat, n: nat)
    requires k <= |positions| && n <= |s|
    requires forall pos :: pos in positions ==> pos + len <= n
    ensures Bracket(s, len, positions, k).Some?
    ensures |Bracket(s, len, positions, k).value| == |s| + 2 * (|positions| - k)
    decreases |positions| - k
  {
    if k < |positions| {
      assert positions[k] in positions;
      var s' := InsertAt(InsertAt(s, positions[k] + len, "]"), positions[k], "[");
      BracketFits(s', len, positions, k + 1, n);
    }
  }

  /**
   * When every reported position fits in the text, `highlightText` does not
   * throw and the result is the text plus two brackets per position.
   */
  lemma HighlightedFits(s: string, matches: seq<PatternMatches>, n: nat)
    requires n <= |s| && FitsIn(matches, n)
    ensures Highlighted(s, matches).Some?
    ensures |Highlighted(s, matches).value| == |s| + 2 * TotalPositions(matches)
  {
    HighlightedUpToFits(s, matches, |matches|, n);
  }

  lemma {:induction false} HighlightedUpToFits(s: string, matches: seq<PatternMatches>, m: nat, n: nat)
    requires m <= |matches| && n <= |s| && FitsIn(matches, n)
    ensures HighlightedUpTo(s, matches, m).Some?
    ensures |HighlightedUpTo(s, matches, m).value| == |s| + 2 * PositionsUpTo(matches, m)
    decreases m
  {
    if m > 0 {
      var last := matches[m - 1];
      assert last in matches;
      BracketFits(s, |last.pattern|, last.positions, 0, n);
      var s' := Bracket(s, |last.pattern|, last.positions, 0).value;
      HighlightedUpToFits(s', matches, m - 1, n);
    }
  }

  predicate IsBracket(c: char)
  {
    c == '[' || c == ']'
  }

  /** `s` with every square bracket removed. */
  function Unbracketed(s: string): string
  {
    Kept(s, |s|)
  }

  /** The characters of `s[..n]` that are not brackets. */
  function Kept(s: string, n: nat): string
    requires n <= |s|
    decreases n
  {
    if n == 0 then []
    else Kept(s, n - 1) + (if IsBracket(s[n - 1]) then [] else [s[n - 1]])
  }

  /** Inside `a`, appending `b` changes nothing. */
  lemma {:induction false} KeptPrefix(a: string, b: string, n: nat)
    requires n <= |a|
    ensures Kept(a + b, n) == Kept(a, n)
    decreases n
  {
    if n > 0 {
      KeptPrefix(a, b, n - 1);
      assert (a + b)[n - 1] == a[n - 1];
    }
  }

  /** Past `a`, the kept characters of `a + b` are those of `a` followed by those of `b`. */
  lemma {:induction false} KeptSuffix(a: string, b: string, k: nat)
    requires k <= |b|
    ensures Kept(a + b, |a| + k) == Kept(a, |a|) + Kept(b, k)
    decreases k
  {
    if k == 0 {
      KeptPrefix(a, b, |a|);
    } else {
      KeptSuffix(a, b, k - 1);
      assert (a + b)[|a| + k - 1] == b[k - 1];
    }
  }

  lemma UnbracketedAppend(a: string, b: string)
    ensures Unbracketed(a + b) == Unbracketed(a) + Unbracketed(b)
  {
    KeptSuffix(a, b, |b|);
  }

  /** A single bracket has nothing left once the brackets are removed. */
  lemma UnbracketedBracket(c: char)
    requires IsBracket(c)
    ensures Unbracketed([c]) == []
  {
    assert Kept([c], 1) == Kept([c], 0);
  }

  /** A bracket between `front` and `back` is lost again when the brackets are removed. */
  lemma BracketBetween(front: string, back: string, c: char)
    requires IsBracket(c)
    ensures Unbracketed(front + [c] + back) == Unbracketed(front + back)
  {
    UnbracketedAppend(front + [c], back);
    UnbracketedAppend(front, [c]);
    UnbracketedBracket(c);
    UnbracketedAppend(front, back);
  }

  /** Inserting a bracket changes nothing but the brackets. */
  lemma InsertBracketKeepsText(s: string, at: nat, c: char)
    requires at <= |s| && IsBracket(c)
    ensures Unbracketed(InsertAt(s, at, [c])) == Unbracketed(s)
  {
    var front, back := s[..at], s[at..];
    assert InsertAt(s, at, [c]) == front + [c] + back;
    assert front + back == s;
    BracketBetween(front, back, c);
  }

  lemma {:induction false} BracketKeepsText(s: string, len: nat, positions: seq<nat>, k: nat)
    requires k <= |positions|
    ensures Bracket(s, len, positions, k).Some? ==> Unbracketed(Bracket(s, len, positions, k).value) == Unbracketed(s)
    decreases |positions| - k
  {
    if k < |positions| && positions[k] + len <= |s| {
      var once := InsertAt(s, positions[k] + len, "]");
      InsertBracketKeepsText(s, positions[k] + len, ']');
      InsertBracketKeepsText(once, positions[k], '[');
      BracketKeepsText(InsertAt(once, positions[k], "["), len, positions, k + 1);
    }
  }

  /** Apart from the brackets, the highlighted text is the text, character for character. */
  lemma HighlightedKeepsText(s: string, matches: seq<PatternMatches>)
    ensures Highlighted(s, matches).Some? ==> Unbracketed(Highlighted(s, matches).value) == Unbracketed(s)
  {
    HighlightedUpToKeepsText(s, matches, |matches|);
  }

  lemma {:induction false} HighlightedUpToKeepsText(s: string, matches: seq<PatternMatches>, m: nat)
    requires m <= |matches|
    ensures HighlightedUpTo(s, matches, m).Some? ==> Unbracketed(HighlightedUpTo(s, matches, m).value) == Unbracketed(s)
    decreases m
  {
    if m > 0 {
      var last := matches[m - 1];
      BracketKeepsText(s, |last.pattern|, last.positions, 0);
      match Bracket(s, |last.pattern|, last.positions, 0)
      case None =>
      case Some(s') => HighlightedUpToKeepsText(s', matches, m - 1);
    }
  }

  /** The two insertions for one position wrap `s[pos..pos + len]` in brackets. */
  lemma WrapOnce(s: string, len: nat, pos: nat)
    requires pos + len <= |s|
    ensures InsertAt(InsertAt(s, pos + len, "]"), pos, "[")
         == s[..pos] + "[" + s[pos..pos + len] + "]" + s[pos + len..]
  {
    var end := pos + len;
    var before, occurrence, after := s[..pos], s[pos..end], s[end..];
    assert s == (before + occurrence) + after;
    InsertAtSeam(before + occurrence, after, "]");
    var once := InsertAt(s, end, "]");
    assert once == before + (occurrence + "]" + after);
    InsertAtSeam(before, occurrence + "]" + after, "[");
  }

  /** A single occurrence is wrapped exactly: the text before, "[", the occurrence, "]", the text after. */
  lemma HighlightSingle(text: string, pattern: string, pos: nat)
    requires pos + |pattern| <= |text|
    ensures Highlighted(text, [PatternMatches(pattern, [pos])])
         == Some(text[..pos] + "[" + text[pos..pos + |pattern|] + "]" + text[pos + |pattern|..])
  {
    var wrapped := InsertAt(InsertAt(text, pos + |pattern|, "]"), pos, "[");
    var matches := [PatternMatches(pattern, [pos])];
    assert Bracket(text, |pattern|, [pos], 0) == Some(wrapped);
    assert HighlightedUpTo(text, matches, 1) == HighlightedUpTo(wrapped, matches, 0);
    WrapOnce(text, |pattern|, pos);
  }

  /**
   * Two occurrences of "ab" in "abab": the second pair of brackets is placed
   * with the unshifted position 2, inside the first pair, instead of giving
   * "[ab][ab]".
   */
  lemma SecondMatchShifted()
    ensures Highlighted("abab", [PatternMatches("ab", [0, 2])]) == Some("[a[b]]ab")
  {
    var once := InsertAt(InsertAt("abab", 2, "]"), 0, "[");
    assert once == "[ab]ab";
    var twice := InsertAt(InsertAt(once, 4, "]"), 2, "[");
    assert twice == "[a[b]]ab";
    assert Bracket(once, 2, [0, 2], 1) == Some(twice);
    assert Bracket("abab", 2, [0, 2], 0) == Some(twice);
  }

  /**
   * Later entries are bracketed first and the earlier ones use unshifted
   * positions: with `"b"` and `"ba"` both found at 0 in `"ba"`, the `]` of
   * `"b"` lands right after the `[` of `"ba"`, so `b` stays outside its pair.
   */
  lemma OverlappingEntriesShifted()
    ensures Highlighted("ba", [PatternMatches("b", [0]), PatternMatches("ba", [0])]) == Some("[[]ba]")
  {
    var matches := [PatternMatches("b", [0]), PatternMatches("ba", [0])];
    var inner := InsertAt(InsertAt("ba", 2, "]"), 0, "[");
    assert inner == "[ba]";
    assert Bracket("ba", 2, [0], 0) == Some(inner);
    var outer := InsertAt(InsertAt(inner, 1, "]"), 0, "[");
    assert outer == "[[]ba]";
    assert Bracket(inner, 1, [0], 0) == Some(outer);
    assert HighlightedUpTo(inner, matches, 1) == HighlightedUpTo(outer, matches, 0);
  }

  /**
   * The collection loop of `main`: in list order, every pattern that occurs in
   * `lowerText` together with all of its occurrences; patterns that do not
   * occur are dropped.
   */
  function Collected(lowerText: string, patterns: seq<string>): seq<PatternMatches>
  {
    CollectedUpTo(lowerText, patterns, |patterns|)
  }

  /** The collection loop over the first `n` patterns. */
  function CollectedUpTo(lowerText: string, patterns: seq<string>, n: nat): seq<PatternMatches>
    requires n <= |patterns|
    decreases n
  {
    if n == 0 then []
    else
      var pat := patterns[n - 1];
      var found := Kmp.Occurrences(lowerText, pat);
      CollectedUpTo(lowerText, patterns, n - 1) + (if |found| > 0 then [PatternMatches(pat, found)] else [])
  }

  /**
   * Where each entry of the first `n` patterns' collection comes from: entry
   * `x` is `patterns[origin[x]]` with all its occurrences, there is at least
   * one of them, the origins strictly ascend, and every pattern that occurs is
   * an origin.
   */
  lemma {:induction false} CollectedUpToOrigin(lowerText: string, patterns: seq<string>, n: nat)
    returns (origin: seq<nat>)
    requires n <= |patterns|
    ensures |origin| == |CollectedUpTo(lowerText, patterns, n)| <= n
    ensures forall x :: 0 <= x < |origin| ==>
              origin[x] < n && |Kmp.Occurrences(lowerText, patterns[origin[x]])| > 0 &&
              CollectedUpTo(lowerText, patterns, n)[x] ==
                PatternMatches(patterns[origin[x]], Kmp.Occurrences(lowerText, patterns[origin[x]]))
    ensures forall x, y :: 0 <= x < y < |origin| ==> origin[x] < origin[y]
    ensures forall a :: 0 <= a < n && |Kmp.Occurrences(lowerText, patterns[a])| > 0 ==> a in origin
    decreases n
  {
    if n == 0 {
      origin := [];
    } else {
      var earlier := CollectedUpToOrigin(lowerText, patterns, n - 1);
      var before := CollectedUpTo(lowerText, patterns, n - 1);
      var pat := patterns[n - 1];
      var found := Kmp.Occurrences(lowerText, pat);
      if |found| > 0 {
        origin := earlier + [n - 1];
        assert CollectedUpTo(lowerText, patterns, n) == before + [PatternMatches(pat, found)];
      } else {
        origin := earlier;
        assert CollectedUpTo(lowerText, patterns, n) == before;
      }
    }
  }

  /**
   * Every collected entry is a listed pattern with exactly its occurrences,
   * never an empty list of them; a listed pattern is collected exactly when it
   * occurs.
   */
  lemma CollectedSpec(lowerText: string, patterns: seq<string>)
    ensures |Collected(lowerText, patterns)| <= |patterns|
    ensures forall e :: e in Collected(lowerText, patterns) ==>
              e.pattern in patterns && e.positions == Kmp.Occurrences(lowerText, e.pattern) && |e.positions| > 0
    ensures forall pat :: pat in patterns ==>
              ((exists e :: e in Collected(lowerText, patterns) && e.pattern == pat) <==>
               |Kmp.Occurrences(lowerText, pat)| > 0)
  {
    var entries := Collected(lowerText, patterns);
    var origin := CollectedUpToOrigin(lowerText, patterns, |patterns|);
    forall e | e in entries
      ensures e.pattern in patterns && e.positions == Kmp.Occurrences(lowerText, e.pattern) && |e.positions| > 0
    {
      var x :| 0 <= x < |entries| && entries[x] == e;
      assert e.pattern == patterns[origin[x]];
    }
    forall pat | pat in patterns && |Kmp.Occurrences(lowerText, pat)| > 0
      ensures exists e :: e in entries && e.pattern == pat
    {
      var a :| 0 <= a < |patterns| && patterns[a] == pat;
      assert a in origin;
      var x :| 0 <= x < |origin| && origin[x] == a;
      assert entries[x] in entries;
    }
  }

  /**
   * The collected entries keep the order of the pattern list: entry `x` is
   * the pattern `patterns[origin[x]]`, and `origin` strictly ascends.
   */
  lemma CollectedOrder(lowerText: string, patterns: seq<string>) returns (origin: seq<nat>)
    ensures |origin| == |Collected(lowerText, patterns)|
    ensures forall x :: 0 <= x < |origin| ==>
              origin[x] < |patterns| && Collected(lowerText, patterns)[x].pattern == patterns[origin[x]]
    ensures forall x, y :: 0 <= x < y < |origin| ==> origin[x] < origin[y]
  {
    origin := CollectedUpToOrigin(lowerText, patterns, |patterns|);
  }

  /** Every collected position leaves room for its pattern in the lower-cased text. */
  lemma CollectedFits(lowerText: string, patterns: seq<string>)
    ensures FitsIn(Collected(lowerText, patterns), |lowerText|)
  {
    CollectedSpec(lowerText, patterns);
    forall e, pos | e in Collected(lowerText, patterns) && pos in e.positions
      ensures pos + |e.pattern| <= |lowerText|
    {
      assert Kmp.IsMatchAt(lowerText, e.pattern, pos);
    }
  }

  /** Lines 99-104 of `main`: one search per pattern, results kept when not empty. */
  method CollectMatches(lowerText: string, patterns: seq<string>) returns (allMatches: seq<PatternMatches>)
    requires forall pat :: pat in patterns ==> |pat| > 0
    ensures allMatches == Collected(lowerText, patterns)
  {
    allMatches := [];
    for k := 0 to |patterns|
      invariant allMatches == CollectedUpTo(lowerText, patterns, k)
    {
      var pat := patterns[k];
      var found := Kmp.Search(lowerText, pat);
      if |found| > 0 {
        allMatches := allMatches + [PatternMatches(pat, found)];
      }
    }
  }

  /** The letters that are easily confused and the syllables built on them. */
  const ConfusablePatterns: seq<string> :=
    ["b", "d", "p", "q", "ba", "da", "pa", "qa", "bre", "dra", "pla", "tra"]

  /**
   * `main` between reading the text and printing: lower-case, collect the
   * occurrences of the listed patterns, bracket them in the original text.
   * The positions come from a copy of the same length, so nothing throws.
   */
  method HighlightInput(originalText: string) returns (highlighted: string, allMatches: seq<PatternMatches>)
    ensures allMatches == Collected(LowerString(originalText), ConfusablePatterns)
    ensures Highlighted(originalText, allMatches) == Some(highlighted)
    ensures |highlighted| == |originalText| + 2 * TotalPositions(allMatches)
    ensures Unbracketed(highlighted) == Unbracketed(originalText)
  {
    var lowerText := LowerCopy(originalText);
    allMatches := CollectMatches(lowerText, ConfusablePatterns);
    CollectedFits(lowerText, ConfusablePatterns);
    HighlightedFits(originalText, allMatches, |originalText|);
    HighlightedKeepsText(originalText, allMatches);
    var r := HighlightText(originalText, allMatches);
    highlighted := r.value;
  }
}
