/**
 * `DyslexiaLogic::analyzeText` of DyslexiaLogic.cpp: the list of styles the
 * reading view paints over a text. For the chosen mode every configured
 * letter is searched for in the lower-cased text and each occurrence becomes
 * a foreground style in that letter's colour; then every pair of consecutive
 * trigger letters less than six characters apart becomes a yellow background
 * zone from the first letter to the second, both included. The priority of a
 * configuration is never read and no two styles are merged or resolved.
 */
module DyslexiaLogic {
  import opened AsciiCase
  import Kmp

  /** `unsigned int`. */
  newtype uint32 = x: int | 0 <= x < 0x1_0000_0000

  /** `struct TextStyle` of DyslexiaLogic.h. */
  datatype TextStyle = TextStyle(start: int, length: int, isBackground: bool, colorHex: uint32)

  /** `struct DyslexiaLogic::PatternConfig` of DyslexiaLogic.h. */
  datatype PatternConfig = PatternConfig(pattern: string, color: uint32, priority: int)

  /** What a mode selects: the coloured patterns and the letters that feed the heatmap. */
  datatype ModeSetup = ModeSetup(configs: seq<PatternConfig>, triggers: set<char>)

  /** The colour of a confusing zone. */
  const HeatColor: uint32 := 0xFFFF00

  /** Two triggers closer than this form a confusing zone. */
  const MaxGap := 6

  /**
   * The mode table: mode 0 (visual dyslexia) colours b, d, p and q, mode 1
   * (phonetic) colours g and j, any other mode selects nothing. In every mode
   * the patterns are single lower-case letters (and the triggers are exactly
   * those letters, `TriggersAreThePatterns`).
   */
  function ModeTable(mode: int): (r: ModeSetup)
    ensures forall k :: 0 <= k < |r.configs| ==> |r.configs[k].pattern| == 1 && 'a' <= r.configs[k].pattern[0] <= 'z'
    ensures mode != 0 && mode != 1 ==> r.configs == [] && r.triggers == {}
  {
    if mode == 0 then
      ModeSetup([PatternConfig("b", 0xFF0000, 20), PatternConfig("d", 0x0000FF, 20),
                 PatternConfig("p", 0x008000, 20), PatternConfig("q", 0xFF00FF, 20)],
                {'b', 'd', 'p', 'q'})
    else if mode == 1 then
      ModeSetup([PatternConfig("g", 0xFF0000, 20), PatternConfig("j", 0x0000FF, 20)], {'g', 'j'})
    else
      ModeSetup([], {})
  }

  /** The triggers of a mode are exactly its one-letter patterns. */
  lemma TriggersAreThePatterns(mode: int)
    ensures forall c :: c in ModeTable(mode).triggers <==>
              exists k :: 0 <= k < |ModeTable(mode).configs| && ModeTable(mode).configs[k].pattern == [c]
  {
    var r := ModeTable(mode);
    forall c | c in r.triggers
      ensures exists k :: 0 <= k < |r.configs| && r.configs[k].pattern == [c]
    {
      if mode == 0 {
        assert r.configs[0].pattern == ['b'] && r.configs[1].pattern == ['d'];
        assert r.configs[2].pattern == ['p'] && r.configs[3].pattern == ['q'];
      } else {
        assert r.configs[0].pattern == ['g'] && r.configs[1].pattern == ['j'];
      }
    }
  }

  /**
   * `DyslexiaLogic::KMPsearch`: the search of module Kmp run on a lower-cased
   * copy of the text. The pattern itself is not lower-cased.
   */
  method KmpSearch(text: string, pattern: string) returns (matches: seq<nat>)
    requires |pattern| > 0
    ensures matches == Kmp.Occurrences(LowerString(text), pattern)
  {
    var lowerText := LowerCopy(text);
    matches := Kmp.Search(lowerText, pattern);
  }

  /** Since only the text is lower-cased, a pattern holding an upper-case letter is never found. */
  lemma UppercasePatternNeverMatches(text: string, pattern: string, k: nat)
    requires k < |pattern| && IsUpper(pattern[k])
    ensures Kmp.Occurrences(LowerString(text), pattern) == []
  {
    var lower := LowerString(text);
    forall q: nat
      ensures !Kmp.IsMatchAt(lower, pattern, q)
    {
      if q + |pattern| <= |lower| {
        Kmp.MatchPointwise(lower, pattern, q);
        assert lower[q + k] == Lower(text[q + k]);
      }
    }
    Kmp.MatchesBelowSkip(lower, pattern, 0, |lower| + 1);
  }

  /** The foreground styles of one configuration, one per position, in the order found. */
  function MatchStyles(found: seq<nat>, cfg: PatternConfig): seq<TextStyle>
  {
    seq(|found|, k requires 0 <= k < |found| => TextStyle(found[k], |cfg.pattern|, false, cfg.color))
  }

  /** Step 1 of `analyzeText`: the occurrences of the first configuration, then of the second, and so on. */
  function Foreground(lowerText: string, configs: seq<PatternConfig>): seq<TextStyle>
    decreases |configs|
  {
    if |configs| == 0 then []
    else
      var cfg := configs[|configs| - 1];
      Foreground(lowerText, configs[..|configs| - 1]) + MatchStyles(Kmp.Occurrences(lowerText, cfg.pattern), cfg)
  }

  /**
   * Every foreground style is an occurrence of a configured pattern in that
   * pattern's colour, and every occurrence of a configured pattern has its
   * style.
   */
  lemma {:induction false} ForegroundSpec(lowerText: string, configs: seq<PatternConfig>)
    ensures forall st :: st in Foreground(lowerText, configs) ==>
              !st.isBackground && 0 <= st.start &&
              exists k :: 0 <= k < |configs| && st.length == |configs[k].pattern| &&
                st.colorHex == configs[k].color && Kmp.IsMatchAt(lowerText, configs[k].pattern, st.start as nat)
    ensures forall k, q: nat :: 0 <= k < |configs| && Kmp.IsMatchAt(lowerText, configs[k].pattern, q) ==>
              TextStyle(q, |configs[k].pattern|, false, configs[k].color) in Foreground(lowerText, configs)
    decreases |configs|
  {
    if |configs| > 0 {
      var init := configs[..|configs| - 1];
      var cfg := configs[|configs| - 1];
      ForegroundSpec(lowerText, init);
      var found := Kmp.Occurrences(lowerText, cfg.pattern);
      var last := MatchStyles(found, cfg);
      assert Foreground(lowerText, configs) == Foreground(lowerText, init) + last;
      forall st | st in last
        ensures !st.isBackground && 0 <= st.start
        ensures exists k :: 0 <= k < |configs| && st.length == |configs[k].pattern| &&
                  st.colorHex == configs[k].color && Kmp.IsMatchAt(lowerText, configs[k].pattern, st.start as nat)
      {
        var x :| 0 <= x < |last| && last[x] == st;
        assert found[x] in found;
        assert configs[|configs| - 1] == cfg;
      }
      forall k, q: nat | 0 <= k < |configs| && Kmp.IsMatchAt(lowerText, configs[k].pattern, q)
        ensures TextStyle(q, |configs[k].pattern|, false, configs[k].color) in Foreground(lowerText, configs)
      {
        if k == |configs| - 1 {
          assert q in found;
          var x :| 0 <= x < |found| && found[x] == q;
          assert last[x] == TextStyle(q, |cfg.pattern|, false, cfg.color);
        } else {
          assert init[k] == configs[k];
        }
      }
    }
  }

  /** The priority of a configuration is never read: configurations that differ only in it style alike. */
  lemma {:induction false} PriorityIgnored(lowerText: string, configs: seq<PatternConfig>, others: seq<PatternConfig>)
    requires |configs| == |others|
    requires forall k :: 0 <= k < |configs| ==>
               configs[k].pattern == others[k].pattern && configs[k].color == others[k].color
    ensures Foreground(lowerText, configs) == Foreground(lowerText, others)
    decreases |configs|
  {
    if |configs| > 0 {
      var n := |configs| - 1;
      PriorityIgnored(lowerText, configs[..n], others[..n]);
    }
  }

  /** Taking one more configuration appends its matches, ascending, in its colour. */
  lemma ForegroundBlock(lowerText: string, configs: seq<PatternConfig>, c: nat)
    requires c < |configs|
    ensures Foreground(lowerText, configs[..c + 1]) ==
              Foreground(lowerText, configs[..c]) + MatchStyles(Kmp.Occurrences(lowerText, configs[c].pattern), configs[c])
    ensures forall x, y :: 0 <= x < y < |MatchStyles(Kmp.Occurrences(lowerText, configs[c].pattern), configs[c])| ==>
              MatchStyles(Kmp.Occurrences(lowerText, configs[c].pattern), configs[c])[x].start <
              MatchStyles(Kmp.Occurrences(lowerText, configs[c].pattern), configs[c])[y].start
  {
    assert configs[..c + 1][..c] == configs[..c];
  }

  /** The foreground of the first `c` configurations is a prefix of the whole foreground. */
  lemma {:induction false} ForegroundPrefix(lowerText: string, configs: seq<PatternConfig>, c: nat)
    requires c <= |configs|
    ensures Foreground(lowerText, configs[..c]) <= Foreground(lowerText, configs)
    decreases |configs| - c
  {
    if c < |configs| {
      ForegroundPrefix(lowerText, configs, c + 1);
      ForegroundBlock(lowerText, configs, c);
    } else {
      assert configs[..c] == configs;
    }
  }

  /** The number of occurrences of all configured patterns together. */
  function MatchTotal(lowerText: string, configs: seq<PatternConfig>): nat
    decreases |configs|
  {
    if |configs| == 0 then 0
    else MatchTotal(lowerText, configs[..|configs| - 1]) + |Kmp.Occurrences(lowerText, configs[|configs| - 1].pattern)|
  }

  /** Nothing is merged or dropped: one foreground style per occurrence. */
  lemma {:induction false} ForegroundSize(lowerText: string, configs: seq<PatternConfig>)
    ensures |Foreground(lowerText, configs)| == MatchTotal(lowerText, configs)
    decreases |configs|
  {
    if |configs| > 0 {
      ForegroundSize(lowerText, configs[..|configs| - 1]);
    }
  }

  /** In an empty text no non-empty pattern occurs. */
  lemma {:induction false} ForegroundOfEmptyText(configs: seq<PatternConfig>)
    requires forall k :: 0 <= k < |configs| ==> |configs[k].pattern| > 0
    ensures Foreground("", configs) == []
    decreases |configs|
  {
    if |configs| > 0 {
      ForegroundOfEmptyText(configs[..|configs| - 1]);
    }
  }


  function TriggerIndicesBelow(lowerText: string, triggers: set<char>, b: nat): seq<nat>
    requires b <= |lowerText|
    decreases b
  {
    if b == 0 then []
    else TriggerIndicesBelow(lowerText, triggers, b - 1) + (if lowerText[b - 1] in triggers then [b - 1] else [])
  }

  /** `TriggerIndicesBelow` holds exactly the trigger positions below `b`, each once, ascending. */
  lemma {:induction false} TriggerIndicesSpec(lowerText: string, triggers: set<char>, b: nat)
    requires b <= |lowerText|
    ensures forall q: nat {:trigger q in TriggerIndicesBelow(lowerText, triggers, b)} ::
              q in TriggerIndicesBelow(lowerText, triggers, b) <==> q < b && lowerText[q] in triggers
    ensures forall x :: 0 <= x < |TriggerIndicesBelow(lowerText, triggers, b)| ==>
              TriggerIndicesBelow(lowerText, triggers, b)[x] < b
    ensures forall x, y :: 0 <= x < y < |TriggerIndicesBelow(lowerText, triggers, b)| ==>
              TriggerIndicesBelow(lowerText, triggers, b)[x] < TriggerIndicesBelow(lowerText, triggers, b)[y]
    decreases b
  {
    if b > 0 {
      TriggerIndicesSpec(lowerText, triggers, b - 1);
    }
  }

  /** The zone for the pair `tIdx[k]`, `tIdx[k + 1]`, if they are close enough. */
  function ZoneAt(tIdx: seq<nat>, k: nat): seq<TextStyle>
    requires k + 1 < |tIdx|
  {
    var gap := tIdx[k + 1] as int - tIdx[k];
    if gap < MaxGap then [TextStyle(tIdx[k], gap + 1, true, HeatColor)] else []
  }

  /** Step 2 of `analyzeText` over the first `n` adjacent pairs of `tIdx`. */
  function Zones(tIdx: seq<nat>, n: nat): seq<TextStyle>
    requires n == 0 || n < |tIdx|
    decreases n
  {
    if n == 0 then [] else Zones(tIdx, n - 1) + ZoneAt(tIdx, n - 1)
  }

  /** At most one zone per pair. */
  lemma {:induction false} ZonesAtMostPairs(tIdx: seq<nat>, n: nat)
    requires n == 0 || n < |tIdx|
    ensures |Zones(tIdx, n)| <= n
    decreases n
  {
    if n > 0 {
      ZonesAtMostPairs(tIdx, n - 1);
    }
  }

  /** How many of the first `n` adjacent pairs of `tIdx` are less than `MaxGap` apart. */
  function CloseCount(tIdx: seq<nat>, n: nat): nat
    requires n == 0 || n < |tIdx|
    decreases n
  {
    if n == 0 then 0
    else CloseCount(tIdx, n - 1) + (if tIdx[n] as int - tIdx[n - 1] < MaxGap then 1 else 0)
  }

  /** There is exactly one zone per close pair. */
  lemma {:induction false} ZonesCount(tIdx: seq<nat>, n: nat)
    requires n == 0 || n < |tIdx|
    ensures |Zones(tIdx, n)| == CloseCount(tIdx, n)
    decreases n
  {
    if n > 0 {
      ZonesCount(tIdx, n - 1);
      assert Zones(tIdx, n) == Zones(tIdx, n - 1) + ZoneAt(tIdx, n - 1);
    }
  }

  /** The number of adjacent pairs in `tIdx`. */
  function PairCount(tIdx: seq<nat>): nat
  {
    if |tIdx| == 0 then 0 else |tIdx| - 1
  }

  /** The zone of the close pair `tIdx[k]`, `tIdx[k + 1]`. */
  predicate IsZoneOf(z: TextStyle, tIdx: seq<nat>, k: nat)
    requires k + 1 < |tIdx|
  {
    var gap := tIdx[k + 1] as int - tIdx[k];
    gap < MaxGap && z == TextStyle(tIdx[k], gap + 1, true, HeatColor)
  }

  /** Every zone is that of some close pair among the first `n`. */
  lemma {:induction false} ZonesAreClosePairs(tIdx: seq<nat>, n: nat)
    requires n == 0 || n < |tIdx|
    ensures forall z :: z in Zones(tIdx, n) ==> exists k :: 0 <= k < n && IsZoneOf(z, tIdx, k)
    decreases n
  {
    if n > 0 {
      ZonesAreClosePairs(tIdx, n - 1);
      assert Zones(tIdx, n) == Zones(tIdx, n - 1) + ZoneAt(tIdx, n - 1);
      if tIdx[n] as int - tIdx[n - 1] < MaxGap {
        assert IsZoneOf(ZoneAt(tIdx, n - 1)[0], tIdx, n - 1);
      }
    }
  }

  /** Every close pair among the first `n` has its zone. */
  lemma {:induction false} ClosePairsAreZones(tIdx: seq<nat>, n: nat)
    requires n == 0 || n < |tIdx|
    ensures forall k :: 0 <= k < n && tIdx[k + 1] as int - tIdx[k] < MaxGap ==>
              TextStyle(tIdx[k], tIdx[k + 1] as int - tIdx[k] + 1, true, HeatColor) in Zones(tIdx, n)
    decreases n
  {
    if n > 0 {
      ClosePairsAreZones(tIdx, n - 1);
      assert Zones(tIdx, n) == Zones(tIdx, n - 1) + ZoneAt(tIdx, n - 1);
    }
  }

  /** For ascending `tIdx` the zones come in ascending order of their start. */
  lemma {:induction false} ZonesAscending(tIdx: seq<nat>, n: nat)
    requires n == 0 || n < |tIdx|
    requires forall x, y :: 0 <= x < y < |tIdx| ==> tIdx[x] < tIdx[y]
    ensures forall x, y :: 0 <= x < y < |Zones(tIdx, n)| ==> Zones(tIdx, n)[x].start < Zones(tIdx, n)[y].start
    decreases n
  {
    if n > 0 {
      ZonesAscending(tIdx, n - 1);
      ZonesAreClosePairs(tIdx, n - 1);
      var before := Zones(tIdx, n - 1);
      assert Zones(tIdx, n) == before + ZoneAt(tIdx, n - 1);
      forall x | 0 <= x < |before|
        ensures before[x].start < tIdx[n - 1]
      {
        assert before[x] in before;
      }
    }
  }

  /**
   * `a` and `b` are trigger positions of `lowerText` with `a < b` and no
   * trigger strictly between them.
   */
  predicate Consecutive(lowerText: string, triggers: set<char>, a: nat, b: nat)
  {
    a < b < |lowerText| && lowerText[a] in triggers && lowerText[b] in triggers &&
    forall q :: a < q < b ==> lowerText[q] !in triggers
  }

  /** Step 2 of `analyzeText` on the lower-cased text. */
  function Heatmap(lowerText: string, triggers: set<char>): seq<TextStyle>
  {
    var tIdx := TriggerIndicesBelow(lowerText, triggers, |lowerText|);
    Zones(tIdx, PairCount(tIdx))
  }

  /** Adjacent entries of the trigger list are consecutive triggers of the text. */
  lemma AdjacentTriggersConsecutive(lowerText: string, triggers: set<char>, k: nat)
    requires k + 1 < |TriggerIndicesBelow(lowerText, triggers, |lowerText|)|
    ensures Consecutive(lowerText, triggers, TriggerIndicesBelow(lowerText, triggers, |lowerText|)[k],
                        TriggerIndicesBelow(lowerText, triggers, |lowerText|)[k + 1])
  {
    var tIdx := TriggerIndicesBelow(lowerText, triggers, |lowerText|);
    TriggerIndicesSpec(lowerText, triggers, |lowerText|);
    assert tIdx[k] in tIdx && tIdx[k + 1] in tIdx;
    forall q | tIdx[k] < q < tIdx[k + 1]
      ensures lowerText[q] !in triggers
    {
      var q': nat := q;
      forall x | 0 <= x < |tIdx|
        ensures tIdx[x] != q'
      {
        assert x <= k ==> tIdx[x] <= tIdx[k];
        assert x > k ==> tIdx[x] >= tIdx[k + 1];
      }
      assert q' !in tIdx;
    }
  }

  /** Consecutive triggers of the text are adjacent entries of the trigger list. */
  lemma ConsecutiveTriggersAdjacent(lowerText: string, triggers: set<char>, a: nat, b: nat) returns (k: nat)
    requires Consecutive(lowerText, triggers, a, b)
    ensures k + 1 < |TriggerIndicesBelow(lowerText, triggers, |lowerText|)|
    ensures TriggerIndicesBelow(lowerText, triggers, |lowerText|)[k] == a
    ensures TriggerIndicesBelow(lowerText, triggers, |lowerText|)[k + 1] == b
  {
    var tIdx := TriggerIndicesBelow(lowerText, triggers, |lowerText|);
    TriggerIndicesSpec(lowerText, triggers, |lowerText|);
    assert a in tIdx && b in tIdx;
    k :| 0 <= k < |tIdx| && tIdx[k] == a;
    var x :| 0 <= x < |tIdx| && tIdx[x] == b;
    assert k < x;
    assert tIdx[k + 1] in tIdx;
    assert tIdx[k + 1] == b;
  }

  /** Every zone runs from one trigger of the text to the next, two to six characters, in yellow. */
  lemma HeatmapZonesAreClose(lowerText: string, triggers: set<char>)
    ensures forall z :: z in Heatmap(lowerText, triggers) ==>
              z.isBackground && z.colorHex == HeatColor && 2 <= z.length <= MaxGap && 0 <= z.start &&
              Consecutive(lowerText, triggers, z.start as nat, (z.start + z.length - 1) as nat)
  {
    var tIdx := TriggerIndicesBelow(lowerText, triggers, |lowerText|);
    TriggerIndicesSpec(lowerText, triggers, |lowerText|);
    ZonesAreClosePairs(tIdx, PairCount(tIdx));
    forall z | z in Heatmap(lowerText, triggers)
      ensures z.isBackground && z.colorHex == HeatColor && 2 <= z.length <= MaxGap && 0 <= z.start
      ensures Consecutive(lowerText, triggers, z.start as nat, (z.start + z.length - 1) as nat)
    {
      var k :| 0 <= k < PairCount(tIdx) && IsZoneOf(z, tIdx, k);
      AdjacentTriggersConsecutive(lowerText, triggers, k);
    }
  }

  /** Every two consecutive triggers of the text less than `MaxGap` apart have their zone. */
  lemma CloseTriggersAreZones(lowerText: string, triggers: set<char>)
    ensures forall a: nat, b: nat :: Consecutive(lowerText, triggers, a, b) && b - a < MaxGap ==>
              TextStyle(a, b - a + 1, true, HeatColor) in Heatmap(lowerText, triggers)
  {
    var tIdx := TriggerIndicesBelow(lowerText, triggers, |lowerText|);
    ClosePairsAreZones(tIdx, PairCount(tIdx));
    forall a: nat, b: nat | Consecutive(lowerText, triggers, a, b) && b - a < MaxGap
      ensures TextStyle(a, b - a + 1, true, HeatColor) in Heatmap(lowerText, triggers)
    {
      var k := ConsecutiveTriggersAdjacent(lowerText, triggers, a, b);
    }
  }

  /** `analyzeText(text, mode)`: the foreground styles, then the heatmap. */
  function Analysis(text: string, mode: int): seq<TextStyle>
  {
    var lowerText := LowerString(text);
    var setup := ModeTable(mode);
    Foreground(lowerText, setup.configs) + Heatmap(lowerText, setup.triggers)
  }

  /** One more position adds one style at the end. */
  lemma MatchStylesSnoc(found: seq<nat>, cfg: PatternConfig, k: nat)
    requires k < |found|
    ensures MatchStyles(found[..k + 1], cfg) ==
              MatchStyles(found[..k], cfg) + [TextStyle(found[k], |cfg.pattern|, false, cfg.color)]
  {
  }

  /** Lines 62-65: one `push_back` per position found for `cfg`. */
  method AppendMatches(results: seq<TextStyle>, found: seq<nat>, cfg: PatternConfig) returns (out: seq<TextStyle>)
    ensures out == results + MatchStyles(found, cfg)
  {
    out := results;
    for k := 0 to |found|
      invariant out == results + MatchStyles(found[..k], cfg)
    {
      MatchStylesSnoc(found, cfg, k);
      out := out + [TextStyle(found[k], |cfg.pattern|, false, cfg.color)];
    }
    assert found[..|found|] == found;
  }

  /** Step 1 of `analyzeText`: a search per configuration and its styles appended in turn. */
  method ForegroundStyles(text: string, configs: seq<PatternConfig>) returns (results: seq<TextStyle>)
    requires forall k :: 0 <= k < |configs| ==> |configs[k].pattern| > 0
    ensures results == Foreground(LowerString(text), configs)
  {
    results := [];
    ghost var lower := LowerString(text);
    for c := 0 to |configs|
      invariant results == Foreground(lower, configs[..c])
    {
      var cfg := configs[c];
      assert configs[..c + 1][..c] == configs[..c];
      var found := KmpSearch(text, cfg.pattern);
      results := AppendMatches(results, found, cfg);
    }
    assert configs[..|configs|] == configs;
  }

  /** Line 72: the positions of the lower-cased text that hold a trigger. */
  method TriggerIndices(lowerText: string, triggers: set<char>) returns (tIdx: seq<nat>)
    ensures tIdx == TriggerIndicesBelow(lowerText, triggers, |lowerText|)
  {
    tIdx := [];
    for i := 0 to |lowerText|
      invariant tIdx == TriggerIndicesBelow(lowerText, triggers, i)
    {
      if lowerText[i] in triggers {
        tIdx := tIdx + [i];
      }
    }
  }

  /** Lines 74-79: a zone appended for every adjacent pair less than `MaxGap` apart. */
  method AppendZones(results: seq<TextStyle>, tIdx: seq<nat>) returns (out: seq<TextStyle>)
    ensures out == results + Zones(tIdx, PairCount(tIdx))
  {
    out := results;
    var i: nat := 0;
    while i + 1 < |tIdx|
      invariant i == 0 || i < |tIdx|
      invariant out == results + Zones(tIdx, i)
    {
      if tIdx[i + 1] as int - tIdx[i] < MaxGap {
        out := out + [TextStyle(tIdx[i], tIdx[i + 1] as int - tIdx[i] + 1, true, HeatColor)];
      }
      i := i + 1;
    }
    assert i == PairCount(tIdx);
  }

  /**
   * `DyslexiaLogic::analyzeText`: pick the mode's configurations, append one
   * style per occurrence of each, lower-case a copy of the text, list the
   * trigger positions and append a zone for every close adjacent pair.
   */
  method AnalyzeText(text: string, mode: int) returns (results: seq<TextStyle>)
    ensures results == Analysis(text, mode)
  {
    var setup := ModeTable(mode);
    var configs, triggers := setup.configs, setup.triggers;
    results := ForegroundStyles(text, configs);
    var lowerText := LowerCopy(text);
    var tIdx := TriggerIndices(lowerText, triggers);
    results := AppendZones(results, tIdx);
  }

  /** Foreground styles come first, background zones after them. */
  lemma AnalysisLayout(text: string, mode: int) returns (foregroundCount: nat)
    ensures foregroundCount <= |Analysis(text, mode)|
    ensures forall k :: 0 <= k < foregroundCount ==> !Analysis(text, mode)[k].isBackground
    ensures forall k :: foregroundCount <= k < |Analysis(text, mode)| ==> Analysis(text, mode)[k].isBackground
  {
    var lowerText := LowerString(text);
    var setup := ModeTable(mode);
    var fg: seq<TextStyle> := Foreground(lowerText, setup.configs);
    var hm: seq<TextStyle> := Heatmap(lowerText, setup.triggers);
    ForegroundSpec(lowerText, setup.configs);
    HeatmapZonesAreClose(lowerText, setup.triggers);
    foregroundCount := |fg|;
    forall k | 0 <= k < |fg|
      ensures !(fg + hm)[k].isBackground
    {
      assert fg[k] in fg;
    }
    forall k | |fg| <= k < |fg + hm|
      ensures (fg + hm)[k].isBackground
    {
      assert hm[k - |fg|] in hm;
    }
  }

  /** Every style covers at least one character and lies inside the text. */
  lemma AnalysisInsideText(text: string, mode: int)
    ensures forall st :: st in Analysis(text, mode) ==>
              0 <= st.start && 1 <= st.length && st.start + st.length <= |text|
  {
    var lowerText := LowerString(text);
    var setup := ModeTable(mode);
    ForegroundSpec(lowerText, setup.configs);
    HeatmapZonesAreClose(lowerText, setup.triggers);
  }

  /** An empty text is painted with nothing, in every mode. */
  lemma EmptyTextPaintsNothing(mode: int)
    ensures Analysis("", mode) == []
  {
    ForegroundOfEmptyText(ModeTable(mode).configs);
    assert LowerString("") == "";
  }

  /**
   * The number of styles is the number of occurrences of the configured
   * patterns plus the number of close adjacent pairs of triggers, which is at
   * most the number of adjacent pairs.
   */
  lemma AnalysisSize(text: string, mode: int)
    ensures |Analysis(text, mode)| == MatchTotal(LowerString(text), ModeTable(mode).configs) +
              CloseCount(TriggerIndicesBelow(LowerString(text), ModeTable(mode).triggers, |text|),
                         PairCount(TriggerIndicesBelow(LowerString(text), ModeTable(mode).triggers, |text|)))
    ensures |Analysis(text, mode)| <= MatchTotal(LowerString(text), ModeTable(mode).configs) +
              PairCount(TriggerIndicesBelow(LowerString(text), ModeTable(mode).triggers, |text|))
  {
    var lowerText := LowerString(text);
    var tIdx := TriggerIndicesBelow(lowerText, ModeTable(mode).triggers, |text|);
    ForegroundSize(lowerText, ModeTable(mode).configs);
    ZonesCount(tIdx, PairCount(tIdx));
    ZonesAtMostPairs(tIdx, PairCount(tIdx));
  }

  /** A mode outside the table paints nothing. */
  lemma OtherModesPaintNothing(text: string, mode: int)
    requires mode != 0 && mode != 1
    ensures Analysis(text, mode) == []
  {
    var lowerText := LowerString(text);
    NoTriggersNoIndices(lowerText, |lowerText|);
  }

  /** With no trigger letters the trigger list stays empty. */
  lemma {:induction false} NoTriggersNoIndices(lowerText: string, b: nat)
    requires b <= |lowerText|
    ensures TriggerIndicesBelow(lowerText, {}, b) == []
    decreases b
  {
    if b > 0 {
      NoTriggersNoIndices(lowerText, b - 1);
    }
  }

  /** In every mode, each trigger letter of the text is also coloured as a one-letter match. */
  lemma TriggersAreColoured(text: string, mode: int, q: nat)
    requires q < |text| && Lower(text[q]) in ModeTable(mode).triggers
    ensures exists color :: TextStyle(q, 1, false, color) in Analysis(text, mode)
  {
    var lowerText := LowerString(text);
    var setup := ModeTable(mode);
    TriggersAreThePatterns(mode);
    var k :| 0 <= k < |setup.configs| && setup.configs[k].pattern == [Lower(text[q])];
    assert Kmp.IsMatchAt(lowerText, setup.configs[k].pattern, q);
    ForegroundSpec(lowerText, setup.configs);
    var st := TextStyle(q, 1, false, setup.configs[k].color);
    assert st in Foreground(lowerText, setup.configs);
    assert st in Analysis(text, mode);
  }
}
