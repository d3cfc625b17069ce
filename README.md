# Dyslexia-focus text analysis, modelled in Dafny

The system marks letters and syllables that are easy to confuse for readers
with dyslexia. Its core is two small C++ programs.

- pruebaKMPAplicacion.cpp is a console prototype. It lower-cases the input,
  runs Knuth-Morris-Pratt (`buildLPS`, `KMPsearch`) for each pattern of a
  fixed list, and collects the patterns that occur with their positions.
  `highlightText` then inserts one pair of square brackets into the original
  text per reported occurrence. The positions are not adjusted for brackets
  inserted before them, so a pair does not always enclose its occurrence.
- DyslexiaLogic.cpp is the engine behind the reading window.
  `DyslexiaLogic::analyzeText(text, mode)` returns a list of `TextStyle`
  records.
  - Foreground styles come first: one TextStyle per occurrence of each letter
    that the mode configures, in that letter's colour.
  - Yellow background "zones" follow: one for each pair of adjacent trigger
    letters less than six characters apart.

The model has four modules:

- `AsciiCase` (text.dfy) is the `::tolower` case fold. It includes the
  in-place `transform` over a character buffer.
- `Kmp` (kmp.dfy) holds both KMP loops.
  - `BuildLps` is proved to fill in the prefix function: entry `i` is the
    length of the longest proper border of `pattern[..i+1]`.
  - `Search` is proved to return exactly the ascending list of all start
    positions of the pattern in the text, overlapping ones included.
  - DyslexiaLogic.cpp:6-19 is the same `buildLPS`, line for line, so
    `Kmp.BuildLps` models both copies.
- `Highlighter` (highlight.dfy) covers `highlightText` and the part of
  `main` between reading the text and printing it: the pattern list, the
  lower-cased copy and the collection loop.
- `DyslexiaLogic` (dyslexia_logic.dfy) covers `TextStyle`, `PatternConfig`,
  the mode table, the case-insensitive `KMPsearch` and `analyzeText`.
  - `analyzeText` is a method whose loops are proved to compute the
    specification function `Analysis`.
  - Lemmas about `Analysis` cover its layout, bounds, completeness and size,
    and show that `priority` plays no part.

The model follows the code as written:

- Although DyslexiaLogic.cpp:44 heads `analyzeText` "Lógica de Análisis y
  Fusión", nothing merges styles. `priority` is stored and never read, and
  overlapping styles are returned unmerged (`PriorityIgnored`).
- A zone needs a gap *below six*, so it is 2 to 6 characters long.
- The zone colour is `0xFFFF00`, as assigned in the code. The comment beside
  it says `0xFFFFE0`.
- DyslexiaLogic.h declares `QString` parameters, but DyslexiaLogic.cpp works
  on `std::string`. The model uses strings of `char`.
- `highlightText` walks the pattern list backwards, as its comment says.
  Within one pattern, however, it walks the positions forwards, and it never
  adjusts a position for brackets already inserted. The model does the same.
  `SecondMatchShifted` shows the result for `"ab"` at `[0, 2]` in `"abab"`:
  `"[a[b]]ab"`. `OverlappingEntriesShifted` shows the same for two entries:
  in `"ba"`, `"b"` and `"ba"` found at 0 give `"[[]ba]"`, so `b` is left
  outside its own brackets.

`std::string::insert` throws `out_of_range` past the end of the string. The
model returns `None` in that case. `HighlightedFits` proves that this never
happens for positions that fit in the text, which is what `main` passes.

## Model

| member | source | states |
|---|---|---|
| AsciiCase.Lower | pruebaKMPAplicacion.cpp:94 | `::tolower` on one character: the result is never an upper-case letter, and only an upper-case letter changes |
| AsciiCase.LowerInPlace | DyslexiaLogic.cpp:69-70 | the in-place `transform` replaces every character of the buffer by its lower-case form and changes nothing else |
| AsciiCase.LowerCopy | pruebaKMPAplicacion.cpp:93-94 | the copy-then-transform yields the lower-cased text |
| Kmp.BorderSlices | pruebaKMPAplicacion.cpp:8 | the border predicate used by the table means that the first `k` characters of `p[..i]` equal its last `k`, with `k < i` |
| Kmp.LongestBorder | pruebaKMPAplicacion.cpp:8 | the prefix function is a proper border of `p[..i]` |
| Kmp.LongestBorderMaximal | pruebaKMPAplicacion.cpp:8 | no proper border of `p[..i]` is longer than the prefix function |
| Kmp.ExtendBorder | pruebaKMPAplicacion.cpp:16-18 | a border followed by a matching character is a border one longer |
| Kmp.ShrinkBorder | pruebaKMPAplicacion.cpp:16-18 | every non-empty border is a shorter border extended by a matching character |
| Kmp.BorderOfBorder | pruebaKMPAplicacion.cpp:22 | a border of a border is a border, so falling back to `lps[len - 1]` keeps a valid candidate |
| Kmp.ShorterBorderOfBorder | pruebaKMPAplicacion.cpp:22 | a border shorter than the candidate is a border of the candidate prefix, so the fallback skips no border |
| Kmp.ExtendStep | pruebaKMPAplicacion.cpp:16-19 | when `pattern[i] == pattern[len]`, `len + 1` is the prefix function of `pattern[..i+1]` |
| Kmp.ZeroStep | pruebaKMPAplicacion.cpp:23-25 | when no candidate extends, the prefix function of `pattern[..i+1]` is 0 |
| Kmp.FallbackStep | pruebaKMPAplicacion.cpp:21-22 | after a mismatch, `lps[len - 1]` is a border and no longer border can still be extended |
| Kmp.BuildLps | pruebaKMPAplicacion.cpp:9-30 | the table has one entry per pattern character, entry `i` is the prefix function of `pattern[..i+1]`, and `lps[i] <= i` (so `lps[0] == 0`); the loop terminates on `(m - i, len)` |
| Kmp.AgreesSlices | pruebaKMPAplicacion.cpp:44 | the character-by-character comparison of the scan agrees with equality of the slices |
| Kmp.MatchSlices | pruebaKMPAplicacion.cpp:49-50 | an occurrence at `q` means `text[q..q + m] == pattern` |
| Kmp.MatchPointwise | pruebaKMPAplicacion.cpp:44 | an occurrence at `q` means `text[q + k] == pattern[k]` for every `k < m` |
| Kmp.MatchesBelowSpec | pruebaKMPAplicacion.cpp:49-50 | the occurrences below `b` are exactly the starts below `b` where the pattern occurs, strictly ascending |
| Kmp.Occurrences | pruebaKMPAplicacion.cpp:33-60 | membership holds exactly at the starts of occurrences; the list is strictly ascending; a pattern longer than the text has none |
| Kmp.MatchesBelowSkip | pruebaKMPAplicacion.cpp:53-56 | a stretch of starts without occurrences adds nothing to the list |
| Kmp.ExtendWindow | pruebaKMPAplicacion.cpp:44-47 | a matching character lengthens the matched window by one and loses no occurrence |
| Kmp.MatchInsideWindowIsBorder | pruebaKMPAplicacion.cpp:51 | an occurrence starting strictly inside the window would be a border of the matched prefix |
| Kmp.FallbackWindow | pruebaKMPAplicacion.cpp:51 | falling back to `lps[j - 1]` leaves a window that still matches |
| Kmp.FallbackSkips | pruebaKMPAplicacion.cpp:51 | falling back to `lps[j - 1]` skips only starts where the pattern does not occur |
| Kmp.FullMatchStep | pruebaKMPAplicacion.cpp:49-51 | after a full match the position `i - m` is reported and resuming at `lps[m - 1]` misses nothing |
| Kmp.MismatchRulesOut | pruebaKMPAplicacion.cpp:52 | a mismatch at `text[i]` rules out an occurrence at the window's start |
| Kmp.MismatchStep | pruebaKMPAplicacion.cpp:52-54 | after a mismatch with `j > 0`, falling back to `lps[j - 1]` misses no occurrence |
| Kmp.SkipStep | pruebaKMPAplicacion.cpp:55-56 | after a mismatch with `j == 0`, no occurrence starts at `i` |
| Kmp.ScanComplete | pruebaKMPAplicacion.cpp:43 | when the scan reaches the end of the text, the reported list is all occurrences |
| Kmp.SearchStep | pruebaKMPAplicacion.cpp:44-57 | one pass of the loop body keeps the matched window and the list of occurrences before its start, and either advances `i` or lowers `j` |
| Kmp.Search | pruebaKMPAplicacion.cpp:33-60 | for a non-empty pattern, the result is exactly all occurrences, overlapping ones included, in ascending order; the loop terminates on `(n - i, j)` |
| Kmp.OverlappingOccurrences | pruebaKMPAplicacion.cpp:49-51 | "aa" in "aaa" is found at 0 and 1 |
| Highlighter.InsertAt | pruebaKMPAplicacion.cpp:71-72 | `insert` lengthens the string by the inserted piece |
| Highlighter.InsertAtSeam | pruebaKMPAplicacion.cpp:71-72 | inserting at the seam of `a + b` gives `a + piece + b` |
| Highlighter.HighlightText | pruebaKMPAplicacion.cpp:63-76 | the loops compute `Highlighted`: entries from the last to the first, the positions of each from the first to the last, each index taken in the partly bracketed string |
| Highlighter.BracketFits | pruebaKMPAplicacion.cpp:69-73 | positions that fit never make `insert` throw, and each one adds two characters |
| Highlighter.HighlightedFits | pruebaKMPAplicacion.cpp:66-74 | for positions valid in the text, the result exists and is two characters longer than the text per position |
| Highlighter.HighlightedUpToFits | pruebaKMPAplicacion.cpp:66-74 | bracketing the last `m` entries of valid positions succeeds and adds two characters per position of those entries |
| Highlighter.KeptPrefix | pruebaKMPAplicacion.cpp:71-72 | removing brackets from a prefix does not depend on what follows it |
| Highlighter.KeptSuffix | pruebaKMPAplicacion.cpp:71-72 | removing brackets from `a` followed by a prefix of `b` gives the two results one after the other |
| Highlighter.UnbracketedAppend | pruebaKMPAplicacion.cpp:71-72 | dropping brackets distributes over concatenation |
| Highlighter.UnbracketedBracket | pruebaKMPAplicacion.cpp:71-72 | a bracket alone drops to nothing |
| Highlighter.BracketBetween | pruebaKMPAplicacion.cpp:71-72 | one bracket put between two pieces leaves the text without brackets unchanged |
| Highlighter.InsertBracketKeepsText | pruebaKMPAplicacion.cpp:71-72 | inserting one bracket anywhere leaves the text without brackets unchanged |
| Highlighter.BracketKeepsText | pruebaKMPAplicacion.cpp:69-73 | bracketing all positions of one pattern leaves the text without brackets unchanged |
| Highlighter.HighlightedKeepsText | pruebaKMPAplicacion.cpp:63-76 | when `highlightText` succeeds, removing the brackets gives back the text with its own brackets removed: no character is lost or reordered |
| Highlighter.HighlightedUpToKeepsText | pruebaKMPAplicacion.cpp:66-74 | bracketing the last `m` entries, when it succeeds, leaves the text without brackets unchanged |
| Highlighter.WrapOnce | pruebaKMPAplicacion.cpp:71-72 | `]` at `pos + len` and then `[` at `pos` wrap exactly `s[pos..pos + len]` |
| Highlighter.HighlightSingle | pruebaKMPAplicacion.cpp:71-72 | one pattern at one position gives `text[..pos] + "[" + text[pos..pos+len] + "]" + text[pos+len..]` |
| Highlighter.SecondMatchShifted | pruebaKMPAplicacion.cpp:65-73 | positions are not shifted by earlier brackets: "ab" at `[0, 2]` in "abab" gives "[a[b]]ab" |
| Highlighter.OverlappingEntriesShifted | pruebaKMPAplicacion.cpp:66-73 | the entries are bracketed from the last to the first, without adjusting earlier positions: `"b"` and `"ba"` at 0 in `"ba"` give `"[[]ba]"` |
| Highlighter.CollectedUpToOrigin | pruebaKMPAplicacion.cpp:99-104 | after the first `n` patterns, each entry is one of them with all its occurrences, at least one; the source patterns strictly ascend; every pattern among them that occurs has its entry |
| Highlighter.CollectedSpec | pruebaKMPAplicacion.cpp:99-104 | each collected entry is a listed pattern with exactly its occurrences in the lower-cased text and at least one of them; a listed pattern is collected if and only if it occurs; there are no more entries than patterns |
| Highlighter.CollectedOrder | pruebaKMPAplicacion.cpp:99-104 | the collected entries come in the order of the pattern list: each is some listed pattern, and later entries come from later patterns |
| Highlighter.CollectedFits | pruebaKMPAplicacion.cpp:99-104 | every collected position leaves room for its pattern in the text |
| Highlighter.CollectMatches | pruebaKMPAplicacion.cpp:99-104 | the loop computes `Collected`, in the order of the pattern list |
| Highlighter.HighlightInput | pruebaKMPAplicacion.cpp:87-107 | the collected matches are those of the listed patterns in the lower-cased text; highlighting them succeeds; the output is two characters longer per match; it is the input plus brackets |
| DyslexiaLogic.ModeTable | DyslexiaLogic.cpp:51-57 | every configured pattern is one character between `a` and `z`; a mode other than 0 and 1 configures nothing and has no triggers |
| DyslexiaLogic.TriggersAreThePatterns | DyslexiaLogic.cpp:51-57 | a letter is a trigger of a mode if and only if it is one of the mode's patterns |
| DyslexiaLogic.KmpSearch | DyslexiaLogic.cpp:21-42 | the result is exactly the ascending list of occurrences of the pattern, not lower-cased, in the lower-cased text |
| DyslexiaLogic.UppercasePatternNeverMatches | DyslexiaLogic.cpp:23-25 | since only the text is lower-cased, a pattern holding an upper-case letter is never found |
| DyslexiaLogic.ForegroundSpec | DyslexiaLogic.cpp:59-66 | every foreground style is an occurrence of a configured pattern, with its length and colour; every occurrence of every configured pattern has its style |
| DyslexiaLogic.PriorityIgnored | DyslexiaLogic.cpp:59-66 | configurations that differ only in `priority` give the same styles |
| DyslexiaLogic.ForegroundBlock | DyslexiaLogic.cpp:60-65 | each configuration appends its matches after those of the configurations before it, in ascending position |
| DyslexiaLogic.ForegroundPrefix | DyslexiaLogic.cpp:60-65 | the styles of the first `c` configurations are a prefix of all foreground styles |
| DyslexiaLogic.ForegroundSize | DyslexiaLogic.cpp:60-65 | there is one foreground style per occurrence: nothing is merged or dropped |
| DyslexiaLogic.ForegroundOfEmptyText | DyslexiaLogic.cpp:60-65 | an empty text has no foreground styles |
| DyslexiaLogic.TriggerIndicesSpec | DyslexiaLogic.cpp:71-72 | the trigger list holds exactly the positions whose lower-cased character is a trigger, strictly ascending |
| DyslexiaLogic.ZonesAtMostPairs | DyslexiaLogic.cpp:74-79 | there is at most one zone per adjacent pair |
| DyslexiaLogic.ZonesCount | DyslexiaLogic.cpp:74-79 | the number of zones is exactly the number of adjacent pairs less than 6 apart |
| DyslexiaLogic.ZonesAreClosePairs | DyslexiaLogic.cpp:74-79 | every zone belongs to an adjacent pair with gap below 6: it starts at the first trigger, has length gap + 1, is background and is yellow |
| DyslexiaLogic.ClosePairsAreZones | DyslexiaLogic.cpp:74-79 | every adjacent pair with gap below 6 has its zone |
| DyslexiaLogic.ZonesAscending | DyslexiaLogic.cpp:74-79 | for an ascending trigger list, zone starts are strictly ascending, so no pair yields two zones |
| DyslexiaLogic.AdjacentTriggersConsecutive | DyslexiaLogic.cpp:71-74 | adjacent entries of the trigger list are triggers with no trigger between them |
| DyslexiaLogic.ConsecutiveTriggersAdjacent | DyslexiaLogic.cpp:71-74 | two triggers with no trigger between them are adjacent entries of the trigger list |
| DyslexiaLogic.HeatmapZonesAreClose | DyslexiaLogic.cpp:68-79 | every zone runs from one trigger to the next one, is 2 to 6 characters long, is background and is `0xFFFF00` |
| DyslexiaLogic.CloseTriggersAreZones | DyslexiaLogic.cpp:68-79 | every two consecutive triggers less than 6 apart give the zone from the first to the second |
| DyslexiaLogic.AppendMatches | DyslexiaLogic.cpp:62-65 | one style per found position is appended, in the order found, after the existing styles, which are kept |
| DyslexiaLogic.ForegroundStyles | DyslexiaLogic.cpp:59-66 | for non-empty patterns the loop computes `Foreground` of the lower-cased text |
| DyslexiaLogic.TriggerIndices | DyslexiaLogic.cpp:71-72 | the loop lists exactly the positions holding a trigger, in ascending order |
| DyslexiaLogic.AppendZones | DyslexiaLogic.cpp:74-79 | the loop appends exactly the zones of the adjacent close pairs, in order, after the existing styles |
| DyslexiaLogic.AnalyzeText | DyslexiaLogic.cpp:45-82 | the loops compute `Analysis`: the foreground styles of the mode's configurations, then the heatmap zones |
| DyslexiaLogic.AnalysisLayout | DyslexiaLogic.cpp:59-79 | every foreground style comes before every background style |
| DyslexiaLogic.AnalysisInsideText | DyslexiaLogic.cpp:64-77 | every style starts inside the text, covers at least one character and ends inside it |
| DyslexiaLogic.EmptyTextPaintsNothing | DyslexiaLogic.cpp:59-79 | an empty text gives no styles in any mode |
| DyslexiaLogic.AnalysisSize | DyslexiaLogic.cpp:59-81 | the result has exactly the total match count plus the number of close adjacent trigger pairs, which is at most the number of pairs |
| DyslexiaLogic.OtherModesPaintNothing | DyslexiaLogic.cpp:51-57 | a mode other than 0 and 1 gives no styles |
| DyslexiaLogic.NoTriggersNoIndices | DyslexiaLogic.cpp:71-72 | with no trigger letters the trigger list is empty |
| DyslexiaLogic.TriggersAreColoured | DyslexiaLogic.cpp:51-65 | every position holding a trigger letter, in either case, is also the start of a one-letter foreground style |

## Left out

- The Qt reading window (MainWindow.cpp, MainWindow.h) is not part of this model. It handles presentation, file dialogs and painting.
- The console I/O of `main` is left out: `getline`, the banner and the printed tables.
- The `QString` signatures of DyslexiaLogic.h are not modelled, because the implementation works on `std::string`. UTF-16 is not modelled either.
- A Dafny `char` stands for one byte of the `std::string`. Positions and lengths are therefore byte offsets, and a multi-byte UTF-8 letter such as `á` counts as two characters. Character encodings are not modelled.
- `AsciiCase.Lower`: `::tolower` is taken as the ASCII mapping from `A`-`Z` to `a`-`z`. The locale-dependent mapping and the undefined behaviour on negative `char` values are not modelled.
- `Kmp.Search`: an empty pattern is excluded by its precondition. With `m == 0` the code reads `lps[-1]`, which is undefined behaviour, and no caller passes an empty pattern.
- `DyslexiaLogic.KmpSearch`: an empty pattern is excluded for the same reason. Every configured pattern is one letter long.
- `DyslexiaLogic.ForegroundStyles`: it requires non-empty patterns for the same reason. The mode table configures only one-letter patterns.
- Integers are unbounded. Positions and lengths in the code are `int` and would overflow only for texts above 2^31 characters.
- `Highlighter.HighlightText`: the `out_of_range` exception of `std::string::insert` is modelled as `None`. Its type and message are not modelled.
