# Footnote renumbering for Markdown, modelled in Dafny

This project models `process_markdown` from `markdown/sort-footnote/1-chatgpt.py`. The function takes a Markdown text. It renumbers the footnote references `[^label]` as `[^1]`, `[^2]`, … in order of first occurrence, and collects the footnote definitions `[^label]: content`. It then sorts the definitions by their new number, cuts the old definition lines out of the body and appends the new definition block after a blank line.

The model follows the function stage by stage, one module per stage:

- `Text` (text.dfy) holds the shared helpers.
  - Python's whitespace set, i.e. what `str.isspace()` and `\s` accept.
  - Greedy `\s*` and `.*` scanning.
  - `str.rstrip()`, `"\n".join` and `str.split("\n")`.
  - The decimal spelling `str(n)` of a number.
- `References` (references.dfy) covers line 21.
  - The pattern `\[\^([^\]]+)\]` is a declarative predicate `RefMatch`.
  - A hand-written scanner `Scan` cuts the text into the pieces of a leftmost, non-overlapping search.
  - `replace_ref` is the class `Renumberer`. Its fields `footnoteMap` and `nextNum` are the closure's dictionary and counter.
  - `RenumberReferences` is the substitution loop.
- `LabelMap` (labelmap.dfy) covers lines 7-8 and 12-18. `Numbering(labels)` is the map that `replace_ref` has built after seeing `labels`, together with its invariants.
- `Definitions` (definitions.dfy) covers line 25: the `findall` of `(?m)^\[\^([^\]]+)\]:\s*(.*)$` as a predicate `DefinitionMatch` and a scanner `ExtractFrom`.
- `Entries` (entries.dfy) covers lines 27-36.
  - The filtering loop.
  - The stable sort by number.
  - The formatting of `defs_text`.
- `Strip` (strip.dfy) covers line 40: the substitution `re.sub(r"(?m)(\n\s*\[\^[^\]]+\]:.*)+\s*$", "", …)`.
- `SortFootnote` (footnotes.dfy) holds the whole function, `ProcessMarkdown`, and the properties of its result.

How the code behaves, as written (the model follows the code in each case):

- **Definition labels are numbered too.** The search at line 21 runs over the whole text, definition lines included. So every definition label gets a number, and the test at line 29 drops nothing. Labels are numbered by first occurrence over the whole text; when the definitions follow the body, labels that appear only in definitions get numbers after the body's labels. The stated intent is to keep only referenced definitions; that intent is not modelled.
- **Labels can span lines.** The label class `[^\]]` also matches a line feed, so a reference label can span lines. Such a label can swallow a definition marker. The definition is then extracted at line 25, but its label gets no number from that marker; unless the label is referenced elsewhere in the text, the definition is dropped. `MultilineLabelHidesDefinition` proves this for `"x[^a\n[^b]: c"`. The property "every definition is kept" therefore carries the hypothesis that no reference label holds a line feed.
- **The strip is not limited to the end of the text.** Under `(?m)`, `$` matches at the end of any line. So the strip at line 40 removes every run of definition lines that follows a line feed, wherever it lies, together with the blank lines before it. A definition on the first line is never removed.
- **`\s*` after the colon at line 25 can cross line feeds.** A definition with empty content therefore takes the next non-blank line as its content.

## Model

| member | source | states |
|---|---|---|
| Text.SkipSpace | markdown/sort-footnote/1-chatgpt.py:25 | greedy `\s*`: whitespace up to the result, which is the end or a non-whitespace character |
| Text.LineEnd | markdown/sort-footnote/1-chatgpt.py:25 | greedy `.*`: no line feed up to the result, which is the end or a line feed |
| Text.SkipSpaceUnique | markdown/sort-footnote/1-chatgpt.py:25 | any whitespace run that ends at non-whitespace is the one `\s*` takes |
| Text.LineEndUnique | markdown/sort-footnote/1-chatgpt.py:25 | any run without line feeds that ends at one is the one `.*` takes |
| Text.RStrip | markdown/sort-footnote/1-chatgpt.py:40 | `rstrip()` returns a prefix that does not end in whitespace, and everything it cuts is whitespace |
| Text.SplitLines | markdown/sort-footnote/1-chatgpt.py:36 | the inverse of the `"\n".join` at line 36: splitting at line feeds yields at least one piece, none holding a line feed |
| Text.SplitJoinLines | markdown/sort-footnote/1-chatgpt.py:36 | `"\n".join` (`JoinLines`) of lines without line feeds splits back into exactly those lines |
| Text.JoinSplitLines | markdown/sort-footnote/1-chatgpt.py:36 | joining the pieces of a split gives the text back |
| Text.Decimal | markdown/sort-footnote/1-chatgpt.py:16 | `str(n)` is a non-empty string of digits, with a leading `0` only for 0 |
| Text.DecimalRoundTrip | markdown/sort-footnote/1-chatgpt.py:31 | `int(str(n)) == n`: `DigitsValue`, the model of `int`, reads the spelling back |
| Text.DecimalInjective | markdown/sort-footnote/1-chatgpt.py:16 | distinct numbers are written differently, so `[^n]` identifies n |
| LabelMap.Numbering | markdown/sort-footnote/1-chatgpt.py:12-18 | the map's keys are exactly the labels seen, its numbers lie in 1..\|map\| and no two labels share a number |
| LabelMap.NumberingPrefix | markdown/sort-footnote/1-chatgpt.py:15-17 | a number once handed out never changes as later labels are seen |
| LabelMap.NumberingFirstSeen | markdown/sort-footnote/1-chatgpt.py:15-18 | a label seen for the first time gets the next number (\|map\|+1); a repeated label keeps its number |
| LabelMap.NumberingOrder | markdown/sort-footnote/1-chatgpt.py:15-17 | a label first seen earlier has a smaller number |
| LabelMap.NumberingOnto | markdown/sort-footnote/1-chatgpt.py:7-8 | every number from 1 to \|map\| belongs to a label, so the numbers are consecutive from 1 |
| LabelMap.NumberingSize | markdown/sort-footnote/1-chatgpt.py:15-17 | \|map\| is the number of distinct labels |
| References.FindClose | markdown/sort-footnote/1-chatgpt.py:21 | the first `]` at or after an index, or the end |
| References.RefEnd | markdown/sort-footnote/1-chatgpt.py:21 | the pattern matches at i exactly when this returns the closing bracket, and no other match begins at i |
| References.Step | markdown/sort-footnote/1-chatgpt.py:21 | one move of the search consumes a non-empty piece of the text, and that piece's text is what it covers |
| References.StepFound | markdown/sort-footnote/1-chatgpt.py:21 | a move cuts a reference exactly where the pattern matches, and otherwise a single character where no match begins |
| References.StepAtMatch | markdown/sort-footnote/1-chatgpt.py:21 | where the pattern matches, the move takes the whole match and resumes behind it |
| References.ScanRoundTrip | markdown/sort-footnote/1-chatgpt.py:21 | the pieces `Scan` cuts the text into, in order, make up the text |
| References.ScanMatches | markdown/sort-footnote/1-chatgpt.py:21 | the k-th piece of `Scan` starts where the earlier pieces end, and it is a match there or a character where no match begins (leftmost, non-overlapping) |
| References.ScanWithoutReferences | markdown/sort-footnote/1-chatgpt.py:21 | a text without a match yields no label, and the substitution leaves it unchanged |
| References.RenderExtend | markdown/sort-footnote/1-chatgpt.py:18 | rendering with a larger map that keeps the old numbers leaves rendered references unchanged |
| References.RenderedReference | markdown/sort-footnote/1-chatgpt.py:18 | the replacement `[^n]` that `RenderPiece` makes of a numbered reference is itself a reference marker whose label reads back as n |
| References.RenderAppend | markdown/sort-footnote/1-chatgpt.py:18-21 | `Render` replaces each piece on its own: the substitution of a concatenation is the concatenation of the substitutions |
| References.RefStep | markdown/sort-footnote/1-chatgpt.py:12-18 | one more reference: its label gets a number, and the text gains `[^n]` for that number |
| References.PlainStep | markdown/sort-footnote/1-chatgpt.py:21 | one more ordinary character: no label is added, and the text gains that character |
| References.Renumberer.constructor | markdown/sort-footnote/1-chatgpt.py:7-8 | the map starts empty and the counter starts at 1 |
| References.Renumberer.ReplaceRef | markdown/sort-footnote/1-chatgpt.py:12-18 | a known label leaves the state unchanged; a new label is mapped to `next_num`, which then advances by one; the result is `[^n]` for the label's number |
| References.RenumberReferences | markdown/sort-footnote/1-chatgpt.py:7-21 | after line 21 (`FootnoteMap` and `Body` of the text): the map is the numbering of the matched labels in text order, the counter is \|map\|+1, and each match is replaced by its number while all other text is kept |
| Definitions.DefinitionAt | markdown/sort-footnote/1-chatgpt.py:25 | returns a match of the definition pattern at p if there is one, and reports none only when none exists |
| Definitions.MatchFound | markdown/sort-footnote/1-chatgpt.py:25 | a marker `[^label]:` at a line start always begins a match, whose content is the rest of the line where `\s*` stops |
| Definitions.MatchHasMarker | markdown/sort-footnote/1-chatgpt.py:25 | every definition match starts with a reference marker at a line start |
| Definitions.MatchContentIsOneLine | markdown/sort-footnote/1-chatgpt.py:25 | captured content holds no line feed |
| Definitions.MatchEnds | markdown/sort-footnote/1-chatgpt.py:25 | the label of a match ends at the first `]`, its content starts where `\s*` stops and ends where `.*` stops |
| Definitions.MatchesAgree | markdown/sort-footnote/1-chatgpt.py:25 | two matches at the same index capture the same label and content and end at the same place |
| Definitions.MatchUnique | markdown/sort-footnote/1-chatgpt.py:25 | a match at an index is the one `DefinitionAt` returns there |
| Definitions.ExtractFrom | markdown/sort-footnote/1-chatgpt.py:25 | every definition returned is a match of the pattern at or after the start index (soundness; the three lemmas below determine the whole result) |
| Definitions.ExtractFromNone | markdown/sort-footnote/1-chatgpt.py:25 | with no match at or after i, the search from i returns nothing |
| Definitions.ExtractFromFinds | markdown/sort-footnote/1-chatgpt.py:25 | completeness: a match at or after i makes the search from i return something |
| Definitions.ExtractFromLeftmost | markdown/sort-footnote/1-chatgpt.py:25 | the search from i returns first the leftmost match at or after i and then resumes at that match's end, as `findall` does |
| Definitions.ExtractEmpty | markdown/sort-footnote/1-chatgpt.py:25 | `Extract` (`findall` over the text) returns nothing exactly when the pattern matches nowhere |
| Definitions.ContentsAreSingleLines | markdown/sort-footnote/1-chatgpt.py:25 | no extracted content holds a line feed |
| Definitions.ExtractedMarker | markdown/sort-footnote/1-chatgpt.py:25 | every extracted definition sits at a marker `[^label]` at a line start |
| Definitions.MarkerAtLineStartIsReference | markdown/sort-footnote/1-chatgpt.py:21 | if no label spans a line, a marker at a line start is one of the references the search finds |
| Definitions.LineStartMarkerIsNumbered | markdown/sort-footnote/1-chatgpt.py:21 | if no label spans a line, the label of a marker at a line start is among the numbered labels |
| Definitions.ExtractedLabelsAreNumbered | markdown/sort-footnote/1-chatgpt.py:21-25 | if no label spans a line, every extracted label is in `footnote_map`, because line 21 scanned the same text |
| Definitions.ExtractNeedsReference | markdown/sort-footnote/1-chatgpt.py:25 | a text with an extracted definition has a reference match |
| Entries.Filtered | markdown/sort-footnote/1-chatgpt.py:28-31 | every entry comes from a definition whose label is in the map, numbered by that label (soundness) |
| Entries.FilteredComplete | markdown/sort-footnote/1-chatgpt.py:28-31 | every definition whose label is in the map gives its entry (completeness) |
| Entries.FilteredAppend | markdown/sort-footnote/1-chatgpt.py:28-31 | the loop handles the definitions one by one: filtering a concatenation concatenates the filtered parts |
| Entries.FilteredKeepsAll | markdown/sort-footnote/1-chatgpt.py:28-31 | when every label is in the map, entry k is definition k with its label's number |
| Entries.FilteredRenumbered | markdown/sort-footnote/1-chatgpt.py:28-31 | when every label is in the map, the filtered list is `Renumbered`, every definition with its label's number |
| Entries.SortedKeepsAll | markdown/sort-footnote/1-chatgpt.py:28-33 | when every label is in the map, the sorted entries are a permutation of `Renumbered`: one per definition, multiplicities included |
| Entries.WithNumber | markdown/sort-footnote/1-chatgpt.py:33 | the entries with a given number, in order |
| Entries.Insert | markdown/sort-footnote/1-chatgpt.py:33 | inserting an entry adds exactly that entry |
| Entries.InsertSorted | markdown/sort-footnote/1-chatgpt.py:33 | inserting into a sorted list keeps it sorted |
| Entries.InsertWithNumber | markdown/sort-footnote/1-chatgpt.py:33 | an insertion goes behind every entry with the same number |
| Entries.SortByNumber | markdown/sort-footnote/1-chatgpt.py:33 | the sort returns a sorted permutation of its input |
| Entries.SortByNumberStable | markdown/sort-footnote/1-chatgpt.py:33 | entries with equal numbers, such as duplicate definitions, keep their file order |
| Entries.StableSortUnique | markdown/sort-footnote/1-chatgpt.py:33 | two sorted lists with the same entries and the same order within each number are equal, so every stable sort gives this result |
| Entries.CollectDefinitions | markdown/sort-footnote/1-chatgpt.py:27-33 | `new_defs` is sorted, holds exactly the filtered entries and keeps file order within a number |
| Entries.FormatEntryReadBack | markdown/sort-footnote/1-chatgpt.py:36 | a line `FormatEntry` makes reads back: the digits between `[^` and the first `]` give the number, the text after `]: ` the content |
| Entries.FormatEntryInjective | markdown/sort-footnote/1-chatgpt.py:36 | different entries make different lines |
| Entries.DefsTextInjective | markdown/sort-footnote/1-chatgpt.py:36 | when no content holds a line feed, different entry lists give different `defs_text`, so `DefsText` can be read back |
| Entries.DefsTextLines | markdown/sort-footnote/1-chatgpt.py:36 | `defs_text` is empty exactly when `new_defs` is, and otherwise splits into the lines of `FormatLines`, one formatted line per entry |
| Entries.FormatEntryOneLine | markdown/sort-footnote/1-chatgpt.py:36 | a formatted line holds a line feed exactly when the entry's content does |
| Strip.UnitAt | markdown/sort-footnote/1-chatgpt.py:40 | a unit found at i ends after i, at a line end |
| Strip.UnitAtMatches | markdown/sort-footnote/1-chatgpt.py:40 | what `UnitAt` finds matches `\n\s*\[\^[^\]]+\]:.*` |
| Strip.UnitAtUnique | markdown/sort-footnote/1-chatgpt.py:40 | any unit that matches at i is the one `UnitAt` finds |
| Strip.UnitAtMarker | markdown/sort-footnote/1-chatgpt.py:40 | a unit contains a marker `[^label]:` |
| Strip.MoreUnits | markdown/sort-footnote/1-chatgpt.py:40 | the greedy `( … )+` stops where no further unit matches, and it ends at a line end |
| Strip.MoreUnitsChain | markdown/sort-footnote/1-chatgpt.py:40 | `MoreUnits` goes over a chain of units that match one after another (`Units`), and no unit begins where it stops |
| Strip.LastLineFeed | markdown/sort-footnote/1-chatgpt.py:40 | the last line feed in a range |
| Strip.TrailEndStops | markdown/sort-footnote/1-chatgpt.py:40 | `TrailEnd`: the closing `\s*$` stops after whitespace only, at a line end, and at the farthest such point |
| Strip.RunEnd | markdown/sort-footnote/1-chatgpt.py:40 | the pattern matches at i exactly when a unit begins there, and the removed run reaches at least to that unit's end |
| Strip.RunEndMatch | markdown/sort-footnote/1-chatgpt.py:40 | the run `RunEnd` removes is one whole match: one or more units in a row, no further unit, then `\s*$` to the farthest point where it may stop |
| Strip.RunEndNone | markdown/sort-footnote/1-chatgpt.py:40 | where `RunEnd` finds nothing, no unit and hence no match begins |
| Strip.CutStep | markdown/sort-footnote/1-chatgpt.py:40 | one move of the search consumes a non-empty piece of text |
| Strip.CutStepFound | markdown/sort-footnote/1-chatgpt.py:40 | a move removes a run exactly where the pattern matches, and otherwise keeps one character where no unit begins |
| Strip.WalkRoundTrip | markdown/sort-footnote/1-chatgpt.py:40 | the pieces of a left-to-right search make up the text |
| Strip.WalkSteps | markdown/sort-footnote/1-chatgpt.py:40 | the k-th piece of a search starts where the earlier ones end, and it is the move made there |
| Strip.StripScanRoundTrip | markdown/sort-footnote/1-chatgpt.py:40 | the kept characters and removed runs of `StripScan`, in order, make up the text |
| Strip.StripScanSteps | markdown/sort-footnote/1-chatgpt.py:40 | the k-th cut starts where the earlier cuts end, and it is the move made there |
| Strip.StripScanMatches | markdown/sort-footnote/1-chatgpt.py:40 | the cuts are the leftmost non-overlapping matches, each taken whole, with characters kept only where no match begins |
| Strip.StripWithoutMarkers | markdown/sort-footnote/1-chatgpt.py:40 | without any marker `[^label]:` the strip (`Kept` of the cuts, `StripDefinitionRuns` from 0) changes nothing |
| Strip.StripKeepsFirstLine | markdown/sort-footnote/1-chatgpt.py:40 | the first line is never removed, since every removed run begins at a line feed |
| SortFootnote.ProcessMarkdown | markdown/sort-footnote/1-chatgpt.py:5-46 | the function, run stage by stage, returns `Processed(text)` |
| SortFootnote.NewContentsAreSingleLines | markdown/sort-footnote/1-chatgpt.py:25-33 | no entry of `new_defs` has a line feed in its content |
| SortFootnote.ProcessedShape | markdown/sort-footnote/1-chatgpt.py:40-46 | the result is the stripped body (`Stripped`), which ends in non-whitespace, plus `"\n\n"` and one `[^n]: content` line per entry exactly when `new_defs` is non-empty |
| SortFootnote.NewDefinitionsOrdered | markdown/sort-footnote/1-chatgpt.py:27-33 | `new_defs` is sorted by number, is a permutation of the filtered entries and keeps file order within a number |
| SortFootnote.EveryDefinitionRenumbered | markdown/sort-footnote/1-chatgpt.py:21-33 | if no label spans a line, `NewDefinitions` is a permutation of the extracted definitions, each numbered by its label in `FootnoteMap` |
| SortFootnote.WithoutFootnotes | markdown/sort-footnote/1-chatgpt.py:21-46 | a text without any `[^label]` comes back as `text.rstrip()` |
| SortFootnote.MultilineLabelScan | markdown/sort-footnote/1-chatgpt.py:21 | in `"x[^a\n[^b]: c"` the only reference label is `a\n[^b` |
| SortFootnote.MultilineLabelExtract | markdown/sort-footnote/1-chatgpt.py:25 | in `"x[^a\n[^b]: c"` the definition of `b` is extracted |
| SortFootnote.MultilineLabelHidesDefinition | markdown/sort-footnote/1-chatgpt.py:21-33 | for `"x[^a\n[^b]: c"`, a definition is extracted but `new_defs` is empty, so it is dropped |

## Left out

- The `__main__` block (markdown/sort-footnote/1-chatgpt.py:48-58) is left out. It is argument checking, a usage message, `sys.exit` and UTF-8 file input and output.
- Python's regular-expression engine is not modelled in general. Each of the three patterns is written out as a scanner, with a declarative predicate for its match (for line 40: `UnitMatch` for one unit, `Units` for the repetition and `TrailStop` for the closing `\s*$`). Greedy quantifiers and the engine's backtracking are modelled through the result they produce for these patterns. For example, once a unit at line 40 matches, the closing `\s*$` always succeeds, so backtracking never changes that pattern's outcome.
- Whitespace is a fixed set of code points: those Python 3's `str.isspace()` accepts, which is also what `\s` matches in a `str` pattern. The model has no Unicode tables and no encoding.
- The values of `footnote_map` are numbers, not the strings `str(next_num)`. `[^n]` is written with `Decimal`, and `DecimalRoundTrip` proves that `int(str(n)) == n`, so the `int(new_label)` at line 31 is the number itself.
- Entries.SortByNumber: `list.sort` (Timsort, in place) is modelled as a stable insertion sort on a sequence value, not as an in-place algorithm. `StableSortUnique` shows that every stable sort by number gives the same list, so the result is the same.
- SortFootnote.EveryDefinitionRenumbered and Definitions.ExtractedLabelsAreNumbered assume that no reference label holds a line feed. Without that assumption the property is false, as `MultilineLabelHidesDefinition` proves.
- Idempotence of the whole transformation (applying it to its own output) is neither stated nor proved.
