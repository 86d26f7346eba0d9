# HWP template engine: a Dafny model

This project models the template engine of a Spring service that fills
`${key}` placeholders in an HWP (Hangul Word Processor) document. The
engine is `HwpTemplateService`. It walks every paragraph of every
section, and every paragraph of every table cell anchored in those
paragraphs. In each paragraph it cuts the char list into runs of normal
chars and turns each run into a Java string. The map entries are tried in
order, and an entry whose placeholder occurs in the text at that entry's
turn (the text the earlier entries left) has it replaced with the entry's
value. The run is then rebuilt from the new string. When some run changed, the
paragraph's char list is replaced, its character count is updated, its
line segments are deleted and its char shape list is cut to its first
entry.

Modules:

- `JavaString` (java_string.dfy): Java strings as sequences of UTF-16
  code units, with `contains` and `String.replace`.
- `HwpChar` (hwp_char.dfy): HWP chars, the `(char)` / `(short)` casts,
  `codePointAt`, `toString` and `toHWPCharList`.
- `Placeholders` (placeholders.dfy): `changeText`.
- `Rewrite` (rewrite.dfy): `getNewCharList`.
- `Paragraphs` (paragraph.dfy): the paragraph as a mutable object and
  `applyReplacements`, `changeNewCharList`, `removeLineSeg` and
  `removeCharShapeExceptFirstOne`.
- `Walk` (walk.dfy): `process` and `processTable`.

Each loop of the Java code is a Dafny method, proved against a
specification function. Properties of that function are proved as lemmas.
The data map is a sequence of (key, value) pairs in the map's iteration
order. Its values are already converted with `toString()`.

The walk is stated with multiplicity. The same paragraph object may be
reachable twice, for example when a cell is shared. After `Process`,
every paragraph has gone through `applyReplacements` once for each
occurrence in the visit order `Visits(doc)`, and no other paragraph has
changed. The nested loops of `process` and `processTable` are split into
one method per level: a section, a paragraph, its controls, a table, a
row, and a cell. The paragraphs a walk reaches are also described without
the visit order, by `Reachable`.

## Model

| member | source | states |
|---|---|---|
| JavaString.OccurrencesPositiveIffContains | src/main/java/com/kjung/springhwpprocessor/service/HwpTemplateService.java:152-153 | `replace` makes at least one replacement exactly when `contains` holds |
| JavaString.ReplaceAllWithoutOccurrence | src/main/java/com/kjung/springhwpprocessor/service/HwpTemplateService.java:153 | `replace` returns a string that does not contain the target unchanged |
| JavaString.ReplaceAllLength | src/main/java/com/kjung/springhwpprocessor/service/HwpTemplateService.java:153 | the replaced string's length is the old length plus (value length - placeholder length) per non-overlapping occurrence |
| JavaString.ReplaceAllBySelf | src/main/java/com/kjung/springhwpprocessor/service/HwpTemplateService.java:153 | replacing a placeholder by itself gives back the original string |
| HwpChar.ToString | src/main/java/com/kjung/springhwpprocessor/service/HwpTemplateService.java:137-144 | the loop builds exactly `Text(run)`: code unit i is `(char)` of char i's code |
| HwpChar.ToHwpCharList | src/main/java/com/kjung/springhwpprocessor/service/HwpTemplateService.java:161-170 | the loop builds exactly `NormalChars(text)`: one normal char per code unit, holding `(short) text.codePointAt(index)` |
| HwpChar.NormalCharsRoundTrip | src/main/java/com/kjung/springhwpprocessor/service/HwpTemplateService.java:161-170 | a text without surrogate pairs is read back from its rebuilt chars unchanged; length is kept, and only normal chars are produced |
| HwpChar.TextRoundTrip | src/main/java/com/kjung/springhwpprocessor/service/HwpTemplateService.java:137-144 | for a run whose text has no surrogate pair, `toString` then `toHWPCharList` gives back the same chars |
| HwpChar.SurrogatePairCodeUnit | src/main/java/com/kjung/springhwpprocessor/service/HwpTemplateService.java:161-170 | at the high surrogate of any pair, the rebuilt char holds the low 16 bits of the code point `codePointAt` returns |
| HwpChar.SurrogatePairReadBackIff | src/main/java/com/kjung/springhwpprocessor/service/HwpTemplateService.java:161-170 | the high surrogate of a pair is read back exactly when both halves carry the same 10 bits h and h % 64 == 54 (16 pairs, U+1D836 among them); every other pair changes the text |
| HwpChar.SurrogatePairIsNotPreserved | src/main/java/com/kjung/springhwpprocessor/service/HwpTemplateService.java:166 | an example: U+1F600 (0xD83D 0xDE00) is rebuilt as 0xF600 0xDE00, so the text changes |
| HwpChar.ControlsAppend | src/main/java/com/kjung/springhwpprocessor/service/HwpTemplateService.java:101-118 | the non-normal chars of a concatenation are those of its parts, in order |
| Placeholders.ChangeText | src/main/java/com/kjung/springhwpprocessor/service/HwpTemplateService.java:146-159 | the loop returns `Substitution(text, entries)`: the text after the entries' replacements in map order, or `None` when nothing matched |
| Placeholders.SubstitutionNoneIff | src/main/java/com/kjung/springhwpprocessor/service/HwpTemplateService.java:146-159 | `changeText` returns null exactly when no entry's `${key}` occurs in the text |
| Placeholders.SubstitutedWithoutMatch | src/main/java/com/kjung/springhwpprocessor/service/HwpTemplateService.java:150-156 | with no matching entry, the text and the `modified` flag are untouched |
| Placeholders.SubstitutedAppend | src/main/java/com/kjung/springhwpprocessor/service/HwpTemplateService.java:150-156 | entries apply in order, each to the text the earlier ones left, and the flags combine by "or" |
| Placeholders.SingleEntry | src/main/java/com/kjung/springhwpprocessor/service/HwpTemplateService.java:151-154 | a one-entry map replaces every occurrence of `${key}` when it occurs, and returns null when it does not |
| Rewrite.FirstControl | src/main/java/com/kjung/springhwpprocessor/service/HwpTemplateService.java:101-103 | the current run of normal chars ends at the first non-normal char, or at the end of the list |
| Rewrite.Runs | src/main/java/com/kjung/springhwpprocessor/service/HwpTemplateService.java:101-118 | the maximal runs are non-empty and contain only normal chars |
| Rewrite.FlushRun | src/main/java/com/kjung/springhwpprocessor/service/HwpTemplateService.java:105-116 | the flush appends nothing for an empty pending run; otherwise it appends the rebuilt run and sets the flag when `changeText` matched |
| Rewrite.ScanIsRewritten | src/main/java/com/kjung/springhwpprocessor/service/HwpTemplateService.java:101-132 | the char-by-char loop, including the last flush, computes the run-by-run rewrite `Rewritten` |
| Rewrite.GetNewCharList | src/main/java/com/kjung/springhwpprocessor/service/HwpTemplateService.java:96-135 | the method returns `NewCharList(oldList, entries)` |
| Rewrite.RewrittenKeepsControls | src/main/java/com/kjung/springhwpprocessor/service/HwpTemplateService.java:117 | every non-normal char of the old list is in the new list, unchanged and in order |
| Rewrite.RewrittenSplitsAtControl | src/main/java/com/kjung/springhwpprocessor/service/HwpTemplateService.java:101-118 | the list is rewritten independently on each side of a non-normal char |
| Rewrite.RewriteRunChangedIff | src/main/java/com/kjung/springhwpprocessor/service/HwpTemplateService.java:108-115 | a run changes exactly when some entry's placeholder occurs in its text |
| Rewrite.RewriteRunKeepsUnmatched | src/main/java/com/kjung/springhwpprocessor/service/HwpTemplateService.java:113-115 | an unmatched run without surrogate pairs is rebuilt as the same chars |
| Rewrite.ChangedAtFirstControl | src/main/java/com/kjung/springhwpprocessor/service/HwpTemplateService.java:101-118 | the list changes exactly when its first run is non-empty and matches, or the part after the first non-normal char changes |
| Rewrite.RewrittenChangedIff | src/main/java/com/kjung/springhwpprocessor/service/HwpTemplateService.java:99-134 | `hasChanges` holds exactly when some maximal run's text contains a placeholder of the map |
| Rewrite.NewCharListNoneIff | src/main/java/com/kjung/springhwpprocessor/service/HwpTemplateService.java:134 | `getNewCharList` returns null exactly when no maximal run matches |
| Rewrite.SplitPlaceholderIsNotReplaced | src/main/java/com/kjung/springhwpprocessor/service/HwpTemplateService.java:101-118 | `${k}` with a control char before its `}` is not replaced |
| Rewrite.WholePlaceholderIsReplaced | src/main/java/com/kjung/springhwpprocessor/service/HwpTemplateService.java:101-134 | the same chars `${k}` in one run are replaced by the value |
| Paragraphs.ChangeNewCharList | src/main/java/com/kjung/springhwpprocessor/service/HwpTemplateService.java:172-178 | the char list is cleared and refilled with the new list, the character count becomes its size, and nothing else changes |
| Paragraphs.RemoveLineSeg | src/main/java/com/kjung/springhwpprocessor/service/HwpTemplateService.java:180-182 | the line segments are deleted and nothing else changes |
| Paragraphs.RemoveCharShapeExceptFirstOne | src/main/java/com/kjung/springhwpprocessor/service/HwpTemplateService.java:184-192 | a char shape list of more than one entry is cut to its first entry and its count set to 1; otherwise nothing changes |
| Paragraphs.ApplyReplacements | src/main/java/com/kjung/springhwpprocessor/service/HwpTemplateService.java:81-94 | a null paragraph, text or char list is left alone; otherwise the paragraph's new state is `Applied(old state, entries)` |
| Paragraphs.AppliedWithoutMatch | src/main/java/com/kjung/springhwpprocessor/service/HwpTemplateService.java:83-90 | a paragraph with no text, or in which no run matches, is left exactly as it was |
| Paragraphs.AppliedWithEmptyMap | src/main/java/com/kjung/springhwpprocessor/service/HwpTemplateService.java:81-94 | with an empty map no paragraph changes |
| Paragraphs.AppliedWithMatch | src/main/java/com/kjung/springhwpprocessor/service/HwpTemplateService.java:86-90 | a paragraph with a matching run has its count equal to the new list's length and no line segments; a longer char shape list is cut to its first entry |
| Paragraphs.AppliedKeepsControls | src/main/java/com/kjung/springhwpprocessor/service/HwpTemplateService.java:85-87 | the control chars of a paragraph survive `applyReplacements` unchanged and in order |
| Paragraphs.AppliedKeepsConsistent | src/main/java/com/kjung/springhwpprocessor/service/HwpTemplateService.java:87-89 | the header counts stay in agreement with the lists they count |
| Walk.FlattenMember | src/main/java/com/kjung/springhwpprocessor/service/HwpTemplateService.java:41-57 | a paragraph is visited exactly when some element contributes it |
| Walk.AppliedTimesAdd | src/main/java/com/kjung/springhwpprocessor/service/HwpTemplateService.java:41-57 | applying a times and then b times is applying a + b times |
| Walk.CountedCompose | src/main/java/com/kjung/springhwpprocessor/service/HwpTemplateService.java:36-60 | two walks in a row over one in-memory tree apply the replacements to each paragraph as often as both counts together |
| Walk.ProcessCellParagraphs | src/main/java/com/kjung/springhwpprocessor/service/HwpTemplateService.java:69-74 | each paragraph of the cell gets one more `applyReplacements` per occurrence, and no other paragraph changes |
| Walk.ProcessRow | src/main/java/com/kjung/springhwpprocessor/service/HwpTemplateService.java:66-76 | each cell paragraph of the row gets one more `applyReplacements` per occurrence |
| Walk.ProcessTable | src/main/java/com/kjung/springhwpprocessor/service/HwpTemplateService.java:62-79 | each paragraph of each cell of each row gets one more `applyReplacements` per occurrence |
| Walk.ProcessControl | src/main/java/com/kjung/springhwpprocessor/service/HwpTemplateService.java:48-52 | a table control is processed as a table; any other control changes nothing |
| Walk.ProcessControls | src/main/java/com/kjung/springhwpprocessor/service/HwpTemplateService.java:47-53 | the tables among a paragraph's controls are processed in order |
| Walk.ProcessParagraph | src/main/java/com/kjung/springhwpprocessor/service/HwpTemplateService.java:45-53 | the paragraph is processed, then the tables anchored in it |
| Walk.ProcessSection | src/main/java/com/kjung/springhwpprocessor/service/HwpTemplateService.java:42-55 | every paragraph of the section, with its tables, is processed |
| Walk.Process | src/main/java/com/kjung/springhwpprocessor/service/HwpTemplateService.java:36-60 | every paragraph in `Visits(doc)` has gone through `applyReplacements` once per occurrence, and no other paragraph has changed |
| Walk.VisitsReachable | src/main/java/com/kjung/springhwpprocessor/service/HwpTemplateService.java:41-57 | the walk visits exactly the section paragraphs and the paragraphs of cells of tables anchored in them; tables nested in cells are not entered |
| Walk.AppliedTimesWithoutMatch | src/main/java/com/kjung/springhwpprocessor/service/HwpTemplateService.java:41-57 | a paragraph without a matching placeholder is unchanged however often it is reached |
| Walk.AppliedTimesKeepsConsistent | src/main/java/com/kjung/springhwpprocessor/service/HwpTemplateService.java:41-57 | however often a paragraph is reached, its header counts stay consistent |
| Walk.AppliedTimesKeepsControls | src/main/java/com/kjung/springhwpprocessor/service/HwpTemplateService.java:41-57 | however often a paragraph is reached, its control chars are kept in order |

## Left out

- Reading the template (`HWPReader.fromFile`) and writing the output (`HWPWriter.toFile`) are I/O and are left out. `Process` works on the document already in memory, and `templatePath` and `outputPath` are not modelled.
- The REST controller, its request/response types, and the wrapping of `UnsupportedEncodingException` in a `RuntimeException` are left out. No modelled operation raises that exception.
- Map values are taken already converted with `toString()`. A null value, on which `toString()` would throw, is not modelled.
- A `null` entry in a section's paragraph array would make `process` throw at `para.getControlList()`. Top-level paragraphs are therefore non-null in the model. Cell paragraphs may be null, and `applyReplacements` skips them.
- A `null` paragraph array, control list, row list or cell list is modelled as an empty sequence. Both are skipped in the same way. A null `getParagraphList()` of a cell, on which the code would throw, is not modelled.
- More null cases on which the code would throw a NullPointerException are excluded by the model's types. They are: a null section in the section list (`section.getParagraphs()`, line 42); a null element of a paragraph's control list (`ctrl.getType()`, line 49); a null row (`row.getCellList()`, line 66); a null cell (`cell.getParagraphList()`, line 69); a null element of a char list (`ch.getType()`, line 102); a null `data` map, which the controller passes on unchecked and which fails at `data.entrySet()` (line 150) once a non-empty run is flushed; a null paragraph header of a changed paragraph (`getHeader()`, line 177); and a null char shape of a changed paragraph (`getCharShape()`, line 185). Sections, controls, rows, cells and chars are values, the header counts are fields of the paragraph, and the map and `charShapes` are always sequences.
- Control types are reduced to "table" and "other": only tables are entered.
- Only the paragraph fields the engine touches are modelled. Line segments are a presence flag, because `deleteLineSeg` only drops them.
- NormalCharsRoundTrip and TextRoundTrip require texts without surrogate pairs. For all but 16 surrogate pairs the code's `codePointAt` plus `(short)` cast changes the text (SurrogatePairReadBackIff).
- Process: the same paragraph object reached twice (through aliasing) is stated as "applied once per occurrence", not as "applied once".
