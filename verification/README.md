# TEI editor tag helpers, modelled in Dafny

The TEI editor is a browser-based XML editor built on the Monaco text editor. It locates
TEI tags in the buffer, highlights them with decorations and rewrites their shape. This
project models its helper layer, `TeiEditor/Helpers.cs`:

- `getEndOfTag` finds the closing tag of an element.
- `IsClosedTag` tells self-closing tags apart.
- `ExpandTagRange` grows a raw `<name` search match into the span of the whole opening tag.
- `TagToJson` builds the `{"text": "..."}` payload for a tag-shape change.
- `markTags`, `RemoveDecoration` and `ColorRange` drive the editor's decorations and the
  session dictionary from decoration id to tag range.
- The enums `enmTagChanges` and `enmStatusColor` are `Payload.TagChange` and
  `Decorations.StatusColor`.

Modules, one per concern of the helper file:

- `Strings` (`strings.dfy`): ordinal `String.IndexOf`, `String.Replace` (every occurrence,
  left to right, without overlap) and a character count used to state their effect.
- `Tags` (`tags.dfy`): positions and ranges, the closing-tag locator, the self-closing test
  and the range expander. Each is given as a corrected member and, where the code misbehaves,
  as an as-written member.
- `Payload` (`payload.dfy`): the string `TagToJson` hands to the JSON parser.
- `Decorations` (`decorations.dfy`): the editor's rendering surface, a value holding the live
  decorations by id and the next id to issue. It also holds the `Editor` and `RangeDictionary`
  classes, whose fields the helpers update in place. The three decoration helpers are
  module-level methods that take the editor (and, for `markTags`, the dictionary) and update
  their fields.

The buffer is a sequence of lines. Lines are 0-based in the sequence, while every
`Position` and `Range` is 1-based, as in the editor.

Where the code differs from the intended behaviour, the model follows the code, except for
the three defects listed under "## Findings":

- `TagToJson` turns every `/>` into `>` (`OpenTag`), or every `>` into `/>` (`CloseTag`). It
  does not touch only a trailing one.
- `markTags` resets the decorations even when the search finds nothing.
- `RemoveDecoration` leaves the session dictionary as it is.

## Model

| member | source | states |
|---|---|---|
| Strings.IndexOf | TeiEditor/Helpers.cs:44 | returns -1 or an index at or after the start where the pattern occurs, and no earlier index from the start holds it |
| Strings.ReplaceAllAbsent | TeiEditor/Helpers.cs:145 | `Replace` leaves text without the pattern unchanged |
| Strings.ReplaceCharLength | TeiEditor/Helpers.cs:153 | replacing a character by a two-character string adds one character per occurrence |
| Strings.ReplaceAll | TeiEditor/Helpers.cs:145 | `String.Replace`; its meaning is stated by `Strings.ReplaceAllAbsent` and `Strings.ReplaceCharLength`, and by the `Payload` lemmas for the three patterns the code uses |
| Tags.EndTag | TeiEditor/Helpers.cs:38 | the closing-tag text is `</`, the name and `>`, three characters longer than the name |
| Tags.IndexOfMeaning | TeiEditor/Helpers.cs:44 | `IndexOf` on a line is -1 exactly when the pattern is absent from the start index on, and otherwise its first occurrence there |
| Tags.GetEndOfTag | TeiEditor/Helpers.cs:35-49 | corrected locator: fails with `UnmatchedClosingTag` exactly when no `</name>` follows the opening tag, on its own end line or below; otherwise returns the end of the first one: 1-based line, and the column one past the end of the occurrence |
| Tags.ClosingTagAtUnique | TeiEditor/Helpers.cs:42-48 | a scan from a given line has at most one answer |
| Tags.ClosingTagAfterUnique | TeiEditor/Helpers.cs:35-49 | the corrected locator has at most one answer, so `GetEndOfTag`'s result is determined |
| Tags.ScanAsWritten | TeiEditor/Helpers.cs:42-48 | the code's loop; its meaning is stated by `Tags.ScanAsWrittenMeaning` |
| Tags.GetEndOfTagAsWritten | TeiEditor/Helpers.cs:38-48 | the code as written; its meaning is stated by `Tags.GetEndOfTagSentinel` and the two example lemmas |
| Tags.ScanAsWrittenMeaning | TeiEditor/Helpers.cs:42-48 | the code's scan returns the first closing tag when there is one, and otherwise the out-of-buffer position (`lines.Count + 1`, `endTag.Length`) |
| Tags.GetEndOfTagSentinel | TeiEditor/Helpers.cs:38-48 | the code's result lies inside the buffer exactly when a line from 0-based index `EndLineNumber` on holds a closing tag, and then it is the end of the first one; when the opening tag's own line has none after it, that is the corrected locator's answer |
| Tags.GetEndOfTagAsWrittenUnclosed | TeiEditor/Helpers.cs:42-48 | an unclosed `<note>` in a two-line buffer gives line 3, column 7 |
| Tags.GetEndOfTagAsWrittenSkipsOwnLine | TeiEditor/Helpers.cs:39-44 | for two one-line `<note>` elements, the code gives the second element's closing tag (line 2, column 15), where the corrected locator gives line 1, column 15 |
| Tags.IsClosedTag | TeiEditor/Helpers.cs:51-54 | true exactly when some `/` is directly followed by `>` |
| Tags.ClosedTagOccurs | TeiEditor/Helpers.cs:53 | the self-closing test is the search for the pattern `/>` |
| Tags.BracketIndex | TeiEditor/Helpers.cs:169 | `IndexOf(">", from)` is -1 exactly when no `>` follows `from`, and otherwise the first one |
| Tags.ExpandTagRange | TeiEditor/Helpers.cs:159-182 | keeps the start; ends one past the first `>` at or after the match's end on its line, else one past the first `>` of the next line; fails with `MalformedTag` when neither line has one |
| Tags.ExpandsToUnique | TeiEditor/Helpers.cs:159-182 | every match has exactly one expansion, so the expander is deterministic |
| Tags.ExpandTagRangeAsWritten | TeiEditor/Helpers.cs:159-182 | the code as written; its meaning is stated by `Tags.ExpandTagRangeAsWrittenAgrees` |
| Tags.ExpandTagRangeAsWrittenAgrees | TeiEditor/Helpers.cs:170-176 | wherever a `>` closes the tag, the code agrees with the expander; where none does and a next line exists, the code ends the tag at column 1 of that line; where none does on the last line, the code asks for a line past the end |
| Tags.ExpandTagRangeAsWrittenColumnOne | TeiEditor/Helpers.cs:170-176 | a `<pb` spread over three lines expands to column 1 of line 2, where the expander reports `MalformedTag` |
| Payload.Reshape | TeiEditor/Helpers.cs:142-152 | the rewrite step; its meaning is stated by the lemmas below |
| Payload.EscapeQuotes | TeiEditor/Helpers.cs:153 | the quote escaping; its meaning is stated by `Payload.EscapeLength`, `Payload.EscapedQuotesArePreceded` and `Payload.UnescapeEscape` |
| Payload.TagPayload | TeiEditor/Helpers.cs:153-154 | the payload string; its meaning is stated by `Payload.PayloadRoundTrip` |
| Payload.ReshapeKeeps | TeiEditor/Helpers.cs:147-151 | `DoNothing` keeps the text, and `CloseTag` keeps text holding a `/` |
| Payload.CloseTagCloses | TeiEditor/Helpers.cs:147-148 | on text without `/`, `CloseTag` adds one character per `>`, and the result is self-closing when there was a `>` |
| Payload.ClosedAfterBracket | TeiEditor/Helpers.cs:148 | turning every `>` into `/>` yields a self-closing tag when the text has a `>` |
| Payload.OpenTagChangesIffClosed | TeiEditor/Helpers.cs:144-146 | `OpenTag` changes the text exactly when it is self-closing |
| Payload.OpenTagNoLonger | TeiEditor/Helpers.cs:145 | `OpenTag` never lengthens the text |
| Payload.OpenTagShortens | TeiEditor/Helpers.cs:145 | `OpenTag` shortens text that holds a `/>` |
| Payload.CloseThenOpen | TeiEditor/Helpers.cs:144-149 | on text without `/`, `OpenTag` undoes `CloseTag` |
| Payload.EscapeLength | TeiEditor/Helpers.cs:153 | escaping adds one backslash per quote |
| Payload.EscapedQuotesArePreceded | TeiEditor/Helpers.cs:153 | every quote in the escaped text is preceded by a backslash |
| Payload.UnescapeEscape | TeiEditor/Helpers.cs:153 | turning `\"` back into `"` recovers the text that was escaped |
| Payload.PayloadRoundTrip | TeiEditor/Helpers.cs:153-154 | the payload is `{"text": "`, then the escaped reshaped text, then `"}`; its length is counted, and unescaping its middle gives back the reshaped text |
| Decorations.StatusOptions | TeiEditor/Helpers.cs:103-115 | the status table; its meaning is stated by `Decorations.StatusOptionsDistinct` |
| Decorations.StatusOptionsDistinct | TeiEditor/Helpers.cs:103-115 | the status table gives `Done` and `Current` different looks, neither of them the match look, and the minimap colours are `#90EE90` and `#bbfaf9` |
| Decorations.AttachAllFacts | TeiEditor/Helpers.cs:81 | a batch takes consecutive fresh ids in order, each bound to its decoration, and leaves other entries unchanged |
| Decorations.ApplyDelta | TeiEditor/Helpers.cs:81 | `DeltaDecorations` on the surface; its meaning is stated by `Decorations.ApplyDeltaFacts`, `Decorations.RemoveOne` and `Decorations.ReplaceOne` |
| Decorations.ApplyDeltaFacts | TeiEditor/Helpers.cs:81 | after a delta, the live ids are the old ones not removed plus the new ones; kept entries are unchanged; the surface stays valid |
| Decorations.Reset | TeiEditor/Helpers.cs:61 | a reset leaves nothing live and keeps the id counter |
| Decorations.RemoveOne | TeiEditor/Helpers.cs:92-94 | removing one id and adding nothing detaches exactly that id |
| Decorations.RemoveCount | TeiEditor/Helpers.cs:90-95 | the live count drops by one exactly when the id was live |
| Decorations.ReplaceOne | TeiEditor/Helpers.cs:117-136 | the replaced id is detached and the new decoration is bound to the next id, which was not live |
| Decorations.RecolorCount | TeiEditor/Helpers.cs:117-136 | recolouring keeps the live count when the id was live, and otherwise grows it by one |
| Decorations.RecolorUnknownIsAdd | TeiEditor/Helpers.cs:117-121 | replacing an id that is not live is the same as a plain add |
| Decorations.RemoveEachKeys | TeiEditor/Helpers.cs:90-95 | removing ids one by one leaves exactly the live ids not among them |
| Decorations.RemoveEachAfterBatch | TeiEditor/Helpers.cs:81-95 | after a reset and a batch add, removing every returned id leaves nothing live |
| Decorations.Editor.DeltaDecorations | TeiEditor/Helpers.cs:81 | the surface and the returned ids are those of the delta; the revealed lines are unchanged |
| Decorations.Editor.ResetDeltaDecorations | TeiEditor/Helpers.cs:61 | the surface becomes its reset |
| Decorations.Editor.RevealLineInCenter | TeiEditor/Helpers.cs:86 | appends the line to the revealed lines and leaves the surface alone |
| Decorations.RangeDictionary.Add | TeiEditor/Helpers.cs:84 | adds one key that was absent and keeps the others |
| Decorations.MatchDecorations | TeiEditor/Helpers.cs:66-80 | fails with `MalformedTag` exactly when some match does not expand; otherwise gives one decoration per match, in order, over its expansion, with the match look |
| Decorations.RecordRanges | TeiEditor/Helpers.cs:82-85 | the dictionary gains each new id with the range of its decoration, and keeps its old entries |
| Decorations.AttachMatches | TeiEditor/Helpers.cs:81-85 | the batch takes the next ids in order; the surface and the dictionary bind each id to its decoration and range; nothing else changes |
| Decorations.MarkTags | TeiEditor/Helpers.cs:56-88 | resets the surface; fails exactly when some match does not expand, and then nothing is attached or recorded; otherwise the live ids are exactly the new ones, each bound to its expanded range with the match look and recorded in the dictionary, and the first match's line is revealed |
| Decorations.RemoveDecoration | TeiEditor/Helpers.cs:90-95 | detaches exactly that id, lowering the live count when it was live; the id counter and the revealed lines are unchanged |
| Decorations.ColorRange | TeiEditor/Helpers.cs:97-138 | returns the fresh next id, bound to the range with the status look; the counter moves on by one; the given id, if any, is detached; the live count is kept or grows by one |

## Left out

- `LoadXMLfromFile`, `ShowModal` and `loadSchema` are left out. They do file, UI and network I/O.
- `TagToJson`: `JsonDocument.Parse` and the returned `JsonElement` are not modelled. The
  model stops at the payload string. `UnescapeQuotes` undoes only the quote escaping, and a
  JSON reader agrees with it only on text without other backslashes.
- `markTags`: the `FindMatches` search for `<tag` (its flags and its case handling) is not
  modelled. Its result is the `matches` input, at most 10000 long.
- A line is modelled as its sequence of UTF-16 code units, the unit .NET string indices and
  the editor's columns count. A Dafny `string` element stands for one such unit.
- `Strings.IndexOf` compares ordinally. The code's `IndexOf(string)` is culture-sensitive.
- Decoration ids are opaque strings issued by the editor. Here they are natural numbers
  from a counter. `ColorRange`'s default id `""` is `None`.
- `Decorations.Editor.RevealLineInCenter` only records the line. Scrolling is not modelled.
- `IsWholeLine` and the minimap position are the same constants in every decoration, so
  they are not modelled.
- `async`/`await`: the model runs each helper's steps in order, with no interleaving.
- Enum values outside the declared members are not modelled. `StatusColor` and
  `TagChange` are closed.
- `Tags.ExpandTagRange` requires the match's end line to exist (`1 <= endLineNumber <=
  lines.Count`) and its end column to lie within that line. Outside that, the editor's
  `GetLineContent` fails or `String.IndexOf` throws.
- `Tags.GetEndOfTag` (corrected) requires the opening tag's end to lie in the buffer, as
  `Tags.ExpandTagRange` requires of a match. The code, given an end line past the buffer,
  returns the sentinel; `Tags.GetEndOfTagAsWritten` takes any non-negative end line.
- `Tags.ExpandTagRange` returns `MalformedTag` where the code would ask the editor for a
  line past the buffer's end (`Tags.ExpandTagRangeAsWritten` returns `LineOutOfRange`
  there). The editor's own failure for that request is not part of this model.
- `Decorations.MarkTags` uses the corrected `Tags.ExpandTagRange`. So it returns
  `Fail(MalformedTag)` (the surface only reset, nothing recorded or revealed) also where
  neither the match's line nor the next one holds `>` but a next line exists. There the
  code attaches and records a decoration ending at column 1 of the next line and reveals
  the first match's line (first row of "## Findings").
- `Decorations.ColorRange` and `Decorations.ReplaceOne`: the model's surface always issues
  a fresh id from its counter, so the returned id is never the replaced one. The editor
  may hand back the replaced id when one decoration is removed and one added in the same
  delta; the code returns whatever id it gets.

## Findings

| source | as written | input that shows it | evidently intended | confidence | as-written member | corrected member |
|---|---|---|---|---|---|---|
| TeiEditor/Helpers.cs:170-176 | when neither the match's line (after the match) nor the next line holds `>`, the -1 from `IndexOf` plus 2 ends the tag at column 1 of the next line | lines `<pb`, `n="3"`, `/>` and match range (1,1)-(1,4) give range (1,1)-(2,1) | report the tag as malformed | medium, not executed | Tags.ExpandTagRangeAsWritten, Tags.ExpandTagRangeAsWrittenColumnOne | Tags.ExpandTagRange, used by Decorations.MarkTags |
| TeiEditor/Helpers.cs:42-48 | when no line holds `</name>`, the loop ends with column -1 and returns line `lines.Count + 1`, column `endTag.Length`, outside the buffer | lines `<note>`, `text`, tag `note`, open-tag range ending on line 1 give position (3,7) | report that the closing tag is missing | medium, not executed | Tags.GetEndOfTagAsWritten, Tags.GetEndOfTagAsWrittenUnclosed | Tags.GetEndOfTag |
| TeiEditor/Helpers.cs:39-44 | the 1-based `EndLineNumber` is used as a 0-based line index, so the scan starts on the line after the opening tag's end and never looks at the rest of the opening tag's own line | lines `<note>x</note>`, `<note>y</note>`, tag `note`, open-tag range (1,1)-(1,7) give position (2,15), the end of the second element | look first on the opening tag's own line, after its end | medium, not executed | Tags.GetEndOfTagAsWritten, Tags.GetEndOfTagAsWrittenSkipsOwnLine | Tags.GetEndOfTag |
