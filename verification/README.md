# hymn-edit, modelled in Dafny

hymn-edit is a browser tool for proof-reading hymn files. A hymn file holds
its language, number, title and a list of verses. Each verse carries a label,
a number and an HTML fragment. Within the fragment, lines are separated by
`<br>`, the first line is the verse's label in `<b>…</b>`, and the first sung
character of each lyric line is emphasised with `<b>…</b>`.

The tool imports hymn files into a list persisted in local storage. It edits
a verse line by line, marks hymns complete, and exports the completed ones. A
one-off script (`script.js`) normalises the emphasis on leading verse numbers.

The model covers three revisions of the editor that live side by side in the
repository:

* the earliest form (`src/components/HymnForm`);
* the features form (`src/features/HymnForm`);
* the editor (`src/components/HymnEditor`).

It also covers the hymn list, the drag-and-drop import, the check-list
confirmation dialogs, the two catalog pickers and the bolding script.

Each module models one part of the system:

* **`Markup`**: the JavaScript string operations the markup relies on, written
  out on `seq<char>`:
  * `split("<br>")`, `join("<br>")`, `trim()`;
  * `replaceAll`, `replace`, `includes`, `String(n)`;
  * ASCII case mapping.

  On top of them sits `Decode`, the line decoder that all three revisions share
  (`splitByBreakLine`, textually identical in all three `utilities.ts`).
* **`EditorCodec`, `UpperCodec`, `BoldFirstCodec`**: the three encoders
  (`joinByBreakLine`) and their round trips through `Decode`.
* **`Hymns`**: the document model (`src/types.tsx`) and the store transitions
  the editor and the features form share:
  * the selected hymn;
  * toggling "completed";
  * reset;
  * saving a verse into every hymn of the selected title, recomputing the status.
* **`EditorStore`, `FormStore`, `FirstStore`**: the `handleSave` of each
  revision. They differ in the label line written in front of the verse and in
  the encoder they use. `FirstStore` also models the earliest mark-complete
  (set, not toggle).
* **`VerseBuffer`**: the per-verse editing buffer of the editor's and the
  features' verse forms. It covers validation, edit, reset, undo, save, the
  line colours and the enabled/disabled state of every button.
* **`FeaturesPreview`**: the live preview of the features verse form, which
  throws on a line the uppercase encoder cannot take, and a corrected total
  encoder.
* **`VerseKeys`**: the keyboard shortcuts of the two verse forms.
* **`FirstForm`, `FirstVerseForm`**: the earliest form, including its own
  filtering decoder and its reset handlers.
* **`VerseNav`**: the verse buttons above each form: the two rows, the change
  count and how each button is drawn.
* **`HymnList`**: import, select, delete and download of the hymn list.
* **`CheckList`**: the confirmation dialogs, written once for any item type.
* **`DropImport`**: dropping files on the list, the combined dialog data and
  the confirmation.
* **`CatalogPicker`**: both catalog modals:
  * the initial selection;
  * clicking a row (toggle and re-sort);
  * submit, the submit guard and close;
  * the filter;
  * the row-index mismatch of the earlier modal, in both its clicks and its
    hiding.
* **`NumberBolding`**: `script.js`: the leading-number regex, `processBolding`
  and the per-verse fix.

Several properties follow from the model:

* Decoding an encoded verse gives back the typed lines, or their upper-cased
  form for the uppercase revision.
* Saving and then reopening a verse shows the saved lines.
* Toggling or saving twice is idempotent where the source makes it so.
* Every button's disabled state agrees with the global "save all" and "undo
  all" buttons.
* Clicking a catalog entry twice restores the selection.
* Importing a hymn file and exporting it again gives the file back.
* The bolding script is idempotent.

## Model

Paths are relative to the repository root. The three `splitByBreakLine` copies
(`src/components/HymnEditor/utilities.ts:3-8`,
`src/features/HymnForm/utilities.ts:3-8`, `src/components/HymnForm/utilities.ts:1-6`)
are one member, and the editor's copy is cited for it. The features form and
the editor share their store code line for line; the editor's copy is cited
unless the features form differs.

| member | source | states |
|---|---|---|
| Markup.Trim | src/components/HymnEditor/utilities.ts:6 | `trim()` returns an infix of the line with only whitespace cut off before and after it, leaves no whitespace at either end, leaves already-trimmed text alone, and is empty exactly when the line is all whitespace |
| Markup.Segments | src/components/HymnEditor/utilities.ts:5 | `split("<br>")` yields one more piece than there are separators; no piece contains a separator, and the first piece is a prefix of the text |
| Markup.JoinSegments | src/components/HymnEditor/utilities.ts:5 | joining the pieces of a split with `<br>` gives the text back |
| Markup.SegmentsOfJoin | src/components/HymnEditor/utilities.ts:22 | splitting a `<br>`-join of separator-free lines gives those lines back, with one separator fewer than lines |
| Markup.IndexOf | src/components/HymnForm/index.tsx:78 | `indexOf(pat)` is -1 exactly when the pattern does not occur, and otherwise a position whose next characters are the pattern |
| Markup.IndexOfIsFirst | src/components/HymnForm/index.tsx:78 | no occurrence lies before the one `indexOf` reports |
| Markup.IndexOfFirstOccurrence | src/components/HymnForm/index.tsx:78 | the position `indexOf` reports holds the pattern, and no earlier position does |
| Markup.ReplaceFirst | src/components/HymnForm/index.tsx:78 | `replace(pat, rep)` replaces the first occurrence of the pattern, the one `indexOf` finds, and keeps the text before and after it; text without the pattern is unchanged |
| Markup.ReplaceFirstEdges | src/components/HymnForm/index.tsx:78 | a pattern at the very front is replaced there, and text without the pattern comes back unchanged |
| Markup.RemoveAllAbsent | src/components/HymnEditor/utilities.ts:7 | `replaceAll(pat, "")` leaves text without the pattern unchanged, and text with it loses at least one whole occurrence |
| Markup.RemoveAllUpTo | src/components/HymnEditor/utilities.ts:7 | `replaceAll(pat, "")`, when position `i` holds the pattern and no earlier position does: the text before `i` is kept, that occurrence is dropped, and the removal carries on right after it, so occurrences go left to right without overlap |
| Markup.RemoveAllNoLt | src/components/HymnEditor/utilities.ts:7 | removing every `<b>` or `</b>` from text that contains no `<` changes nothing |
| Markup.Decode | src/components/HymnEditor/utilities.ts:3-8 | a fragment decodes to one line per `<br>`-separated piece, so never to the empty list |
| Markup.DecodeCons | src/components/HymnEditor/utilities.ts:3-8 | decoding works piece by piece: the first piece becomes its trimmed, marker-free text, followed by the decoding of the rest |
| Markup.CleanNoLt | src/components/HymnEditor/utilities.ts:6-7 | a piece without markup decodes to its trimmed self |
| Markup.DecodeEnclosed | src/components/HymnEditor/utilities.ts:7 | `<b>x</b>` decodes to the single line `x` when `x` has no markup |
| Markup.DecodeLabelled | src/components/HymnEditor/HymnEditor.tsx:43-44 | a label written as `<b>tag</b><br>` in front of a body decodes to the tag followed by the body's own lines |
| Markup.DecodeWrap | src/components/HymnEditor/utilities.ts:7-20 | emphasising any one character of a plain line and decoding the result gives the line back |
| Markup.Upper | src/features/HymnForm/utilities.ts:15-16 | `toUpperCase` on a character keeps letters letters, whitespace whitespace and `<` as `<`, and never yields a lower-case letter |
| Markup.LowerAll | src/features/HymnList/HymnListModal.tsx:112 | `toLowerCase` maps every character on its own and keeps the length |
| Markup.DecimalRoundTrip | src/features/HymnForm/HymnForm.tsx:51 | `String(n)` of a verse position reads back as that position |
| Markup.DecimalIsPlain | src/features/HymnForm/HymnForm.tsx:51 | the position label is non-empty, trimmed and free of markup, so it survives decoding |
| EditorCodec.EncodeLine | src/components/HymnEditor/utilities.ts:12-21 | an empty line is written as `<b>undefined</b>`; any other line gets exactly one emphasised character (the first if it is a letter, else the second); plain text gains no separator, and removing the markers gives the line back |
| EditorCodec.Join | src/components/HymnEditor/utilities.ts:10-23 | on lines without markup the joined fragment splits back into the encoded lines, with one separator fewer than lines |
| EditorCodec.RoundTrip | src/components/HymnEditor/utilities.ts:3-23 | decoding the join of a non-empty list of plain lines gives exactly those lines |
| EditorCodec.ReencodeStable | src/components/HymnEditor/utilities.ts:3-23 | encoding what was decoded from an encoded verse reproduces the same markup |
| EditorCodec.EmptyVerseDecodesToOneLine | src/components/HymnEditor/utilities.ts:10-22 | joining no lines gives the empty fragment, which decodes to one empty line, so the round trip needs at least one line |
| EditorCodec.EmptyLineReadsUndefined | src/components/HymnEditor/utilities.ts:12-13 | an empty line is saved as `<b>undefined</b>` and reads back as the text `undefined` |
| EditorCodec.QuoteBeforeLetter | src/components/HymnEditor/utilities.ts:14-17 | a line opening with a quotation mark gets its letter emphasised, not the quote |
| EditorCodec.DigitBeforeSpace | src/components/HymnEditor/utilities.ts:14-17 | a line opening with a digit gets its second character emphasised even when that is a space |
| UpperCodec.EncodeLine | src/features/HymnForm/utilities.ts:12-20 | on lines of two or more characters only the chosen character (the first if it is a letter, else the second) is upper-cased and everything else is kept; a one-letter line becomes the upper-cased letter followed by `undefined`; markup presence and trimming are preserved |
| UpperCodec.OneLetterGainsUndefined | src/features/HymnForm/utilities.ts:12-19 | the one-letter line `o` is saved as `Oundefined` |
| UpperCodec.EncodeIdempotent | src/features/HymnForm/utilities.ts:12-20 | encoding an encoded line changes nothing |
| UpperCodec.Join | src/features/HymnForm/utilities.ts:10-22 | on lines without markup the joined fragment splits back into the encoded lines, with one separator fewer than lines |
| UpperCodec.DecodeJoin | src/features/HymnForm/utilities.ts:3-22 | decoding the join of plain lines gives the encoded lines, so the typed lines come back with their chosen letter upper-cased |
| UpperCodec.JoinDecodeJoin | src/features/HymnForm/utilities.ts:3-22 | saving what was read back from a saved verse writes the same markup again |
| BoldFirstCodec.EncodeLine | src/components/HymnForm/utilities.ts:9 | the first character is emphasised whatever it is; an empty line is written as `<b>undefined</b>`; removing the markers from a plain line gives it back |
| BoldFirstCodec.Join | src/components/HymnForm/utilities.ts:8-10 | on lines without markup the joined fragment splits back into the encoded lines, with one separator fewer than lines |
| BoldFirstCodec.RoundTrip | src/components/HymnForm/utilities.ts:1-10 | decoding the join of a non-empty list of plain lines gives exactly those lines |
| BoldFirstCodec.QuoteIsWrapped | src/components/HymnForm/utilities.ts:9 | a leading quotation mark, not the letter after it, is emphasised |
| Hymns.SelectedHymn | src/components/HymnEditor/HymnEditor.tsx:21 | there is a selected hymn exactly when the index is in range, and it is the hymn at that index |
| Hymns.Normalise | src/components/HymnList/_components/DraggableContainer.tsx:38-44 | an imported file keeps its metadata and verses, starts not-started, and every verse's saved markup is its original markup |
| Hymns.Export | src/components/HymnList/HymnList.tsx:45-51 | an exported hymn keeps its metadata, drops its status, and writes each verse's saved markup as the verse's markup |
| Hymns.ExportNormalise | src/components/HymnList/_components/DraggableContainer.tsx:38-44 | importing a file and exporting it untouched gives back the same file |
| Hymns.EveryLineMatchesIsPrefix | src/components/HymnEditor/HymnEditor.tsx:55 | "every original line equals the saved line at its index" holds exactly when the original lines are a prefix of the saved lines |
| Hymns.SameScan | src/components/HymnEditor/HymnEditor.tsx:52-56 | the "same as original" scan throws exactly when the hymn has more verses than the new list and all of its first verses match; it is true exactly when every verse of the hymn has a partner in the new list and decodes to a prefix of it |
| Hymns.ApplyTo | src/components/HymnEditor/HymnEditor.tsx:49-63 | a hymn of another title is kept; a hymn of the title fails exactly when its scan throws, and otherwise takes the new verses and is not-started or in-progress by the scan |
| Hymns.ApplyVerses | src/components/HymnEditor/HymnEditor.tsx:49-63 | the save throws exactly when some hymn of the title has more verses than the new list and its first verses all match; otherwise hymns of other titles are untouched, and hymns of the title take the new verse list, even a shorter one, keep their metadata, are never completed, and are not-started exactly when the scan finds them the same as the original |
| Hymns.Labelled | src/components/HymnEditor/HymnEditor.tsx:43-44 | the saved markup decodes to the label line followed by the body's lines |
| Hymns.WithVerse | src/components/HymnEditor/HymnEditor.tsx:40-47 | the selected hymn's verse list with only the verse at the index carrying the new saved markup |
| Hymns.SaveVerse | src/components/HymnEditor/HymnEditor.tsx:36-67 | without a selection nothing changes; a save can throw only when a hymn of the title has more verses than the selected one, and never when none has; otherwise only verse `verseIdx` of the selected hymn takes the new markup, that verse list goes to every hymn of the title, which leaves "completed", and other titles are untouched |
| Hymns.LongerMatchingSiblingThrows | src/components/HymnEditor/HymnEditor.tsx:52-56 | a hymn of the title with more verses than the selected one, whose first verses all match, makes the save throw |
| Hymns.LongerDifferingSiblingTruncated | src/components/HymnEditor/HymnEditor.tsx:52-62 | a hymn of the title with more verses than the selected one, one of whose first verses differs, is cut down to the selected hymn's verse list and marked in-progress |
| Hymns.SaveVerseKeepsFit | src/components/HymnEditor/HymnEditor.tsx:36-67 | after a save that goes through, the same hymn is still selected under the same title and no hymn of the title has more verses, so the next save cannot throw |
| Hymns.SaveVerseStatus | src/components/HymnEditor/HymnEditor.tsx:52-60 | after a save that goes through, the selected hymn is not completed, and it is not-started exactly when every verse's original lines are a prefix of its saved lines |
| Hymns.SaveVerseTwice | src/components/HymnEditor/HymnEditor.tsx:36-67 | once a save has gone through, saving the same markup again cannot throw and leaves the selected hymn as the first save left it |
| Hymns.ToggleComplete | src/components/HymnEditor/HymnEditor.tsx:23-34 | each hymn of the selected title goes from completed to in-progress and from any other status to completed, and only its status changes; everything else is untouched, and so is everything without a selection |
| Hymns.ToggleCompleteTwice | src/components/HymnEditor/HymnEditor.tsx:23-34 | toggling twice restores every hymn except a not-started hymn of the selected title, which comes back in-progress; when no hymn of the title is not-started the store is restored |
| Hymns.ResetVerses | src/components/HymnEditor/HymnEditor.tsx:72-75 | every verse's saved markup goes back to its original markup and nothing else changes |
| Hymns.Reset | src/components/HymnEditor/HymnEditor.tsx:69-79 | only the selected hymn changes: it becomes not-started, and every verse's saved markup is its original |
| Hymns.ResetIsSameAsOriginal | src/components/HymnEditor/HymnEditor.tsx:69-79 | after a reset the "same as original" scan of the save is true for the reset hymn, agreeing with the not-started status the reset sets |
| Hymns.VerseIdxAfter | src/components/HymnEditor/HymnEditor.tsx:81-83 | selecting a different hymn brings the verse selection back to the first verse, and keeping the hymn keeps the verse |
| EditorStore.SavedMarkup | src/components/HymnEditor/HymnEditor.tsx:42-44 | the markup the editor writes decodes to the verse's own label followed by the decoded encoded lines |
| EditorStore.Save | src/components/HymnEditor/HymnEditor.tsx:36-67 | the save throws only when a hymn of the title has more verses than the selected one; otherwise only the chosen verse of the selected hymn changes, and only in its saved markup; that markup reads back as the verse's label followed by the encoded lines; other titles are untouched |
| EditorStore.SaveThenReopen | src/components/HymnEditor/HymnEditor.tsx:100-102 | after a save that goes through, reopening a verse saved with plain lines shows exactly those lines under the unchanged label |
| EditorStore.SaveTwice | src/components/HymnEditor/HymnEditor.tsx:36-67 | once a save has gone through, saving the same lines again cannot throw and leaves the selected hymn as the first save left it |
| FormStore.PositionLabel | src/features/HymnForm/HymnForm.tsx:50-51 | the label line is plain decimal digits that read back as the verse's one-based position |
| FormStore.Save | src/features/HymnForm/HymnForm.tsx:44-76 | the save throws only when a hymn of the title has more verses than the selected one; otherwise only the chosen verse of the selected hymn changes, and only in its saved markup; that markup reads back as the position label followed by the upper-case-encoded lines |
| FormStore.SaveThenReopen | src/features/HymnForm/HymnForm.tsx:114-116 | after a save that goes through, reopening the verse shows the saved lines with their chosen letter upper-cased, under a label that reads as the verse's position |
| FirstStore.MarkComplete | src/components/HymnForm/HymnForm.tsx:22-31 | every hymn of the selected title becomes completed whatever its status, and only its status changes |
| FirstStore.MarkCompleteIdempotent | src/components/HymnForm/HymnForm.tsx:22-31 | marking complete twice is marking it once |
| FirstStore.Save | src/components/HymnForm/HymnForm.tsx:33-65 | the save throws only when a hymn of the title has more verses than the selected one; otherwise only the chosen verse of the selected hymn changes; its markup reads back as the verse's position followed by the decoded emphasise-first encoding |
| FirstStore.SaveThenReopen | src/components/HymnForm/HymnForm.tsx:33-65 | after a save that goes through, reopening a verse saved with plain lines shows exactly those lines |
| FirstForm.CleanFirstMarkers | src/components/HymnForm/index.tsx:78 | the line with its first `<b>` cut out, then the first `</b>` of what is left, each found as `indexOf` finds it; a line without markup is unchanged and no line gets longer |
| FirstForm.FirstPairRemoved | src/components/HymnForm/index.tsx:78 | when the first `<b>` and the first `</b>` after it follow text without `<`, exactly that pair goes, and the rest of the line, later markers included, stays |
| FirstForm.SplitLines | src/components/HymnForm/index.tsx:73-79 | the earliest decoder yields at most one line per `<br>`-separated piece |
| FirstForm.BlankPieceDropped | src/components/HymnForm/index.tsx:77 | a blank piece vanishes from the result |
| FirstForm.TextPieceKept | src/components/HymnForm/index.tsx:76-78 | a piece with text becomes one line, trimmed and with its first markers removed |
| FirstForm.KeepLinesOfPlain | src/components/HymnForm/index.tsx:76-78 | pieces with text and without markup are kept one for one, each trimmed |
| FirstForm.AgreesWithDecode | src/components/HymnForm/index.tsx:73-79 | on markup without markers and without blank pieces, the earliest decoder agrees with the shared decoder |
| FirstForm.EmptyEmphasisKept | src/components/HymnForm/index.tsx:77-78 | `<b></b>` still yields one empty line, because blank pieces are dropped before markers are removed |
| FirstForm.VerseNo | src/components/HymnForm/index.tsx:10-12 | there is a verse-number line exactly when some piece survives the decoder |
| FirstForm.Content | src/components/HymnForm/index.tsx:10-12 | the editable lines are all decoded lines after the verse number |
| FirstForm.Open | src/components/HymnForm/index.tsx:8-13 | the form opens on verse 0 with that verse's lines ready for editing |
| FirstForm.SelectVerse | src/components/HymnForm/index.tsx:58-66 | choosing another verse button changes the selection but not the lines being edited |
| FirstForm.UpdateInput | src/components/HymnForm/index.tsx:15-21 | typing replaces exactly the edited line at the index |
| FirstForm.ResetLine | src/components/HymnForm/index.tsx:23-30 | the reset button of any line puts every edited line back to the selected verse's decoded lines; when that verse has no line at the button's index the form breaks, because the splice appends `undefined` and the next render reads `line[0]` of it |
| FirstForm.ResetPastShorterVerse | src/components/HymnForm/index.tsx:8-52 | after selecting a verse with fewer lines than are being edited, the last line's reset button is still shown, and pressing it breaks the form |
| FirstForm.SpliceOwnValue | src/components/HymnForm/index.tsx:27 | splicing a line back into its own place changes nothing |
| FirstVerseForm.Open | src/components/HymnForm/IndividualVerseForm.tsx:11 | the form opens with the initial lines |
| FirstVerseForm.UpdateInput | src/components/HymnForm/IndividualVerseForm.tsx:13-19 | typing replaces exactly the line at the index |
| FirstVerseForm.ResetLine | src/components/HymnForm/IndividualVerseForm.tsx:21-27 | resetting any line restores every line to its initial text |
| FirstVerseForm.LineCountKept | src/components/HymnForm/IndividualVerseForm.tsx:13-27 | typing and resetting keep as many edited lines as initial lines, so every reset button names an initial line |
| FirstVerseForm.EditShowsReset | src/components/HymnForm/IndividualVerseForm.tsx:54 | after typing into a line its reset button shows exactly when the text differs from the initial text |
| FirstVerseForm.ResetHidesAllButtons | src/components/HymnForm/IndividualVerseForm.tsx:21-27 | after any reset no line shows a reset button |
| NumberBolding.LeadingDigits | script.js:6 | `\d+` at the start of the line: a prefix, all digits, and followed by a non-digit or the end |
| NumberBolding.MatchNumber | script.js:6 | the regex finds an emphasised leading number only inside `<b>…</b>` at the start, and a plain leading number only when the line does not start with `<b>`; there is no match exactly when neither shape occurs |
| NumberBolding.ProcessLine | script.js:5-14 | a line without a leading number is kept; an emphasised number is kept for choruses and un-emphasised otherwise; a plain number is emphasised for choruses and kept otherwise |
| NumberBolding.ProcessLineNoBreak | script.js:4-15 | processing a line adds no line break |
| NumberBolding.UnboldedReadsPlain | script.js:11 | an un-emphasised leading number then matches as a plain number |
| NumberBolding.BoldedReadsBold | script.js:13 | an emphasised plain number then matches as that same number, emphasised |
| NumberBolding.ProcessLineIdempotent | script.js:5-14 | after processing, a chorus line has no plain leading number and any other line has no emphasised one, and processing again changes nothing |
| NumberBolding.ShouldBold | script.js:28 | a verse is treated as a chorus exactly when its label contains `C` |
| NumberBolding.ProcessBolding | script.js:3-16 | the result has the same number of lines, and each line is the processed input line |
| NumberBolding.ProcessBoldingIdempotent | script.js:3-16 | running the fix twice is running it once |
| NumberBolding.FixVerse | script.js:27-30 | only the verse's markup changes, line by line, by whether its label marks a chorus |
| NumberBolding.FixHymn | script.js:27-32 | every verse is fixed and the hymn's metadata is kept |
| NumberBolding.FixHymnIdempotent | script.js:27-32 | fixing a hymn file twice is fixing it once |
| VerseBuffer.Open | src/components/HymnEditor/_components/IndividualVerseForm/IndividualVerseForm.tsx:27-28 | a mounted form edits the saved lines and flags nothing |
| VerseBuffer.EmptyIndices | src/components/HymnEditor/_components/IndividualVerseForm/IndividualVerseForm.tsx:32-34 | the collected indices are exactly the empty lines, in increasing order |
| VerseBuffer.Validate | src/components/HymnEditor/_components/IndividualVerseForm/IndividualVerseForm.tsx:30-38 | the payload is handed over, with the flags cleared, exactly when no line is empty; otherwise exactly the empty lines are flagged, in order; the edited lines never change |
| VerseBuffer.BlankLineBlocksSave | src/components/HymnEditor/_components/IndividualVerseForm/IndividualVerseForm.tsx:30-38 | a verse with a blank middle line is not saved and only that line is flagged |
| VerseBuffer.Edit | src/components/HymnEditor/_components/IndividualVerseForm/IndividualVerseForm.tsx:40-46 | typing replaces exactly the line at the index and clears the flags |
| VerseBuffer.ResetLine | src/components/HymnEditor/_components/IndividualVerseForm/IndividualVerseForm.tsx:48-55 | `-1` restores every original line; otherwise only the line at the index goes back to its original; the flags are kept |
| VerseBuffer.Undo | src/components/HymnEditor/_components/IndividualVerseForm/IndividualVerseForm.tsx:57-63 | only the line at the index goes back to its saved text |
| VerseBuffer.Payload | src/features/HymnForm/IndividualVerseForm/IndividualVerseForm.tsx:68-75 | "save all" hands over every edited line; saving one line hands over the saved lines with only that line taken from the edit |
| VerseBuffer.Save | src/features/HymnForm/IndividualVerseForm/IndividualVerseForm.tsx:68-75 | a save commits its payload exactly when no line of the payload is empty; otherwise exactly the payload's empty lines are flagged, in increasing order |
| VerseBuffer.EditorScope | src/components/HymnEditor/_components/IndividualVerseForm/IndividualVerseForm.tsx:65-67 | the editor's sentinel `-1` means "save all" and any other index names one line |
| VerseBuffer.SaveLineTouchesOneLine | src/components/HymnEditor/_components/IndividualVerseForm/IndividualVerseForm.tsx:65-72 | a committed one-line save differs from the saved lines only at that line |
| VerseBuffer.CanSaveIffChanged | src/components/HymnEditor/_components/IndividualVerseForm/IndividualVerseForm.tsx:101 | with as many lines as were saved, there is something to save exactly when the edit differs from the saved lines |
| VerseBuffer.AreAllOriginalIffPrefix | src/components/HymnEditor/_components/IndividualVerseForm/IndividualVerseForm.tsx:102-104 | every line is original exactly when the edited lines are a prefix of the original lines |
| VerseBuffer.LineShade | src/components/HymnEditor/_components/IndividualVerseForm/IndividualVerseForm.tsx:106-110 | a line is shaded unsaved when it differs from its saved text, saved when it matches that but not the original, and plain otherwise; the three cases are exclusive |
| VerseBuffer.SaveAllMatchesLineButtons | src/features/HymnForm/IndividualVerseForm/IndividualVerseForm.tsx:191 | "save all changes" is enabled exactly when some line's own save button is enabled |
| VerseBuffer.UndoAllMatchesLineButtons | src/features/HymnForm/IndividualVerseForm/IndividualVerseForm.tsx:198 | "undo line changes" is disabled exactly when every line's own reset button is disabled |
| VerseBuffer.UndoClearsUnsaved | src/components/HymnEditor/_components/IndividualVerseForm/IndividualVerseForm.tsx:57-63 | after undoing a line it is no longer shaded unsaved and its save button is disabled |
| VerseBuffer.ResetAllIsOriginal | src/components/HymnEditor/_components/IndividualVerseForm/IndividualVerseForm.tsx:48-55 | after resetting everything every line is original and every line's reset button is disabled |
| VerseBuffer.SaveAllThenReopen | src/components/HymnEditor/_components/IndividualVerseForm/IndividualVerseForm.tsx:30-38 | once a full save is committed and the form remounts on it, nothing is left to save and no line is shaded unsaved |
| VerseKeys.EditorKeydown | src/components/HymnEditor/_components/IndividualVerseForm/IndividualVerseForm.tsx:74-99 | Enter or `s` saves exactly when there are changes and the platform's modifier is held: all lines with Shift, the focused line without it; the event is stopped and its default prevented exactly when a save key comes with either modifier and there are changes, so every save is suppressed |
| VerseKeys.FeaturesKeydown | src/features/HymnForm/IndividualVerseForm/IndividualVerseForm.tsx:77-85 | only Enter saves, under the same conditions as the editor, and the event is never stopped |
| VerseKeys.EnterSavesAlike | src/features/HymnForm/IndividualVerseForm/IndividualVerseForm.tsx:77-85 | on Enter both forms save the same lines; the editor stops the event whenever there are changes and either modifier is held, and the features form never does |
| VerseKeys.ArrowsDoNothing | src/components/HymnEditor/_components/IndividualVerseForm/IndividualVerseForm.tsx:95-98 | the arrow keys pass the key filter but neither save nor stop the event |
| VerseNav.ChangesBelow | src/components/HymnEditor/VerseSelector.tsx:33-35 | the count is at most the number of lines looked at, and zero exactly when none of them differs from the original line |
| VerseNav.ChangeCount | src/components/HymnEditor/VerseSelector.tsx:29-35 | a verse counts no changes exactly when its saved lines are a prefix of its original lines |
| VerseNav.NoDifferenceIsPrefix | src/components/HymnEditor/VerseSelector.tsx:33-35 | no saved line differing from the original line at its index is the same as the saved lines being a prefix |
| VerseNav.ResetVerseHasNoChanges | src/components/HymnEditor/VerseSelector.tsx:29-35 | a verse whose saved markup is its original counts no changes |
| VerseNav.RowOne | src/components/HymnEditor/VerseSelector.tsx:72 | the first row holds the verse indices below 11, as written |
| VerseNav.RowTwo | src/components/HymnEditor/VerseSelector.tsx:81 | the second row holds the verse indices from 10 on, each button targeting its own verse |
| VerseNav.RowsCoverVerses | src/components/HymnEditor/VerseSelector.tsx:72-81 | every verse has a button, and every button targets an existing verse |
| VerseNav.VerseTenTwice | src/components/HymnEditor/VerseSelector.tsx:72 | with eleven verses or more, the eleventh verse has a button in both rows |
| VerseNav.RowOneCorrected | src/components/HymnEditor/VerseSelector.tsx:72 | the corrected first row holds the verse indices below 10 |
| VerseNav.CorrectedRowsPartition | src/components/HymnEditor/VerseSelector.tsx:72-81 | with the corrected first row every verse has exactly one button |
| VerseNav.SelectorLook | src/components/HymnEditor/VerseSelector.tsx:40-55 | a button is solid exactly when it targets the selected verse; otherwise it gets the saved background exactly when its verse has changes |
| VerseNav.BadgeShown | src/features/HymnForm/ControlBar.tsx:54-56 | the success badge shows exactly on first-row buttons whose verse has changes |
| HymnList.Import | src/components/HymnList/HymnList.tsx:22-24 | imported hymns replace the list and the first is selected |
| HymnList.ImportSelectsFirst | src/components/HymnList/HymnList.tsx:22-24 | after an import the open hymn is the first imported one, and there is none when nothing was imported |
| HymnList.Select | src/components/HymnList/HymnList.tsx:26-30 | only the selection changes, and it lands on the chosen hymn |
| HymnList.Delete | src/components/HymnList/HymnList.tsx:32-37 | the hymn at the index leaves the list, the others keep their order, and the first hymn is selected |
| HymnList.DeleteRemovesOne | src/components/HymnList/HymnList.tsx:34 | deleting removes one occurrence of that hymn and nothing else |
| HymnList.CompletedHymns | src/components/HymnList/HymnList.tsx:43 | exactly the completed hymns are kept |
| HymnList.CompletedHymnsAppend | src/components/HymnList/HymnList.tsx:43 | the completed hymns of two lists in a row are those of the first followed by those of the second, so the filter keeps list order |
| HymnList.CompletedHymnsOne | src/components/HymnList/HymnList.tsx:43 | a single hymn is kept exactly when it is completed |
| HymnList.WithoutNums | src/components/HymnList/HymnList.tsx:54-56 | exactly the hymns whose number is not among the given numbers are kept |
| HymnList.WithoutNumsAppend | src/components/HymnList/HymnList.tsx:54-56 | filtering two lists in a row is filtering the first followed by filtering the second, so the filter keeps list order |
| HymnList.WithoutNumsOne | src/components/HymnList/HymnList.tsx:54-56 | a single hymn is kept exactly when its number is not excluded |
| HymnList.Chosen | src/components/HymnList/HymnList.tsx:41-43 | a download takes the hymns at the listed positions, in order, or else the completed hymns as the filter keeps them, in list order |
| HymnList.DownloadHymns | src/components/HymnList/HymnList.tsx:39-59 | every chosen hymn is exported, in order; the first hymn is selected; the hymns left are the list filtered by the chosen numbers, in list order |
| HymnList.DownloadAllLeavesNoCompleted | src/components/HymnList/HymnList.tsx:39-59 | after "download all" no completed hymn is left and nothing new appears |
| HymnList.DownloadOneDropsSameNumber | src/components/HymnList/HymnList.tsx:54-56 | downloading one hymn also removes every other hymn with the same number |
| HymnList.DownloadEnabled | src/components/HymnList/_components/HymnListActions.tsx:45 | the download button is enabled exactly when downloading would export at least one file |
| CheckList.Init | src/components/HymnList/_components/DragConfirmationDialog.tsx:33-35 | the dialog opens with every item checked, in data order |
| CheckList.Toggle | src/components/HymnList/_components/DragConfirmationDialog.tsx:39-47 | only the item at the index flips, and no value changes |
| CheckList.ToggleTwice | src/components/HymnList/_components/DragConfirmationDialog.tsx:39-47 | flipping the same item twice restores the list |
| CheckList.ToggleAll | src/components/HymnList/_components/DragConfirmationDialog.tsx:49-51 | everything is unchecked when everything was checked, and everything is checked otherwise |
| CheckList.ToggleAllTwice | src/components/HymnList/_components/DragConfirmationDialog.tsx:49-51 | from a mixed list two presses uncheck everything; on a uniform list two presses restore it |
| CheckList.Checked | src/components/HymnList/_components/DragConfirmationDialog.tsx:53-59 | the submission holds exactly the checked values |
| CheckList.SubmitUntouched | src/components/HymnList/_components/DragConfirmationDialog.tsx:53-59 | submitting the dialog as opened hands over all the data, in order |
| CheckList.CheckedAppend | src/components/HymnList/_components/DragConfirmationDialog.tsx:53-59 | submitting two lists back to back hands over the checked values of the first, then those of the second |
| CheckList.SubmitAllButOne | src/components/HymnList/_components/DragConfirmationDialog.tsx:53-59 | unchecking one item of the opened dialog hands over the data without that item |
| DropImport.Drop | src/components/HymnList/_components/DraggableContainer.tsx:29-47 | dropping nothing leaves the pending hymns alone; otherwise the dropped files, each made editable, replace them |
| DropImport.DropThenExport | src/components/HymnList/_components/DraggableContainer.tsx:38-44 | every dropped hymn waits not-started and exports back to its file |
| DropImport.Combined | src/components/HymnList/_components/DraggableContainer.tsx:58-64 | the dialog data starts with the hymns being edited; the part after them holds exactly the pending hymns whose number is not being edited |
| DropImport.CombinedIsFilter | src/components/HymnList/_components/DraggableContainer.tsx:58-64 | the dialog data is the hymns being edited followed by the pending hymns whose number none of them has, in the order they were dropped |
| DropImport.CombinedSkipsKnown | src/components/HymnList/_components/DraggableContainer.tsx:58-64 | dropping only numbers already being edited adds nothing |
| DropImport.CombinedAppendsNew | src/components/HymnList/_components/DraggableContainer.tsx:58-64 | dropping only new numbers appends every dropped hymn, in order |
| DropImport.CombinedKeepsRepeats | src/components/HymnList/_components/DraggableContainer.tsx:60 | numbers are checked against the hymns being edited, not the list built so far, so a new hymn dropped twice is listed twice |
| DropImport.DialogData | src/components/HymnList/_components/DraggableContainer.tsx:73-79 | the dialog is shown exactly while hymns are pending, and its data begins with the hymns being edited |
| DropImport.ClearedHidesDialog | src/components/HymnList/_components/DraggableContainer.tsx:49-54 | clearing the pending hymns hides the dialog |
| DropImport.Confirm | src/components/HymnList/_components/DraggableContainer.tsx:53-56 | confirming replaces the list with the checked hymns, in dialog order, and selects the first |
| DropImport.DropAndConfirm | src/components/HymnList/_components/DraggableContainer.tsx:29-79 | dropping files and confirming the dialog as opened keeps every hymn being edited, in front, and adds every dropped hymn with a new number |
| CatalogPicker.FindByNum | src/features/HymnList/HymnListModal.tsx:46 | the first catalog position with the number, or -1 exactly when no entry has it |
| CatalogPicker.FindHymn | src/features/HymnList/HymnListModal.tsx:65-67 | the first hymn being edited with the number, and nothing exactly when no such hymn exists |
| CatalogPicker.FindOwnNumber | src/features/HymnList/HymnListModal.tsx:65-67 | when numbers are distinct, looking up a hymn's number finds that hymn |
| CatalogPicker.InitialSelection | src/features/HymnList/HymnListModal.tsx:44-48 | each hymn being edited is selected at a catalog position with its number, or at -1 exactly when the catalog lacks it |
| CatalogPicker.Sort | src/features/HymnList/HymnListModal.tsx:58 | sorting keeps the same numbers, in ascending order |
| CatalogPicker.SortedUnique | src/features/HymnList/HymnListModal.tsx:58 | two ascending lists holding the same numbers are equal, so the sort's result is determined by its input's numbers |
| CatalogPicker.RemoveValue | src/features/HymnList/HymnListModal.tsx:56 | every occurrence of the position is removed and nothing else |
| CatalogPicker.Click | src/features/HymnList/HymnListModal.tsx:53-60 | the clicked position leaves the selection when it was in it and joins it otherwise; the selection stays ascending and nothing else changes |
| CatalogPicker.ClickTwice | src/features/HymnList/HymnListModal.tsx:53-60 | on a strictly ascending selection, clicking the same entry twice restores it |
| CatalogPicker.Pick | src/features/HymnList/HymnListModal.tsx:63-78 | a selected entry yields the hymn being edited under its number if there is one, and otherwise a fresh not-started copy that exports back to the catalog file |
| CatalogPicker.Submitted | src/features/HymnList/HymnListModal.tsx:62-79 | one hymn per selected entry, in selection order, each with that entry's number, reusing hymns being edited |
| CatalogPicker.Submit | src/features/HymnList/HymnListModal.tsx:62-83 | submitting hands over exactly the selection's hymns as `Submitted` builds them, one per selected entry in selection order, and clears the modal's state |
| CatalogPicker.SubmitDisabled | src/features/HymnList/HymnListModal.tsx:99-106 | submit is disabled exactly when nothing is selected, or when the selection is as long as the list and every selected entry is already being edited |
| CatalogPicker.UntouchedSelectionResubmits | src/features/HymnList/HymnListModal.tsx:44-48 | opening on catalog hymns with distinct numbers selects exactly them; submitting would hand the same list back, and submit is disabled |
| CatalogPicker.NewEntryEnablesSubmit | src/features/HymnList/HymnListModal.tsx:99-106 | selecting an entry that is not being edited always enables submit |
| CatalogPicker.Close | src/features/HymnList/HymnListModal.tsx:85-92 | only the close button closes the modal and clears its state; the backdrop and Escape change nothing |
| CatalogPicker.CloseClearsLikeSubmit | src/features/HymnList/HymnListModal.tsx:62-106 | closing with the button leaves the modal as a submit leaves it, with submit disabled; the backdrop and Escape leave the submit button as it was |
| CatalogPicker.ShouldHide | src/features/HymnList/HymnListModal.tsx:108-117 | an entry is shown exactly when it is not selected and the case-insensitive filter matches its full title; an empty filter hides only selected entries |
| CatalogPicker.ClickedRowHidden | src/features/HymnList/HymnListModal.tsx:108-117 | a clicked visible row is hidden afterwards, and no other row changes visibility |
| CatalogPicker.Filtered | src/components/HymnList/HymnListModal.tsx:83-87 | the earlier modal's list holds exactly the catalog entries the filter matches |
| CatalogPicker.EmptyFilterKeepsAll | src/components/HymnList/HymnListModal.tsx:84 | an empty filter keeps the whole catalog in order |
| CatalogPicker.LegacySubmitDisabled | src/components/HymnList/HymnListModal.tsx:102 | the earlier modal disables submit exactly when nothing is selected |
| CatalogPicker.LegacyAcceptsUntouched | src/components/HymnList/HymnListModal.tsx:102 | the earlier modal accepts the untouched initial selection that the later modal refuses |
| CatalogPicker.LegacyRowTarget | src/components/HymnList/HymnListModal.tsx:131-143 | as written, clicking row `row` of the filtered list selects catalog position `row` |
| CatalogPicker.LegacyRowSelectsWrongHymn | src/components/HymnList/HymnListModal.tsx:131-143 | filtering "2" from catalog hymns 1 and 2 shows hymn 2 in the only row, but clicking it selects hymn 1 |
| CatalogPicker.FilteredPositions | src/components/HymnList/HymnListModal.tsx:83-87 | the catalog positions the filter keeps, strictly increasing, each holding the entry shown in that row |
| CatalogPicker.CorrectedRowTarget | src/components/HymnList/HymnListModal.tsx:131-143 | corrected: a row selects the catalog position of the entry it shows, which matches the filter |
| CatalogPicker.CorrectedRowsDistinct | src/components/HymnList/HymnListModal.tsx:131-143 | corrected: distinct rows select distinct catalog entries |
| CatalogPicker.EmptyFilterTargetsAgree | src/components/HymnList/HymnListModal.tsx:131-143 | with an empty filter the as-written and corrected targets agree, which is why the mismatch shows only while filtering |
| CatalogPicker.LegacyRowHidden | src/components/HymnList/HymnListModal.tsx:131-133 | as written, row `row` of the filtered list is hidden exactly when `row` itself is a selected catalog position |
| CatalogPicker.LegacyRowHidesWrongHymn | src/components/HymnList/HymnListModal.tsx:131-133 | filtering "2" from catalog hymns 1 and 2: with hymn 2 selected its row stays shown, and with hymn 1 selected the row of hymn 2 is hidden; the corrected test does the opposite in both cases |
| CatalogPicker.CorrectedRowHidden | src/components/HymnList/HymnListModal.tsx:131-133 | corrected: a row is hidden exactly when the catalog position of the entry it shows is selected, so a hidden row's entry is selected |
| CatalogPicker.CorrectedHidingAgrees | src/components/HymnList/HymnListModal.tsx:131-133 | the corrected hiding agrees with the later modal's `shouldHide` on the entry the row shows |
| FeaturesPreview.Preview | src/features/HymnForm/IndividualVerseForm/IndividualVerseForm.tsx:173-177 | the preview renders exactly when every buffer line can be encoded, and then no line is empty |
| FeaturesPreview.RenderedSaveAllCommits | src/features/HymnForm/IndividualVerseForm/IndividualVerseForm.tsx:68-70 | while the form renders, saving every line always commits the buffer, so the empty-line flags are never set |
| FeaturesPreview.ShortLineCrashesPreview | src/features/HymnForm/IndividualVerseForm/IndividualVerseForm.tsx:173-177 | clearing a line, or typing a single digit into it, leaves a buffer the preview cannot encode |
| FeaturesPreview.CorrectedEncodeLine | src/features/HymnForm/utilities.ts:10-22 | corrected: a total encoder that keeps the length, upper-cases the chosen character when it exists, and agrees with the source on lines of two characters or more |
| FeaturesPreview.CorrectedPreview | src/features/HymnForm/IndividualVerseForm/IndividualVerseForm.tsx:173-177 | corrected: every buffer has a preview, equal to the source's where every line has two characters or more |
| FeaturesPreview.ClearedLineIsFlagged | src/features/HymnForm/IndividualVerseForm/IndividualVerseForm.tsx:68-70 | once the form survives a cleared line, saving every line is refused and that line is flagged |

## Left out

- Local storage, file reading (`FileReader`, the `application/json` type filter), the catalog `fetch`, the zip download and the script's file-system walk are I/O. The operations take parsed data and return the new state.
- React rendering, focus handling (`autofocusLastCharacter`), icons and theme colours are left out. Line shades and button looks are enumerations.
- `navigator.userAgentData.platform` becomes the `isMac` parameter of `VerseKeys`. `stopPropagation`/`preventDefault` become the `suppressed` flag of a key effect.
- State updates are applied in order, one handler at a time. React's batching and the asynchronous catalog load are not modelled.
- Markup.Upper, Markup.Lower: case mapping covers the ASCII letters only, not the full Unicode tables of `toUpperCase`/`toLowerCase`.
- Hymns.SaveVerse, Hymns.ApplyVerses, and the `Save` of `EditorStore`, `FormStore` and `FirstStore`: the `TypeError` the "same as original" scan raises is the result `None`. The store is then not written; the error itself and what React does with it are not modelled.
- UpperCodec.EncodeLine: an empty line, or a one-character line that is not a letter, is excluded. The source throws there, calling `toUpperCase` on `undefined`.
- VerseBuffer.Edit, VerseBuffer.Save: they model the handlers' text and do not say that the features form crashes. That form renders `joinByBreakLine(verse)` on every render, so a buffer line that is not `UpperCodec.Encodable` (an empty line, or one non-letter character) throws before any save. Its empty-line validation is therefore unreachable there (`FeaturesPreview.RenderedSaveAllCommits`, `FeaturesPreview.ShortLineCrashesPreview`). The editor form, which shares the buffer, previews with the editor encoder, which never throws.
- CatalogPicker.Submitted, CatalogPicker.Submit, CatalogPicker.SubmitDisabled: they require every selected position to be in the catalog (`InCatalog`). The initial selection holds -1 for a hymn missing from the catalog, and the source then reads `hymnFiles[-1].num` and throws.
- VerseBuffer.ResetLine, VerseBuffer.Undo, VerseBuffer.Payload: they require the index to name a line of both the edit and the original or saved lines. The buttons only pass indices of existing lines, and editing never adds lines. Past the end the source would splice `undefined` in.
- FirstForm.ResetLine requires the index to name an edited line, since only edited lines have reset buttons. When the selected verse has no line there, the result is `None`, standing for the render that throws.
- FirstVerseForm.ResetLine requires the index to name an initial line. Reset buttons belong to the edited lines, and typing and resetting keep as many edited lines as initial lines (`FirstVerseForm.LineCountKept`).
- Strings are `seq<char>`, one element per character. JavaScript indexes UTF-16 code units, so for a character outside the Basic Multilingual Plane `line[0]` and `slice(1)` split a surrogate pair in the source but not in the model.
- HymnList.Chosen and HymnList.DownloadHymns require the listed positions to be in range. The download buttons pass positions of listed hymns.
- The text colour computed in `src/components/HymnEditor/VerseSelector.tsx:50-53` is left out, because its selected branch is never reached: selected buttons return early.
- The earlier control bar (`src/components/HymnForm/ControlBar.tsx:19-45`) shares `VerseNav.RowOne` and `VerseNav.RowTwo`. Its solid-versus-outlined look is the solid case of `VerseNav.SelectorLook`, and has no row of its own.
- The other components (`MusicList`, `App`, the delete warning, list items and the simple dialogs) hold no logic of their own and are not part of this model.

## Findings

| source | as written | input that shows it | evidently intended | confidence | as-written member | corrected member |
|---|---|---|---|---|---|---|
| src/components/HymnEditor/VerseSelector.tsx:72 | the first row keeps indices `idx < 11` while the second row starts at index 10 (the same in `src/features/HymnForm/ControlBar.tsx:43` and `src/components/HymnForm/ControlBar.tsx:29`) | a hymn with 11 verses: verse index 10 has a button in both rows | the first row keeps indices below 10, so every verse has exactly one button | not executed | VerseNav.VerseTenTwice | VerseNav.CorrectedRowsPartition |
| src/components/HymnList/HymnListModal.tsx:131-143 | the earlier modal clicks rows by their index in the filtered list, but uses that index as a catalog position | catalog `1. a`, `2. b` with filter `2`: the only row shows `2. b`, and clicking it selects `1. a` | a row selects the catalog position of the entry it shows | not executed | CatalogPicker.LegacyRowSelectsWrongHymn | CatalogPicker.CorrectedRowsDistinct |
| src/components/HymnList/HymnListModal.tsx:131-133 | the earlier modal hides a row when its index in the filtered list is in the selection, which holds catalog positions | catalog `1. a`, `2. b` with filter `2`: with selection `[1]` the row of the selected `2. b` stays shown unchecked; with selection `[0]` it is hidden although `2. b` is not selected | a row is hidden exactly when the entry it shows is selected | not executed | CatalogPicker.LegacyRowHidesWrongHymn | CatalogPicker.CorrectedHidingAgrees |
| src/features/HymnForm/IndividualVerseForm/IndividualVerseForm.tsx:173-177 | the preview runs `joinByBreakLine(verse)` on every render, and that encoder (`src/features/HymnForm/utilities.ts:12-16`) throws on an empty line or a lone non-letter character, with nothing to catch it | clear any line of the verse being edited: the render throws, so the empty-line validation of lines 68-75 is never reached | the preview shows the short line, and saving flags the empty line | not executed | FeaturesPreview.ShortLineCrashesPreview | FeaturesPreview.ClearedLineIsFlagged |
