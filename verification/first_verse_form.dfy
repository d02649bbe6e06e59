/**
 * The earliest verse form (src/components/HymnForm/IndividualVerseForm.tsx):
 * it edits a copy of the verse's lines and offers a reset button on every
 * line that differs from the initial text. Resetting any line restores the
 * whole verse.
 */
module FirstVerseForm {
  datatype Form = Form(initialContent: seq<string>, verses: seq<string>)

  /** The form as mounted: the lines under edit are the initial lines. */
  function Open(initialContent: seq<string>): (f: Form)
    ensures f.verses == f.initialContent == initialContent
  {
    Form(initialContent, initialContent)
  }

  /** `handleUpdateInput(idx)`: line `idx` takes the typed value. */
  function UpdateInput(f: Form, idx: nat, value: string): (r: Form)
    requires idx < |f.verses|
    ensures r.initialContent == f.initialContent
    ensures |r.verses| == |f.verses| && r.verses[idx] == value
    ensures forall j :: 0 <= j < |f.verses| && j != idx ==> r.verses[j] == f.verses[j]
  {
    f.(verses := f.verses[..idx] + [value] + f.verses[idx + 1..])
  }

  /**
   * `handleResetLineText(idx)`: the splice writes line `idx` of the initial
   * lines over a copy of the initial lines, so the result is the initial
   * verse whatever `idx` names.
   */
  function ResetLine(f: Form, idx: nat): (r: Form)
    requires idx < |f.initialContent|
    ensures r.initialContent == f.initialContent
    ensures r.verses == f.initialContent
  {
    var content := f.initialContent;
    assert content[..idx] + [content[idx]] + content[idx + 1..] == content;
    f.(verses := content[..idx] + [content[idx]] + content[idx + 1..])
  }

  /**
   * Editing and resetting keep as many lines under edit as initial lines,
   * so every line's reset button names an initial line.
   */
  lemma LineCountKept(f: Form, idx: nat, value: string)
    requires |f.verses| == |f.initialContent| && idx < |f.verses|
    ensures |UpdateInput(f, idx, value).verses| == |UpdateInput(f, idx, value).initialContent|
    ensures |ResetLine(f, idx).verses| == |ResetLine(f, idx).initialContent|
  {
  }

  /** The reset button of line `idx` is shown when the line differs from its initial text. */
  predicate ResetShown(f: Form, idx: nat)
    requires idx < |f.verses|
  {
    idx >= |f.initialContent| || f.verses[idx] != f.initialContent[idx]
  }

  /** Typing a new text into a line shows that line's reset button. */
  lemma EditShowsReset(f: Form, idx: nat, value: string)
    requires idx < |f.verses| && idx < |f.initialContent|
    ensures ResetShown(UpdateInput(f, idx, value), idx) <==> value != f.initialContent[idx]
  {
  }

  /** Pressing any reset button hides every reset button. */
  lemma ResetHidesAllButtons(f: Form, idx: nat)
    requires idx < |f.initialContent|
    ensures forall j :: 0 <= j < |ResetLine(f, idx).verses| ==> !ResetShown(ResetLine(f, idx), j)
  {
  }
}
