/**
 * The per-verse editing buffer shared, line for line, by the editor's
 * verse form (src/components/HymnEditor/_components/IndividualVerseForm/
 * IndividualVerseForm.tsx) and the features verse form
 * (src/features/HymnForm/IndividualVerseForm/IndividualVerseForm.tsx).
 * A form holds three line lists: the saved lines, the original lines and
 * the lines being edited, plus the indices flagged as empty by the last
 * failed save. Reading `saved[idx]` or `original[idx]` past the end gives
 * `undefined` in the source, which differs from every line.
 */
module VerseBuffer {
  import opened Wrappers

  datatype Form = Form(saved: seq<string>, original: seq<string>, verse: seq<string>, errors: seq<nat>)

  /** The result of a save attempt: the form afterwards and the lines handed to the store, if any. */
  datatype Outcome = Outcome(form: Form, committed: Option<seq<string>>)

  /** The colour a line is shown in. */
  datatype Shade = Initial | SavedShade | UnsavedShade

  /** A form as mounted: editing starts from the saved lines, nothing flagged. */
  function Open(saved: seq<string>, original: seq<string>): (f: Form)
    ensures f.saved == saved && f.original == original
    ensures f.verse == saved && f.errors == []
  {
    Form(saved, original, saved, [])
  }

  /** `line !== lines[idx]`, where an index past the end reads `undefined`. */
  predicate Differs(lines: seq<string>, idx: nat, line: string) {
    idx >= |lines| || lines[idx] != line
  }

  // ---------------------------------------------------------------- validation

  /** The indices below `n` of empty lines, in the order the `reduce` collects them. */
  function EmptyIndices(payload: seq<string>, n: nat): (idxs: seq<nat>)
    requires n <= |payload|
    ensures forall j :: 0 <= j < |idxs| ==> idxs[j] < n && payload[idxs[j]] == ""
    ensures forall i :: 0 <= i < n && payload[i] == "" ==> i in idxs
    ensures forall a, b :: 0 <= a < b < |idxs| ==> idxs[a] < idxs[b]
    decreases n
  {
    if n == 0 then []
    else
      var before := EmptyIndices(payload, n - 1);
      if payload[n - 1] == "" then before + [n - 1] else before
  }

  /** The flags name exactly the empty lines of the payload, in increasing order. */
  predicate FlagsEmptyLines(errors: seq<nat>, payload: seq<string>) {
    && (forall j :: 0 <= j < |errors| ==> errors[j] < |payload| && payload[errors[j]] == "")
    && (forall i :: 0 <= i < |payload| && payload[i] == "" ==> i in errors)
    && (forall a, b :: 0 <= a < b < |errors| ==> errors[a] < errors[b])
  }

  /**
   * `handleSaveWithValidation(payload)`: with no empty line the payload is
   * handed to the store and the flags are cleared; otherwise nothing is
   * handed over and exactly the empty lines are flagged, in increasing order.
   */
  function Validate(f: Form, payload: seq<string>): (r: Outcome)
    ensures r.form.(errors := f.errors) == f
    ensures r.committed.Some? <==> forall i :: 0 <= i < |payload| ==> payload[i] != ""
    ensures r.committed.Some? ==> r.committed.value == payload && r.form.errors == []
    ensures r.committed.None? ==> |r.form.errors| > 0 && FlagsEmptyLines(r.form.errors, payload)
  {
    var mistakes := EmptyIndices(payload, |payload|);
    assert |mistakes| > 0 ==> payload[mistakes[0]] == "";
    if |mistakes| == 0 then Outcome(f.(errors := []), Some(payload))
    else Outcome(f.(errors := mistakes), None)
  }

  /** A verse with a blank middle line is not saved and only that line is flagged. */
  lemma BlankLineBlocksSave(f: Form)
    ensures var r := Validate(f, ["Dog", "", "Fox"]);
            r.committed.None? && r.form.errors == [1]
  {
    var payload := ["Dog", "", "Fox"];
    assert EmptyIndices(payload, 1) == [];
    assert EmptyIndices(payload, 2) == [1];
    assert EmptyIndices(payload, 3) == [1];
  }

  // ---------------------------------------------------------------- editing

  /** `handleUpdateInput(idx)`: the line at `idx`, if any, takes the typed value; the flags are cleared. */
  function Edit(f: Form, idx: int, value: string): (r: Form)
    ensures r.saved == f.saved && r.original == f.original && r.errors == []
    ensures |r.verse| == |f.verse|
    ensures forall i :: 0 <= i < |f.verse| ==> r.verse[i] == if i == idx then value else f.verse[i]
  {
    var verse := seq(|f.verse|, i requires 0 <= i < |f.verse| => if i == idx then value else f.verse[i]);
    f.(verse := verse, errors := [])
  }

  /**
   * `handleResetLineText(idx)`: `-1` puts every line back to the original;
   * otherwise line `idx` goes back to its original text. The flags stay.
   */
  function ResetLine(f: Form, idx: int): (r: Form)
    requires idx == -1 || (0 <= idx < |f.verse| && idx < |f.original|)
    ensures r.(verse := f.verse) == f
    ensures idx == -1 ==> r.verse == f.original
    ensures idx != -1 ==>
              |r.verse| == |f.verse| && r.verse[idx] == f.original[idx]
              && forall i :: 0 <= i < |f.verse| && i != idx ==> r.verse[i] == f.verse[i]
  {
    if idx == -1 then f.(verse := f.original)
    else f.(verse := f.verse[..idx] + [f.original[idx]] + f.verse[idx + 1..])
  }

  /** `handleUndoRecentChanges(idx)`: line `idx` goes back to its saved text. */
  function Undo(f: Form, idx: nat): (r: Form)
    requires idx < |f.verse| && idx < |f.saved|
    ensures r.(verse := f.verse) == f
    ensures |r.verse| == |f.verse| && r.verse[idx] == f.saved[idx]
    ensures forall i :: 0 <= i < |f.verse| && i != idx ==> r.verse[i] == f.verse[i]
  {
    f.(verse := f.verse[..idx] + [f.saved[idx]] + f.verse[idx + 1..])
  }

  // ---------------------------------------------------------------- saving

  /**
   * What a save hands to validation: every edited line when no line is
   * named, otherwise the saved lines with only the named line taken from
   * the edit.
   */
  function Payload(f: Form, scope: Option<nat>): (p: seq<string>)
    requires scope.Some? ==> scope.value < |f.verse| && scope.value < |f.saved|
    ensures scope.None? ==> p == f.verse
    ensures scope.Some? ==>
              |p| == |f.saved| && p[scope.value] == f.verse[scope.value]
              && forall i :: 0 <= i < |f.saved| && i != scope.value ==> p[i] == f.saved[i]
  {
    match scope
    case None => f.verse
    case Some(idx) => f.saved[..idx] + [f.verse[idx]] + f.saved[idx + 1..]
  }

  /** `handleSave(idx)` of the features form, where an absent index means "save all". */
  function Save(f: Form, scope: Option<nat>): (r: Outcome)
    requires scope.Some? ==> scope.value < |f.verse| && scope.value < |f.saved|
    ensures r.form.(errors := f.errors) == f
    ensures r.committed.Some? <==>
              forall i :: 0 <= i < |Payload(f, scope)| ==> Payload(f, scope)[i] != ""
    ensures r.committed.Some? ==> r.committed.value == Payload(f, scope) && r.form.errors == []
    ensures r.committed.None? ==> |r.form.errors| > 0 && FlagsEmptyLines(r.form.errors, Payload(f, scope))
  {
    Validate(f, Payload(f, scope))
  }

  /** The editor's `handleSave(idx = -1)`: the sentinel `-1` means "save all". */
  function EditorScope(idx: int): (scope: Option<nat>)
    requires idx >= -1
    ensures scope.None? <==> idx == -1
    ensures scope.Some? ==> scope.value == idx
  {
    if idx == -1 then None else Some(idx)
  }

  /** Saving one line commits nothing but that line's edit; the other saved lines go back unchanged. */
  lemma SaveLineTouchesOneLine(f: Form, idx: nat)
    requires idx < |f.verse| && idx < |f.saved|
    ensures var r := Save(f, Some(idx));
            r.committed.Some? ==> r.committed.value == f.saved[idx := f.verse[idx]]
  {
    var p := Payload(f, Some(idx));
    assert p == f.saved[idx := f.verse[idx]];
  }

  // ---------------------------------------------------------------- derived flags

  /** `canSave`: some edited line differs from the saved line at its index. */
  predicate CanSave(f: Form) {
    exists i :: 0 <= i < |f.verse| && Differs(f.saved, i, f.verse[i])
  }

  /** `areAllOriginal`: every edited line equals the original line at its index. */
  predicate AreAllOriginal(f: Form) {
    forall i :: 0 <= i < |f.verse| ==> !Differs(f.original, i, f.verse[i])
  }

  /** When no line was added or removed, there is something to save exactly when the edit is not the saved verse. */
  lemma CanSaveIffChanged(f: Form)
    requires |f.verse| == |f.saved|
    ensures CanSave(f) <==> f.verse != f.saved
  {
    if f.verse != f.saved {
      var i :| 0 <= i < |f.verse| && f.verse[i] != f.saved[i];
      assert Differs(f.saved, i, f.verse[i]);
    }
  }

  /** Every line matches the original exactly when the edit is a prefix of the original verse. */
  lemma AreAllOriginalIffPrefix(f: Form)
    ensures AreAllOriginal(f) <==> f.verse <= f.original
  {
    if AreAllOriginal(f) && |f.verse| > 0 {
      var last := |f.verse| - 1;
      assert !Differs(f.original, last, f.verse[last]);
      assert f.original[..|f.verse|] == f.verse;
    }
  }

  /** `textBackgroundColor(line, idx)`. */
  function LineShade(f: Form, idx: nat): (s: Shade)
    requires idx < |f.verse|
    ensures s == UnsavedShade <==> Differs(f.saved, idx, f.verse[idx])
    ensures s == SavedShade <==> !Differs(f.saved, idx, f.verse[idx]) && Differs(f.original, idx, f.verse[idx])
    ensures s == Initial <==> !Differs(f.saved, idx, f.verse[idx]) && !Differs(f.original, idx, f.verse[idx])
  {
    var line := f.verse[idx];
    if Differs(f.original, idx, line) && !Differs(f.saved, idx, line) then SavedShade
    else if Differs(f.saved, idx, line) then UnsavedShade
    else Initial
  }

  /** The per-line save and undo buttons: disabled when the line equals its saved text. */
  predicate LineSaveDisabled(f: Form, idx: nat)
    requires idx < |f.verse|
  {
    !Differs(f.saved, idx, f.verse[idx])
  }

  /** The per-line reset button: disabled when the line equals its original text. */
  predicate LineResetDisabled(f: Form, idx: nat)
    requires idx < |f.verse|
  {
    !Differs(f.original, idx, f.verse[idx])
  }

  /** "Save all changes" is enabled exactly when some per-line save button is. */
  lemma SaveAllMatchesLineButtons(f: Form)
    ensures CanSave(f) <==> exists i :: 0 <= i < |f.verse| && !LineSaveDisabled(f, i)
  {
    if CanSave(f) {
      var i :| 0 <= i < |f.verse| && Differs(f.saved, i, f.verse[i]);
      assert !LineSaveDisabled(f, i);
    }
  }

  /** "Undo line changes" is disabled exactly when every per-line reset button is. */
  lemma UndoAllMatchesLineButtons(f: Form)
    ensures AreAllOriginal(f) <==> forall i :: 0 <= i < |f.verse| ==> LineResetDisabled(f, i)
  {
    if forall i :: 0 <= i < |f.verse| ==> LineResetDisabled(f, i) {
      forall i | 0 <= i < |f.verse| ensures !Differs(f.original, i, f.verse[i]) {
        assert LineResetDisabled(f, i);
      }
    }
  }

  /** Undoing a line leaves it out of the unsaved shade and disables its save button. */
  lemma UndoClearsUnsaved(f: Form, idx: nat)
    requires idx < |f.verse| && idx < |f.saved|
    ensures LineShade(Undo(f, idx), idx) != UnsavedShade
    ensures LineSaveDisabled(Undo(f, idx), idx)
  {
  }

  /** After resetting everything, every line shows its original text and "undo line changes" is disabled. */
  lemma ResetAllIsOriginal(f: Form)
    ensures AreAllOriginal(ResetLine(f, -1))
    ensures forall i :: 0 <= i < |f.original| ==> LineResetDisabled(ResetLine(f, -1), i)
  {
  }

  /**
   * Once a full save is committed and the form is mounted again on the
   * committed lines, there is nothing left to save and no line is unsaved.
   */
  lemma SaveAllThenReopen(f: Form)
    requires Save(f, None).committed.Some?
    ensures var g := Open(Save(f, None).committed.value, f.original);
            g.verse == f.verse && !CanSave(g)
            && forall i :: 0 <= i < |g.verse| ==> LineShade(g, i) != UnsavedShade
  {
  }
}
