/**
 * The verse buttons above a form: the editor's selector
 * (src/components/HymnEditor/VerseSelector.tsx), the features control bar
 * (src/features/HymnForm/ControlBar.tsx) and the earliest control bar
 * (src/components/HymnForm/ControlBar.tsx). All three lay the buttons out
 * in two rows and count a verse's changed lines the same way.
 */
module VerseNav {
  import opened Markup
  import opened Hymns
  import VerseBuffer

  // ---------------------------------------------------------------- change count

  /** The `reduce` over the first `n` saved lines: how many differ from the original line at their index. */
  function ChangesBelow(content: seq<string>, original: seq<string>, n: nat): (c: nat)
    requires n <= |content|
    ensures c <= n
    ensures c == 0 <==> forall i :: 0 <= i < n ==> !VerseBuffer.Differs(original, i, content[i])
    decreases n
  {
    if n == 0 then 0
    else ChangesBelow(content, original, n - 1) + (if VerseBuffer.Differs(original, n - 1, content[n - 1]) then 1 else 0)
  }

  /** `numberOfChanges` of a verse: changed lines of the saved body against the original body. */
  function ChangeCount(v: Verse): (c: nat)
    ensures c <= |SavedBody(v)|
    ensures c == 0 <==> SavedBody(v) <= OriginalBody(v)
  {
    var content, original := SavedBody(v), OriginalBody(v);
    NoDifferenceIsPrefix(content, original);
    ChangesBelow(content, original, |content|)
  }

  /** No saved line differing from the original at its index is the same as the saved lines being a prefix. */
  lemma NoDifferenceIsPrefix(content: seq<string>, original: seq<string>)
    ensures (forall i :: 0 <= i < |content| ==> !VerseBuffer.Differs(original, i, content[i]))
            <==> content <= original
  {
    if forall i :: 0 <= i < |content| ==> !VerseBuffer.Differs(original, i, content[i]) {
      if |content| > 0 {
        var last := |content| - 1;
        assert !VerseBuffer.Differs(original, last, content[last]);
        assert original[..|content|] == content;
      }
    }
  }

  /** A verse just reset (saved markup equal to the original) counts no changes. */
  lemma ResetVerseHasNoChanges(v: Verse)
    ensures ChangeCount(v.(updatedHtml := v.html)) == 0
  {
  }

  // ---------------------------------------------------------------- rows

  /** `verses.filter((_, idx) => idx < 11)`: the verse indices of the first row. */
  function RowOne(count: nat): (row: seq<nat>)
    ensures |row| == if count < 11 then count else 11
    ensures forall p :: 0 <= p < |row| ==> row[p] == p
  {
    seq(if count < 11 then count else 11, p requires 0 <= p => p)
  }

  /** `verses.length > 10 ? verses.slice(10) : []`, with `idx + 10` as each button's target. */
  function RowTwo(count: nat): (row: seq<nat>)
    ensures |row| == if count > 10 then count - 10 else 0
    ensures forall p :: 0 <= p < |row| ==> row[p] == p + 10
  {
    if count > 10 then seq(count - 10, p requires 0 <= p => p + 10) else []
  }

  /** Every verse has a button in some row, and every button targets an existing verse. */
  lemma RowsCoverVerses(count: nat)
    ensures forall i :: 0 <= i < count ==> i in RowOne(count) || i in RowTwo(count)
    ensures forall i :: i in RowOne(count) || i in RowTwo(count) ==> i < count
  {
    forall i | 0 <= i < count ensures i in RowOne(count) || i in RowTwo(count) {
      if i < 11 {
        assert RowOne(count)[i] == i;
      } else {
        assert RowTwo(count)[i - 10] == i;
      }
    }
  }

  /** With eleven verses or more, verse 10 has a button in both rows. */
  lemma VerseTenTwice(count: nat)
    requires count > 10
    ensures 10 in RowOne(count) && 10 in RowTwo(count)
  {
    assert RowOne(count)[10] == 10;
    assert RowTwo(count)[0] == 10;
  }

  /** The first row as evidently intended: the ten verses before the second row starts. */
  function RowOneCorrected(count: nat): (row: seq<nat>)
    ensures |row| == if count < 10 then count else 10
    ensures forall p :: 0 <= p < |row| ==> row[p] == p
  {
    seq(if count < 10 then count else 10, p requires 0 <= p => p)
  }

  /** With the corrected first row, every verse has exactly one button. */
  lemma CorrectedRowsPartition(count: nat)
    ensures forall i :: 0 <= i < count ==> (i in RowOneCorrected(count) <==> !(i in RowTwo(count)))
    ensures forall i :: i in RowOneCorrected(count) || i in RowTwo(count) ==> i < count
  {
    forall i | 0 <= i < count ensures i in RowOneCorrected(count) <==> !(i in RowTwo(count)) {
      if i < 10 {
        assert RowOneCorrected(count)[i] == i;
      } else {
        assert RowTwo(count)[i - 10] == i;
      }
    }
  }

  // ---------------------------------------------------------------- looks

  /** How a button is drawn. */
  datatype Look = Solid | SoftSaved | Soft

  /**
   * A button of the editor's selector: solid when it targets the selected
   * verse, otherwise soft, with the saved background when its verse has changes.
   */
  function SelectorLook(v: Verse, target: nat, value: int): (l: Look)
    ensures l == Solid <==> target == value
    ensures l == SoftSaved <==> target != value && !(SavedBody(v) <= OriginalBody(v))
  {
    if target == value then Solid
    else if ChangeCount(v) > 0 then SoftSaved
    else Soft
  }

  /** The success badge of the features control bar: drawn on first-row buttons of changed verses only. */
  function BadgeShown(v: Verse, inRowOne: bool): (shown: bool)
    ensures shown <==> inRowOne && !(SavedBody(v) <= OriginalBody(v))
  {
    inRowOne && ChangeCount(v) != 0
  }
}
