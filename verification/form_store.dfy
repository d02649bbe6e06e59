/**
 * The features form page (src/features/HymnForm/HymnForm.tsx): saving one
 * verse with the uppercase codec under a label that is the verse's position
 * counted from one. Toggling "completed", resetting and the verse index are
 * the ones in `Hymns`.
 */
module FormStore {
  import opened Markup
  import opened Wrappers
  import opened Hymns
  import UpperCodec

  /** `String(currIdx + 1)`: the label a verse is saved under. */
  function PositionLabel(verseIdx: nat): (tag: string)
    ensures IsPlainLine(tag)
    ensures forall k :: 0 <= k < |tag| ==> IsDigit(tag[k])
    ensures DecimalValue(tag) == verseIdx + 1
  {
    DecimalIsPlain(verseIdx + 1);
    DecimalRoundTrip(verseIdx + 1);
    Decimal(verseIdx + 1)
  }

  /**
   * `handleSave(verseIdx)(updatedContent)`: the verse at `verseIdx` of the
   * selected hymn gets saved markup whose first line is its position and
   * whose body is the upper-case-encoded lines. Every line must be one the
   * encoder accepts without throwing.
   */
  function Save(s: Store, verseIdx: int, content: seq<string>): (r: Option<Store>)
    requires forall k :: 0 <= k < |content| ==> UpperCodec.Encodable(content[k])
    ensures SelectedHymn(s).None? ==> r == Some(s)
    ensures SiblingsFit(s) ==> r.Some?
    ensures r.None? ==> SelectedHymn(s).Some? && !SiblingsFit(s)
    ensures r.Some? ==> r.value.selectedHymnIdx == s.selectedHymnIdx && |r.value.hymns| == |s.hymns|
    ensures r.Some? && SelectedHymn(s).Some? ==>
              var sel := SelectedHymn(s).value;
              && |r.value.hymns[s.selectedHymnIdx].verses| == |sel.verses|
              && (forall i :: 0 <= i < |sel.verses| && i != verseIdx ==>
                    r.value.hymns[s.selectedHymnIdx].verses[i] == sel.verses[i])
              && (forall k :: 0 <= k < |s.hymns| && s.hymns[k].title != sel.title ==> r.value.hymns[k] == s.hymns[k])
    ensures r.Some? && SelectedHymn(s).Some? && 0 <= verseIdx < |SelectedHymn(s).value.verses| ==>
              var v := SelectedHymn(s).value.verses[verseIdx];
              var v' := r.value.hymns[s.selectedHymnIdx].verses[verseIdx];
              && v'.(updatedHtml := v.updatedHtml) == v
              && Decode(v'.updatedHtml)[0] == PositionLabel(verseIdx)
              && SavedBody(v') == Decode(UpperCodec.Join(content))
  {
    match SelectedHymn(s)
    case None => Some(s)
    case Some(sel) =>
      var html := if 0 <= verseIdx < |sel.verses|
        then Labelled(PositionLabel(verseIdx), UpperCodec.Join(content)) else "";
      SaveVerse(s, verseIdx, html)
  }

  /**
   * Reopening a saved verse shows the saved lines with their emphasised
   * letter upper-cased, under a label that reads as the verse's position.
   */
  lemma SaveThenReopen(s: Store, verseIdx: int, content: seq<string>)
    requires forall k :: 0 <= k < |content| ==> UpperCodec.Encodable(content[k]) && IsPlainLine(content[k])
    requires SelectedHymn(s).Some? && Save(s, verseIdx, content).Some?
    requires 0 <= verseIdx < |SelectedHymn(s).value.verses|
    requires |content| > 0
    ensures var v' := Save(s, verseIdx, content).value.hymns[s.selectedHymnIdx].verses[verseIdx];
            var tag := Decode(v'.updatedHtml)[0];
            && SavedBody(v') == UpperCodec.Encoded(content)
            && (forall k :: 0 <= k < |tag| ==> IsDigit(tag[k]))
            && DecimalValue(tag) == verseIdx + 1
  {
    UpperCodec.DecodeJoin(content);
  }
}
