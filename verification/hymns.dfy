/**
 * The hymn document model (src/types.tsx, and the older src/types.ts with the
 * same fields) and the store transitions that the editor and the features
 * form share line for line: selecting the hymn, toggling "completed",
 * resetting a hymn, and writing a verse list into every hymn of the selected
 * title while recomputing its status.
 */
module Hymns {
  import opened Markup
  import opened Wrappers

  datatype Status = NotStarted | InProgress | Completed

  /** A verse as stored in a hymn file. */
  datatype FileVerse = FileVerse(verseLabel: string, num: int, html: string)

  /** A hymn file: the import and export shape. */
  datatype HymnFile = HymnFile(lang: string, num: string, title: string, verses: seq<FileVerse>)

  /** A verse under edit: `html` is the imported markup, `updatedHtml` the last saved markup. */
  datatype Verse = Verse(verseLabel: string, num: int, html: string, updatedHtml: string)

  datatype Hymn = Hymn(lang: string, num: string, title: string, verses: seq<Verse>, status: Status)

  /** The persisted state: all hymns under edit and the index of the open one. */
  datatype Store = Store(hymns: seq<Hymn>, selectedHymnIdx: int)

  /** The state used when nothing has been persisted yet. */
  const DefaultStore: Store := Store([], -1)

  /** `hymns.find((_, idx) => idx === selectedHymnIdx)`. */
  function SelectedHymn(s: Store): (h: Option<Hymn>)
    ensures h.Some? <==> 0 <= s.selectedHymnIdx < |s.hymns|
    ensures h.Some? ==> h.value == s.hymns[s.selectedHymnIdx]
  {
    if 0 <= s.selectedHymnIdx < |s.hymns| then Some(s.hymns[s.selectedHymnIdx]) else None
  }

  // ---------------------------------------------------------------- import / export shape

  /** A freshly imported hymn: every verse's saved markup is its original, nothing started. */
  function Normalise(f: HymnFile): (h: Hymn)
    ensures h.lang == f.lang && h.num == f.num && h.title == f.title
    ensures h.status == NotStarted
    ensures |h.verses| == |f.verses|
    ensures forall k :: 0 <= k < |f.verses| ==>
              && h.verses[k].verseLabel == f.verses[k].verseLabel
              && h.verses[k].num == f.verses[k].num
              && h.verses[k].html == f.verses[k].html
              && h.verses[k].updatedHtml == f.verses[k].html
  {
    var verses := seq(|f.verses|, k requires 0 <= k < |f.verses| =>
      Verse(f.verses[k].verseLabel, f.verses[k].num, f.verses[k].html, f.verses[k].html));
    Hymn(f.lang, f.num, f.title, verses, NotStarted)
  }

  /** The exported shape of a hymn: no status, and each verse's saved markup becomes its `html`. */
  function Export(h: Hymn): (f: HymnFile)
    ensures f.lang == h.lang && f.num == h.num && f.title == h.title
    ensures |f.verses| == |h.verses|
    ensures forall k :: 0 <= k < |h.verses| ==>
              f.verses[k] == FileVerse(h.verses[k].verseLabel, h.verses[k].num, h.verses[k].updatedHtml)
  {
    var verses := seq(|h.verses|, k requires 0 <= k < |h.verses| =>
      FileVerse(h.verses[k].verseLabel, h.verses[k].num, h.verses[k].updatedHtml));
    HymnFile(h.lang, h.num, h.title, verses)
  }

  /** Exporting a hymn straight after importing it gives back the file. */
  lemma ExportNormalise(f: HymnFile)
    ensures Export(Normalise(f)) == f
  {
    assert Export(Normalise(f)).verses == f.verses;
  }

  // ---------------------------------------------------------------- verse bodies

  /** The lines shown for editing: the decoded saved markup without its label line. */
  function SavedBody(v: Verse): seq<string> {
    Decode(v.updatedHtml)[1..]
  }

  /** The original lines of a verse without its label line. */
  function OriginalBody(v: Verse): seq<string> {
    Decode(v.html)[1..]
  }

  // ---------------------------------------------------------------- status

  /**
   * `splitOriginal.every((line, idx) => line === splitUpdated[idx])`: every
   * original line equals the updated line at its index, which is undefined
   * past the end of `updated`.
   */
  predicate EveryLineMatches(original: seq<string>, updated: seq<string>) {
    forall j :: 0 <= j < |original| ==> j < |updated| && original[j] == updated[j]
  }

  /** The per-line check is exactly "the original lines are a prefix of the updated lines". */
  lemma EveryLineMatchesIsPrefix(original: seq<string>, updated: seq<string>)
    ensures EveryLineMatches(original, updated) <==> original <= updated
  {
    if EveryLineMatches(original, updated) && |original| > 0 {
      var last := |original| - 1;
      assert original[last] == original[last];
      assert last < |updated|;
      assert updated[..|original|] == original;
    }
  }

  /**
   * One verse of `isSameAsOriginal`: the hymn's own verse decodes to a
   * prefix of the updated markup of the new verse at the same index.
   */
  predicate VerseMatches(own: Verse, updated: Verse) {
    Decode(own.html) <= Decode(updated.updatedHtml)
  }

  /** The inner `every` for one verse: each original line equals the saved line at its index. */
  predicate LinesMatch(own: Verse, updated: Verse) {
    EveryLineMatches(Decode(own.html), Decode(updated.updatedHtml))
  }

  lemma LinesMatchIsMatch(own: Verse, updated: Verse)
    ensures LinesMatch(own, updated) <==> VerseMatches(own, updated)
  {
    EveryLineMatchesIsPrefix(Decode(own.html), Decode(updated.updatedHtml));
  }

  lemma LinesMatchIsMatchEverywhere()
    ensures forall own, updated :: LinesMatch(own, updated) <==> VerseMatches(own, updated)
  {
    forall own, updated ensures LinesMatch(own, updated) <==> VerseMatches(own, updated) {
      LinesMatchIsMatch(own, updated);
    }
  }

  /**
   * `isSameAsOriginal` throws: the scan over the hymn's own verses passes
   * every index the new list has and then reads `verses[idx].updatedHtml`
   * with `verses[idx]` undefined.
   */
  predicate ScanThrows(own: seq<Verse>, updated: seq<Verse>) {
    |updated| < |own| && forall i {:trigger VerseMatches(own[i], updated[i])} :: 0 <= i < |updated| ==> VerseMatches(own[i], updated[i])
  }

  /** `isSameAsOriginal` is true: every own verse has a partner in the new list and matches it. */
  predicate ScanSame(own: seq<Verse>, updated: seq<Verse>) {
    |own| <= |updated| && forall i {:trigger VerseMatches(own[i], updated[i])} :: 0 <= i < |own| ==> VerseMatches(own[i], updated[i])
  }

  /**
   * `hymn.verses.every((verse, idx) => ...)` against the new verse list
   * `updated`: the scan runs left to right and stops at the first verse
   * that does not match; `None` is the `TypeError` raised on reaching an
   * index the new list lacks.
   */
  function SameScan(own: seq<Verse>, updated: seq<Verse>): (r: Option<bool>)
    ensures r.None? <==> ScanThrows(own, updated)
    ensures r == Some(true) <==> ScanSame(own, updated)
  {
    LinesMatchIsMatchEverywhere();
    Every(LinesMatch, own, updated, 0)
  }

  /**
   * `own.every((verse, idx) => test(verse, updated[idx]))` from index `idx`
   * on, once every earlier verse has found its partner and passed: `None`
   * when the scan reaches an index `updated` lacks.
   */
  function Every(test: (Verse, Verse) -> bool, own: seq<Verse>, updated: seq<Verse>, idx: nat): (r: Option<bool>)
    requires idx <= |own| && idx <= |updated|
    ensures r.None? <==>
              |updated| < |own| && forall i :: idx <= i < |updated| ==> test(own[i], updated[i])
    ensures r == Some(true) <==>
              |own| <= |updated| && forall i :: idx <= i < |own| ==> test(own[i], updated[i])
    decreases |own| - idx
  {
    if idx == |own| then Some(true)
    else if idx >= |updated| then None
    else if !test(own[idx], updated[idx]) then Some(false)
    else Every(test, own, updated, idx + 1)
  }

  /** The hymn a save produces from `h`: unchanged under another title, `None` when the scan throws. */
  function ApplyTo(h: Hymn, title: string, verses: seq<Verse>): (r: Option<Hymn>)
    ensures h.title != title ==> r == Some(h)
    ensures h.title == title ==>
              && (r.None? <==> ScanThrows(h.verses, verses))
              && (r.Some? ==> r.value == h.(verses := verses, status := if ScanSame(h.verses, verses) then NotStarted else InProgress))
  {
    if h.title != title then Some(h)
    else match SameScan(h.verses, verses)
      case None => None
      case Some(same) => Some(h.(verses := verses, status := if same then NotStarted else InProgress))
  }

  /**
   * The shared tail of every `handleSave`: each hymn of the selected title
   * takes the new verse list, and its status is recomputed from scratch, so a
   * `completed` status does not survive a save. `None` is the exception a
   * hymn of that title raises when it has more verses than the new list and
   * its first ones all match; the store is then not written.
   */
  function ApplyVerses(s: Store, title: string, verses: seq<Verse>): (r: Option<Store>)
    ensures r.None? <==>
              exists k :: 0 <= k < |s.hymns| && s.hymns[k].title == title && ScanThrows(s.hymns[k].verses, verses)
    ensures r.Some? ==> r.value.selectedHymnIdx == s.selectedHymnIdx && |r.value.hymns| == |s.hymns|
    ensures r.Some? ==>
              forall k :: 0 <= k < |s.hymns| && s.hymns[k].title != title ==> r.value.hymns[k] == s.hymns[k]
    ensures r.Some? ==>
              forall k :: 0 <= k < |s.hymns| && s.hymns[k].title == title ==>
                && r.value.hymns[k].lang == s.hymns[k].lang
                && r.value.hymns[k].num == s.hymns[k].num
                && r.value.hymns[k].title == title
                && r.value.hymns[k].verses == verses
                && r.value.hymns[k].status != Completed
                && (r.value.hymns[k].status == NotStarted <==> ScanSame(s.hymns[k].verses, verses))
  {
    if exists k :: 0 <= k < |s.hymns| && ApplyTo(s.hymns[k], title, verses).None? then None
    else
      var hymns := seq(|s.hymns|, k requires 0 <= k < |s.hymns| => ApplyTo(s.hymns[k], title, verses).value);
      assert forall k :: 0 <= k < |s.hymns| && s.hymns[k].title == title ==>
        (hymns[k].status == NotStarted <==> ScanSame(s.hymns[k].verses, verses));
      Some(Store(hymns, s.selectedHymnIdx))
  }

  /** Every hymn sharing the selected hymn's title has no more verses than it. */
  predicate SiblingsFit(s: Store) {
    SelectedHymn(s).Some? ==>
      forall k :: 0 <= k < |s.hymns| && s.hymns[k].title == SelectedHymn(s).value.title ==>
        |s.hymns[k].verses| <= |SelectedHymn(s).value.verses|
  }

  /** The markup every save writes: `<b>${tag}</b><br>` followed by the encoded body. */
  function Labelled(tag: string, body: string): (html: string)
    ensures '<' !in tag ==> Decode(html) == [tag] + Decode(body)
  {
    assert '<' !in tag ==> Decode(BoldOpen + tag + BoldClose + Br + body) == [tag] + Decode(body) by {
      if '<' !in tag {
        DecodeLabelled(tag, body);
      }
    }
    BoldOpen + tag + BoldClose + Br + body
  }

  /** The selected hymn's verse list with the verse at `verseIdx` carrying new saved markup. */
  function WithVerse(verses: seq<Verse>, verseIdx: int, updatedHtml: string): (r: seq<Verse>)
    ensures |r| == |verses|
    ensures forall i :: 0 <= i < |verses| && i != verseIdx ==> r[i] == verses[i]
    ensures 0 <= verseIdx < |verses| ==> r[verseIdx] == verses[verseIdx].(updatedHtml := updatedHtml)
  {
    seq(|verses|, i requires 0 <= i < |verses| =>
      if i == verseIdx then verses[i].(updatedHtml := updatedHtml) else verses[i])
  }

  /**
   * The common body of every `handleSave`: without a selected hymn nothing
   * changes; otherwise the selected hymn's verse at `verseIdx` takes the new
   * markup and the resulting verse list goes to every hymn of its title.
   * Only a hymn of that title with more verses than the selected one can
   * make the save throw (`None`).
   */
  function SaveVerse(s: Store, verseIdx: int, updatedHtml: string): (r: Option<Store>)
    ensures SelectedHymn(s).None? ==> r == Some(s)
    ensures SiblingsFit(s) ==> r.Some?
    ensures r.None? ==>
              SelectedHymn(s).Some? &&
              exists k :: 0 <= k < |s.hymns| && s.hymns[k].title == SelectedHymn(s).value.title
                          && |s.hymns[k].verses| > |SelectedHymn(s).value.verses|
    ensures r.Some? ==> r.value.selectedHymnIdx == s.selectedHymnIdx && |r.value.hymns| == |s.hymns|
    ensures r.Some? && SelectedHymn(s).Some? ==>
              var sel := SelectedHymn(s).value;
              var verses := r.value.hymns[s.selectedHymnIdx].verses;
              && |verses| == |sel.verses|
              && (forall i :: 0 <= i < |sel.verses| && i != verseIdx ==> verses[i] == sel.verses[i])
              && (0 <= verseIdx < |sel.verses| ==>
                    verses[verseIdx] == sel.verses[verseIdx].(updatedHtml := updatedHtml))
              && (forall k :: 0 <= k < |s.hymns| && s.hymns[k].title != sel.title ==> r.value.hymns[k] == s.hymns[k])
              && (forall k :: 0 <= k < |s.hymns| && s.hymns[k].title == sel.title ==>
                    r.value.hymns[k].verses == verses && r.value.hymns[k].status != Completed
                    && r.value.hymns[k].(verses := s.hymns[k].verses, status := s.hymns[k].status) == s.hymns[k])
  {
    match SelectedHymn(s)
    case None => Some(s)
    case Some(sel) =>
      var verses := WithVerse(sel.verses, verseIdx, updatedHtml);
      var r := ApplyVerses(s, sel.title, verses);
      assert s.hymns[s.selectedHymnIdx] == sel;
      r
  }

  /**
   * A hymn of the selected title with more verses than the selected one,
   * whose first verses all match the new list, makes the save throw.
   */
  lemma LongerMatchingSiblingThrows(s: Store, verseIdx: int, updatedHtml: string, k: nat)
    requires SelectedHymn(s).Some? && k < |s.hymns|
    requires s.hymns[k].title == SelectedHymn(s).value.title
    requires ScanThrows(s.hymns[k].verses, WithVerse(SelectedHymn(s).value.verses, verseIdx, updatedHtml))
    ensures SaveVerse(s, verseIdx, updatedHtml).None?
  {
  }

  /**
   * A hymn of the selected title with more verses than the selected one,
   * one of whose first verses does not match, is cut down to the selected
   * hymn's verse list and reads as in progress.
   */
  lemma LongerDifferingSiblingTruncated(s: Store, verseIdx: int, updatedHtml: string, k: nat, i: nat)
    requires SelectedHymn(s).Some? && k < |s.hymns|
    requires SaveVerse(s, verseIdx, updatedHtml).Some?
    requires s.hymns[k].title == SelectedHymn(s).value.title
    requires i < |SelectedHymn(s).value.verses| < |s.hymns[k].verses|
    requires !VerseMatches(s.hymns[k].verses[i], WithVerse(SelectedHymn(s).value.verses, verseIdx, updatedHtml)[i])
    ensures var h := SaveVerse(s, verseIdx, updatedHtml).value.hymns[k];
            |h.verses| == |SelectedHymn(s).value.verses| < |s.hymns[k].verses| && h.status == InProgress
  {
  }

  /** After a successful save, the selection is on a hymn of the same title and that title's hymns fit. */
  lemma SaveVerseKeepsFit(s: Store, verseIdx: int, updatedHtml: string)
    requires SelectedHymn(s).Some? && SaveVerse(s, verseIdx, updatedHtml).Some?
    ensures var once := SaveVerse(s, verseIdx, updatedHtml).value;
            && SelectedHymn(once) == Some(once.hymns[s.selectedHymnIdx])
            && once.hymns[s.selectedHymnIdx].title == SelectedHymn(s).value.title
            && SiblingsFit(once)
  {
    var sel := SelectedHymn(s).value;
    var once := SaveVerse(s, verseIdx, updatedHtml).value;
    var h1 := once.hymns[s.selectedHymnIdx];
    assert SelectedHymn(once) == Some(h1);
    forall k | 0 <= k < |once.hymns| && once.hymns[k].title == sel.title
      ensures |once.hymns[k].verses| <= |h1.verses|
    {
      assert s.hymns[k].title == sel.title;
    }
  }

  /**
   * After a save the selected hymn reads as not started exactly when every
   * one of its verses, as now saved, decodes to its original lines followed
   * by possibly more.
   */
  lemma SaveVerseStatus(s: Store, verseIdx: int, updatedHtml: string)
    requires SelectedHymn(s).Some? && SaveVerse(s, verseIdx, updatedHtml).Some?
    ensures var h := SaveVerse(s, verseIdx, updatedHtml).value.hymns[s.selectedHymnIdx];
            && h.status != Completed
            && (h.status == NotStarted <==>
                  forall i :: 0 <= i < |h.verses| ==> Decode(h.verses[i].html) <= Decode(h.verses[i].updatedHtml))
  {
    var sel := SelectedHymn(s).value;
    var verses := WithVerse(sel.verses, verseIdx, updatedHtml);
    var r := ApplyVerses(s, sel.title, verses).value;
    assert SaveVerse(s, verseIdx, updatedHtml).value == r;
    assert s.hymns[s.selectedHymnIdx] == sel;
    var h := r.hymns[s.selectedHymnIdx];
    assert h.verses == verses;
    assert h.status == NotStarted <==> ScanSame(sel.verses, verses);
    assert forall i :: 0 <= i < |verses| ==>
      (VerseMatches(sel.verses[i], verses[i]) <==> Decode(h.verses[i].html) <= Decode(h.verses[i].updatedHtml));
  }

  /**
   * Writing the same markup into the same verse twice: the second write
   * cannot throw, and leaves the selected hymn as the first write left it.
   */
  lemma SaveVerseTwice(s: Store, verseIdx: int, updatedHtml: string)
    requires SelectedHymn(s).Some? && SaveVerse(s, verseIdx, updatedHtml).Some?
    ensures var once := SaveVerse(s, verseIdx, updatedHtml).value;
            && SaveVerse(once, verseIdx, updatedHtml).Some?
            && SaveVerse(once, verseIdx, updatedHtml).value.hymns[s.selectedHymnIdx] == once.hymns[s.selectedHymnIdx]
  {
    SaveVerseKeepsFit(s, verseIdx, updatedHtml);
    var once := SaveVerse(s, verseIdx, updatedHtml).value;
    assert SaveVerse(once, verseIdx, updatedHtml).Some?;
    SaveVerseStatus(s, verseIdx, updatedHtml);
    SaveVerseStatus(once, verseIdx, updatedHtml);
    var h1 := once.hymns[s.selectedHymnIdx];
    var twice := SaveVerse(once, verseIdx, updatedHtml).value;
    var h2 := twice.hymns[s.selectedHymnIdx];
    assert SelectedHymn(once).value == h1;
    assert h2.verses == WithVerse(h1.verses, verseIdx, updatedHtml);
    assert h2.verses == h1.verses;
    assert h2.status == h1.status;
  }

  // ---------------------------------------------------------------- mark complete / reset

  /**
   * `handleMarkComplete` of the editor and of the features form: every hymn
   * with the selected hymn's title flips between `completed` and in-progress
   * (a not-started hymn becomes completed); nothing happens without a selection.
   */
  function ToggleComplete(s: Store): (r: Store)
    ensures SelectedHymn(s).None? ==> r == s
    ensures r.selectedHymnIdx == s.selectedHymnIdx && |r.hymns| == |s.hymns|
    ensures forall k :: 0 <= k < |s.hymns| ==>
              && r.hymns[k].(status := s.hymns[k].status) == s.hymns[k]
              && (SelectedHymn(s).Some? && s.hymns[k].title == SelectedHymn(s).value.title ==>
                    && (s.hymns[k].status == Completed ==> r.hymns[k].status == InProgress)
                    && (s.hymns[k].status != Completed ==> r.hymns[k].status == Completed))
              && (SelectedHymn(s).None? || s.hymns[k].title != SelectedHymn(s).value.title ==>
                    r.hymns[k] == s.hymns[k])
  {
    match SelectedHymn(s)
    case None => s
    case Some(sel) =>
      var hymns := seq(|s.hymns|, k requires 0 <= k < |s.hymns| =>
        var h := s.hymns[k];
        if h.title != sel.title then h
        else h.(status := if h.status == Completed then InProgress else Completed));
      s.(hymns := hymns)
  }

  /**
   * Toggling twice restores every hymn except a not-started one of the
   * selected title, which ends in progress (not-started, completed, then
   * in-progress); with the UI guard in force (the button is disabled while
   * the status is not-started) that exception cannot arise and the store is
   * restored.
   */
  lemma ToggleCompleteTwice(s: Store)
    ensures var twice := ToggleComplete(ToggleComplete(s));
            && twice.selectedHymnIdx == s.selectedHymnIdx && |twice.hymns| == |s.hymns|
            && forall k :: 0 <= k < |s.hymns| ==>
                 twice.hymns[k] ==
                   if SelectedHymn(s).Some? && s.hymns[k].title == SelectedHymn(s).value.title
                      && s.hymns[k].status == NotStarted
                   then s.hymns[k].(status := InProgress) else s.hymns[k]
    ensures SelectedHymn(s).Some? &&
            (forall k :: 0 <= k < |s.hymns| && s.hymns[k].title == SelectedHymn(s).value.title ==>
               s.hymns[k].status != NotStarted)
            ==> ToggleComplete(ToggleComplete(s)) == s
  {
    var once := ToggleComplete(s);
    if SelectedHymn(s).Some? {
      assert SelectedHymn(once).Some? && SelectedHymn(once).value.title == SelectedHymn(s).value.title;
    }
    var twice := ToggleComplete(once);
    if SelectedHymn(s).Some? &&
       (forall k :: 0 <= k < |s.hymns| && s.hymns[k].title == SelectedHymn(s).value.title ==>
          s.hymns[k].status != NotStarted) {
      assert twice.hymns == s.hymns;
    }
  }

  /** Every verse of a hymn back to its original markup. */
  function ResetVerses(verses: seq<Verse>): (r: seq<Verse>)
    ensures |r| == |verses|
    ensures forall i :: 0 <= i < |verses| ==> r[i] == verses[i].(updatedHtml := verses[i].html)
  {
    seq(|verses|, i requires 0 <= i < |verses| => verses[i].(updatedHtml := verses[i].html))
  }

  /**
   * `handleReset` of the editor and of the features form: only the hymn at
   * `selectedHymnIdx` changes; its verses drop their saved markup and it is
   * not-started again.
   */
  function Reset(s: Store): (r: Store)
    ensures r.selectedHymnIdx == s.selectedHymnIdx && |r.hymns| == |s.hymns|
    ensures forall k :: 0 <= k < |s.hymns| && k != s.selectedHymnIdx ==> r.hymns[k] == s.hymns[k]
    ensures 0 <= s.selectedHymnIdx < |s.hymns| ==>
              var h := s.hymns[s.selectedHymnIdx];
              var h' := r.hymns[s.selectedHymnIdx];
              && h'.status == NotStarted
              && h'.(verses := h.verses, status := h.status) == h
              && |h'.verses| == |h.verses|
              && forall i :: 0 <= i < |h.verses| ==>
                   h'.verses[i].updatedHtml == h.verses[i].html
                   && h'.verses[i].(updatedHtml := h.verses[i].updatedHtml) == h.verses[i]
  {
    var hymns := seq(|s.hymns|, k requires 0 <= k < |s.hymns| =>
      if k != s.selectedHymnIdx then s.hymns[k]
      else s.hymns[k].(verses := ResetVerses(s.hymns[k].verses), status := NotStarted));
    Store(hymns, s.selectedHymnIdx)
  }

  /** After a reset, re-deriving the status of the reset hymn gives not-started again. */
  lemma ResetIsSameAsOriginal(s: Store)
    requires 0 <= s.selectedHymnIdx < |s.hymns|
    ensures var h := s.hymns[s.selectedHymnIdx];
            SameScan(h.verses, Reset(s).hymns[s.selectedHymnIdx].verses) == Some(true)
  {
    var h := s.hymns[s.selectedHymnIdx];
    var h' := Reset(s).hymns[s.selectedHymnIdx];
    forall i | 0 <= i < |h.verses|
      ensures VerseMatches(h.verses[i], h'.verses[i])
    {
      assert h'.verses[i].updatedHtml == h.verses[i].html;
    }
  }

  /**
   * The editor's effect on `selectedHymnIdx`: whenever the selected hymn index
   * changes, the selected verse goes back to 0.
   */
  function VerseIdxAfter(previousHymnIdx: int, hymnIdx: int, verseIdx: int): (r: int)
    ensures previousHymnIdx != hymnIdx ==> r == 0
    ensures previousHymnIdx == hymnIdx ==> r == verseIdx
  {
    if previousHymnIdx != hymnIdx then 0 else verseIdx
  }
}
