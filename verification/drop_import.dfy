/**
 * Importing hymns by dropping files on the hymn list
 * (src/components/HymnList/_components/DraggableContainer.tsx). Dropped
 * files wait for confirmation; the dialog lists the hymns already being
 * edited followed by the dropped hymns whose number is new, and confirming
 * replaces the list with the checked ones. Reading the files and filtering
 * them by type is left out: the operations take the parsed files.
 */
module DropImport {
  import opened Wrappers
  import opened Hymns
  import CheckList
  import HymnList

  /**
   * `handleDroppedFiles`: nothing dropped leaves the pending hymns alone;
   * otherwise the dropped files, made editable, replace them.
   */
  function Drop(pending: seq<Hymn>, files: seq<HymnFile>): (r: seq<Hymn>)
    ensures |files| == 0 ==> r == pending
    ensures |files| > 0 ==> |r| == |files|
    ensures |files| > 0 ==> forall k :: 0 <= k < |files| ==> r[k] == Normalise(files[k])
  {
    if |files| == 0 then pending
    else seq(|files|, k requires 0 <= k < |files| => Normalise(files[k]))
  }

  /** Every dropped hymn waits untouched: exporting it gives back its file. */
  lemma DropThenExport(pending: seq<Hymn>, files: seq<HymnFile>)
    requires |files| > 0
    ensures forall k :: 0 <= k < |files| ==>
              Drop(pending, files)[k].status == NotStarted && Export(Drop(pending, files)[k]) == files[k]
  {
    forall k | 0 <= k < |files|
      ensures Export(Drop(pending, files)[k]) == files[k]
    {
      ExportNormalise(files[k]);
    }
  }

  /**
   * `combinedFiles`: a left fold over the pending hymns starting from the
   * hymns being edited, appending a pending hymn when no hymn being edited
   * (the fold's start, not its accumulator) has its number.
   */
  function Combined(existing: seq<Hymn>, pending: seq<Hymn>): (r: seq<Hymn>)
    ensures existing <= r
    ensures |r| <= |existing| + |pending|
    ensures forall h :: h in r[|existing|..] <==> h in pending && h.num !in HymnList.Nums(existing)
    decreases |pending|
  {
    if |pending| == 0 then existing
    else
      var acc := Combined(existing, pending[..|pending| - 1]);
      var curr := pending[|pending| - 1];
      assert pending == pending[..|pending| - 1] + [curr];
      if curr.num in HymnList.Nums(existing) then acc
      else
        assert (acc + [curr])[|existing|..] == acc[|existing|..] + [curr];
        acc + [curr]
  }

  /**
   * The combined list is the hymns being edited followed by the pending
   * hymns whose numbers none of them has, in the order they were dropped.
   */
  lemma {:induction false} CombinedIsFilter(existing: seq<Hymn>, pending: seq<Hymn>)
    ensures Combined(existing, pending) == existing + HymnList.WithoutNums(pending, HymnList.Nums(existing))
    decreases |pending|
  {
    if |pending| > 0 {
      var init := pending[..|pending| - 1];
      var curr := pending[|pending| - 1];
      CombinedIsFilter(existing, init);
      assert pending == init + [curr];
      HymnList.WithoutNumsAppend(init, [curr], HymnList.Nums(existing));
      HymnList.WithoutNumsOne(curr, HymnList.Nums(existing));
    }
  }

  /** Dropping only hymns whose numbers are already being edited lists just those. */
  lemma {:induction false} CombinedSkipsKnown(existing: seq<Hymn>, pending: seq<Hymn>)
    requires forall k :: 0 <= k < |pending| ==> pending[k].num in HymnList.Nums(existing)
    ensures Combined(existing, pending) == existing
    decreases |pending|
  {
    if |pending| > 0 {
      CombinedSkipsKnown(existing, pending[..|pending| - 1]);
    }
  }

  /** Dropping only new numbers appends every dropped hymn, in order. */
  lemma {:induction false} CombinedAppendsNew(existing: seq<Hymn>, pending: seq<Hymn>)
    requires forall k :: 0 <= k < |pending| ==> pending[k].num !in HymnList.Nums(existing)
    ensures Combined(existing, pending) == existing + pending
    decreases |pending|
  {
    if |pending| > 0 {
      var init := pending[..|pending| - 1];
      CombinedAppendsNew(existing, init);
      assert pending == init + [pending[|pending| - 1]];
    }
  }

  /**
   * Numbers are checked against the hymns being edited only, so the same
   * new hymn dropped twice is listed twice.
   */
  lemma CombinedKeepsRepeats(existing: seq<Hymn>, h: Hymn)
    requires h.num !in HymnList.Nums(existing)
    ensures Combined(existing, [h, h]) == existing + [h, h]
  {
    CombinedAppendsNew(existing, [h, h]);
  }

  /** The dialog is rendered while hymns are pending, with the combined list as its data. */
  function DialogData(existing: seq<Hymn>, pending: seq<Hymn>): (data: Option<seq<Hymn>>)
    ensures data.Some? <==> |pending| > 0
    ensures data.Some? ==> existing <= data.value
  {
    if |pending| > 0 then Some(Combined(existing, pending)) else None
  }

  /** `handleCloseDialog` and `handleConfirm` both clear the pending hymns, which hides the dialog. */
  lemma ClearedHidesDialog(existing: seq<Hymn>)
    ensures DialogData(existing, []).None?
  {
  }

  /**
   * `handleConfirm(selectedHymns)` hands the checked hymns to the list's
   * import, which replaces the list and selects the first hymn.
   */
  function Confirm(list: seq<CheckList.Item<Hymn>>): (s: Store)
    ensures s.selectedHymnIdx == 0
    ensures s.hymns == CheckList.Checked(list)
    ensures forall h :: h in s.hymns ==> exists i :: 0 <= i < |list| && list[i].checked && list[i].value == h
    ensures forall i :: 0 <= i < |list| && list[i].checked ==> list[i].value in s.hymns
  {
    HymnList.Import(CheckList.Checked(list))
  }

  /**
   * Dropping files and confirming the dialog as opened keeps every hymn
   * being edited, in front, and adds the dropped hymns with new numbers.
   */
  lemma DropAndConfirm(existing: seq<Hymn>, pending: seq<Hymn>, files: seq<HymnFile>)
    requires |files| > 0
    ensures var dropped := Drop(pending, files);
            var s := Confirm(CheckList.Init(DialogData(existing, dropped).value));
            && s.hymns == Combined(existing, dropped)
            && existing <= s.hymns
            && forall k :: 0 <= k < |files| && files[k].num !in HymnList.Nums(existing) ==>
                 Normalise(files[k]) in s.hymns
  {
    var dropped := Drop(pending, files);
    CheckList.SubmitUntouched(Combined(existing, dropped));
    forall k | 0 <= k < |files| && files[k].num !in HymnList.Nums(existing)
      ensures Normalise(files[k]) in Combined(existing, dropped)
    {
      var c := Combined(existing, dropped);
      assert dropped[k] == Normalise(files[k]) && dropped[k].num == files[k].num;
      assert Normalise(files[k]) in c[|existing|..];
    }
  }
}
