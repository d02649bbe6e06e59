/**
 * Picking hymns from the catalog (src/features/HymnList/HymnListModal.tsx
 * and its predecessor src/components/HymnList/HymnListModal.tsx). The
 * selection is a list of catalog positions kept in ascending order; the
 * submitted list takes each selected catalog entry, preferring the hymn
 * already being edited under the same number. Fetching the catalog is left
 * out: the catalog is a parameter.
 */
module CatalogPicker {
  import opened Markup
  import opened Wrappers
  import opened Hymns

  // ---------------------------------------------------------------- lookups

  /** `catalog.findIndex((item) => item.num === num)`: the first position with that number, or -1. */
  function FindByNum(catalog: seq<HymnFile>, num: string): (idx: int)
    ensures -1 <= idx < |catalog|
    ensures idx == -1 <==> forall j :: 0 <= j < |catalog| ==> catalog[j].num != num
    ensures idx >= 0 ==> catalog[idx].num == num && forall j :: 0 <= j < idx ==> catalog[j].num != num
    decreases |catalog|
  {
    if |catalog| == 0 then -1
    else if catalog[0].num == num then 0
    else
      var r := FindByNum(catalog[1..], num);
      if r == -1 then -1 else r + 1
  }

  /** `hymns.find((hymn) => hymn.num === num)`: the first hymn with that number. */
  function FindHymn(hymns: seq<Hymn>, num: string): (h: Option<Hymn>)
    ensures h.None? <==> forall j :: 0 <= j < |hymns| ==> hymns[j].num != num
    ensures h.Some? <==> Editing(hymns, num)
    ensures h.Some? ==> exists i :: 0 <= i < |hymns| && hymns[i] == h.value && h.value.num == num
                                    && forall j :: 0 <= j < i ==> hymns[j].num != num
    decreases |hymns|
  {
    if |hymns| == 0 then None
    else if hymns[0].num == num then Some(hymns[0])
    else
      var r := FindHymn(hymns[1..], num);
      assert r.Some? ==> exists i :: 0 <= i < |hymns| && hymns[i] == r.value && r.value.num == num
                                     && forall j :: 0 <= j < i ==> hymns[j].num != num by {
        if r.Some? {
          var i :| 0 <= i < |hymns| - 1 && hymns[1..][i] == r.value && r.value.num == num
                   && forall j :: 0 <= j < i ==> hymns[1..][j].num != num;
          assert hymns[i + 1] == r.value;
          assert forall j :: 0 <= j < i + 1 ==> hymns[j].num != num by {
            assert forall j :: 1 <= j < i + 1 ==> hymns[j] == hymns[1..][j - 1];
          }
        }
      }
      r
  }

  /** In a list whose numbers are distinct, looking up a hymn's number finds that hymn. */
  lemma FindOwnNumber(hymns: seq<Hymn>, k: nat)
    requires k < |hymns|
    requires forall i, j :: 0 <= i < |hymns| && 0 <= j < |hymns| && hymns[i].num == hymns[j].num ==> i == j
    ensures FindHymn(hymns, hymns[k].num) == Some(hymns[k])
  {
    var h := FindHymn(hymns, hymns[k].num);
    var i :| 0 <= i < |hymns| && hymns[i] == h.value && h.value.num == hymns[k].num
             && forall j :: 0 <= j < i ==> hymns[j].num != hymns[k].num;
  }

  /** Some catalog entry carries this number. */
  predicate Listed(catalog: seq<HymnFile>, num: string) {
    exists j :: 0 <= j < |catalog| && catalog[j].num == num
  }

  /** Some hymn being edited carries this number. */
  predicate Editing(hymns: seq<Hymn>, num: string) {
    exists j :: 0 <= j < |hymns| && hymns[j].num == num
  }

  /** The selection as loaded: each hymn being edited at its catalog position, -1 when it is not there. */
  function InitialSelection(catalog: seq<HymnFile>, hymns: seq<Hymn>): (sel: seq<int>)
    ensures |sel| == |hymns|
    ensures forall k :: 0 <= k < |hymns| ==> -1 <= sel[k] < |catalog|
    ensures forall k :: 0 <= k < |hymns| && sel[k] >= 0 ==> catalog[sel[k]].num == hymns[k].num
    ensures forall k :: 0 <= k < |hymns| ==>
              (sel[k] == -1 <==> forall j :: 0 <= j < |catalog| ==> catalog[j].num != hymns[k].num)
  {
    seq(|hymns|, k requires 0 <= k < |hymns| => FindByNum(catalog, hymns[k].num))
  }

  // ---------------------------------------------------------------- ascending selection

  predicate Sorted(s: seq<int>) {
    forall i, j :: 0 <= i < j < |s| ==> s[i] <= s[j]
  }

  predicate StrictlySorted(s: seq<int>) {
    forall i, j :: 0 <= i < j < |s| ==> s[i] < s[j]
  }

  /** One step of sorting numbers ascending: `x` placed before the first larger-or-equal element. */
  function Insert(x: int, s: seq<int>): (r: seq<int>)
    requires Sorted(s)
    ensures |r| == |s| + 1
    ensures r[0] == if |s| == 0 || x <= s[0] then x else s[0]
    ensures Sorted(r)
    ensures multiset(r) == multiset(s) + multiset{x}
    decreases |s|
  {
    if |s| == 0 || x <= s[0] then [x] + s
    else
      var rest := Insert(x, s[1..]);
      assert s == [s[0]] + s[1..];
      assert s[0] <= rest[0];
      [s[0]] + rest
  }

  /** `sort((a, b) => a - b)`: the same numbers, ascending. */
  function Sort(s: seq<int>): (r: seq<int>)
    ensures Sorted(r)
    ensures multiset(r) == multiset(s)
    decreases |s|
  {
    if |s| == 0 then []
    else
      assert s == [s[0]] + s[1..];
      Insert(s[0], Sort(s[1..]))
  }

  /** Lists holding the same numbers have the same members. */
  lemma SameMembers(a: seq<int>, b: seq<int>)
    requires multiset(a) == multiset(b)
    ensures forall x :: x in a <==> x in b
  {
    forall x ensures x in a <==> x in b {
      assert x in a <==> x in multiset(a);
      assert x in b <==> x in multiset(b);
    }
  }

  /** Dropping the head of a list drops one copy of it from the numbers held. */
  lemma MultisetTail(a: seq<int>)
    requires |a| > 0
    ensures multiset(a[1..]) == multiset(a) - multiset{a[0]}
  {
    assert a == [a[0]] + a[1..];
  }

  /** The head of an ascending list is its least member. */
  lemma HeadIsLeast(a: seq<int>, x: int)
    requires Sorted(a) && x in a
    ensures a[0] <= x
  {
  }

  /** The tail of an ascending list is ascending. */
  lemma SortedTail(a: seq<int>)
    requires Sorted(a) && |a| > 0
    ensures Sorted(a[1..])
  {
  }

  /** Two ascending lists holding the same numbers start with the same number. */
  lemma HeadsAgree(a: seq<int>, b: seq<int>)
    requires Sorted(a) && Sorted(b) && multiset(a) == multiset(b) && |a| > 0
    ensures |b| > 0 && a[0] == b[0]
  {
    assert |multiset(b)| == |a|;
    assert a[0] in multiset(a) && b[0] in multiset(b);
    HeadIsLeast(b, a[0]);
    HeadIsLeast(a, b[0]);
  }

  /** Two ascending lists holding the same numbers are the same list. */
  lemma {:induction false} SortedUnique(a: seq<int>, b: seq<int>)
    requires Sorted(a) && Sorted(b) && multiset(a) == multiset(b)
    ensures a == b
    decreases |a|
  {
    if |a| > 0 {
      HeadsAgree(a, b);
      MultisetTail(a);
      MultisetTail(b);
      SortedTail(a);
      SortedTail(b);
      var ta, tb := a[1..], b[1..];
      SortedUnique(ta, tb);
      assert a == [a[0]] + ta;
      assert b == [b[0]] + tb;
    } else {
      assert |multiset(b)| == 0;
    }
  }

  /** In a strictly ascending list every number occurs at most once. */
  lemma {:induction false} StrictOnce(s: seq<int>, x: int)
    requires StrictlySorted(s)
    ensures multiset(s)[x] <= 1
    decreases |s|
  {
    if |s| > 0 {
      assert s == [s[0]] + s[1..];
      StrictOnce(s[1..], x);
      if x == s[0] {
        assert x !in s[1..];
      }
    }
  }

  /** `selectedIdxs.filter((i) => i !== idx)`: every occurrence removed. */
  function RemoveValue(s: seq<int>, x: int): (r: seq<int>)
    ensures multiset(r) == multiset(s)[x := 0]
    ensures forall y :: y in r <==> y in s && y != x
    decreases |s|
  {
    if |s| == 0 then []
    else
      assert s == [s[0]] + s[1..];
      (if s[0] == x then [] else [s[0]]) + RemoveValue(s[1..], x)
  }

  /**
   * `handleClick(idx)`: the catalog position leaves the selection when it
   * is in it and joins it otherwise, and the selection is re-sorted.
   */
  function Click(sel: seq<int>, idx: int): (r: seq<int>)
    ensures Sorted(r)
    ensures forall x :: x in r <==> (if x == idx then idx !in sel else x in sel)
    ensures idx in sel ==> multiset(r) == multiset(sel)[idx := 0]
    ensures idx !in sel ==> multiset(r) == multiset(sel) + multiset{idx}
  {
    var next := if idx in sel then RemoveValue(sel, idx) else sel + [idx];
    var r := Sort(next);
    SameMembers(r, next);
    r
  }

  /** On a selection of distinct ascending positions, clicking the same entry twice restores it. */
  lemma ClickTwice(sel: seq<int>, idx: int)
    requires StrictlySorted(sel)
    ensures Click(Click(sel, idx), idx) == sel
  {
    var once := Click(sel, idx);
    var twice := Click(once, idx);
    if idx in sel {
      StrictOnce(sel, idx);
      assert idx !in once;
      RestoreOne(multiset(sel), idx);
    } else {
      assert idx in once;
      RemoveAdded(multiset(sel), idx);
    }
    SortedUnique(twice, sel);
  }

  lemma RestoreOne(m: multiset<int>, x: int)
    requires m[x] == 1
    ensures m[x := 0] + multiset{x} == m
  {
    assert forall y :: (m[x := 0] + multiset{x})[y] == m[y];
  }

  lemma RemoveAdded(m: multiset<int>, x: int)
    requires x !in m
    ensures (m + multiset{x})[x := 0] == m
  {
    assert forall y :: (m + multiset{x})[x := 0][y] == m[y];
  }

  // ---------------------------------------------------------------- submitting

  /** The modal's own state: selected catalog positions and the filter text. */
  datatype Picker = Picker(selected: seq<int>, input: string)

  /** `resetState`. */
  const Cleared := Picker([], "")

  /** One selected entry as submitted: the hymn being edited under that number, else a fresh copy. */
  function Pick(catalog: seq<HymnFile>, hymns: seq<Hymn>, idx: nat): (h: Hymn)
    requires idx < |catalog|
    ensures h.num == catalog[idx].num
    ensures FindHymn(hymns, catalog[idx].num).Some? ==> h in hymns
    ensures FindHymn(hymns, catalog[idx].num).None? ==> h == Normalise(catalog[idx]) && Export(h) == catalog[idx]
  {
    ExportNormalise(catalog[idx]);
    match FindHymn(hymns, catalog[idx].num)
    case Some(existing) => existing
    case None => Normalise(catalog[idx])
  }

  predicate InCatalog(catalog: seq<HymnFile>, sel: seq<int>) {
    forall k :: 0 <= k < |sel| ==> 0 <= sel[k] < |catalog|
  }

  /** The list `handleSubmit` hands over: the selected entries in selection order. */
  function Submitted(catalog: seq<HymnFile>, hymns: seq<Hymn>, sel: seq<int>): (r: seq<Hymn>)
    requires InCatalog(catalog, sel)
    ensures |r| == |sel|
    ensures forall k :: 0 <= k < |sel| ==> r[k].num == catalog[sel[k]].num
    ensures forall k :: 0 <= k < |sel| && FindHymn(hymns, catalog[sel[k]].num).Some? ==> r[k] in hymns
    ensures forall k :: 0 <= k < |sel| && FindHymn(hymns, catalog[sel[k]].num).None? ==>
              r[k].status == NotStarted && Export(r[k]) == catalog[sel[k]]
  {
    seq(|sel|, k requires 0 <= k < |sel| => Pick(catalog, hymns, sel[k]))
  }

  /** `handleSubmit` in the later modal: the hymns are handed over and the modal's state cleared. */
  function Submit(p: Picker, catalog: seq<HymnFile>, hymns: seq<Hymn>): (r: (seq<Hymn>, Picker))
    requires InCatalog(catalog, p.selected)
    ensures r.1 == Cleared && r.1.selected == [] && r.1.input == ""
    ensures r.0 == Submitted(catalog, hymns, p.selected)
    ensures |r.0| == |p.selected|
    ensures forall k :: 0 <= k < |p.selected| ==> r.0[k].num == catalog[p.selected[k]].num
  {
    (Submitted(catalog, hymns, p.selected), Cleared)
  }

  /**
   * `isSubmitDisabled`: nothing selected, or every selected entry is
   * already being edited and the selection is as long as the list.
   */
  function SubmitDisabled(catalog: seq<HymnFile>, hymns: seq<Hymn>, sel: seq<int>): (b: bool)
    requires InCatalog(catalog, sel)
    ensures b <==> |sel| == 0 || (|sel| == |hymns| && forall k :: 0 <= k < |sel| ==> Editing(hymns, catalog[sel[k]].num))
  {
    if |sel| == 0 then true
    else
      var sameAsInitial := forall k :: 0 <= k < |sel| ==> FindHymn(hymns, catalog[sel[k]].num).Some?;
      sameAsInitial && |sel| == |hymns|
  }

  /**
   * Opening the modal on hymns that are all in the catalog, under distinct
   * numbers, selects exactly them: submitting would hand the same list
   * back, and the submit button is disabled.
   */
  lemma UntouchedSelectionResubmits(catalog: seq<HymnFile>, hymns: seq<Hymn>)
    requires forall k :: 0 <= k < |hymns| ==> Listed(catalog, hymns[k].num)
    requires forall i, j :: 0 <= i < |hymns| && 0 <= j < |hymns| && hymns[i].num == hymns[j].num ==> i == j
    ensures InCatalog(catalog, InitialSelection(catalog, hymns))
    ensures Submitted(catalog, hymns, InitialSelection(catalog, hymns)) == hymns
    ensures SubmitDisabled(catalog, hymns, InitialSelection(catalog, hymns))
  {
    var sel := InitialSelection(catalog, hymns);
    forall k | 0 <= k < |hymns| ensures 0 <= sel[k] < |catalog| {
      var j :| 0 <= j < |catalog| && catalog[j].num == hymns[k].num;
    }
    forall k | 0 <= k < |hymns|
      ensures FindHymn(hymns, catalog[sel[k]].num) == Some(hymns[k])
    {
      FindOwnNumber(hymns, k);
    }
  }

  /** Selecting a catalog entry not yet being edited always enables submitting. */
  lemma NewEntryEnablesSubmit(catalog: seq<HymnFile>, hymns: seq<Hymn>, sel: seq<int>, idx: int)
    requires InCatalog(catalog, sel) && 0 <= idx < |catalog| && idx !in sel
    requires forall j :: 0 <= j < |hymns| ==> hymns[j].num != catalog[idx].num
    ensures InCatalog(catalog, Click(sel, idx))
    ensures !SubmitDisabled(catalog, hymns, Click(sel, idx))
  {
    var r := Click(sel, idx);
    forall k | 0 <= k < |r| ensures 0 <= r[k] < |catalog| {
      assert r[k] in r;
      if r[k] != idx {
        var i :| 0 <= i < |sel| && sel[i] == r[k];
      }
    }
    assert idx in r;
    var k :| 0 <= k < |r| && r[k] == idx;
    assert FindHymn(hymns, catalog[r[k]].num).None?;
  }

  /** How the modal was asked to close. */
  datatype CloseReason = BackdropClick | EscapeKeyDown | CloseClick

  /**
   * `handleClose`: only the close button closes the modal (and clears its
   * state); clicking the backdrop or pressing escape is ignored.
   */
  function Close(p: Picker, reason: CloseReason): (r: (Picker, bool))
    ensures r.1 <==> reason == CloseClick
    ensures r.1 ==> r.0.selected == [] && r.0.input == ""
    ensures !r.1 ==> r.0 == p
  {
    if reason != CloseClick then (p, false) else (Cleared, true)
  }

  /**
   * Closing with the button leaves the modal as a submit does, with its
   * submit button disabled; the other two reasons leave it open as it was,
   * so its submit button is as it was.
   */
  lemma CloseClearsLikeSubmit(p: Picker, catalog: seq<HymnFile>, hymns: seq<Hymn>, reason: CloseReason)
    requires InCatalog(catalog, p.selected)
    ensures reason == CloseClick ==>
              Close(p, reason).0 == Submit(p, catalog, hymns).1
              && SubmitDisabled(catalog, hymns, Close(p, reason).0.selected)
    ensures reason != CloseClick ==>
              SubmitDisabled(catalog, hymns, Close(p, reason).0.selected) == SubmitDisabled(catalog, hymns, p.selected)
  {
  }

  // ---------------------------------------------------------------- the filter

  /** `${num}. ${title}`. */
  function FullTitle(f: HymnFile): string {
    f.num + ". " + f.title
  }

  /** The filter test shared by both modals: empty input matches everything. */
  predicate Matches(f: HymnFile, input: string) {
    |input| == 0 || Contains(LowerAll(FullTitle(f)), LowerAll(input))
  }

  /** `shouldHide`: hidden when already selected or when the filter rejects it. */
  function ShouldHide(catalog: seq<HymnFile>, sel: seq<int>, input: string, idx: nat): (b: bool)
    requires idx < |catalog|
    ensures idx in sel ==> b
    ensures |input| == 0 ==> (b <==> idx in sel)
    ensures !b <==> idx !in sel && Matches(catalog[idx], input)
  {
    idx in sel || (|input| > 0 && !Contains(LowerAll(FullTitle(catalog[idx])), LowerAll(input)))
  }

  /** A clicked catalog row moves to the selected list: it is hidden from the catalog list afterwards. */
  lemma ClickedRowHidden(catalog: seq<HymnFile>, sel: seq<int>, input: string, idx: nat)
    requires idx < |catalog| && !ShouldHide(catalog, sel, input, idx)
    ensures ShouldHide(catalog, Click(sel, idx), input, idx)
    ensures forall j :: 0 <= j < |catalog| && j != idx ==>
              ShouldHide(catalog, Click(sel, idx), input, j) == ShouldHide(catalog, sel, input, j)
  {
  }

  // ---------------------------------------------------------------- the earlier modal

  /** `filteredHymns`: the catalog entries the filter keeps, in catalog order. */
  function Filtered(catalog: seq<HymnFile>, input: string): (r: seq<HymnFile>)
    ensures |r| <= |catalog|
    ensures forall f :: f in r <==> f in catalog && Matches(f, input)
    decreases |catalog|
  {
    if |catalog| == 0 then []
    else
      var last := catalog[|catalog| - 1];
      assert catalog == catalog[..|catalog| - 1] + [last];
      Filtered(catalog[..|catalog| - 1], input) + (if Matches(last, input) then [last] else [])
  }

  /** The earlier modal's submit guard: disabled exactly when nothing is selected. */
  function LegacySubmitDisabled(sel: seq<int>): (b: bool)
    ensures b <==> |sel| == 0
  {
    |sel| == 0
  }

  /**
   * The earlier modal's `handleSubmit` hands over the same list as the
   * later one but keeps its state, and it accepts the untouched selection
   * that the later modal refuses.
   */
  lemma LegacyAcceptsUntouched(catalog: seq<HymnFile>, hymns: seq<Hymn>)
    requires |hymns| > 0
    requires forall k :: 0 <= k < |hymns| ==> Listed(catalog, hymns[k].num)
    requires forall i, j :: 0 <= i < |hymns| && 0 <= j < |hymns| && hymns[i].num == hymns[j].num ==> i == j
    ensures !LegacySubmitDisabled(InitialSelection(catalog, hymns))
    ensures InCatalog(catalog, InitialSelection(catalog, hymns))
    ensures SubmitDisabled(catalog, hymns, InitialSelection(catalog, hymns))
  {
    UntouchedSelectionResubmits(catalog, hymns);
  }

  /**
   * As written, a row of the earlier modal's catalog list shows the entry
   * at position `row` of the filtered list, but clicking it selects
   * catalog position `row`.
   */
  function LegacyRowTarget(catalog: seq<HymnFile>, input: string, row: nat): (idx: int)
    requires row < |Filtered(catalog, input)|
    ensures 0 <= idx < |catalog|
    ensures idx == row
  {
    row
  }

  /** Filtering "2" from hymns 1 and 2 shows hymn 2 in row 0, whose click selects hymn 1. */
  lemma LegacyRowSelectsWrongHymn()
    ensures var catalog := [HymnFile("en", "1", "a", []), HymnFile("en", "2", "b", [])];
            && Filtered(catalog, "2") == [catalog[1]]
            && catalog[LegacyRowTarget(catalog, "2", 0)] != Filtered(catalog, "2")[0]
  {
    var catalog := [HymnFile("en", "1", "a", []), HymnFile("en", "2", "b", [])];
    assert FullTitle(catalog[0]) == "1. a";
    assert FullTitle(catalog[1]) == "2. b";
    assert LowerAll("1. a") == "1. a";
    assert LowerAll("2. b") == "2. b";
    assert LowerAll("2") == "2";
    assert Contains("2. b", "2");
    assert !Contains("1. a", "2") by {
      ContainsChar("1. a", '2');
    }
    assert catalog[..1] == [catalog[0]];
    assert catalog[..1][..0] == [];
  }

  /** The catalog positions the filter keeps, in order. */
  function FilteredPositions(catalog: seq<HymnFile>, input: string): (ps: seq<nat>)
    ensures |ps| == |Filtered(catalog, input)|
    ensures forall p :: 0 <= p < |ps| ==> ps[p] < |catalog| && catalog[ps[p]] == Filtered(catalog, input)[p]
    ensures forall p, q :: 0 <= p < q < |ps| ==> ps[p] < ps[q]
    decreases |catalog|
  {
    if |catalog| == 0 then []
    else
      var n := |catalog| - 1;
      var init, f := FilteredPositions(catalog[..n], input), Filtered(catalog[..n], input);
      var keep := Matches(catalog[n], input);
      assert Filtered(catalog, input) == f + (if keep then [catalog[n]] else []);
      PositionsStep(catalog, n, init, f, keep);
      init + (if keep then [n] else [])
  }

  /** One more catalog entry: its position follows the earlier ones exactly when the filter keeps it. */
  lemma PositionsStep(catalog: seq<HymnFile>, n: nat, init: seq<nat>, f: seq<HymnFile>, keep: bool)
    requires |catalog| == n + 1 && |init| == |f|
    requires forall p :: 0 <= p < |init| ==> init[p] < n && catalog[..n][init[p]] == f[p]
    requires forall p, q :: 0 <= p < q < |init| ==> init[p] < init[q]
    ensures var ps, whole := init + (if keep then [n] else []), f + (if keep then [catalog[n]] else []);
            && |ps| == |whole|
            && (forall p :: 0 <= p < |ps| ==> ps[p] < |catalog| && catalog[ps[p]] == whole[p])
            && (forall p, q :: 0 <= p < q < |ps| ==> ps[p] < ps[q])
  {
    assert forall p :: 0 <= p < |init| ==> catalog[init[p]] == catalog[..n][init[p]];
  }

  /** Corrected: a row of the filtered list selects the catalog position of the entry it shows. */
  function CorrectedRowTarget(catalog: seq<HymnFile>, input: string, row: nat): (idx: nat)
    requires row < |Filtered(catalog, input)|
    ensures idx < |catalog| && catalog[idx] == Filtered(catalog, input)[row]
    ensures Matches(catalog[idx], input)
  {
    var f := Filtered(catalog, input);
    assert f[row] in f;
    FilteredPositions(catalog, input)[row]
  }

  /** With the correction, distinct rows select distinct catalog positions. */
  lemma CorrectedRowsDistinct(catalog: seq<HymnFile>, input: string, row: nat, other: nat)
    requires row < |Filtered(catalog, input)| && other < |Filtered(catalog, input)|
    ensures row != other ==> CorrectedRowTarget(catalog, input, row) != CorrectedRowTarget(catalog, input, other)
  {
    var ps := FilteredPositions(catalog, input);
    if row < other {
      assert ps[row] < ps[other];
    } else if other < row {
      assert ps[other] < ps[row];
    }
  }

  /**
   * As written, the earlier modal hides row `row` of its catalog list when
   * `row` is in the selection, although the selection holds catalog
   * positions and the row shows the filtered entry at position `row`.
   */
  function LegacyRowHidden(catalog: seq<HymnFile>, input: string, sel: seq<int>, row: nat): (b: bool)
    requires row < |Filtered(catalog, input)|
    ensures b <==> LegacyRowTarget(catalog, input, row) in sel
  {
    row in sel
  }

  /**
   * Filtering "2" from hymns 1 and 2: with hymn 2 selected its row stays
   * shown as unchecked, and with hymn 1 selected the row of hymn 2 is
   * hidden. The corrected test hides exactly in the first case.
   */
  lemma LegacyRowHidesWrongHymn()
    ensures var catalog := [HymnFile("en", "1", "a", []), HymnFile("en", "2", "b", [])];
            && |Filtered(catalog, "2")| == 1
            && Filtered(catalog, "2")[0] == catalog[1]
            && !LegacyRowHidden(catalog, "2", [1], 0) && CorrectedRowHidden(catalog, "2", [1], 0)
            && LegacyRowHidden(catalog, "2", [0], 0) && !CorrectedRowHidden(catalog, "2", [0], 0)
  {
    var catalog := [HymnFile("en", "1", "a", []), HymnFile("en", "2", "b", [])];
    LegacyRowSelectsWrongHymn();
    var idx := CorrectedRowTarget(catalog, "2", 0);
    assert catalog[idx] == catalog[1];
    assert catalog[0] != catalog[1];
    assert idx == 1;
  }

  /** Corrected: a row is hidden exactly when the catalog position of the entry it shows is selected. */
  function CorrectedRowHidden(catalog: seq<HymnFile>, input: string, sel: seq<int>, row: nat): (b: bool)
    requires row < |Filtered(catalog, input)|
    ensures b ==> exists idx :: 0 <= idx < |catalog| && idx in sel && catalog[idx] == Filtered(catalog, input)[row]
    ensures b <==> CorrectedRowTarget(catalog, input, row) in sel
  {
    CorrectedRowTarget(catalog, input, row) in sel
  }

  /**
   * The corrected hiding agrees with the later modal's `shouldHide` on the
   * entry the row shows: a shown row is never hidden by the filter, only by
   * the selection.
   */
  lemma CorrectedHidingAgrees(catalog: seq<HymnFile>, input: string, sel: seq<int>, row: nat)
    requires row < |Filtered(catalog, input)|
    ensures var idx := CorrectedRowTarget(catalog, input, row);
            CorrectedRowHidden(catalog, input, sel, row) == ShouldHide(catalog, sel, input, idx)
  {
  }

  /** An empty filter keeps the whole catalog. */
  lemma {:induction false} EmptyFilterKeepsAll(catalog: seq<HymnFile>)
    ensures Filtered(catalog, "") == catalog
    decreases |catalog|
  {
    if |catalog| > 0 {
      var n := |catalog| - 1;
      EmptyFilterKeepsAll(catalog[..n]);
      assert Matches(catalog[n], "");
      assert catalog == catalog[..n] + [catalog[n]];
    }
  }

  /** In a strictly increasing list of naturals, each entry is at least its position. */
  lemma {:induction false} IncreasingAtLeastPosition(ps: seq<nat>, p: nat)
    requires p < |ps|
    requires forall i, j :: 0 <= i < j < |ps| ==> ps[i] < ps[j]
    ensures p <= ps[p]
    decreases p
  {
    if p > 0 {
      IncreasingAtLeastPosition(ps, p - 1);
    }
  }

  /** ... and, when every entry is below the length, at most its position. */
  lemma {:induction false} IncreasingAtMostPosition(ps: seq<nat>, p: nat)
    requires p < |ps|
    requires forall i :: 0 <= i < |ps| ==> ps[i] < |ps|
    requires forall i, j :: 0 <= i < j < |ps| ==> ps[i] < ps[j]
    ensures ps[p] <= p
    decreases |ps| - p
  {
    if p + 1 < |ps| {
      IncreasingAtMostPosition(ps, p + 1);
    }
  }

  /**
   * With an empty filter every row shows the catalog entry at its own
   * position, so there the as-written and corrected targets agree.
   */
  lemma EmptyFilterTargetsAgree(catalog: seq<HymnFile>, row: nat)
    requires row < |Filtered(catalog, "")|
    ensures CorrectedRowTarget(catalog, "", row) == LegacyRowTarget(catalog, "", row)
  {
    EmptyFilterKeepsAll(catalog);
    var ps := FilteredPositions(catalog, "");
    IncreasingAtLeastPosition(ps, row);
    IncreasingAtMostPosition(ps, row);
  }
}
