/**
 * The hymn list page (src/components/HymnList/HymnList.tsx): importing,
 * selecting and deleting hymns, and downloading hymns, which removes every
 * hymn that shares a number with a downloaded one. Zipping and saving the
 * files is left out; the download yields the exported file contents.
 */
module HymnList {
  import opened Wrappers
  import opened Hymns

  /** `handleImportedHymns`: the imported hymns replace the list and the first is selected. */
  function Import(hymns: seq<Hymn>): (s: Store)
    ensures s.hymns == hymns && s.selectedHymnIdx == 0
  {
    Store(hymns, 0)
  }

  /** After an import the open hymn is the first imported one, or none when nothing was imported. */
  lemma ImportSelectsFirst(hymns: seq<Hymn>)
    ensures SelectedHymn(Import(hymns)) == if |hymns| > 0 then Some(hymns[0]) else None
  {
  }

  /** `handleSelectHymn(hymnIdx)`: only the selection changes. */
  function Select(s: Store, hymnIdx: int): (r: Store)
    ensures r.hymns == s.hymns && r.selectedHymnIdx == hymnIdx
    ensures 0 <= hymnIdx < |s.hymns| ==> SelectedHymn(r) == Some(s.hymns[hymnIdx])
  {
    s.(selectedHymnIdx := hymnIdx)
  }

  /**
   * `handleDeleteHymn(hymnIdx)`: the hymn at that position leaves the list,
   * the others keep their order, and the first hymn is selected.
   */
  function Delete(s: Store, hymnIdx: int): (r: Store)
    ensures r.selectedHymnIdx == 0
    ensures 0 <= hymnIdx < |s.hymns| ==>
              |r.hymns| == |s.hymns| - 1
              && forall j :: 0 <= j < |r.hymns| ==> r.hymns[j] == s.hymns[if j < hymnIdx then j else j + 1]
    ensures !(0 <= hymnIdx < |s.hymns|) ==> r.hymns == s.hymns
  {
    if 0 <= hymnIdx < |s.hymns| then Store(s.hymns[..hymnIdx] + s.hymns[hymnIdx + 1..], 0)
    else Store(s.hymns, 0)
  }

  /** Deleting removes one occurrence of the hymn and nothing else. */
  lemma DeleteRemovesOne(s: Store, hymnIdx: nat)
    requires hymnIdx < |s.hymns|
    ensures multiset(Delete(s, hymnIdx).hymns) + multiset{s.hymns[hymnIdx]} == multiset(s.hymns)
  {
    assert s.hymns == s.hymns[..hymnIdx] + [s.hymns[hymnIdx]] + s.hymns[hymnIdx + 1..];
  }

  // ---------------------------------------------------------------- download

  /** `hymns.filter((hymn) => hymn.status === "completed")`. */
  function CompletedHymns(hymns: seq<Hymn>): (r: seq<Hymn>)
    ensures |r| <= |hymns|
    ensures forall h :: h in r <==> h in hymns && h.status == Completed
    decreases |hymns|
  {
    if |hymns| == 0 then []
    else (if hymns[0].status == Completed then [hymns[0]] else []) + CompletedHymns(hymns[1..])
  }

  /** The completed hymns of two lists in a row are those of the first, then those of the second. */
  lemma {:induction false} CompletedHymnsAppend(a: seq<Hymn>, b: seq<Hymn>)
    ensures CompletedHymns(a + b) == CompletedHymns(a) + CompletedHymns(b)
    decreases |a|
  {
    if |a| > 0 {
      assert (a + b)[1..] == a[1..] + b;
      CompletedHymnsAppend(a[1..], b);
    } else {
      assert a + b == b;
    }
  }

  /** A single hymn is kept exactly when it is completed. */
  lemma CompletedHymnsOne(h: Hymn)
    ensures CompletedHymns([h]) == if h.status == Completed then [h] else []
  {
  }

  /** The numbers of a list of hymns. */
  function Nums(hymns: seq<Hymn>): (nums: set<string>)
    ensures forall h :: h in hymns ==> h.num in nums
    ensures forall n :: n in nums ==> exists h :: h in hymns && h.num == n
  {
    set h | h in hymns :: h.num
  }

  /** `hymns.filter((hymn) => !files.find((file) => file.num === hymn.num))`. */
  function WithoutNums(hymns: seq<Hymn>, nums: set<string>): (r: seq<Hymn>)
    ensures |r| <= |hymns|
    ensures forall h :: h in r <==> h in hymns && h.num !in nums
    decreases |hymns|
  {
    if |hymns| == 0 then []
    else (if hymns[0].num in nums then [] else [hymns[0]]) + WithoutNums(hymns[1..], nums)
  }

  /** Filtering two lists in a row is filtering the first, then the second. */
  lemma {:induction false} WithoutNumsAppend(a: seq<Hymn>, b: seq<Hymn>, nums: set<string>)
    ensures WithoutNums(a + b, nums) == WithoutNums(a, nums) + WithoutNums(b, nums)
    decreases |a|
  {
    if |a| > 0 {
      assert (a + b)[1..] == a[1..] + b;
      WithoutNumsAppend(a[1..], b, nums);
    } else {
      assert a + b == b;
    }
  }

  /** A single hymn is kept exactly when its number is not excluded. */
  lemma WithoutNumsOne(h: Hymn, nums: set<string>)
    ensures WithoutNums([h], nums) == if h.num in nums then [] else [h]
  {
  }

  /** The hymns a download takes: the listed positions, or every completed hymn. */
  function Chosen(s: Store, hymnIdxs: Option<seq<nat>>): (files: seq<Hymn>)
    requires hymnIdxs.Some? ==> forall j :: 0 <= j < |hymnIdxs.value| ==> hymnIdxs.value[j] < |s.hymns|
    ensures hymnIdxs.Some? ==>
              |files| == |hymnIdxs.value|
              && forall j :: 0 <= j < |files| ==> files[j] == s.hymns[hymnIdxs.value[j]]
    ensures hymnIdxs.None? ==> files == CompletedHymns(s.hymns)
    ensures hymnIdxs.None? ==> forall h :: h in files <==> h in s.hymns && h.status == Completed
  {
    match hymnIdxs
    case Some(idxs) => seq(|idxs|, j requires 0 <= j < |idxs| => s.hymns[idxs[j]])
    case None => CompletedHymns(s.hymns)
  }

  /** The result of a download: the exported files and the store left behind. */
  datatype Download = Download(files: seq<HymnFile>, store: Store)

  /**
   * `handleDownloadHymn(hymnIdxs)`: export the chosen hymns, then keep only
   * the hymns whose number no chosen hymn has, and select the first.
   */
  function DownloadHymns(s: Store, hymnIdxs: Option<seq<nat>>): (d: Download)
    requires hymnIdxs.Some? ==> forall j :: 0 <= j < |hymnIdxs.value| ==> hymnIdxs.value[j] < |s.hymns|
    ensures |d.files| == |Chosen(s, hymnIdxs)|
    ensures forall j :: 0 <= j < |d.files| ==> d.files[j] == Export(Chosen(s, hymnIdxs)[j])
    ensures d.store.selectedHymnIdx == 0
    ensures d.store.hymns == WithoutNums(s.hymns, Nums(Chosen(s, hymnIdxs)))
    ensures forall h :: h in d.store.hymns <==> h in s.hymns && h.num !in Nums(Chosen(s, hymnIdxs))
  {
    var chosen := Chosen(s, hymnIdxs);
    var files := seq(|chosen|, j requires 0 <= j < |chosen| => Export(chosen[j]));
    Download(files, Store(WithoutNums(s.hymns, Nums(chosen)), 0))
  }

  /** After the download button, no completed hymn is left, and every hymn left is one that was there. */
  lemma DownloadAllLeavesNoCompleted(s: Store)
    ensures forall h :: h in DownloadHymns(s, None).store.hymns ==> h in s.hymns && h.status != Completed
  {
    var chosen := Chosen(s, None);
    forall h | h in DownloadHymns(s, None).store.hymns ensures h.status != Completed {
      assert h.status == Completed ==> h in chosen && h.num in Nums(chosen);
    }
  }

  /** Downloading one hymn also drops every other hymn with the same number. */
  lemma DownloadOneDropsSameNumber(s: Store, hymnIdx: nat)
    requires hymnIdx < |s.hymns|
    ensures forall h :: h in DownloadHymns(s, Some([hymnIdx])).store.hymns <==>
              h in s.hymns && h.num != s.hymns[hymnIdx].num
  {
    var chosen := Chosen(s, Some([hymnIdx]));
    assert chosen == [s.hymns[hymnIdx]];
    assert Nums(chosen) == {s.hymns[hymnIdx].num};
  }

  /** The download button is enabled exactly when some hymn is completed, that is when it would export something. */
  function DownloadEnabled(hymns: seq<Hymn>): (enabled: bool)
    ensures enabled <==> |DownloadHymns(Store(hymns, 0), None).files| > 0
  {
    var completed := CompletedHymns(hymns);
    assert |completed| > 0 <==> exists h :: h in hymns && h.status == Completed by {
      if |completed| > 0 {
        assert completed[0] in completed;
      }
    }
    exists h :: h in hymns && h.status == Completed
  }
}
