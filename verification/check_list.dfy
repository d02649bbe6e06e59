/**
 * The check-list confirmation dialog, written out three times with the same
 * logic (src/components/HymnList/_components/DragConfirmationDialog.tsx,
 * src/components/HymnList/ListConfirmationDialog.tsx and
 * src/components/ListConfirmationDialog.tsx): every item starts checked,
 * items are toggled one at a time or all together, and submitting hands
 * over the checked items in their order.
 */
module CheckList {
  datatype Item<T> = Item(value: T, checked: bool)

  /** The dialog as opened: every item checked. */
  function Init<T>(data: seq<T>): (list: seq<Item<T>>)
    ensures |list| == |data|
    ensures forall i :: 0 <= i < |data| ==> list[i] == Item(data[i], true)
  {
    seq(|data|, i requires 0 <= i < |data| => Item(data[i], true))
  }

  /** `isEveryChecked`. */
  predicate EveryChecked<T>(list: seq<Item<T>>) {
    forall i :: 0 <= i < |list| ==> list[i].checked
  }

  /** `handleCheck(currIdx)`: only the item at `currIdx`, if any, flips. */
  function Toggle<T>(list: seq<Item<T>>, currIdx: int): (r: seq<Item<T>>)
    ensures |r| == |list|
    ensures forall i :: 0 <= i < |list| ==>
              r[i].value == list[i].value
              && (r[i].checked <==> (if i == currIdx then !list[i].checked else list[i].checked))
  {
    seq(|list|, i requires 0 <= i < |list| =>
      if i == currIdx then list[i].(checked := !list[i].checked) else list[i])
  }

  /** Toggling the same item twice restores the list. */
  lemma ToggleTwice<T>(list: seq<Item<T>>, currIdx: int)
    ensures Toggle(Toggle(list, currIdx), currIdx) == list
  {
    var twice := Toggle(Toggle(list, currIdx), currIdx);
    assert forall i :: 0 <= i < |list| ==> twice[i] == list[i];
  }

  /** `handleCheckAll`: everything unchecked when everything was checked, otherwise everything checked. */
  function ToggleAll<T>(list: seq<Item<T>>): (r: seq<Item<T>>)
    ensures |r| == |list|
    ensures forall i :: 0 <= i < |list| ==> r[i] == Item(list[i].value, !EveryChecked(list))
  {
    var target := !EveryChecked(list);
    seq(|list|, i requires 0 <= i < |list| => list[i].(checked := target))
  }

  /**
   * From a mixed list the first press checks everything and the second
   * unchecks everything; once all items agree, the button is an involution.
   */
  lemma ToggleAllTwice<T>(list: seq<Item<T>>)
    requires |list| > 0
    ensures !EveryChecked(list) ==>
              && EveryChecked(ToggleAll(list))
              && forall i :: 0 <= i < |list| ==> !ToggleAll(ToggleAll(list))[i].checked
    ensures (forall i :: 0 <= i < |list| ==> list[i].checked == list[0].checked) ==>
              ToggleAll(ToggleAll(list)) == list
  {
    var once := ToggleAll(list);
    assert once[0].checked == !EveryChecked(list);
    var twice := ToggleAll(once);
    if forall i :: 0 <= i < |list| ==> list[i].checked == list[0].checked {
      forall i | 0 <= i < |list| ensures twice[i] == list[i] {
        assert list[i].checked == list[0].checked;
      }
    }
  }

  /** `handleSubmit`: the checked items' values, in list order. */
  function Checked<T>(list: seq<Item<T>>): (r: seq<T>)
    ensures |r| <= |list|
    ensures forall x :: x in r ==> exists i :: 0 <= i < |list| && list[i].checked && list[i].value == x
    ensures forall i :: 0 <= i < |list| && list[i].checked ==> list[i].value in r
    decreases |list|
  {
    if |list| == 0 then []
    else (if list[0].checked then [list[0].value] else []) + Checked(list[1..])
  }

  /** Submitting the dialog as opened hands over all the data, in order. */
  lemma {:induction false} SubmitUntouched<T>(data: seq<T>)
    ensures Checked(Init(data)) == data
    decreases |data|
  {
    if |data| > 0 {
      assert Init(data)[1..] == Init(data[1..]);
      SubmitUntouched(data[1..]);
    }
  }

  /** Unchecking one item of the opened dialog hands over the data without it. */
  lemma SubmitAllButOne<T>(data: seq<T>, idx: nat)
    requires idx < |data|
    ensures Checked(Toggle(Init(data), idx)) == data[..idx] + data[idx + 1..]
  {
    var list := Toggle(Init(data), idx);
    CheckedSplit(list, idx);
    assert Checked(list[..idx]) == data[..idx] by {
      assert list[..idx] == Init(data[..idx]);
      SubmitUntouched(data[..idx]);
    }
    assert Checked(list[idx + 1..]) == data[idx + 1..] by {
      assert list[idx + 1..] == Init(data[idx + 1..]);
      SubmitUntouched(data[idx + 1..]);
    }
    assert Checked([list[idx]]) == [] by {
      assert !list[idx].checked && [list[idx]][1..] == [];
    }
  }

  /** The submission of a list is the submission of its parts around one item. */
  lemma CheckedSplit<T>(list: seq<Item<T>>, idx: nat)
    requires idx < |list|
    ensures Checked(list) == Checked(list[..idx]) + Checked([list[idx]]) + Checked(list[idx + 1..])
  {
    var a, b, c := Checked(list[..idx]), Checked([list[idx]]), Checked(list[idx + 1..]);
    assert Checked(list) == a + (b + c) by {
      SplitAround(list, idx);
      CheckedAppend(list[..idx], [list[idx]] + list[idx + 1..]);
      CheckedAppend([list[idx]], list[idx + 1..]);
    }
    assert a + (b + c) == a + b + c;
  }

  /** A list is its part before `idx`, the item at `idx` and its part after. */
  lemma SplitAround<T>(list: seq<T>, idx: nat)
    requires idx < |list|
    ensures list == list[..idx] + ([list[idx]] + list[idx + 1..])
  {
    assert list[idx..] == [list[idx]] + list[idx + 1..];
    assert list == list[..idx] + list[idx..];
  }

  /** Submitting two lists one after the other is submitting them joined. */
  lemma {:induction false} CheckedAppend<T>(a: seq<Item<T>>, b: seq<Item<T>>)
    ensures Checked(a + b) == Checked(a) + Checked(b)
    decreases |a|
  {
    if |a| > 0 {
      assert (a + b)[1..] == a[1..] + b;
      CheckedAppend(a[1..], b);
    } else {
      assert a + b == b;
    }
  }
}
