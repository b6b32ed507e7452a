/** The selection handler of the payment form (form.ascx.cs,
    `ddl_SelectedIndexChanged`, lines 2-28): the item of the sender's list
    whose code is the selected value is applied to the form. */
module Form {
  import opened Wrappers
  import opened Records
  import opened ListLookup
  import opened Controls
  import opened Processing

  /** The item's code as the handler compares it (line 19). */
  function ItemCode(item: ListItem): string {
    GetItemValue(item, "Code")
  }

  /** The items' codes, in order. */
  function Codes(items: seq<ListItem>): (r: seq<string>)
    ensures |r| == |items| && forall i :: 0 <= i < |items| ==> r[i] == ItemCode(items[i])
  {
    seq(|items|, i requires 0 <= i < |items| => ItemCode(items[i]))
  }

  /** The first index of `codes[from..]` holding `value`. */
  function FirstIndexFrom(codes: seq<string>, value: string, from: nat): (r: Option<nat>)
    requires from <= |codes|
    ensures r.Some? ==> from <= r.value < |codes| && codes[r.value] == value
    ensures r.Some? ==> forall i :: from <= i < r.value ==> codes[i] != value
    ensures r.None? ==> forall i :: from <= i < |codes| ==> codes[i] != value
    decreases |codes| - from
  {
    if from == |codes| then None
    else if codes[from] == value then Some(from)
    else FirstIndexFrom(codes, value, from + 1)
  }

  /** The item the `foreach ... break` of lines 17-27 stops at, if any. */
  function FirstMatch(items: seq<ListItem>, value: string): (r: Option<nat>)
    ensures r.Some? ==> r.value < |items| && ItemCode(items[r.value]) == value
    ensures r.Some? ==> forall i :: 0 <= i < r.value ==> ItemCode(items[i]) != value
    ensures r.None? ==> forall i :: 0 <= i < |items| ==> ItemCode(items[i]) != value
  {
    FirstIndexFrom(Codes(items), value, 0)
  }

  /** The first index is the one index holding `value` with none before it. */
  lemma {:induction false} FirstIndexUnique(codes: seq<string>, value: string, from: nat, k: nat)
    requires from <= k < |codes| && codes[k] == value
    requires forall i :: from <= i < k ==> codes[i] != value
    ensures FirstIndexFrom(codes, value, from) == Some(k)
    decreases k - from
  {
    if from < k {
      FirstIndexUnique(codes, value, from + 1, k);
    }
  }

  /** The first match is the one matching index with no match before it. */
  lemma FirstMatchUnique(items: seq<ListItem>, value: string, k: nat)
    requires k < |items| && ItemCode(items[k]) == value
    requires forall i :: 0 <= i < k ==> ItemCode(items[i]) != value
    ensures FirstMatch(items, value) == Some(k)
  {
    FirstIndexUnique(Codes(items), value, 0, k);
  }

  /** Items after the first match are never looked at. */
  lemma FirstMatchIgnoresRest(items: seq<ListItem>, more: seq<ListItem>, value: string)
    requires FirstMatch(items, value).Some?
    ensures FirstMatch(items + more, value) == FirstMatch(items, value)
  {
    var k := FirstMatch(items, value).value;
    var both := items + more;
    assert both[k] == items[k];
    assert forall i :: 0 <= i < k ==> both[i] == items[i];
    FirstMatchUnique(both, value, k);
  }

  /** The handler. The sender's client identifier and selected value are
      parameters, as are the site's lists; the result is the updated form,
      or the exception `ProcessItem` raises, which the handler does not catch.
      A failing list lookup is caught and leaves the form as it is. */
  method SelectionChanged(senderId: string, selectedValue: string, lists: seq<SpList>, form: Control)
    returns (r: Result<Control, Error>)
    ensures ResolveListForControl(senderId, lists).Failure? ==> r == Success(form)
    ensures ResolveListForControl(senderId, lists).Success? ==>
              var items := ResolveListForControl(senderId, lists).value;
              match FirstMatch(items, selectedValue)
              case None => r == Success(form)
              case Some(k) => r == ProcessItem(items[k], form, lists)
  {
    var lookup := ResolveListForControl(senderId, lists);
    if lookup.Failure? {
      return Success(form);
    }
    r := ApplySelected(lookup.value, selectedValue, lists, form);
  }

  /** The search of lines 17-27 over the items' codes: the index of the
      first code equal to `value`, if any. */
  method FindFirst(codes: seq<string>, value: string) returns (r: Option<nat>)
    ensures r.Some? ==> r.value < |codes| && codes[r.value] == value
    ensures r.Some? ==> forall i :: 0 <= i < r.value ==> codes[i] != value
    ensures r.None? ==> forall i :: 0 <= i < |codes| ==> codes[i] != value
    ensures r == FirstIndexFrom(codes, value, 0)
  {
    var n := 0;
    while n < |codes|
      invariant 0 <= n <= |codes|
      invariant forall i :: 0 <= i < n ==> codes[i] != value
    {
      if codes[n] == value {
        FirstIndexUnique(codes, value, 0, n);
        return Some(n);
      }
      n := n + 1;
    }
    return None;
  }

  /** Lines 17-27: the first item whose code is the selected value is
      applied and the loop stops; without one the form is left as it is. */
  method ApplySelected(items: seq<ListItem>, selectedValue: string, lists: seq<SpList>, form: Control)
    returns (r: Result<Control, Error>)
    ensures match FirstMatch(items, selectedValue)
            case None => r == Success(form)
            case Some(k) => r == ProcessItem(items[k], form, lists)
  {
    var found := FindFirst(Codes(items), selectedValue);
    match found
    case None => r := Success(form);
    case Some(k) => r := ProcessItem(items[k], form, lists);
  }
}
