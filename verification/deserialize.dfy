/** `GetGenericSPItemsDeserialized` (OrgUtilitiesClass.cs lines 123-147):
    the items of a list read as code/name pairs. The list's items are a
    parameter; `None` is a null entry of the collection. */
module Deserialization {
  import opened Wrappers
  import opened Text
  import opened Records

  /** The non-null entries, in order. */
  function Present(items: seq<Option<ListItem>>): (r: seq<ListItem>)
    ensures |r| <= |items|
    decreases |items|
  {
    if items == [] then []
    else
      var rest := Present(items[1..]);
      if items[0].Some? then [items[0].value] + rest else rest
  }

  /** An item is read exactly when it is a non-null entry. */
  lemma {:induction false} PresentMembership(items: seq<Option<ListItem>>)
    ensures forall x :: x in Present(items) <==> Some(x) in items
    decreases |items|
  {
    if items != [] {
      PresentMembership(items[1..]);
      forall x
        ensures x in Present(items) <==> Some(x) in items
      {
        assert Some(x) in items <==> Some(x) == items[0] || Some(x) in items[1..];
      }
    }
  }

  /** Line 137 and lines 140-143: a null name reads as empty, then the type
      prefix is removed. */
  function NameOf(item: ListItem): (r: string)
    ensures !Contains(r, ";#")
    ensures "Name" in item.values ==> Contains(item.values["Name"], r)
    ensures "Name" !in item.values ==> r == ""
    ensures "Name" in item.values && !Contains(item.values["Name"], ";#") ==> r == item.values["Name"]
    ensures "Name" in item.values && Contains(item.values["Name"], ";#") ==> HashPiece(item.values["Name"], r)
  {
    var raw := RawValue(item, "Name").GetOr("");
    var r := StripTypePrefix(raw);
    if Contains(raw, ";#") then
      NoHashNoMarker(r);
      r
    else r
  }

  /** Line 138: a null code reads as empty; the code is not cleaned. */
  function CodeOf(item: ListItem): (r: string)
    ensures "Code" in item.values ==> r == item.values["Code"]
    ensures "Code" !in item.values ==> r == ""
  {
    RawValue(item, "Code").GetOr("")
  }

  function ToGeneric(item: ListItem): GenericItem {
    GenericItem(CodeOf(item), NameOf(item))
  }

  /** The loop as evidently intended: one pair per non-null entry, in order,
      null columns reading as empty. */
  function Deserialized(items: seq<Option<ListItem>>): (r: seq<GenericItem>)
    ensures |r| == |Present(items)|
    ensures forall i :: 0 <= i < |r| ==> r[i] == ToGeneric(Present(items)[i])
    ensures forall i :: 0 <= i < |r| ==> !Contains(r[i].name, ";#")
  {
    var present := Present(items);
    seq(|present|, i requires 0 <= i < |present| => ToGeneric(present[i]))
  }

  /** Some non-null entry has a null name. */
  predicate SomeNameNull(items: seq<Option<ListItem>>) {
    exists i | 0 <= i < |items| :: items[i].Some? && "Name" !in items[i].value.values
  }

  lemma SomeNameNullUnfold(items: seq<Option<ListItem>>)
    requires items != []
    ensures SomeNameNull(items)
            <==> (items[0].Some? && "Name" !in items[0].value.values) || SomeNameNull(items[1..])
  {
    if SomeNameNull(items) {
      var i :| 0 <= i < |items| && items[i].Some? && "Name" !in items[i].value.values;
      if i > 0 {
        assert items[1..][i - 1] == items[i];
      }
    }
    if SomeNameNull(items[1..]) {
      var i :| 0 <= i < |items[1..]| && items[1..][i].Some? && "Name" !in items[1..][i].value.values;
      assert items[i + 1] == items[1..][i];
    }
  }

  lemma DeserializedUnfold(items: seq<Option<ListItem>>)
    requires items != []
    ensures Deserialized(items)
            == (if items[0].Some? then [ToGeneric(items[0].value)] else []) + Deserialized(items[1..])
  {
    assert Present(items) == (if items[0].Some? then [items[0].value] else []) + Present(items[1..]);
  }

  /** The loop as written: line 134 calls `ToString()` on the name before
      the null check of line 137, so a null name throws. */
  function DeserializedAsWritten(items: seq<Option<ListItem>>): (r: Result<seq<GenericItem>, Error>)
    ensures r.Failure? <==> SomeNameNull(items)
    ensures r.Failure? ==> r.error == NullName
    ensures r.Success? ==> r.value == Deserialized(items)
    decreases |items|
  {
    if items == [] then Success([])
    else if items[0].Some? && "Name" !in items[0].value.values then Failure(NullName)
    else
      SomeNameNullUnfold(items);
      match DeserializedAsWritten(items[1..])
      case Failure(e) => Failure(e)
      case Success(rest) =>
        DeserializedUnfold(items);
        Success((if items[0].Some? then [ToGeneric(items[0].value)] else []) + rest)
  }

  /** The order of the entries is kept: reading concatenated collections
      concatenates the results. */
  lemma {:induction false} PresentAppend(xs: seq<Option<ListItem>>, ys: seq<Option<ListItem>>)
    ensures Present(xs + ys) == Present(xs) + Present(ys)
    decreases |xs|
  {
    if xs == [] {
      assert xs + ys == ys;
    } else {
      PresentAppend(xs[1..], ys);
      assert (xs + ys)[1..] == xs[1..] + ys;
    }
  }

  lemma DeserializedAppend(xs: seq<Option<ListItem>>, ys: seq<Option<ListItem>>)
    ensures Deserialized(xs + ys) == Deserialized(xs) + Deserialized(ys)
  {
    PresentAppend(xs, ys);
  }

  /** An item whose name is null: as written the whole read throws, as
      intended it contributes a pair with an empty name. */
  lemma NullNameCounterexample(code: string)
    ensures var item := ListItem([], map["Code" := code]);
            DeserializedAsWritten([Some(item)]) == Failure(NullName)
            && Deserialized([Some(item)]) == [GenericItem(code, "")]
  {
    var item := ListItem([], map["Code" := code]);
    assert "Name" !in item.values;
    assert Present([Some(item)]) == [item];
  }
}
