/** The option list an availability column produces for a drop-down
    (OrgUtilitiesClass.cs, ProcessItem lines 68-91). */
module Availability {
  import opened Wrappers
  import opened Text
  import opened Records

  /** The blank entry every option list starts with. */
  const Blank := GenericItem("", "")

  /** The value that selects every item of the related list. */
  const AllKeyword := "ALL"

  /** The option a related item contributes: its cleaned code and name. */
  function OptionOf(item: ListItem): GenericItem {
    GenericItem(GetItemValue(item, "Code"), GetItemValue(item, "Name"))
  }

  /** The related items as the loop reads them, one option per item. */
  function AllOptions(items: seq<ListItem>): (r: seq<GenericItem>)
    ensures |r| == |items|
    ensures forall i :: 0 <= i < |items| ==> r[i] == OptionOf(items[i])
  {
    seq(|items|, i requires 0 <= i < |items| => OptionOf(items[i]))
  }

  /** The options one item contributes for a code list: one per code equal
      to the item's code, in code order. */
  function CodeOptions(item: GenericItem, codes: seq<string>): seq<GenericItem>
    decreases |codes|
  {
    if codes == [] then []
    else
      (if codes[0] == item.code then [GenericItem(codes[0], item.name)] else [])
      + CodeOptions(item, codes[1..])
  }

  /** Item-major, code-minor: every (item, code) pair whose code equals the
      item's code, duplicates kept. */
  function PairOptions(items: seq<GenericItem>, codes: seq<string>): seq<GenericItem>
    decreases |items|
  {
    if items == [] then [] else CodeOptions(items[0], codes) + PairOptions(items[1..], codes)
  }

  /** The option list for a raw value (`None` for null) over the related
      items' options: the blank entry, then all of them when the value is
      null or `ALL`, otherwise the matching pairs of the comma-separated value. */
  function OptionsFor(codes: Option<string>, items: seq<GenericItem>): (r: seq<GenericItem>)
    ensures |r| >= 1 && r[0] == Blank
    ensures codes.None? || codes.value == AllKeyword ==> r[1..] == items
  {
    if codes.None? || codes.value == AllKeyword then [Blank] + items
    else [Blank] + PairOptions(items, Split(codes.value, ','))
  }

  /** Without `ALL`, an option is offered exactly when it is one of the items
      and its code is one of the comma-separated codes. */
  lemma OptionsForMembership(codes: string, items: seq<GenericItem>)
    requires codes != AllKeyword
    ensures forall x :: x in OptionsFor(Some(codes), items)[1..] <==> x in items && x.code in Split(codes, ',')
  {
    var codeList := Split(codes, ',');
    PairOptionsMembership(items, codeList);
    assert OptionsFor(Some(codes), items)[1..] == PairOptions(items, codeList);
  }

  /** The data source bound to a drop-down targeted by an availability column
      whose raw value is `codes`, drawn from the related list `related`. */
  function AvailableOptions(codes: Option<string>, related: seq<ListItem>): (r: seq<GenericItem>)
    ensures |r| >= 1 && r[0] == Blank
    ensures codes.None? || codes.value == AllKeyword ==>
              |r| == |related| + 1 && forall i :: 0 <= i < |related| ==> r[i + 1] == OptionOf(related[i])
    ensures codes.Some? && codes.value != AllKeyword ==>
              forall m :: 1 <= m < |r| ==>
                r[m].code in Split(codes.value, ',')
                && exists i :: 0 <= i < |related| && r[m] == OptionOf(related[i])
  {
    var r := OptionsFor(codes, AllOptions(related));
    if codes.Some? && codes.value != AllKeyword then
      OptionsForMembership(codes.value, AllOptions(related));
      OptionsDrawnFrom(r, related, Split(codes.value, ','));
      r
    else r
  }

  lemma OptionsDrawnFrom(r: seq<GenericItem>, related: seq<ListItem>, codes: seq<string>)
    requires |r| >= 1
    requires forall x :: x in r[1..] <==> x in AllOptions(related) && x.code in codes
    ensures forall m :: 1 <= m < |r| ==>
              r[m].code in codes && exists i :: 0 <= i < |related| && r[m] == OptionOf(related[i])
  {
    var opts := AllOptions(related);
    forall m | 1 <= m < |r|
      ensures r[m].code in codes && exists i :: 0 <= i < |related| && r[m] == OptionOf(related[i])
    {
      assert r[1..][m - 1] == r[m];
      var i :| 0 <= i < |opts| && opts[i] == r[m];
      assert r[m] == OptionOf(related[i]);
    }
  }

  /** `n` copies of `x`. */
  function Repeat(x: GenericItem, n: nat): (r: seq<GenericItem>)
    ensures |r| == n && forall i :: 0 <= i < n ==> r[i] == x
  {
    seq(n, _ => x)
  }

  /** An item contributes its own option once for every occurrence of its
      code in the code list. */
  lemma {:induction false} CodeOptionsRepeat(item: GenericItem, codes: seq<string>)
    ensures CodeOptions(item, codes) == Repeat(item, multiset(codes)[item.code])
    decreases |codes|
  {
    if codes != [] {
      var n := multiset(codes[1..])[item.code];
      CodeOptionsRepeat(item, codes[1..]);
      MultisetCount(codes, item.code);
      if codes[0] == item.code {
        RepeatCons(item, n);
      }
    }
  }

  /** How often `v` occurs in a non-empty sequence, from its head and tail. */
  lemma MultisetCount(codes: seq<string>, v: string)
    requires codes != []
    ensures multiset(codes)[v] == (if codes[0] == v then 1 else 0) + multiset(codes[1..])[v]
  {
    assert codes == [codes[0]] + codes[1..];
  }

  lemma RepeatMembership(y: GenericItem, n: nat, x: GenericItem)
    ensures x in Repeat(y, n) <==> n > 0 && x == y
  {
    if n > 0 {
      assert Repeat(y, n)[0] == y;
    }
  }

  lemma RepeatCons(x: GenericItem, n: nat)
    ensures Repeat(x, n + 1) == [x] + Repeat(x, n)
  {
  }

  /** Options of concatenated item lists are concatenated: the order is item-major. */
  lemma {:induction false} PairOptionsAppend(xs: seq<GenericItem>, ys: seq<GenericItem>, codes: seq<string>)
    ensures PairOptions(xs + ys, codes) == PairOptions(xs, codes) + PairOptions(ys, codes)
    decreases |xs|
  {
    if xs == [] {
      assert xs + ys == ys;
    } else {
      var zs := xs + ys;
      assert zs[0] == xs[0];
      assert zs[1..] == xs[1..] + ys;
      PairOptionsAppend(xs[1..], ys, codes);
      var head := CodeOptions(xs[0], codes);
      assert PairOptions(zs, codes) == head + (PairOptions(xs[1..], codes) + PairOptions(ys, codes));
      assert PairOptions(xs, codes) == head + PairOptions(xs[1..], codes);
    }
  }

  /** An option appears exactly when it is one of the items and its code is
      in the code list. */
  lemma {:induction false} PairOptionsMembership(items: seq<GenericItem>, codes: seq<string>)
    ensures forall x :: x in PairOptions(items, codes) <==> x in items && x.code in codes
    decreases |items|
  {
    if items != [] {
      var y := items[0];
      var n := multiset(codes)[y.code];
      PairOptionsMembership(items[1..], codes);
      CodeOptionsRepeat(y, codes);
      assert y.code in codes <==> n > 0;
      var head := CodeOptions(y, codes);
      assert PairOptions(items, codes) == head + PairOptions(items[1..], codes);
      forall x
        ensures x in PairOptions(items, codes) <==> x in items && x.code in codes
      {
        assert x in items <==> x == y || x in items[1..];
        RepeatMembership(y, n, x);
      }
    }
  }

  /** The number of (item, code) pairs whose code equals the item's code. */
  function MatchingPairs(items: seq<GenericItem>, codes: seq<string>): nat
    decreases |items|
  {
    if items == [] then 0
    else multiset(codes)[items[0].code] + MatchingPairs(items[1..], codes)
  }

  /** Without `ALL`, the list holds one entry per matching pair. */
  lemma {:induction false} PairOptionsCount(items: seq<GenericItem>, codes: seq<string>)
    ensures |PairOptions(items, codes)| == MatchingPairs(items, codes)
    decreases |items|
  {
    if items != [] {
      CodeOptionsRepeat(items[0], codes);
      PairOptionsCount(items[1..], codes);
    }
  }

  /** With a value other than null or `ALL`, the list is the blank plus one
      entry per matching (item, code) pair. */
  lemma AvailableOptionsCount(value: string, related: seq<ListItem>)
    requires value != AllKeyword
    ensures |AvailableOptions(Some(value), related)| == 1 + MatchingPairs(AllOptions(related), Split(value, ','))
  {
    PairOptionsCount(AllOptions(related), Split(value, ','));
  }

  /** An empty value is not `ALL`: it is the one code `""`, so exactly the
      items whose code is empty are offered. */
  lemma EmptyValueOffersEmptyCodes(related: seq<ListItem>)
    ensures var r := AvailableOptions(Some(""), related);
      forall x :: x in r[1..] <==> x in AllOptions(related) && x.code == ""
  {
    assert Split("", ',') == [""];
    OptionsForMembership("", AllOptions(related));
    SingleCodeMembership(AvailableOptions(Some(""), related)[1..], AllOptions(related), "");
  }

  lemma SingleCodeMembership(r: seq<GenericItem>, items: seq<GenericItem>, code: string)
    requires forall x :: x in r <==> x in items && x.code in [code]
    ensures forall x :: x in r <==> x in items && x.code == code
  {
  }

  lemma SplitDuplicateCodes()
    ensures Split("A" + "," + "B" + "," + "A", ',') == ["A", "B", "A"]
  {
    var codes := ["A", "B", "A"];
    assert Join(codes, ',') == "A" + "," + "B" + "," + "A";
    SplitJoin(codes, ',');
  }

  lemma CodeOptionsOfThree(x: GenericItem, c0: string, c1: string, c2: string)
    ensures CodeOptions(x, [c0, c1, c2])
            == (if c0 == x.code then [GenericItem(c0, x.name)] else [])
               + (if c1 == x.code then [GenericItem(c1, x.name)] else [])
               + (if c2 == x.code then [GenericItem(c2, x.name)] else [])
  {
    assert [c0, c1, c2][1..] == [c1, c2] && [c1, c2][1..] == [c2] && [c2][1..] == [];
    var last := if c2 == x.code then [GenericItem(c2, x.name)] else [];
    assert CodeOptions(x, [c2]) == last + CodeOptions(x, []);
    assert CodeOptions(x, [c2]) == last;
  }

  lemma PairOptionsDuplicateCodes(a: GenericItem, b: GenericItem, c: GenericItem)
    requires a.code != b.code && a.code != c.code && b.code != c.code
    ensures PairOptions([a, b, c], [a.code, b.code, a.code]) == [a, a, b]
  {
    var codes := [a.code, b.code, a.code];
    CodeOptionsOfThree(a, a.code, b.code, a.code);
    CodeOptionsOfThree(b, a.code, b.code, a.code);
    CodeOptionsOfThree(c, a.code, b.code, a.code);
    assert [a, b, c][1..] == [b, c] && [b, c][1..] == [c] && [c][1..] == [];
    assert PairOptions([c], codes) == CodeOptions(c, codes) + PairOptions([], codes);
  }

  /** The value `A,B,A` over items coded `A`, `B`, `C` offers `A` twice and
      then `B` after the blank: item order first, duplicates kept, items
      whose code is not listed left out. */
  lemma DuplicateCodesExample(a: GenericItem, b: GenericItem, c: GenericItem)
    requires a.code == "A" && b.code == "B" && c.code == "C"
    ensures PairOptions([a, b, c], Split("A" + "," + "B" + "," + "A", ',')) == [a, a, b]
  {
    SplitDuplicateCodes();
    assert ["A", "B", "A"] == [a.code, b.code, a.code];
    PairOptionsDuplicateCodes(a, b, c);
  }
}
