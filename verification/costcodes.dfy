/** `GetCostCodesByCode` (OrgUtilitiesClass.cs lines 279-289): the cost
    codes, optionally restricted to a list of codes, behind a blank entry.
    The element type and how a cost code exposes its code are parameters. */
module CostCodes {
  import opened Wrappers

  /** `Where(item => codes.Any(code => item.Code == code))`: the entries
      whose code is listed, in their original order. */
  function KeepCodes<T(!new)>(entries: seq<T>, codeOf: T -> string, codes: seq<string>): (r: seq<T>)
    ensures |r| <= |entries|
    decreases |entries|
  {
    if entries == [] then []
    else
      var rest := KeepCodes(entries[1..], codeOf, codes);
      if codeOf(entries[0]) in codes then [entries[0]] + rest else rest
  }

  /** An entry is kept exactly when its code is listed. */
  lemma {:induction false} KeepCodesMembership<T(!new)>(entries: seq<T>, codeOf: T -> string, codes: seq<string>)
    ensures forall x :: x in KeepCodes(entries, codeOf, codes) <==> x in entries && codeOf(x) in codes
    decreases |entries|
  {
    if entries != [] {
      KeepCodesMembership(entries[1..], codeOf, codes);
      forall x
        ensures x in KeepCodes(entries, codeOf, codes) <==> x in entries && codeOf(x) in codes
      {
        assert x in entries <==> x == entries[0] || x in entries[1..];
      }
    }
  }

  /** The restriction keeps each entry exactly as often as it occurs, or drops it. */
  lemma {:induction false} KeepCodesCount<T(!new)>(entries: seq<T>, codeOf: T -> string, codes: seq<string>, x: T)
    ensures multiset(KeepCodes(entries, codeOf, codes))[x]
            == if codeOf(x) in codes then multiset(entries)[x] else 0
    decreases |entries|
  {
    if entries != [] {
      KeepCodesCount(entries[1..], codeOf, codes, x);
      assert entries == [entries[0]] + entries[1..];
    }
  }

  /** The restriction preserves order: it distributes over concatenation. */
  lemma {:induction false} KeepCodesAppend<T(!new)>(xs: seq<T>, ys: seq<T>, codeOf: T -> string, codes: seq<string>)
    ensures KeepCodes(xs + ys, codeOf, codes) == KeepCodes(xs, codeOf, codes) + KeepCodes(ys, codeOf, codes)
    decreases |xs|
  {
    if xs == [] {
      assert xs + ys == ys;
    } else {
      KeepCodesAppend(xs[1..], ys, codeOf, codes);
      assert (xs + ys)[1..] == xs[1..] + ys;
    }
  }

  /** When every entry's code is listed, nothing is dropped. */
  lemma {:induction false} KeepCodesAll<T(!new)>(entries: seq<T>, codeOf: T -> string, codes: seq<string>)
    requires forall i :: 0 <= i < |entries| ==> codeOf(entries[i]) in codes
    ensures KeepCodes(entries, codeOf, codes) == entries
    decreases |entries|
  {
    if entries != [] {
      KeepCodesAll(entries[1..], codeOf, codes);
      assert entries == [entries[0]] + entries[1..];
    }
  }

  /** The result: a blank entry, then all entries for a null code list, or
      the entries whose code is listed. */
  function CostCodesByCode<T(!new)>(entries: seq<T>, codeOf: T -> string, codes: Option<seq<string>>, blank: T): (r: seq<T>)
    ensures |r| >= 1 && r[0] == blank
    ensures codes.None? ==> r[1..] == entries
    ensures codes.Some? ==> forall x :: x in r[1..] <==> x in entries && codeOf(x) in codes.value
    ensures codes.Some? ==> |r| <= |entries| + 1
  {
    var kept := if codes.None? then entries else KeepCodes(entries, codeOf, codes.value);
    assert ([blank] + kept)[1..] == kept;
    if codes.Some? then
      KeepCodesMembership(entries, codeOf, codes.value);
      [blank] + kept
    else [blank] + kept
  }

  /** An empty code list keeps nothing. */
  lemma {:induction false} KeepCodesNone<T(!new)>(entries: seq<T>, codeOf: T -> string)
    ensures KeepCodes(entries, codeOf, []) == []
    decreases |entries|
  {
    if entries != [] {
      KeepCodesNone(entries[1..], codeOf);
    }
  }

  /** An empty code list leaves only the blank entry. */
  lemma CostCodesByNoCodes<T(!new)>(entries: seq<T>, codeOf: T -> string, blank: T)
    ensures CostCodesByCode(entries, codeOf, Some([]), blank) == [blank]
  {
    KeepCodesNone(entries, codeOf);
  }
}
