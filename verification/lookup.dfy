/** Resolution of a requested list title against the titles of the site's
    lists (OrgUtilitiesClass.cs, GetSPListItems). */
module ListLookup {
  import opened Wrappers
  import opened Text
  import opened Records
  import opened ControlNames

  /** The `Substring(0, Length - 1)` of the plural test throws: the title
      normalises to the empty string and does not already end with the
      (non-empty) request, so the second test is reached. */
  predicate TitleCrashes(title: string, request: string) {
    var t := Normalize(title);
    !EndsWith(t, request) && |t| == 0
  }

  /** A normalised title matches the normalised request when it ends with it,
      or does so once its last character is dropped (a trailing plural `S`). */
  predicate TitleMatches(title: string, request: string) {
    var t := Normalize(title);
    EndsWith(t, request) || (|t| > 0 && EndsWith(t[..|t| - 1], request))
  }

  /** Whether each list's title matches `request`, in list order. */
  function Matches(lists: seq<SpList>, request: string): (r: seq<bool>)
    ensures |r| == |lists| && forall i :: 0 <= i < |lists| ==> r[i] == TitleMatches(lists[i].title, request)
  {
    seq(|lists|, i requires 0 <= i < |lists| => TitleMatches(lists[i].title, request))
  }

  /** The positions from `from` on that hold `true`, in order. */
  function TrueFrom(flags: seq<bool>, from: nat): (r: seq<nat>)
    requires from <= |flags|
    ensures TrueIndices(flags, from, r)
    decreases |flags| - from
  {
    if from == |flags| then []
    else
      var rest := TrueFrom(flags, from + 1);
      if flags[from] then
        var r := [from] + rest;
        assert forall j :: 0 < j < |r| ==> r[j] == rest[j - 1];
        r
      else rest
  }

  /** `m` lists, in increasing order, exactly the positions from `from` on
      that hold `true`. */
  predicate TrueIndices(flags: seq<bool>, from: nat, m: seq<nat>) {
    && (forall j :: 0 <= j < |m| ==> from <= m[j] < |flags| && flags[m[j]])
    && (forall i :: from <= i < |flags| && flags[i] ==> i in m)
    && (forall a, b :: 0 <= a < b < |m| ==> m[a] < m[b])
  }

  /** The indices of the matching lists, in list order. */
  function MatchingIndices(lists: seq<SpList>, request: string): (r: seq<nat>)
    ensures forall j :: 0 <= j < |r| ==> r[j] < |lists| && TitleMatches(lists[r[j]].title, request)
    ensures forall i :: 0 <= i < |lists| && TitleMatches(lists[i].title, request) ==> i in r
    ensures forall a, b :: 0 <= a < b < |r| ==> r[a] < r[b]
  {
    TrueFrom(Matches(lists, request), 0)
  }

  /** Some title throws when it is compared with `request`. */
  predicate SomeTitleCrashes(lists: seq<SpList>, request: string) {
    exists i | 0 <= i < |lists| :: TitleCrashes(lists[i].title, request)
  }

  /** No title matches `request`. */
  predicate NoTitleMatches(lists: seq<SpList>, request: string) {
    forall i | 0 <= i < |lists| :: !TitleMatches(lists[i].title, request)
  }

  /** Two different lists both match `request`. */
  predicate TwoTitlesMatch(lists: seq<SpList>, request: string) {
    exists i, j | 0 <= i < j < |lists| ::
      TitleMatches(lists[i].title, request) && TitleMatches(lists[j].title, request)
  }

  /** List `i` is the one and only list whose title matches `request`. */
  predicate OnlyMatch(lists: seq<SpList>, request: string, i: int) {
    && 0 <= i < |lists|
    && TitleMatches(lists[i].title, request)
    && forall j | 0 <= j < |lists| && j != i :: !TitleMatches(lists[j].title, request)
  }

  /** How many lists match decides the outcome: none, exactly one, or two
      or more. */
  lemma MatchCountFacts(lists: seq<SpList>, request: string)
    ensures var m := MatchingIndices(lists, request);
      && (|m| == 0 <==> NoTitleMatches(lists, request))
      && (|m| > 1 <==> TwoTitlesMatch(lists, request))
      && (|m| == 1 ==> OnlyMatch(lists, request, m[0]))
  {
    var flags := Matches(lists, request);
    var m := TrueFrom(flags, 0);
    NoTrueCount(flags, m);
    TwoTrueCount(flags, m);
    OneTrueCount(flags, m);
    if |m| > 1 {
      assert TitleMatches(lists[m[0]].title, request) && TitleMatches(lists[m[1]].title, request);
    }
    if TwoTitlesMatch(lists, request) {
      var i, j :| 0 <= i < j < |lists| && TitleMatches(lists[i].title, request) && TitleMatches(lists[j].title, request);
      assert flags[i] && flags[j];
    }
  }

  lemma NoTrueCount(flags: seq<bool>, m: seq<nat>)
    requires TrueIndices(flags, 0, m)
    ensures |m| == 0 <==> forall i :: 0 <= i < |flags| ==> !flags[i]
  {
    if exists i :: 0 <= i < |flags| && flags[i] {
      var i :| 0 <= i < |flags| && flags[i];
      assert i in m;
    }
    if |m| > 0 {
      assert flags[m[0]];
    }
  }

  lemma TwoTrueCount(flags: seq<bool>, m: seq<nat>)
    requires TrueIndices(flags, 0, m)
    ensures |m| > 1 <==> exists i, j :: 0 <= i < j < |flags| && flags[i] && flags[j]
  {
    if exists i, j :: 0 <= i < j < |flags| && flags[i] && flags[j] {
      var i, j :| 0 <= i < j < |flags| && flags[i] && flags[j];
      assert i in m && j in m;
    }
    if |m| > 1 {
      assert m[0] < m[1];
    }
  }

  lemma OneTrueCount(flags: seq<bool>, m: seq<nat>)
    requires TrueIndices(flags, 0, m)
    ensures |m| == 1 ==> flags[m[0]] && forall j :: 0 <= j < |flags| && j != m[0] ==> !flags[j]
  {
  }

  /** `GetSPListItems(string)`: the items of the one list whose title matches
      the request; not-found and ambiguous requests are errors, and so is a
      title that normalises to nothing. */
  function ResolveList(request: string, lists: seq<SpList>): (r: Result<seq<ListItem>, Error>)
    ensures r == Failure(ListTitleTooShort) <==> SomeTitleCrashes(lists, Normalize(request))
    ensures r == Failure(ListNotFound)
            <==> !SomeTitleCrashes(lists, Normalize(request)) && NoTitleMatches(lists, Normalize(request))
    ensures r == Failure(ListAmbiguous)
            <==> !SomeTitleCrashes(lists, Normalize(request)) && TwoTitlesMatch(lists, Normalize(request))
    ensures r.Success? ==>
              exists i :: OnlyMatch(lists, Normalize(request), i) && r.value == lists[i].items
    ensures r.Success? || r == Failure(ListTitleTooShort) || r == Failure(ListNotFound) || r == Failure(ListAmbiguous)
  {
    var req := Normalize(request);
    if SomeTitleCrashes(lists, req) then Failure(ListTitleTooShort)
    else
      var matches := MatchingIndices(lists, req);
      MatchCountFacts(lists, req);
      if |matches| == 0 then Failure(ListNotFound)
      else if |matches| > 1 then Failure(ListAmbiguous)
      else Success(lists[matches[0]].items)
  }

  /** `GetSPListItems(Control)`: the request is the control's formatted name. */
  function ResolveListForControl(clientId: string, lists: seq<SpList>): Result<seq<ListItem>, Error> {
    match FormattedControlName(clientId, DefaultPrefixLength)
    case None => Failure(ControlNameTooShort(clientId))
    case Some(name) => ResolveList(name, lists)
  }

  /** Resolution ignores spaces and letter case in the request. */
  lemma ResolveListNormalizedRequest(request: string, lists: seq<SpList>)
    ensures ResolveList(Normalize(request), lists) == ResolveList(request, lists)
    ensures ResolveList(Upper(request), lists) == ResolveList(request, lists)
  {
    NormalizeIdempotent(request);
    NormalizeUpper(request);
  }

  /** The list a control reads from is found by its formatted name: for a
      qualified identifier `scope_name`, the request is `name` without its
      three-letter prefix, in any letter case. */
  lemma ControlRequestIsSuffix(scope: string, name: string, lists: seq<SpList>)
    requires '_' !in name && DefaultPrefixLength <= |name|
    ensures ResolveListForControl(scope + "_" + name, lists) == ResolveList(name[DefaultPrefixLength..], lists)
  {
    FormattedQualifiedName(scope, name, DefaultPrefixLength);
    ResolveListNormalizedRequest(name[DefaultPrefixLength..], lists);
  }

  /** Appending one character to a title that already matches keeps it
      matching: the plural of a list name resolves like the name. */
  lemma PluralTitleMatches(title: string, extra: char, request: string)
    requires extra != ' '
    requires EndsWith(Normalize(title), request)
    ensures TitleMatches(title + [extra], request)
  {
    RemoveSpacesAppendChar(title, extra);
    var t := Normalize(title + [extra]);
    assert t[..|t| - 1] == Normalize(title);
  }

  lemma {:induction false} RemoveSpacesAppendChar(s: string, c: char)
    requires c != ' '
    ensures RemoveSpaces(s + [c]) == RemoveSpaces(s) + [c]
  {
    if s != [] {
      assert (s + [c])[1..] == s[1..] + [c];
      RemoveSpacesAppendChar(s[1..], c);
    } else {
      assert RemoveSpaces([c]) == [c] + RemoveSpaces([]);
    }
  }

  /** A single list whose title matches resolves to its items. */
  lemma ResolveSingleList(request: string, title: string, items: seq<ListItem>)
    requires !TitleCrashes(title, Normalize(request)) && TitleMatches(title, Normalize(request))
    ensures ResolveList(request, [SpList(title, items)]) == Success(items)
  {
    var lists := [SpList(title, items)];
    assert lists[0].title == title;
    assert !SomeTitleCrashes(lists, Normalize(request));
    assert !NoTitleMatches(lists, Normalize(request));
    assert !TwoTitlesMatch(lists, Normalize(request));
  }

  /** Two lists whose titles both match make the request ambiguous. */
  lemma ResolveTwoLists(request: string, first: SpList, second: SpList)
    requires !TitleCrashes(first.title, Normalize(request)) && TitleMatches(first.title, Normalize(request))
    requires !TitleCrashes(second.title, Normalize(request)) && TitleMatches(second.title, Normalize(request))
    ensures ResolveList(request, [first, second]) == Failure(ListAmbiguous)
  {
    var lists := [first, second];
    assert !SomeTitleCrashes(lists, Normalize(request));
    assert TitleMatches(lists[0].title, Normalize(request)) && TitleMatches(lists[1].title, Normalize(request));
  }

  /** The normal forms of the plural and the singular title. */
  lemma SubCodeTitles()
    ensures Normalize("Sub" + " " + "Codes") == "SUBCODES"
    ensures Normalize("Sub" + " " + "Code") == "SUBCODE"
  {
    NormalizeTwoWords("Sub", "Codes");
    assert "Sub" + "Codes" == "SubCodes";
    assert Upper("SubCodes") == "SUBCODES";
    NormalizeTwoWords("Sub", "Code");
    assert "Sub" + "Code" == "SubCode";
    assert Upper("SubCode") == "SUBCODE";
  }

  lemma SubCodeRequest()
    ensures Normalize("SUBCODE") == "SUBCODE"
  {
    NormalizeNormalForm("SUBCODE");
  }

  /** The request `SUBCODE` resolves to a list titled `Sub Codes`. */
  lemma SubCodePluralExample(codes: seq<ListItem>)
    ensures ResolveList("SUBCODE", [SpList("Sub" + " " + "Codes", codes)]) == Success(codes)
  {
    SubCodePluralMatches();
    ResolveSingleList("SUBCODE", "Sub" + " " + "Codes", codes);
  }

  /** The request `SUBCODE` resolves to a list titled `Sub Code`. */
  lemma SubCodeSingularExample(code: seq<ListItem>)
    ensures ResolveList("SUBCODE", [SpList("Sub" + " " + "Code", code)]) == Success(code)
  {
    SubCodeSingularMatches();
    ResolveSingleList("SUBCODE", "Sub" + " " + "Code", code);
  }

  /** When lists titled `Sub Codes` and `Sub Code` both exist, the request
      `SUBCODE` is ambiguous. */
  lemma SubCodeAmbiguousExample(codes: seq<ListItem>, code: seq<ListItem>)
    ensures ResolveList("SUBCODE", [SpList("Sub" + " " + "Codes", codes), SpList("Sub" + " " + "Code", code)])
            == Failure(ListAmbiguous)
  {
    SubCodePluralMatches();
    SubCodeSingularMatches();
    ResolveTwoLists("SUBCODE", SpList("Sub" + " " + "Codes", codes), SpList("Sub" + " " + "Code", code));
  }

  lemma SubCodePluralMatches()
    ensures var req := Normalize("SUBCODE");
            !TitleCrashes("Sub" + " " + "Codes", req) && TitleMatches("Sub" + " " + "Codes", req)
  {
    SubCodeTitles();
    SubCodeRequest();
    var plural := "SUBCODES";
    assert plural[..|plural| - 1] == "SUBCODE";
  }

  lemma SubCodeSingularMatches()
    ensures var req := Normalize("SUBCODE");
            !TitleCrashes("Sub" + " " + "Code", req) && TitleMatches("Sub" + " " + "Code", req)
  {
    SubCodeTitles();
    SubCodeRequest();
  }
}
