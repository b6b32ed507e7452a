/** The naming convention that joins a control to list columns and list
    titles (OrgUtilitiesClass.cs, GetFormattedControlName). */
module ControlNames {
  import opened Wrappers
  import opened Text

  /** Width of the control-type prefix (`ddl`, `pnl`, `lbl`) every caller uses. */
  const DefaultPrefixLength: int := 3

  /** `GetFormattedControlName`: the part of a client identifier after its
      last `_`, without its type prefix, upper-cased. `None` stands for the
      out-of-range exception `Substring` raises when the prefix is longer
      than that part (or negative). */
  function FormattedControlName(clientId: string, prefixLength: int): (r: Option<string>)
    ensures r.Some? <==> 0 <= prefixLength <= |AfterLast(clientId, '_')|
    ensures r.Some? ==> NoLower(r.value) && '_' !in r.value
    ensures r.Some? ==> |r.value| == |AfterLast(clientId, '_')| - prefixLength
  {
    var segment := AfterLast(clientId, '_');
    if 0 <= prefixLength <= |segment| then
      var rest := segment[prefixLength..];
      assert forall i :: 0 <= i < |rest| ==> rest[i] == segment[prefixLength + i];
      UpperAvoids(rest, '_');
      UpperNoLower(rest);
      Some(Upper(rest))
    else None
  }

  /** For a qualified identifier `scope_name` whose last part has no `_`,
      the formatted name is that last part without its prefix, upper-cased. */
  lemma FormattedQualifiedName(scope: string, name: string, prefixLength: int)
    requires '_' !in name && 0 <= prefixLength <= |name|
    ensures FormattedControlName(scope + "_" + name, prefixLength) == Some(Upper(name[prefixLength..]))
  {
    AfterLastQualified(scope, '_', name);
  }

  /** An identifier without `_` is used whole. */
  lemma FormattedUnqualifiedName(clientId: string, prefixLength: int)
    requires '_' !in clientId
    ensures FormattedControlName(clientId, prefixLength)
            == if 0 <= prefixLength <= |clientId| then Some(Upper(clientId[prefixLength..])) else None
  {
    AfterLastUnqualified(clientId, '_');
  }

  /** `Org_ucManualPayment_ddlSubCode` formats to `SUBCODE`. */
  lemma FormattedNameExample()
    ensures FormattedControlName("Org_ucManualPayment" + "_" + "ddlSubCode", DefaultPrefixLength) == Some("SUBCODE")
  {
    SubCodeName();
    FormattedQualifiedName("Org_ucManualPayment", "ddlSubCode", DefaultPrefixLength);
  }

  lemma SubCodeName()
    ensures '_' !in "ddlSubCode" && |"ddlSubCode"| >= DefaultPrefixLength
    ensures Upper("ddlSubCode"[DefaultPrefixLength..]) == "SUBCODE"
  {
    var name := "ddlSubCode";
    NotInByIndex(name, '_');
    assert name[3..] == "SubCode";
    assert Upper("SubCode") == "SUBCODE";
  }
}
