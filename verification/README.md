# Naming-convention binding of the manual-payment form

This project models the binding layer of a SharePoint web part in Dafny. The
layer connects the columns of a list item to the controls of an ASP.NET form
purely through names.

A control's client identifier (`Org_ucManualPayment_ddlSubCode`) is reduced to a
token (`SUBCODE`). There are two directives:

- A `Show` column sets the visibility of every panel whose token occurs in the
  column's formatted name.
- An `Available` column fills every such drop-down list with the options of a
  related list. The related list is found by comparing its normalised title
  with the text after the column name's first space.

When the user picks a value in a drop-down list:

1. The form's handler looks up the list behind that control.
2. It finds the first item whose code is the picked value.
3. It applies that item's directives to the form.

The model is functional throughout:

- The form is an immutable tree of controls. Controls are addressed by child-index
  paths.
- A list item is a sequence of column descriptions plus a map from column name to
  string value. An absent key is a null value.
- The site's lists are a parameter.
- Every exception raised at a modelled throw site is an `Error` value, and every
  `catch` is a branch on it. The exceptions the model does not reach are listed
  under "Left out".

Modules, in dependency order:

| module | file | models |
|---|---|---|
| `Wrappers` | wrappers.dfy | `Option`, `Result`, and one `Error` per throw site |
| `Text` | text.dfy | the .NET string operations the code uses: `ToUpperInvariant`, `Replace(" ", "")`, `EndsWith`, `Contains`, `LastIndexOf`, `Split`, `Trim` |
| `Records` | records.dfy | list items, and `GetItemValue` with its `type;#value` clean-up |
| `ControlNames` | controlnames.dfy | `GetFormattedControlName` |
| `ListLookup` | lookup.dfy | `GetSPListItems(string)` and `GetSPListItems(Control)` |
| `Controls` | controls.dfy | the control tree, edits to one control, and `FindDescendants` |
| `Availability` | availability.dfy | the option list of an `Available` column |
| `Conversion` | convert.dfy | `Convert.ToBoolean(string)` |
| `Processing` | processing.dfy | `ProcessItem` |
| `CostCodes` | costcodes.dfy | `GetCostCodesByCode` |
| `Deserialization` | deserialize.dfy | the loop of `GetGenericSPItemsDeserialized` |
| `Form` | form.dfy | `ddl_SelectedIndexChanged` of form.ascx.cs |

The code and its written description differ on five points. The model follows
the code:

- **Option order.** Options are built item-major: for each related item, one
  option for every listed code equal to the item's code. The result is not
  sorted.
  - So the value `A,B,A` over items coded `A`, `B`, `C` offers `A`, `A`, `B`.
- **Empty value.** An empty availability value is not `ALL`. It splits to the
  single code `""`, so it offers only the related items whose code is empty.
- **Match direction.** A control is targeted when its token occurs in the
  column's formatted name, not the other way round.
- **Title source.** The related list's title is the column's name after its
  first space. It is not taken from the formatted name.
- **Crashes stay in the model.** The two crash sites below are kept as the
  failures they raise, not turned into preconditions:
  - a column name without a space (line 56);
  - an empty list title in the plural test (line 188).

  Each caller's reaction is modelled as the code has it. `ProcessItem` aborts on
  the first, and the `catch` around the lookup skips the control on the second.

## Model

| member | source | states |
|---|---|---|
| ControlNames.FormattedControlName | OrgUtilitiesClass.cs:270-277 | The name exists exactly when the prefix length fits the segment after the last `_`. It has no lower-case letter and no `_`, and its length is that segment's length minus the prefix. |
| ControlNames.FormattedQualifiedName | OrgUtilitiesClass.cs:272-275 | For `scope_name` with no `_` in `name`, the result is `name` without its prefix, upper-cased. |
| ControlNames.FormattedUnqualifiedName | OrgUtilitiesClass.cs:273 | An identifier without `_` is used whole. |
| ControlNames.FormattedNameExample | OrgUtilitiesClass.cs:273-275 | `Org_ucManualPayment_ddlSubCode` formats to `SUBCODE` with the default prefix of 3. |
| Text.LastIndexOf | OrgUtilitiesClass.cs:273 | The result is the last index holding the character, or -1 when there is none. |
| Text.AfterLast | OrgUtilitiesClass.cs:273 | The result is the suffix after the last separator, or the whole string. It contains no separator. |
| Text.AfterLastQualified | OrgUtilitiesClass.cs:273 | The text after the last `_` of `scope_name` is `name` when `name` has no `_`. |
| Text.UpperNoLower | OrgUtilitiesClass.cs:275 | An upper-cased text has no lower-case letter. |
| Text.UpperIdempotent | OrgUtilitiesClass.cs:275 | Upper-casing twice is upper-casing once. |
| Text.RemoveSpaces | OrgUtilitiesClass.cs:182 | The result has no space and is no longer than the input. |
| Text.RemoveSpacesAppend | OrgUtilitiesClass.cs:182 | Space removal distributes over concatenation. |
| Text.RemoveSpacesUpper | OrgUtilitiesClass.cs:182 | Space removal and upper-casing commute. |
| Text.NormalizeIdempotent | OrgUtilitiesClass.cs:182 | A normalised title is its own normal form. |
| Text.NormalizeUpper | OrgUtilitiesClass.cs:182 | Normalisation ignores letter case. |
| Text.NormalizeTwoWords | OrgUtilitiesClass.cs:187 | `Sub Codes`-style titles normalise to the upper-cased words run together. |
| Text.NormalizeNormalForm | OrgUtilitiesClass.cs:182 | A text with no space and no lower-case letter is its own normal form. |
| Text.Split | OrgUtilitiesClass.cs:73 | Splitting gives at least one piece, and two or more exactly when the separator occurs. No piece holds the separator. The first piece is a prefix of the input that ends at the first separator or at the end. |
| Text.JoinSplit | OrgUtilitiesClass.cs:73 | Splitting then joining on the same separator gives back the input. |
| Text.SplitJoin | OrgUtilitiesClass.cs:73 | Joining separator-free pieces and splitting again gives back the pieces. |
| Text.IndexOf | OrgUtilitiesClass.cs:56 | The result is the first index holding the character. |
| Text.Trim | OrgUtilitiesClass.cs:119 | The result has no white space at either end and is no longer than the input. |
| Text.TrimCutsWhiteSpace | OrgUtilitiesClass.cs:119 | The result is a slice of the input with only white space cut from both ends. |
| Text.TrimOfTrimmed | OrgUtilitiesClass.cs:119 | A string with no white space at either end is left as it is. |
| Text.ContainsTransitive | OrgUtilitiesClass.cs:30 | Containment is transitive. |
| Records.StripTypePrefix | OrgUtilitiesClass.cs:110-113 | Without the `;#` marker the raw value is kept. With it, the result is the text between the first `#` and the next `#` or the end. |
| Records.HashPieceUnique | OrgUtilitiesClass.cs:112 | Only one text follows the first `#` up to the next `#` or the end, so the statement above fixes the result. |
| Records.SplitSecondPiece | OrgUtilitiesClass.cs:112 | The element at index 1 of `Split('#')` is the text between the first `#` and the next `#` or the end. |
| Records.StripTypePrefixMultiLookupExample | OrgUtilitiesClass.cs:110-113 | The multi-valued lookup `1;#A;#2;#B` keeps only `A;`. |
| Records.StripTypePrefixOfPair | OrgUtilitiesClass.cs:110-113 | `type;#value` with hash-free parts strips to `value`. |
| Records.CleanValue | OrgUtilitiesClass.cs:109-119 | Without the marker the cleaned value is the trimmed raw value. With it, it is the trimmed text between the first `#` and the next `#` or the end. |
| Records.GetItemValue | OrgUtilitiesClass.cs:104-120 | A null or missing column reads as `""`. Otherwise the value is the trimmed raw text, or, with the marker, the trimmed text between its first `#` and the next `#` or the end. |
| Records.TrimContained | OrgUtilitiesClass.cs:119 | Trimming keeps an occurring slice of the input and introduces no `#`. |
| Records.CleanValueIdempotent | OrgUtilitiesClass.cs:109-119 | Cleaning a cleaned value changes nothing. |
| Records.CleanValueOfPair | OrgUtilitiesClass.cs:109-119 | `type;#value` with a trimmed value cleans to `value`. |
| Records.CleanValueTypePrefixExample | OrgUtilitiesClass.cs:112 | `string;#Intangible Completion` cleans to `Intangible Completion`. |
| Records.CleanValuePlain | OrgUtilitiesClass.cs:109-119 | A trimmed value without the marker cleans to itself. |
| ListLookup.TrueFrom | OrgUtilitiesClass.cs:185-192 | The result lists, in increasing order, exactly the flagged positions. |
| ListLookup.MatchingIndices | OrgUtilitiesClass.cs:185-192 | The result lists, in increasing order, exactly the indices of the lists whose normalised title ends with the request, itself or without its last character. |
| ListLookup.MatchCountFacts | OrgUtilitiesClass.cs:193-201 | No index means no list matches. Two or more mean two different lists match. Exactly one means that list is the only match. |
| ListLookup.ResolveList | OrgUtilitiesClass.cs:180-202 | The lookup fails on a title too short for the plural test, exactly when one occurs. Otherwise it is not-found exactly when no title matches and ambiguous exactly when two do. A success returns the items of the one matching list. |
| ListLookup.ResolveListNormalizedRequest | OrgUtilitiesClass.cs:182 | Spaces and letter case in the request do not change the outcome. |
| ListLookup.ControlRequestIsSuffix | OrgUtilitiesClass.cs:174-178 | For `scope_name`, a control's lookup is the lookup of its name without the three-character prefix. |
| ListLookup.PluralTitleMatches | OrgUtilitiesClass.cs:188 | A title one character longer than a matching title still matches. |
| ListLookup.ResolveSingleList | OrgUtilitiesClass.cs:185-201 | A single matching list resolves to its items. |
| ListLookup.ResolveTwoLists | OrgUtilitiesClass.cs:197-200 | Two matching lists make the request ambiguous. |
| ListLookup.SubCodePluralExample | OrgUtilitiesClass.cs:188 | `SUBCODE` resolves to a list titled `Sub Codes`. |
| ListLookup.SubCodeSingularExample | OrgUtilitiesClass.cs:188 | `SUBCODE` resolves to a list titled `Sub Code`. |
| ListLookup.SubCodeAmbiguousExample | OrgUtilitiesClass.cs:197-200 | With both `Sub Codes` and `Sub Code` present, `SUBCODE` is ambiguous. |
| Controls.EditAtWidget | OrgUtilitiesClass.cs:42 | Writing to the control at one path changes that control and nothing else. |
| Controls.EditOptTwice | OrgUtilitiesClass.cs:93-99 | Applying the same write twice is applying it once. |
| Controls.FindDescendants | OrgUtilitiesClass.cs:251-268 | Every result is a proper descendant of the requested class, found at its path. |
| Controls.DescendantsFrom | OrgUtilitiesClass.cs:257-265 | The search over the children from one index on finds only their descendants of the class. |
| Controls.FindDescendantsOf | OrgUtilitiesClass.cs:253 | A null parent is an error. Any other parent gives its proper descendants of the class. |
| Controls.FindDescendantsPreOrder | OrgUtilitiesClass.cs:257-265 | Results come in strict pre-order: a child before its own descendants, and an earlier child's subtree before a later child's. |
| Controls.FindDescendantsComplete | OrgUtilitiesClass.cs:257-265 | Every proper descendant of the class is in the result. |
| Controls.FindDescendantsSpec | OrgUtilitiesClass.cs:251-268 | The results are exactly the proper descendants of the class, each once, in pre-order. |
| Availability.OptionsFor | OrgUtilitiesClass.cs:68-91 | The options start with the blank. For a null value or `ALL`, every item follows in order. |
| Availability.OptionsForMembership | OrgUtilitiesClass.cs:69-81 | For any other value, an option appears after the blank exactly when it is a related item whose code is one of the value's comma-separated codes. |
| Availability.AvailableOptions | OrgUtilitiesClass.cs:68-91 | The options start with the blank. For a null value or `ALL`, every related item follows. For any other value, each later option has a listed code and comes from a related item. |
| Availability.CodeOptionsRepeat | OrgUtilitiesClass.cs:73-80 | An item contributes its option once for every occurrence of its code in the value. |
| Availability.PairOptionsAppend | OrgUtilitiesClass.cs:71-81 | Options are item-major: options over concatenated items are concatenated. |
| Availability.PairOptionsMembership | OrgUtilitiesClass.cs:71-81 | An option appears exactly when it is an item whose code is listed. |
| Availability.PairOptionsCount | OrgUtilitiesClass.cs:71-81 | There is one option per (item, code) pair whose code equals the item's code. |
| Availability.AvailableOptionsCount | OrgUtilitiesClass.cs:68-81 | For a value other than null or `ALL`, the list has 1 plus the number of matching pairs. |
| Availability.EmptyValueOffersEmptyCodes | OrgUtilitiesClass.cs:69-73 | An empty value is not `ALL`: after the blank it offers exactly the related items whose code is empty. |
| Availability.PairOptionsDuplicateCodes | OrgUtilitiesClass.cs:71-81 | Codes `a, b, a` over distinct items `a, b, c` give `a, a, b`: duplicates kept, item order first. |
| Availability.DuplicateCodesExample | OrgUtilitiesClass.cs:71-81 | The value `A,B,A` over items coded `A`, `B`, `C` offers `A`, `A`, `B`. |
| Conversion.Strip | OrgUtilitiesClass.cs:36 | The stripped text has no padding at either end and is no longer than the input. |
| Conversion.StripCutsPadding | OrgUtilitiesClass.cs:36 | The stripped text is a slice of the input with only padding cut from both ends. |
| Conversion.StripUnique | OrgUtilitiesClass.cs:36 | Any slice with only padding outside it and none at its own ends is the stripped text. |
| Conversion.StripPadded | OrgUtilitiesClass.cs:36 | Adding padding before and after a text does not change what it strips to. |
| Conversion.ToBoolean | OrgUtilitiesClass.cs:33-41 | A parse succeeds only on a text that, once stripped and upper-cased, is `TRUE` or `FALSE`, and yields that value. |
| Conversion.ToBooleanRoundTrip | OrgUtilitiesClass.cs:36 | Parsing `True` or `False` gives the Boolean back. |
| Conversion.ToBooleanEmpty | OrgUtilitiesClass.cs:36-40 | An empty value, which is what a missing column cleans to, does not parse, so the panel becomes visible. |
| Conversion.ToBooleanIgnoresCase | OrgUtilitiesClass.cs:36 | Parsing ignores letter case. |
| Conversion.ToBooleanIgnoresPadding | OrgUtilitiesClass.cs:36 | Padding added before and after a text does not change its parse. |
| Processing.VisitTargets | OrgUtilitiesClass.cs:27-45 | The loop throws exactly when some control from the start position on is unnamed, or is a target of a throwing step. The error is that step's or the name's. |
| Processing.VisitTargetsWidgets | OrgUtilitiesClass.cs:27-45 | A successful loop applies the step to the targets' paths and leaves every other path alone. |
| Processing.VisitDescendantsFails | OrgUtilitiesClass.cs:27-45 | Over the descendants of one class, the loop throws exactly when some descendant halts it. |
| Processing.VisitDescendantsEffect | OrgUtilitiesClass.cs:27-45 | A successful loop edits exactly the targeted descendants. |
| Processing.EditedIsTarget | OrgUtilitiesClass.cs:27-30 | A path is reached as a target exactly when it names a targeted descendant of the class. |
| Processing.ListTitleOf | OrgUtilitiesClass.cs:56 | A title exists exactly when the column name has a space. It is the text after the first space. |
| Processing.ListTitleOfKeyword | OrgUtilitiesClass.cs:56 | `keyword title` with no space in the keyword gives `title`, further spaces kept. |
| Processing.AvailableFieldEffect | OrgUtilitiesClass.cs:48-101 | A successful `Available` column gives every drop-down list it targets the options of the list named after the space in the column name, and changes nothing else. When that title names no single list, nothing changes. |
| Processing.ShowFieldFails | OrgUtilitiesClass.cs:24-46 | A `Show` column throws exactly when some panel's name cannot be formatted, or when it is not Boolean and some panel is a target. |
| Processing.NonBooleanTargetFails | OrgUtilitiesClass.cs:27-44 | A non-Boolean `Show` column with a target panel throws. The error is the not-Boolean error, or the name error of a panel visited earlier. |
| Processing.ShowFieldEffect | OrgUtilitiesClass.cs:31-42 | A Boolean `Show` column sets the visibility of exactly the targeted panels. |
| Processing.ProcessFieldChanges | OrgUtilitiesClass.cs:21-101 | One column keeps the form's shape and changes only the controls it directs. |
| Processing.ProcessFieldsChanges | OrgUtilitiesClass.cs:21-102 | A whole item keeps the form's shape and changes only controls that some column directs. |
| Processing.ProcessFieldsWithoutDirectives | OrgUtilitiesClass.cs:21-48 | An item with no `Show` and no `Available` column leaves the form as it is. |
| Processing.ProcessItemChanges | OrgUtilitiesClass.cs:17-103 | The two statements above for `ProcessItem` itself. |
| Processing.ProcessFieldKeepsRole | OrgUtilitiesClass.cs:21-101 | A column that does not throw leaves every control's role for every other column as it was. |
| Processing.NonBooleanFieldFails | OrgUtilitiesClass.cs:21-46 | A non-Boolean `Show` column at any position that targets a panel of the form makes the loop over the columns throw. |
| Processing.NonBooleanShowFieldFails | OrgUtilitiesClass.cs:17-46 | A non-Boolean `Show` column of the item at any position that targets a panel makes `ProcessItem` throw. When it is the first column, the error is its own or a name error. |
| CostCodes.KeepCodesMembership | OrgUtilitiesClass.cs:283-284 | An entry is kept exactly when its code is listed. |
| CostCodes.KeepCodesCount | OrgUtilitiesClass.cs:283-284 | A kept entry is kept as often as it occurs, and a dropped one never appears. |
| CostCodes.KeepCodesAppend | OrgUtilitiesClass.cs:283-284 | The filter keeps order: it distributes over concatenation. |
| CostCodes.KeepCodesAll | OrgUtilitiesClass.cs:283-284 | When every code is listed nothing is dropped. |
| CostCodes.CostCodesByCode | OrgUtilitiesClass.cs:279-289 | The result starts with the default entry. The entries follow, all of them for a null code list, otherwise exactly those whose code is listed. |
| CostCodes.CostCodesByNoCodes | OrgUtilitiesClass.cs:281-287 | An empty code list leaves only the default entry. |
| Deserialization.PresentMembership | OrgUtilitiesClass.cs:128-133 | An item is read exactly when it is a non-null entry. |
| Deserialization.PresentAppend | OrgUtilitiesClass.cs:128-133 | Skipping nulls keeps order: it distributes over concatenation. |
| Deserialization.NameOf | OrgUtilitiesClass.cs:137-143 | A null name reads as `""`. A name without `;#` is kept. With it, the name is the text between its first `#` and the next `#` or the end. |
| Deserialization.Deserialized | OrgUtilitiesClass.cs:123-147 | As intended: one pair per non-null entry, in order, and no name holds `;#`. |
| Deserialization.DeserializedAsWritten | OrgUtilitiesClass.cs:123-147 | As written: the read throws exactly when some non-null entry has a null name. Otherwise it gives the intended pairs. |
| Deserialization.DeserializedAppend | OrgUtilitiesClass.cs:128-145 | Reading concatenated collections concatenates the results. |
| Deserialization.NullNameCounterexample | OrgUtilitiesClass.cs:134-137 | An item with a code and no name: as written the read throws, as intended it gives the pair with an empty name. |
| Form.FirstMatch | form.ascx.cs:17-27 | The item the loop stops at is the first whose cleaned code equals the value. With none, no item matches. |
| Form.FirstMatchUnique | form.ascx.cs:17-27 | A matching item with no match before it is the one the loop stops at. |
| Form.FirstMatchIgnoresRest | form.ascx.cs:22-25 | Items after the first match are never looked at. |
| Form.FindFirst | form.ascx.cs:17-27 | The search loop returns the first index holding the value, or none. |
| Form.ApplySelected | form.ascx.cs:17-27 | Only the first matching item is processed, and without one the form is unchanged. |
| Form.SelectionChanged | form.ascx.cs:2-28 | A failing lookup of the sender's list leaves the form as it is. Otherwise the first item whose code is the selected value is processed, or nothing happens. |

## Left out

- SharePoint and ASP.NET runtime: the site's lists and the sender's identifier and
  selected value are parameters. `SPContext` access, the `DataBind` lifecycle and
  the data-binding field names of lines 96-97 are not modelled.
- `GetSPListItemsByListName` (OrgUtilitiesClass.cs:204-219) builds a CAML query
  and relies on server-side ordering. Its result is the item sequence passed to
  `Deserialization.Deserialized`.
- `GetSPFieldsByControl` and `GetSPFieldsByListName` (OrgUtilitiesClass.cs:221-250)
  only return platform field objects. `GetSPFieldsByControl` matches titles by
  the rule of `ListLookup.ResolveListForControl`, except that it does not
  remove spaces from the formatted name again. `GetSPFieldsByListName` looks the
  list up by its exact title (`web.Lists[pListName]`), with no suffix or plural
  matching.
- The second overload of `GetGenericSPItemsDeserialized`
  (OrgUtilitiesClass.cs:148-172) runs the same loop over a differently obtained
  collection.
- `GetSPAPCostCodeItemsDeserialized` is not part of this model. Its cost codes
  are a parameter of `CostCodes.CostCodesByCode`, as are the code accessor and
  the default entry.
- The `SPFormattedField` classifier is not part of this model. `FieldInfo` takes
  its `ContainsShow`, `ContainsAvailable`, `isBool` and `FormattedName` as given
  data.
- Text.Upper: upper-cases ASCII letters only, so `ToUpperInvariant` on other
  letters is not modelled.
- Conversion.ToBoolean: compares `True` and `False` ignoring ASCII case only.
  It strips white space and NUL characters, following `Boolean.Parse`.
- Text.EndsWith: compares ordinally. The culture-sensitive default of
  `String.EndsWith(string)`, which ignores some zero-width characters, is not
  modelled.
- Partial updates before an exception are not modelled. `ProcessItem` yields
  either the new form or the failure, not a form half-updated by the controls
  visited before the throw.
- A column name that is not a key of the item's values reads as null. The model
  does not tell a missing column from a null one, and `GetItemValue` treats both
  as `""`.
- Clearing a drop-down's items and rebinding its data source (lines 93-99) is one
  write that replaces the items.
- `SelectedItem.Value` (form.ascx.cs:6) is read outside the `try`. With no
  selected item it throws, so the handler fails before any lookup. The model
  takes the selected value as a given string.
- The `as TControl` test of `FindDescendants` (OrgUtilitiesClass.cs:259) also
  accepts subclasses of the requested class. In ASP.NET a `WebPart`, for
  example, is a `Panel`. `Controls.Kind` gives each control exactly one class,
  so a subclass instance is either modelled as that class or not found.
- `Substring` and `Length` in .NET count UTF-16 code units
  (OrgUtilitiesClass.cs:188, 274). A Dafny `string` counts Unicode scalar
  values, so the two agree only on text inside the Basic Multilingual Plane.
- The exception messages are reduced to one `Error` constructor per throw site.

## Findings

| source | as written | input that shows it | evidently intended | confidence | as-written member | corrected member |
|---|---|---|---|---|---|---|
| OrgUtilitiesClass.cs:134 | `item["Name"].ToString()` runs before the null check of line 137, into an unused local, so a null name throws and the `?? ""` of line 137 can never apply | a list item with a `Code` and a null `Name` | a null name reads as `""` and the item still yields a code/name pair | not executed | Deserialization.DeserializedAsWritten | Deserialization.Deserialized |
