/** List items as the binding layer sees them, and the value clean-up it
    applies when reading a column (OrgUtilitiesClass.cs, GetItemValue). */
module Records {
  import opened Wrappers
  import opened Text

  /** One column of a list item as the field classifier presents it. The
      classifier's rules are not part of this model, so its answers are data:
      whether the name carries the visibility or the availability keyword,
      the upper-cased target token, and whether the column is Boolean. */
  datatype FieldInfo = FieldInfo(
    fieldName: string,
    formattedName: string,
    containsShow: bool,
    containsAvailable: bool,
    isBool: bool)

  /** A list item: its columns in collection order and the string form of
      each non-null value. A column that is missing from `values` reads as
      null. */
  datatype ListItem = ListItem(fields: seq<FieldInfo>, values: map<string, string>)

  /** A list of the site: its display title and its items in list order. */
  datatype SpList = SpList(title: string, items: seq<ListItem>)

  /** A code/name pair, the element type of a drop-down's data source. */
  datatype GenericItem = GenericItem(code: string, name: string)

  /** The raw value of a column, `None` for null. */
  function RawValue(item: ListItem, column: string): Option<string> {
    if column in item.values then Some(item.values[column]) else None
  }

  /** `piece` is the text that follows the `#` at index `i`, the first `#`
      of `raw`, up to the next `#` or the end. */
  predicate HashPieceAt(raw: string, piece: string, i: int) {
    && 0 <= i < |raw| && raw[i] == '#'
    && (forall k | 0 <= k < i :: raw[k] != '#')
    && i + 1 + |piece| <= |raw| && raw[i + 1..i + 1 + |piece|] == piece
    && '#' !in piece
    && (i + 1 + |piece| == |raw| || raw[i + 1 + |piece|] == '#')
  }

  /** `piece` is the element at index 1 of `raw.Split('#')`. */
  predicate HashPiece(raw: string, piece: string) {
    exists i | 0 <= i < |raw| :: HashPieceAt(raw, piece, i)
  }

  lemma HashPieceAtUnique(raw: string, p: string, q: string, i: int, j: int)
    requires HashPieceAt(raw, p, i) && HashPieceAt(raw, q, j)
    ensures i == j && p == q
  {
  }

  /** At most one piece follows the first `#`. */
  lemma HashPieceUnique(raw: string, p: string, q: string)
    requires HashPiece(raw, p) && HashPiece(raw, q)
    ensures p == q
  {
    var i :| HashPieceAt(raw, p, i);
    var j :| HashPieceAt(raw, q, j);
    HashPieceAtUnique(raw, p, q, i, j);
  }

  /** The first piece of what follows a `#` ends at the next `#` or the end. */
  lemma PieceAfterHash(raw: string, i: nat)
    requires i < |raw| && raw[i] == '#' && '#' !in raw[..i]
    ensures HashPieceAt(raw, Split(raw[i + 1..], '#')[0], i)
  {
    var rest := raw[i + 1..];
    var piece := Split(rest, '#')[0];
    assert rest[..|piece|] == raw[i + 1..i + 1 + |piece|];
    assert |piece| == |rest| || rest[|piece|] == '#';
    forall k | 0 <= k < i
      ensures raw[k] != '#'
    {
      assert raw[..i][k] == raw[k];
    }
  }

  /** The element at index 1 of `Split(raw, '#')` is the piece after the first `#`. */
  lemma SplitSecondPiece(raw: string)
    requires '#' in raw
    ensures |Split(raw, '#')| >= 2 && HashPieceAt(raw, Split(raw, '#')[1], IndexOf(raw, '#'))
  {
    var i := IndexOf(raw, '#');
    assert Split(raw, '#')[1] == Split(raw[i + 1..], '#')[0];
    PieceAfterHash(raw, i);
  }

  /** Removes the `type;#` prefix the store sometimes puts before a value:
      when `;#` occurs, the piece between the first and the second `#`. */
  function StripTypePrefix(raw: string): (r: string)
    ensures Contains(raw, r)
    ensures Contains(raw, ";#") ==> '#' !in r && HashPiece(raw, r)
    ensures !Contains(raw, ";#") ==> r == raw
  {
    if Contains(raw, ";#") then
      ContainsMarkerHasChar(raw, ';', '#');
      SplitSecondPiece(raw);
      var i := IndexOf(raw, '#');
      var piece := Split(raw, '#')[1];
      ContainsSlice(raw, i + 1, i + 1 + |piece|);
      piece
    else
      ContainsSlice(raw, 0, |raw|);
      assert raw[0..|raw|] == raw;
      raw
  }

  /** The cleaned value of a raw column string. */
  function CleanValue(raw: string): (r: string)
    ensures Trimmed(r)
    ensures Contains(raw, r)
    ensures Contains(raw, ";#") ==> '#' !in r && exists p | HashPiece(raw, p) :: r == Trim(p)
    ensures !Contains(raw, ";#") ==> r == Trim(raw)
  {
    var piece := StripTypePrefix(raw);
    TrimContained(piece);
    ContainsTransitive(raw, piece, Trim(piece));
    Trim(piece)
  }

  lemma TrimContained(s: string)
    ensures Contains(s, Trim(s))
    ensures '#' !in s ==> '#' !in Trim(s)
  {
    TrimCutsWhiteSpace(s);
    var i, j :| 0 <= i <= j <= |s| && Trim(s) == s[i..j] && WhiteRange(s, 0, i) && WhiteRange(s, j, |s|);
    ContainsSlice(s, i, j);
  }

  /** `GetItemValue`: the cleaned, trimmed string value of a column; any
      failure (missing column, null value) yields the empty string. */
  function GetItemValue(item: ListItem, column: string): (r: string)
    ensures Trimmed(r)
    ensures column !in item.values ==> r == ""
    ensures column in item.values ==> Contains(item.values[column], r)
    ensures column in item.values && !Contains(item.values[column], ";#")
            ==> r == Trim(item.values[column])
    ensures column in item.values && Contains(item.values[column], ";#")
            ==> exists p | HashPiece(item.values[column], p) :: r == Trim(p)
  {
    if column in item.values then CleanValue(item.values[column]) else ""
  }

  lemma NoHashNoMarker(s: string)
    requires '#' !in s
    ensures !Contains(s, ";#")
  {
    if Contains(s, ";#") {
      ContainsMarkerHasChar(s, ';', '#');
    }
  }

  /** Cleaning is idempotent: a cleaned value is already clean. */
  lemma CleanValueIdempotent(raw: string)
    ensures CleanValue(CleanValue(raw)) == CleanValue(raw)
  {
    var r := CleanValue(raw);
    if Contains(raw, ";#") {
      NoHashNoMarker(r);
    } else if Contains(r, ";#") {
      ContainsTransitive(raw, r, ";#");
    }
    CleanValuePlain(r);
  }

  /** A value `type;#value` made of two hash-free parts strips to its second part. */
  lemma StripTypePrefixOfPair(kind: string, value: string)
    requires '#' !in kind && '#' !in value
    requires |kind| > 0 && kind[|kind| - 1] == ';'
    ensures StripTypePrefix(kind + "#" + value) == value
  {
    var raw := kind + "#" + value;
    assert raw[|kind| - 1..|kind| + 1] == ";#";
    assert OccursAt(raw, ";#", |kind| - 1);
    assert Join([kind, value], '#') == raw;
    SplitJoin([kind, value], '#');
  }

  lemma CleanValueOfPair(kind: string, value: string)
    requires '#' !in kind && '#' !in value
    requires |kind| > 0 && kind[|kind| - 1] == ';'
    requires Trimmed(value)
    ensures CleanValue(kind + "#" + value) == value
  {
    StripTypePrefixOfPair(kind, value);
    TrimOfTrimmed(value);
  }

  /** The value `string;#Intangible Completion` cleans to `Intangible Completion`. */
  lemma CleanValueTypePrefixExample()
    ensures CleanValue("string;" + "#" + "Intangible Completion") == "Intangible Completion"
  {
    var value := "Intangible Completion";
    assert Trimmed(value);
    CleanValueOfPair("string;", value);
  }

  /** A multi-valued lookup `1;#A;#2;#B` keeps only the text between its
      first two `#`: `A;`. */
  lemma StripTypePrefixMultiLookupExample()
    ensures StripTypePrefix("1;#A;#2;#B") == "A;"
  {
    var raw := "1;#A;#2;#B";
    assert OccursAt(raw, ";#", 1);
    assert raw[3..5] == "A;";
    assert HashPieceAt(raw, "A;", 2);
    HashPieceUnique(raw, StripTypePrefix(raw), "A;");
  }

  /** A trimmed value without the `;#` marker is returned unchanged. */
  lemma CleanValuePlain(raw: string)
    requires Trimmed(raw) && !Contains(raw, ";#")
    ensures CleanValue(raw) == raw
  {
    TrimOfTrimmed(raw);
  }
}
