/** The string operations of the .NET base library that the binding layer
    relies on, over `string` = `seq<char>`. Upper-casing is ASCII only. */
module Text {
  import opened Wrappers

  predicate IsAsciiLower(c: char) {
    'a' <= c <= 'z'
  }

  /** ASCII upper-casing of one character; every other character is kept. */
  function UpperChar(c: char): char {
    if IsAsciiLower(c) then (c as int - 32) as char else c
  }

  /** `ToUpperInvariant`, restricted to ASCII letters. */
  function Upper(s: string): (r: string)
    ensures |r| == |s|
    ensures forall i :: 0 <= i < |s| ==> r[i] == UpperChar(s[i])
  {
    seq(|s|, i requires 0 <= i < |s| => UpperChar(s[i]))
  }

  /** True when no ASCII lower-case letter occurs in `s`. */
  predicate NoLower(s: string) {
    forall i :: 0 <= i < |s| ==> !IsAsciiLower(s[i])
  }

  /** `Replace(" ", "")`: every space removed, everything else kept in order. */
  function RemoveSpaces(s: string): (r: string)
    ensures ' ' !in r
    ensures |r| <= |s|
  {
    if s == [] then []
    else (if s[0] == ' ' then [] else [s[0]]) + RemoveSpaces(s[1..])
  }

  /** The normal form used to compare list titles: spaces removed, upper-cased. */
  function Normalize(s: string): string {
    Upper(RemoveSpaces(s))
  }

  /** `String.EndsWith` (ordinal). */
  predicate EndsWith(s: string, suffix: string) {
    |suffix| <= |s| && s[|s| - |suffix|..] == suffix
  }

  /** `sub` occurs in `s` starting at index `i`. */
  predicate OccursAt(s: string, sub: string, i: int) {
    0 <= i && i + |sub| <= |s| && s[i..i + |sub|] == sub
  }

  /** `String.Contains` (ordinal); the empty string occurs everywhere. */
  predicate Contains(s: string, sub: string) {
    exists i | 0 <= i <= |s| - |sub| :: OccursAt(s, sub, i)
  }

  /** `String.LastIndexOf(c)`: the last index holding `c`, or -1. */
  function LastIndexOf(s: string, c: char): (i: int)
    ensures -1 <= i < |s|
    ensures i >= 0 ==> s[i] == c
    ensures forall k :: i < k < |s| ==> s[k] != c
    decreases |s|
  {
    if s == [] then -1
    else if s[|s| - 1] == c then |s| - 1
    else LastIndexOf(s[..|s| - 1], c)
  }

  /** The text after the last occurrence of `c`, or all of `s` when `c` does
      not occur: `s.Substring(s.LastIndexOf(c) + 1)`. */
  function AfterLast(s: string, c: char): (r: string)
    ensures c !in r
    ensures |r| <= |s| && s[|s| - |r|..] == r
    ensures r == s || s[|s| - |r| - 1] == c
  {
    var i := LastIndexOf(s, c);
    if i < 0 then
      assert s[0..] == s;
      NotInByIndex(s, c);
      s
    else
      var r := s[i + 1..];
      assert forall k :: 0 <= k < |r| ==> r[k] == s[i + 1 + k];
      NotInByIndex(r, c);
      r
  }

  lemma NotInByIndex(s: string, c: char)
    requires forall k :: 0 <= k < |s| ==> s[k] != c
    ensures c !in s
  {
  }

  /** The first index of `c` in `s`. */
  function IndexOf(s: string, c: char): (i: nat)
    requires c in s
    ensures i < |s| && s[i] == c && c !in s[..i]
  {
    if s[0] == c then 0
    else
      var j := IndexOf(s[1..], c);
      assert s[..j + 1] == [s[0]] + s[1..][..j];
      j + 1
  }

  /** `String.Split(c)`: the pieces between occurrences of `c`, never empty. */
  function Split(s: string, c: char): (r: seq<string>)
    ensures |r| >= 1
    ensures c in s <==> |r| >= 2
    ensures forall i :: 0 <= i < |r| ==> c !in r[i]
    ensures |r[0]| <= |s| && r[0] == s[..|r[0]|]
    ensures |r[0]| == |s| || s[|r[0]|] == c
    decreases |s|
  {
    if c !in s then [s]
    else
      var i := IndexOf(s, c);
      [s[..i]] + Split(s[i + 1..], c)
  }

  /** `String.Join(c, parts)`. */
  function Join(parts: seq<string>, c: char): string
    requires |parts| >= 1
    decreases |parts|
  {
    if |parts| == 1 then parts[0] else parts[0] + [c] + Join(parts[1..], c)
  }

  /** `Char.IsWhiteSpace`: the Unicode white-space characters. */
  predicate IsWhiteSpace(c: char) {
    || c == ' '
    || '\t' <= c <= '\r'
    || c == '\U{85}'
    || c == '\U{A0}'
    || c == '\U{1680}'
    || '\U{2000}' <= c <= '\U{200A}'
    || c == '\U{2028}'
    || c == '\U{2029}'
    || c == '\U{202F}'
    || c == '\U{205F}'
    || c == '\U{3000}'
  }

  /** Every character of `s[lo..hi]` is white space. */
  predicate WhiteRange(s: string, lo: int, hi: int)
    requires 0 <= lo <= hi <= |s|
  {
    forall k :: lo <= k < hi ==> IsWhiteSpace(s[k])
  }

  /** Neither end of `s` is white space. */
  predicate Trimmed(s: string) {
    |s| == 0 || (!IsWhiteSpace(s[0]) && !IsWhiteSpace(s[|s| - 1]))
  }

  /** The first index at or after `from` that is not white space, or `|s|`. */
  function TrimStartIndex(s: string, from: nat): (i: nat)
    requires from <= |s|
    ensures from <= i <= |s| && WhiteRange(s, from, i)
    ensures i == |s| || !IsWhiteSpace(s[i])
    decreases |s| - from
  {
    if from == |s| || !IsWhiteSpace(s[from]) then from else TrimStartIndex(s, from + 1)
  }

  /** The end of `s[lo..hi]` once its trailing white space is dropped. */
  function TrimEndIndex(s: string, lo: nat, hi: nat): (j: nat)
    requires lo <= hi <= |s|
    ensures lo <= j <= hi && WhiteRange(s, j, hi)
    ensures j == lo || !IsWhiteSpace(s[j - 1])
    decreases hi - lo
  {
    if hi == lo || !IsWhiteSpace(s[hi - 1]) then hi else TrimEndIndex(s, lo, hi - 1)
  }

  /** `String.Trim()`: `s` without its leading and trailing white space
      (what it removes is stated by `TrimCutsWhiteSpace`). */
  function Trim(s: string): (r: string)
    ensures Trimmed(r)
    ensures |r| <= |s|
  {
    var i := TrimStartIndex(s, 0);
    s[i..TrimEndIndex(s, i, |s|)]
  }

  /** `String.Trim()` removes the leading and trailing white space and
      nothing else: the result is a slice of `s` with only white space
      before and after it. */
  lemma TrimCutsWhiteSpace(s: string)
    ensures exists i, j :: 0 <= i <= j <= |s| && Trim(s) == s[i..j] && WhiteRange(s, 0, i) && WhiteRange(s, j, |s|)
  {
    var i := TrimStartIndex(s, 0);
    var j := TrimEndIndex(s, i, |s|);
    assert Trim(s) == s[i..j];
  }

  /** A trimmed string is left as it is. */
  lemma TrimOfTrimmed(s: string)
    requires Trimmed(s)
    ensures Trim(s) == s
  {
    assert s[0..|s|] == s;
  }

  // ---------------------------------------------------------------------
  // Facts about the operations above

  /** Upper-casing introduces no character other than an upper-case letter. */
  lemma UpperAvoids(s: string, c: char)
    requires c !in s && !('A' <= c <= 'Z')
    ensures c !in Upper(s)
  {
    var u := Upper(s);
    forall i | 0 <= i < |u|
      ensures u[i] != c
    {
      assert u[i] == UpperChar(s[i]);
      assert s[i] != c;
    }
  }

  lemma {:induction false} RemoveSpacesWithoutSpaces(s: string)
    requires ' ' !in s
    ensures RemoveSpaces(s) == s
  {
    if s != [] {
      RemoveSpacesWithoutSpaces(s[1..]);
      assert s == [s[0]] + s[1..];
    }
  }

  /** Space removal distributes over concatenation. */
  lemma {:induction false} RemoveSpacesAppend(a: string, b: string)
    ensures RemoveSpaces(a + b) == RemoveSpaces(a) + RemoveSpaces(b)
  {
    if a != [] {
      assert (a + b)[1..] == a[1..] + b;
      RemoveSpacesAppend(a[1..], b);
    } else {
      assert a + b == b;
    }
  }

  lemma RemoveSpacesSpace()
    ensures RemoveSpaces(" ") == []
  {
    assert " "[1..] == [];
  }

  /** Two space-free words separated by a space normalise to their
      upper-cased concatenation. */
  lemma NormalizeTwoWords(a: string, b: string)
    requires ' ' !in a && ' ' !in b
    ensures Normalize(a + " " + b) == Upper(a + b)
  {
    var x := a + " ";
    RemoveSpacesAppend(x, b);
    RemoveSpacesAppend(a, " ");
    RemoveSpacesWithoutSpaces(a);
    RemoveSpacesWithoutSpaces(b);
    RemoveSpacesSpace();
    assert RemoveSpaces(x) == a;
    assert RemoveSpaces(x + b) == a + b;
  }

  /** A string without spaces or lower-case letters is its own normal form. */
  lemma NormalizeNormalForm(s: string)
    requires ' ' !in s && NoLower(s)
    ensures Normalize(s) == s
  {
    RemoveSpacesWithoutSpaces(s);
    assert Upper(s) == s;
  }

  lemma UpperAppend(a: string, b: string)
    ensures Upper(a + b) == Upper(a) + Upper(b)
  {
  }

  lemma UpperCons(s: string)
    requires s != []
    ensures Upper(s) == [UpperChar(s[0])] + Upper(s[1..])
  {
  }

  /** Upper-casing and space removal commute. */
  lemma {:induction false} RemoveSpacesUpper(s: string)
    ensures RemoveSpaces(Upper(s)) == Upper(RemoveSpaces(s))
    decreases |s|
  {
    if s != [] {
      var u := Upper(s);
      UpperCons(s);
      assert u[0] == UpperChar(s[0]) && u[1..] == Upper(s[1..]);
      RemoveSpacesUpper(s[1..]);
      var head := if s[0] == ' ' then [] else [s[0]];
      assert RemoveSpaces(s) == head + RemoveSpaces(s[1..]);
      UpperAppend(head, RemoveSpaces(s[1..]));
      assert Upper(head) == if u[0] == ' ' then [] else [u[0]];
    }
  }

  /** Upper-casing leaves no lower-case letter. */
  lemma UpperNoLower(s: string)
    ensures NoLower(Upper(s))
  {
  }

  lemma UpperIdempotent(s: string)
    ensures Upper(Upper(s)) == Upper(s)
  {
  }

  /** A normalised title is its own normal form, so normalising twice changes nothing. */
  lemma NormalizeIdempotent(s: string)
    ensures Normalize(Normalize(s)) == Normalize(s)
  {
    var x := RemoveSpaces(s);
    RemoveSpacesUpper(x);
    RemoveSpacesWithoutSpaces(x);
    UpperIdempotent(x);
  }

  /** Normalisation ignores letter case: upper-casing first makes no difference. */
  lemma NormalizeUpper(s: string)
    ensures Normalize(Upper(s)) == Normalize(s)
  {
    RemoveSpacesUpper(s);
    UpperIdempotent(RemoveSpaces(s));
  }

  /** Splitting and re-joining on the same separator gives back the input. */
  lemma {:induction false} JoinSplit(s: string, c: char)
    ensures Join(Split(s, c), c) == s
    decreases |s|
  {
    if c in s {
      var i := IndexOf(s, c);
      JoinSplit(s[i + 1..], c);
      assert s == s[..i] + [c] + s[i + 1..];
    }
  }

  lemma IndexOfJoined(a: string, c: char, b: string)
    requires c !in a
    ensures c in a + [c] + b && IndexOf(a + [c] + b, c) == |a|
  {
    var s := a + [c] + b;
    assert s[|a|] == c;
    var i := IndexOf(s, c);
    assert forall k :: 0 <= k < |a| ==> s[k] == a[k];
    assert forall k :: 0 <= k < i ==> s[..i][k] == s[k];
  }

  /** Joining pieces that do not contain the separator and splitting again
      gives back the pieces. */
  lemma {:induction false} SplitJoin(parts: seq<string>, c: char)
    requires |parts| >= 1
    requires forall i :: 0 <= i < |parts| ==> c !in parts[i]
    ensures Split(Join(parts, c), c) == parts
    decreases |parts|
  {
    if |parts| > 1 {
      var tail := parts[1..];
      assert forall i :: 0 <= i < |tail| ==> tail[i] == parts[i + 1];
      SplitCons(parts[0], c, Join(tail, c));
      SplitJoin(tail, c);
      assert parts == [parts[0]] + tail;
    }
  }

  /** Splitting at the first separator: a separator-free head is the first piece. */
  lemma SplitCons(head: string, c: char, rest: string)
    requires c !in head
    ensures Split(head + [c] + rest, c) == [head] + Split(rest, c)
  {
    var s := head + [c] + rest;
    IndexOfJoined(head, c, rest);
    assert s[..|head|] == head;
    assert s[|head| + 1..] == rest;
  }

  /** Containment is transitive. */
  lemma ContainsTransitive(a: string, b: string, c: string)
    requires Contains(a, b) && Contains(b, c)
    ensures Contains(a, c)
  {
    var i :| 0 <= i <= |a| - |b| && OccursAt(a, b, i);
    var j :| 0 <= j <= |b| - |c| && OccursAt(b, c, j);
    assert forall k :: 0 <= k < |c| ==> a[i + j + k] == b[j + k] == c[k];
    assert a[i + j..i + j + |c|] == c;
    assert OccursAt(a, c, i + j);
  }

  /** A string occurs in any string that has it as a slice. */
  lemma ContainsSlice(s: string, i: int, j: int)
    requires 0 <= i <= j <= |s|
    ensures Contains(s, s[i..j])
  {
    assert OccursAt(s, s[i..j], i);
  }

  lemma ContainsMarkerHasChar(s: string, a: char, b: char)
    requires Contains(s, [a, b])
    ensures a in s && b in s
  {
    var i :| 0 <= i <= |s| - 2 && OccursAt(s, [a, b], i);
    assert s[i..i + 2][0] == s[i] && s[i..i + 2][1] == s[i + 1];
  }

  /** The segment after the last separator of a qualified name is the last part. */
  lemma {:induction false} LastIndexQualified(scope: string, c: char, name: string)
    requires c !in name
    ensures LastIndexOf(scope + [c] + name, c) == |scope|
    decreases |name|
  {
    var s := scope + [c] + name;
    if name != [] {
      var init := name[..|name| - 1];
      LastIndexQualified(scope, c, init);
      assert s[..|s| - 1] == scope + [c] + init;
      assert s[|s| - 1] == name[|name| - 1];
    }
  }

  lemma AfterLastQualified(scope: string, c: char, name: string)
    requires c !in name
    ensures AfterLast(scope + [c] + name, c) == name
  {
    LastIndexQualified(scope, c, name);
    var s := scope + [c] + name;
    assert s[|scope| + 1..] == name;
  }

  lemma AfterLastUnqualified(s: string, c: char)
    requires c !in s
    ensures AfterLast(s, c) == s
  {
  }
}
