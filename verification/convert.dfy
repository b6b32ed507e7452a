/** `Convert.ToBoolean(string)`, which the visibility step applies to a
    cleaned column value (OrgUtilitiesClass.cs, ProcessItem lines 33-41). */
module Conversion {
  import opened Wrappers
  import opened Text

  /** The characters `Boolean.Parse` ignores around its argument. */
  predicate IsPadding(c: char) {
    IsWhiteSpace(c) || c == '\0'
  }

  /** Every character of `s[lo..hi]` is padding. */
  predicate PaddingRange(s: string, lo: int, hi: int)
    requires 0 <= lo <= hi <= |s|
  {
    forall k :: lo <= k < hi ==> IsPadding(s[k])
  }

  /** Neither end of `s` is padding. */
  predicate Stripped(s: string) {
    |s| == 0 || (!IsPadding(s[0]) && !IsPadding(s[|s| - 1]))
  }

  /** The first index at or after `from` that is not padding, or `|s|`. */
  function StripStartIndex(s: string, from: nat): (i: nat)
    requires from <= |s|
    ensures from <= i <= |s| && PaddingRange(s, from, i)
    ensures i == |s| || !IsPadding(s[i])
    decreases |s| - from
  {
    if from == |s| || !IsPadding(s[from]) then from else StripStartIndex(s, from + 1)
  }

  /** The end of `s[lo..hi]` once its trailing padding is dropped. */
  function StripEndIndex(s: string, lo: nat, hi: nat): (j: nat)
    requires lo <= hi <= |s|
    ensures lo <= j <= hi && PaddingRange(s, j, hi)
    ensures j == lo || !IsPadding(s[j - 1])
    decreases hi - lo
  {
    if hi == lo || !IsPadding(s[hi - 1]) then hi else StripEndIndex(s, lo, hi - 1)
  }

  /** `s` without its leading and trailing padding (what it removes is
      stated by `StripCutsPadding`, and that this is the only such slice by
      `StripUnique`). */
  function Strip(s: string): (r: string)
    ensures Stripped(r)
    ensures |r| <= |s|
  {
    var i := StripStartIndex(s, 0);
    s[i..StripEndIndex(s, i, |s|)]
  }

  /** Only padding is removed: the result is a slice of `s` with only
      padding before and after it. */
  lemma StripCutsPadding(s: string)
    ensures exists i, j :: 0 <= i <= j <= |s| && Strip(s) == s[i..j] && PaddingRange(s, 0, i) && PaddingRange(s, j, |s|)
  {
    var i, j := StripBounds(s);
  }

  /** The bounds of the slice `Strip` keeps. */
  lemma StripBounds(s: string) returns (i: int, j: int)
    ensures 0 <= i <= j <= |s| && Strip(s) == s[i..j] && PaddingRange(s, 0, i) && PaddingRange(s, j, |s|)
  {
    i := StripStartIndex(s, 0);
    j := StripEndIndex(s, i, |s|);
  }

  /** Any slice with only padding around it and no padding at its ends is
      what `Strip` returns. */
  lemma StripUnique(s: string, i: int, j: int)
    requires 0 <= i <= j <= |s|
    requires PaddingRange(s, 0, i) && PaddingRange(s, j, |s|) && Stripped(s[i..j])
    ensures Strip(s) == s[i..j]
  {
    var a := StripStartIndex(s, 0);
    var b := StripEndIndex(s, a, |s|);
    if i < j {
      assert s[i..j][0] == s[i] && s[i..j][j - i - 1] == s[j - 1];
      assert a == i;
      assert b == j;
    } else {
      assert a == |s|;
    }
  }

  /** A text without padding at its ends is kept. */
  lemma StripOfStripped(s: string)
    requires Stripped(s)
    ensures Strip(s) == s
  {
    assert s[0..|s|] == s;
    StripUnique(s, 0, |s|);
  }

  /** `Boolean.ToString()`. */
  function BoolText(b: bool): string {
    if b then "True" else "False"
  }

  /** The parsed value, or `None` where `Convert.ToBoolean` throws a
      `FormatException`: the stripped text must be `True` or `False` in any
      mix of upper and lower case. */
  function ToBoolean(s: string): (r: Option<bool>)
    ensures r.Some? ==> |Strip(s)| == |BoolText(r.value)|
    ensures r.Some? ==> Upper(Strip(s)) == Upper(BoolText(r.value))
  {
    var t := Upper(Strip(s));
    if t == Upper(BoolText(true)) then Some(true)
    else if t == Upper(BoolText(false)) then Some(false)
    else None
  }

  lemma UpperTrueFalse()
    ensures Upper(BoolText(true)) == "TRUE" && Upper(BoolText(false)) == "FALSE"
  {
    assert Upper("True") == "TRUE";
    assert Upper("False") == "FALSE";
  }

  /** Parsing the text of a Boolean gives it back. */
  lemma ToBooleanRoundTrip(b: bool)
    ensures ToBoolean(BoolText(b)) == Some(b)
  {
    UpperTrueFalse();
    var text := BoolText(b);
    assert !IsPadding(text[0]) && !IsPadding(text[|text| - 1]);
    StripOfStripped(text);
  }

  /** An empty value, the cleaned form of a missing one, is not a Boolean. */
  lemma ToBooleanEmpty()
    ensures ToBoolean("") == None
  {
    UpperTrueFalse();
  }

  /** Upper-casing never turns padding into text or text into padding. */
  lemma PaddingUpper(c: char)
    ensures IsPadding(UpperChar(c)) <==> IsPadding(c)
  {
  }

  /** Upper-casing before or after stripping makes no difference. */
  lemma StripUpper(s: string)
    ensures Strip(Upper(s)) == Upper(Strip(s))
  {
    var i, j := StripBounds(s);
    var u := Upper(s);
    var m := s[i..j];
    assert u[i..j] == Upper(m);
    forall k | 0 <= k < |u| && (k < i || j <= k)
      ensures IsPadding(u[k])
    {
      PaddingUpper(s[k]);
    }
    if m != [] {
      PaddingUpper(m[0]);
      PaddingUpper(m[|m| - 1]);
    }
    StripUnique(u, i, j);
  }

  /** The comparison ignores case. */
  lemma ToBooleanIgnoresCase(s: string)
    ensures ToBoolean(Upper(s)) == ToBoolean(s)
  {
    StripUpper(s);
    UpperIdempotent(Strip(s));
  }

  /** Around a slice of `s` with only padding outside it, adding padding
      before and after `s` keeps only padding outside the same slice. */
  lemma PaddedSlice(p: string, s: string, q: string, i: int, j: int)
    requires PaddingRange(p, 0, |p|) && PaddingRange(q, 0, |q|)
    requires 0 <= i <= j <= |s| && PaddingRange(s, 0, i) && PaddingRange(s, j, |s|)
    ensures var t := p + s + q;
            t[|p| + i..|p| + j] == s[i..j] && PaddingRange(t, 0, |p| + i) && PaddingRange(t, |p| + j, |t|)
  {
    var t := p + s + q;
    forall k | 0 <= k < |p| + i
      ensures IsPadding(t[k])
    {
      if k < |p| {
        assert t[k] == p[k];
      } else {
        assert t[k] == s[k - |p|];
      }
    }
    forall k | |p| + j <= k < |t|
      ensures IsPadding(t[k])
    {
      if k < |p| + |s| {
        assert t[k] == s[k - |p|];
      } else {
        assert t[k] == q[k - |p| - |s|];
      }
    }
    assert t[|p| + i..|p| + j] == s[i..j];
  }

  /** Padding added around a text is stripped with the text's own padding. */
  lemma StripPadded(p: string, s: string, q: string)
    requires PaddingRange(p, 0, |p|) && PaddingRange(q, 0, |q|)
    ensures Strip(p + s + q) == Strip(s)
  {
    var i, j := StripBounds(s);
    PaddedSlice(p, s, q, i, j);
    StripUnique(p + s + q, |p| + i, |p| + j);
  }

  /** Padding added around a text does not change how it parses. */
  lemma ToBooleanIgnoresPadding(p: string, s: string, q: string)
    requires PaddingRange(p, 0, |p|) && PaddingRange(q, 0, |q|)
    ensures ToBoolean(p + s + q) == ToBoolean(s)
  {
    StripPadded(p, s, q);
  }
}
