/** The handful of .NET string operations the core relies on: ordinal
    `Contains`, `IsNullOrWhiteSpace`, `string.Join`, the UTF-16 `Length` and
    fixed-width decimal formatting of dates. Strings are sequences of Unicode
    characters. */
module Text {
  import opened Wrappers

  /** `t` occurs in `s` starting at index `i`. */
  predicate OccursAt(s: string, t: string, i: int) {
    0 <= i && i + |t| <= |s| && s[i..i + |t|] == t
  }

  /** Ordinal `string.Contains`, searched left to right. */
  predicate Contains(s: string, t: string)
    decreases |s|
  {
    if |t| > |s| then false
    else if s[..|t|] == t then true
    else Contains(s[1..], t)
  }

  /** The search agrees with "occurs at some index". */
  lemma {:induction false} ContainsIff(s: string, t: string)
    ensures Contains(s, t) <==> exists i :: OccursAt(s, t, i)
    decreases |s|
  {
    if |t| > |s| {
    } else if s[..|t|] == t {
      assert OccursAt(s, t, 0);
    } else {
      ContainsIff(s[1..], t);
      if Contains(s[1..], t) {
        var i :| OccursAt(s[1..], t, i);
        assert s[i + 1..i + 1 + |t|] == s[1..][i..i + |t|];
        assert OccursAt(s, t, i + 1);
      } else {
        forall i | 0 <= i && i + |t| <= |s|
          ensures !OccursAt(s, t, i)
        {
          if i > 0 {
            assert s[1..][i - 1..i - 1 + |t|] == s[i..i + |t|];
            assert !OccursAt(s[1..], t, i - 1);
          }
        }
      }
    }
  }

  /** A string that lacks some character of `t` cannot contain `t`. */
  lemma MissingCharNotContained(s: string, t: string, c: char)
    requires c in t && c !in s
    ensures !Contains(s, t)
  {
    ContainsIff(s, t);
    var j :| 0 <= j < |t| && t[j] == c;
    forall i | 0 <= i && i + |t| <= |s|
      ensures !OccursAt(s, t, i)
    {
      assert s[i..i + |t|][j] == s[i + j];
    }
  }

  lemma SuffixContained(p: string, t: string)
    ensures Contains(p + t, t)
  {
    ContainsIff(p + t, t);
    assert (p + t)[|p|..|p| + |t|] == t;
    assert OccursAt(p + t, t, |p|);
  }

  /** A string contains every string it is built around. */
  lemma InfixContained(p: string, t: string, q: string)
    ensures Contains(p + t + q, t)
  {
    ContainsIff(p + t + q, t);
    assert (p + t + q)[|p|..|p| + |t|] == t;
    assert OccursAt(p + t + q, t, |p|);
  }

  lemma PrefixContained(t: string, q: string)
    ensures Contains(t + q, t)
  {
    InfixContained("", t, q);
    assert "" + t + q == t + q;
  }

  /** Each part appears in the joined text. */
  lemma {:induction false} JoinContainsParts(sep: string, parts: seq<string>, i: int)
    requires 0 <= i < |parts|
    ensures Contains(Join(sep, parts), parts[i])
    decreases |parts|
  {
    if |parts| == 1 {
      ContainsIff(parts[0], parts[0]);
      assert OccursAt(parts[0], parts[0], 0);
    } else if i == 0 {
      InfixContained("", parts[0], sep + Join(sep, parts[1..]));
      assert "" + parts[0] + (sep + Join(sep, parts[1..])) == Join(sep, parts);
    } else {
      JoinContainsParts(sep, parts[1..], i - 1);
      var rest := Join(sep, parts[1..]);
      ContainsIff(rest, parts[i]);
      var j :| OccursAt(rest, parts[i], j);
      var p := parts[0] + sep;
      assert Join(sep, parts) == p + rest;
      assert (p + rest)[|p| + j..|p| + j + |parts[i]|] == rest[j..j + |parts[i]|];
      assert OccursAt(p + rest, parts[i], |p| + j);
      ContainsIff(Join(sep, parts), parts[i]);
    }
  }

  /** Where part `i` starts in `Join(sep, parts)`: after every earlier part,
      each followed by one separator. */
  function JoinOffset(sep: string, parts: seq<string>, i: nat): nat
    requires i <= |parts|
  {
    if i == 0 then 0 else |parts[0]| + |sep| + JoinOffset(sep, parts[1..], i - 1)
  }

  /** Text in front of a string moves its occurrences right by its length. */
  lemma OccursAtShift(p: string, s: string, t: string, i: int)
    requires OccursAt(s, t, i)
    ensures OccursAt(p + s, t, |p| + i)
  {
    assert (p + s)[|p| + i..|p| + i + |t|] == s[i..i + |t|];
  }

  /** The joined text holds part `i` at its offset and, unless it is the last
      part, the separator right after it. */
  lemma {:induction false} JoinPlacesParts(sep: string, parts: seq<string>, i: nat)
    requires i < |parts|
    ensures OccursAt(Join(sep, parts), parts[i], JoinOffset(sep, parts, i))
    ensures i + 1 < |parts| ==> OccursAt(Join(sep, parts), sep, JoinOffset(sep, parts, i) + |parts[i]|)
    decreases |parts|
  {
    if |parts| > 1 {
      var rest := Join(sep, parts[1..]);
      assert Join(sep, parts) == parts[0] + sep + rest;
      if i == 0 {
        assert (parts[0] + sep + rest)[..|parts[0]|] == parts[0];
        assert (parts[0] + sep + rest)[|parts[0]|..|parts[0]| + |sep|] == sep;
      } else {
        JoinPlacesParts(sep, parts[1..], i - 1);
        assert parts[1..][i - 1] == parts[i];
        OccursAtShift(parts[0] + sep, rest, parts[i], JoinOffset(sep, parts[1..], i - 1));
        if i + 1 < |parts| {
          OccursAtShift(parts[0] + sep, rest, sep, JoinOffset(sep, parts[1..], i - 1) + |parts[i]|);
        }
      }
    } else {
      assert Join(sep, parts)[0..|parts[0]|] == parts[0];
    }
  }

  /** Nothing else is in the joined text: it ends with the last part. */
  lemma {:induction false} JoinLength(sep: string, parts: seq<string>)
    requires |parts| > 0
    ensures |Join(sep, parts)| + |sep| == JoinOffset(sep, parts, |parts|)
    decreases |parts|
  {
    if |parts| > 1 {
      JoinLength(sep, parts[1..]);
    }
  }

  /** The parts come in list order: part `i` and the separator after it end
      before part `j` starts. */
  lemma {:induction false} JoinOffsetsIncrease(sep: string, parts: seq<string>, i: nat, j: nat)
    requires i < j <= |parts|
    ensures JoinOffset(sep, parts, i) + |parts[i]| + |sep| <= JoinOffset(sep, parts, j)
    decreases j
  {
    if i > 0 {
      JoinOffsetsIncrease(sep, parts[1..], i - 1, j - 1);
      assert parts[1..][i - 1] == parts[i];
    } else if j > 1 {
      assert JoinOffset(sep, parts[1..], j - 1) >= 0;
    }
  }

  /** `char.IsWhiteSpace`: the Unicode space, line and paragraph separators
      and the control characters U+0009..U+000D and U+0085. */
  predicate IsWhiteSpace(c: char) {
    c == ' ' || ('\t' <= c <= '\r') || c == '\U{0085}' || c == '\U{00A0}'
    || c == '\U{1680}' || ('\U{2000}' <= c <= '\U{200A}') || c == '\U{2028}'
    || c == '\U{2029}' || c == '\U{202F}' || c == '\U{205F}' || c == '\U{3000}'
  }

  /** `string.IsNullOrWhiteSpace`, with `None` for null. */
  predicate IsNullOrWhiteSpace(s: Option<string>) {
    s.None? || forall i :: 0 <= i < |s.value| ==> IsWhiteSpace(s.value[i])
  }

  /** The UTF-16 code units of one character: a character outside the Basic
      Multilingual Plane is stored as a surrogate pair. */
  function Utf16Units(c: char): nat {
    if c >= '\U{10000}' then 2 else 1
  }

  /** `string.Length`: a .NET string counts UTF-16 code units, not characters. */
  function Utf16Length(s: string): (n: nat)
    ensures |s| <= n <= 2 * |s|
  {
    if |s| == 0 then 0 else Utf16Units(s[0]) + Utf16Length(s[1..])
  }

  /** The length is the character count exactly when every character lies in
      the Basic Multilingual Plane. */
  lemma {:induction false} Utf16LengthBmp(s: string)
    ensures Utf16Length(s) == |s| <==> forall i :: 0 <= i < |s| ==> s[i] < '\U{10000}'
  {
    if |s| > 0 {
      Utf16LengthBmp(s[1..]);
      assert forall i :: 1 <= i < |s| ==> s[i] == s[1..][i - 1];
    }
  }

  /** The length is twice the character count exactly when every character
      needs a surrogate pair. */
  lemma {:induction false} Utf16LengthWide(s: string)
    ensures Utf16Length(s) == 2 * |s| <==> forall i :: 0 <= i < |s| ==> s[i] >= '\U{10000}'
  {
    if |s| > 0 {
      Utf16LengthWide(s[1..]);
      assert forall i :: 1 <= i < |s| ==> s[i] == s[1..][i - 1];
    }
  }

  /** `string.Join(sep, parts)`. */
  function Join(sep: string, parts: seq<string>): (r: string)
    ensures |parts| == 0 ==> r == ""
    ensures |parts| == 1 ==> r == parts[0]
  {
    if |parts| == 0 then ""
    else if |parts| == 1 then parts[0]
    else parts[0] + sep + Join(sep, parts[1..])
  }

  function DigitChar(d: int): char
    requires 0 <= d < 10
  {
    "0123456789"[d]
  }

  /** The last `width` decimal digits of `n`, zero-padded on the left. */
  function Digits(n: nat, width: nat): (r: string)
    ensures |r| == width
    ensures forall i :: 0 <= i < |r| ==> '0' <= r[i] <= '9'
  {
    if width == 0 then "" else Digits(n / 10, width - 1) + [DigitChar(n % 10)]
  }

  /** Reading the digits back gives `n` whenever it fits in the width. */
  function DigitsValue(s: string): int
    requires forall i :: 0 <= i < |s| ==> '0' <= s[i] <= '9'
  {
    if |s| == 0 then 0 else 10 * DigitsValue(s[..|s| - 1]) + (s[|s| - 1] - '0') as int
  }

  function Pow10(k: nat): (r: nat)
    ensures r >= 1
  {
    if k == 0 then 1 else 10 * Pow10(k - 1)
  }

  lemma {:induction false} DigitsRoundTrip(n: nat, width: nat)
    requires n < Pow10(width)
    ensures DigitsValue(Digits(n, width)) == n
  {
    if width > 0 {
      DigitsRoundTrip(n / 10, width - 1);
      var r := Digits(n, width);
      assert r[..|r| - 1] == Digits(n / 10, width - 1);
      assert r[|r| - 1] == DigitChar(n % 10);
    }
  }
}
