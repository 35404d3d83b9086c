/** The `yyyy-MM-dd` date format the handlers' messages use, and its reading
    back, which shows that the text names the date exactly. */
module DateText {
  import opened Wrappers
  import opened Calendar
  import opened Text

  /** `{date:yyyy-MM-dd}`. */
  function FormatDate(n: Day): (r: string)
    ensures |r| == 10 && r[4] == '-' && r[7] == '-'
  {
    FormatCivil(CivilOf(n))
  }

  function FormatCivil(c: Civil): (r: string)
    requires ValidCivil(c.year, c.month, c.day)
    ensures |r| == 10 && r[4] == '-' && r[7] == '-'
  {
    Digits(c.year, 4) + "-" + Digits(c.month, 2) + "-" + Digits(c.day, 2)
  }

  predicate AllDigits(s: string) {
    forall i :: 0 <= i < |s| ==> '0' <= s[i] <= '9'
  }

  /** Reads `yyyy-MM-dd`; anything else, or a date that does not exist, is `None`. */
  function ParseDate(s: string): (r: Option<Day>)
    ensures r.Some? ==> |s| == 10
  {
    if |s| != 10 || s[4] != '-' || s[7] != '-' then None
    else if !AllDigits(s[..4]) || !AllDigits(s[5..7]) || !AllDigits(s[8..]) then None
    else
      var y := DigitsValue(s[..4]);
      var m := DigitsValue(s[5..7]);
      var d := DigitsValue(s[8..]);
      if ValidCivil(y, m, d) then Some(FromCivil(y, m, d)) else None
  }

  /** Formatting a date and reading it back gives the same day. */
  lemma ParseFormat(n: Day)
    ensures ParseDate(FormatDate(n)) == Some(n)
  {
    ParseFormatCivil(CivilOf(n));
  }

  lemma ParseFormatCivil(c: Civil)
    requires ValidCivil(c.year, c.month, c.day)
    ensures ParseDate(FormatCivil(c)) == Some(FromCivil(c.year, c.month, c.day))
  {
    var ys, ms, ds := Digits(c.year, 4), Digits(c.month, 2), Digits(c.day, 2);
    assert FormatCivil(c) == ys + "-" + ms + "-" + ds;
    FieldRoundTrip(c.year, 4, 10000);
    FieldRoundTrip(c.month, 2, 100);
    FieldRoundTrip(c.day, 2, 100);
    ParseFields(ys, ms, ds, c.year, c.month, c.day);
  }

  lemma FieldRoundTrip(v: nat, width: nat, bound: nat)
    requires (width == 4 && bound == 10000) || (width == 2 && bound == 100)
    requires v < bound
    ensures DigitsValue(Digits(v, width)) == v
  {
    assert Pow10(width) == bound;
    DigitsRoundTrip(v, width);
  }

  /** Three digit fields of a valid date joined by dashes read back as that date. */
  lemma ParseFields(ys: string, ms: string, ds: string, y: int, m: int, d: int)
    requires |ys| == 4 && |ms| == 2 && |ds| == 2
    requires AllDigits(ys) && AllDigits(ms) && AllDigits(ds)
    requires DigitsValue(ys) == y && DigitsValue(ms) == m && DigitsValue(ds) == d
    requires ValidCivil(y, m, d)
    ensures ParseDate(ys + "-" + ms + "-" + ds) == Some(FromCivil(y, m, d))
  {
    var s := ys + "-" + ms + "-" + ds;
    assert s[..4] == ys;
    assert s[5..7] == ms;
    assert s[8..] == ds;
  }

  /** Different days print differently. */
  lemma FormatInjective(n: Day, n': Day)
    requires FormatDate(n) == FormatDate(n')
    ensures n == n'
  {
    ParseFormat(n);
    ParseFormat(n');
  }
}
