/** The `YYYY-MM-DD` text form of a date (the `full-date` production of
    section 5.6 of RFC 3339), as written by `format('YYYY-MM-DD')` and as
    read back by moment's ISO 8601 parser. */
module DateFormat {
  import opened Wrappers
  import opened Decimal
  import opened Calendar

  /** `s` has the shape `DDDD-DD-DD`, each `D` a decimal digit. */
  predicate WellFormed(s: string) {
    && |s| == 10
    && s[4] == '-' && s[7] == '-'
    && AllDigits(s[..4]) && AllDigits(s[5..7]) && AllDigits(s[8..])
  }

  /** The year, month and day fields of a well-formed string, before any
      calendar check. */
  function DateFields(s: string): Date
    requires WellFormed(s)
  {
    Date(Value(s[..4]), Value(s[5..7]), Value(s[8..]))
  }

  /** A date as moment formats it with `YYYY-MM-DD`: the year zero-filled
      to at least four digits, month and day to two. Years past 9999 keep
      all their digits, so the text is then longer than ten characters. */
  function Format(d: Date): string
  {
    ZeroFill(d.year, 4) + "-" + ZeroFill(d.month, 2) + "-" + ZeroFill(d.day, 2)
  }

  /** For a four-digit year the text has the `YYYY-MM-DD` shape and its
      fields are the date's; a longer year breaks the shape. */
  lemma FormatShape(d: Date)
    requires Valid(d)
    ensures d.year <= 9999 ==> WellFormed(Format(d)) && DateFields(Format(d)) == d
    ensures 9999 < d.year ==> !WellFormed(Format(d))
  {
    var y := ZeroFill(d.year, 4);
    var m := ZeroFill(d.month, 2);
    var dd := ZeroFill(d.day, 2);
    assert Pow10(2) == 100 && Pow10(4) == 10000;
    DigitsLength(d.month, 2);
    DigitsLength(d.day, 2);
    var s := y + "-" + m + "-" + dd;
    if d.year <= 9999 {
      DigitsLength(d.year, 4);
      assert s[..4] == y && s[5..7] == m && s[8..] == dd;
    } else {
      DigitsLengthBelow(d.year, 4);
    }
  }

  /** Strict parse of `YYYY-MM-DD`: the shape must match and the fields must
      name a real calendar date; anything else is rejected. */
  function Parse(s: string): Option<Date>
  {
    if WellFormed(s) && Valid(DateFields(s)) then Some(DateFields(s)) else None
  }

  /** Formatting a four-digit-year date and parsing the text gives the date
      back. */
  lemma ParseFormat(d: Date)
    requires Valid(d) && d.year <= 9999
    ensures Parse(Format(d)) == Some(d)
  {
    FormatShape(d);
  }

  /** Every text that parses is the formatting of what it parses to. */
  lemma FormatParse(s: string)
    requires Parse(s).Some?
    ensures Format(Parse(s).value) == s
  {
    var d := Parse(s).value;
    ValueBound(s[..4]);
    assert Pow10(4) == 10000;
    var t := Format(d);
    FormatShape(d);
    ValueInjective(s[..4], t[..4]);
    ValueInjective(s[5..7], t[5..7]);
    ValueInjective(s[8..], t[8..]);
    assert s == s[..4] + [s[4]] + s[5..7] + [s[7]] + s[8..];
    assert t == t[..4] + [t[4]] + t[5..7] + [t[7]] + t[8..];
  }
}
