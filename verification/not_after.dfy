/** The certificate `notAfter` field as GeneralizedTime text `YYYYMMDDHHMMSSZ`
    (section 4.1.2.5.2 of RFC 5280), read the way Python's
    `datetime.strptime(text, '%Y%m%d%H%M%SZ')` reads it, and turned into
    seconds since 1970-01-01T00:00:00 UTC. */
module NotAfter {
  import opened Results
  import Calendar

  /** The broken-down fields `strptime` extracts. */
  datatype Timestamp = Timestamp(year: int, month: int, day: int, hour: int, minute: int, second: int)

  /** The field ranges `datetime` accepts: years 1..9999, the month lengths
      of the Gregorian calendar, hours 0..23, minutes and seconds 0..59.
      (`strptime`'s pattern lets seconds 60 and 61 through, and `datetime`
      then rejects them.) */
  predicate Valid(t: Timestamp) {
    && 1 <= t.year <= 9999
    && Calendar.ValidDate(t.year, t.month, t.day)
    && 0 <= t.hour <= 23
    && 0 <= t.minute <= 59
    && 0 <= t.second <= 59
  }

  /** Seconds since the epoch of a timestamp read as UTC. */
  function EpochSeconds(t: Timestamp): int
    requires 1 <= t.month <= 12
  {
    Calendar.DaysFromCivil(t.year, t.month, t.day) * Calendar.SecondsPerDay
      + t.hour * 3600 + t.minute * 60 + t.second
  }

  // ---------------------------------------------------------------------
  // Decimal digits.

  predicate IsDigit(c: char) {
    '0' <= c <= '9'
  }

  predicate AllDigits(s: string) {
    forall i :: 0 <= i < |s| ==> IsDigit(s[i])
  }

  function DigitChar(d: int): (c: char)
    requires 0 <= d <= 9
    ensures IsDigit(c) && c as int - '0' as int == d
  {
    ('0' as int + d) as char
  }

  /** The value of a string of decimal digits, most significant first. */
  function DigitsValue(s: string): nat
    requires AllDigits(s)
  {
    if |s| == 0 then 0
    else 10 * DigitsValue(s[..|s| - 1]) + (s[|s| - 1] as int - '0' as int)
  }

  /** The value of two and of four digits, spelled out. */
  lemma DigitsValue2(s: string)
    requires |s| == 2 && AllDigits(s)
    ensures DigitsValue(s) == 10 * (s[0] as int - '0' as int) + (s[1] as int - '0' as int)
  {
    var p := s[..1];
    assert p[..0] == [];
    assert DigitsValue(p) == s[0] as int - '0' as int;
  }

  lemma DigitsValue4(s: string)
    requires |s| == 4 && AllDigits(s)
    ensures DigitsValue(s) == 1000 * (s[0] as int - '0' as int) + 100 * (s[1] as int - '0' as int)
                              + 10 * (s[2] as int - '0' as int) + (s[3] as int - '0' as int)
  {
    assert s[..3][..2] == s[..2];
    assert s[..2] == [s[0], s[1]];
    DigitsValue2(s[..2]);
  }

  function Pow10(n: nat): nat {
    if n == 0 then 1 else 10 * Pow10(n - 1)
  }

  /** `n` written in exactly `width` decimal digits, zero-padded on the left. */
  function Digits(n: nat, width: nat): (s: string)
    requires n < Pow10(width)
    ensures |s| == width && AllDigits(s)
  {
    if width == 0 then [] else Digits(n / 10, width - 1) + [DigitChar(n % 10)]
  }

  lemma {:induction false} DigitsValueOfDigits(n: nat, width: nat)
    requires n < Pow10(width)
    ensures DigitsValue(Digits(n, width)) == n
  {
    if width > 0 {
      var s := Digits(n, width);
      assert s[..|s| - 1] == Digits(n / 10, width - 1);
      DigitsValueOfDigits(n / 10, width - 1);
    }
  }

  lemma {:induction false} DigitsOfDigitsValue(s: string)
    requires AllDigits(s)
    ensures DigitsValue(s) < Pow10(|s|)
    ensures Digits(DigitsValue(s), |s|) == s
  {
    if |s| > 0 {
      var p := s[..|s| - 1];
      DigitsOfDigitsValue(p);
      var v := DigitsValue(s);
      assert v / 10 == DigitsValue(p);
      assert v % 10 == s[|s| - 1] as int - '0' as int;
      assert s == p + [s[|s| - 1]];
    }
  }

  // ---------------------------------------------------------------------
  // Parsing and its inverse.

  /** The fixed shape: fourteen ASCII digits and a final `Z`. The pattern
      `strptime` compiles is case-insensitive, so `z` passes too. */
  predicate WellShaped(s: string) {
    |s| == 15 && AllDigits(s[..14]) && (s[14] == 'Z' || s[14] == 'z')
  }

  /** The six fields read from a well-shaped string, before range checks. */
  function Fields(s: string): Timestamp
    requires WellShaped(s)
  {
    Timestamp(DigitsValue(s[0..4]), DigitsValue(s[4..6]), DigitsValue(s[6..8]),
              DigitsValue(s[8..10]), DigitsValue(s[10..12]), DigitsValue(s[12..14]))
  }

  /** `strptime(s, '%Y%m%d%H%M%SZ')`: the timestamp, or `None` where Python
      raises `ValueError`. */
  function ParseTimestamp(s: string): (r: Option<Timestamp>)
    ensures r.Some? <==> WellShaped(s) && Valid(Fields(s))
    ensures r.Some? ==> Valid(r.value) && r.value == Fields(s)
    ensures r.Some? ==> |s| == 15 && s[..14] == Format(r.value)[..14] && (s[14] == 'Z' || s[14] == 'z')
    ensures forall t :: Valid(t) && |s| == 15 && s[..14] == Format(t)[..14] && (s[14] == 'Z' || s[14] == 'z')
                        ==> r == Some(t)
  {
    FieldsMatchFormat(s);
    if WellShaped(s) && Valid(Fields(s)) then Some(Fields(s)) else None
  }

  /** The text of a well-shaped string is the canonical text of its fields,
      and any text carrying a timestamp's canonical digits has exactly that
      timestamp as its fields. */
  lemma FieldsMatchFormat(s: string)
    ensures WellShaped(s) && Valid(Fields(s)) ==> s[..14] == Format(Fields(s))[..14]
    ensures forall t :: Valid(t) && |s| == 15 && s[..14] == Format(t)[..14] && (s[14] == 'Z' || s[14] == 'z')
                        ==> WellShaped(s) && Fields(s) == t
  {
    if WellShaped(s) && Valid(Fields(s)) {
      var t := Fields(s);
      FieldsText(s);
      FormatShape(t);
      SameFieldSlices(s, Format(t));
    }
    forall t | Valid(t) && |s| == 15 && s[..14] == Format(t)[..14] && (s[14] == 'Z' || s[14] == 'z')
      ensures WellShaped(s) && Fields(s) == t
    {
      FieldsFromFormatText(s, t);
    }
  }

  /** Text agreeing with `Format(t)` in its fourteen digits reads as `t`. */
  lemma FieldsFromFormatText(s: string, t: Timestamp)
    requires Valid(t) && |s| == 15 && s[..14] == Format(t)[..14] && (s[14] == 'Z' || s[14] == 'z')
    ensures WellShaped(s) && Fields(s) == t
  {
    var f := Format(t);
    FieldsOfFormat(t);
    assert s[..14] == f[..14];
    assert WellShaped(s);
    assert s[0..4] == s[..14][0..4] == f[..14][0..4] == f[0..4];
    assert s[4..6] == s[..14][4..6] == f[..14][4..6] == f[4..6];
    assert s[6..8] == s[..14][6..8] == f[..14][6..8] == f[6..8];
    assert s[8..10] == s[..14][8..10] == f[..14][8..10] == f[8..10];
    assert s[10..12] == s[..14][10..12] == f[..14][10..12] == f[10..12];
    assert s[12..14] == s[..14][12..14] == f[..14][12..14] == f[12..14];
  }

  /** The `notAfter` instant in seconds since the epoch, or `None`. */
  function Parse(s: string): (r: Option<int>)
    ensures r.Some? <==> ParseTimestamp(s).Some?
    ensures r.Some? ==>
              var t := ParseTimestamp(s).value;
              && r.value / Calendar.SecondsPerDay == Calendar.DaysFromCivil(t.year, t.month, t.day)
              && r.value % Calendar.SecondsPerDay == t.hour * 3600 + t.minute * 60 + t.second
  {
    match ParseTimestamp(s)
    case Some(t) => Some(EpochSeconds(t))
    case None => None
  }

  /** The canonical GeneralizedTime text of a valid timestamp. */
  function Format(t: Timestamp): (s: string)
    requires Valid(t)
    ensures |s| == 15
  {
    Digits(t.year, 4) + Digits(t.month, 2) + Digits(t.day, 2)
      + Digits(t.hour, 2) + Digits(t.minute, 2) + Digits(t.second, 2) + "Z"
  }

  lemma FormatShape(t: Timestamp)
    requires Valid(t)
    ensures WellShaped(Format(t))
    ensures Format(t)[0..4] == Digits(t.year, 4)
    ensures Format(t)[4..6] == Digits(t.month, 2)
    ensures Format(t)[6..8] == Digits(t.day, 2)
    ensures Format(t)[8..10] == Digits(t.hour, 2)
    ensures Format(t)[10..12] == Digits(t.minute, 2)
    ensures Format(t)[12..14] == Digits(t.second, 2)
  {
    var s := Format(t);
    assert s[..14] == Digits(t.year, 4) + Digits(t.month, 2) + Digits(t.day, 2)
      + Digits(t.hour, 2) + Digits(t.minute, 2) + Digits(t.second, 2);
  }

  lemma FieldsOfFormat(t: Timestamp)
    requires Valid(t)
    ensures WellShaped(Format(t)) && Fields(Format(t)) == t
  {
    FormatShape(t);
    var f := Format(t);
    DigitsValueOfDigits(t.year, 4);
    DigitsValueOfDigits(t.month, 2);
    DigitsValueOfDigits(t.day, 2);
    DigitsValueOfDigits(t.hour, 2);
    DigitsValueOfDigits(t.minute, 2);
    DigitsValueOfDigits(t.second, 2);
    assert Fields(f).year == t.year && Fields(f).month == t.month && Fields(f).day == t.day;
    assert Fields(f).hour == t.hour && Fields(f).minute == t.minute && Fields(f).second == t.second;
  }

  /** Round trip: every valid timestamp is read back from its own text, and
      its instant is `DaysFromCivil(Y, M, D) * 86400 + h * 3600 + m * 60 + s`. */
  lemma ParseFormat(t: Timestamp)
    requires Valid(t)
    ensures ParseTimestamp(Format(t)) == Some(t)
    ensures Parse(Format(t))
      == Some(Calendar.DaysFromCivil(t.year, t.month, t.day) * Calendar.SecondsPerDay
              + t.hour * 3600 + t.minute * 60 + t.second)
  {
    FieldsOfFormat(t);
  }

  /** Each field of a well-shaped string is the zero-padded text of the
      value read from it. */
  lemma FieldsText(s: string)
    requires WellShaped(s)
    ensures Fields(s).year < Pow10(4) && s[0..4] == Digits(Fields(s).year, 4)
    ensures Fields(s).month < Pow10(2) && s[4..6] == Digits(Fields(s).month, 2)
    ensures Fields(s).day < Pow10(2) && s[6..8] == Digits(Fields(s).day, 2)
    ensures Fields(s).hour < Pow10(2) && s[8..10] == Digits(Fields(s).hour, 2)
    ensures Fields(s).minute < Pow10(2) && s[10..12] == Digits(Fields(s).minute, 2)
    ensures Fields(s).second < Pow10(2) && s[12..14] == Digits(Fields(s).second, 2)
  {
    assert Pow10(4) == 10000 && Pow10(2) == 100;
    FieldText(s, 0, 4);
    FieldText(s, 4, 6);
    FieldText(s, 6, 8);
    FieldText(s, 8, 10);
    FieldText(s, 10, 12);
    FieldText(s, 12, 14);
  }

  lemma FieldText(s: string, lo: nat, hi: nat)
    requires WellShaped(s) && lo <= hi <= 14
    ensures AllDigits(s[lo..hi])
    ensures DigitsValue(s[lo..hi]) < Pow10(hi - lo)
    ensures s[lo..hi] == Digits(DigitsValue(s[lo..hi]), hi - lo)
  {
    assert forall i :: 0 <= i < hi - lo ==> s[lo..hi][i] == s[..14][lo + i];
    DigitsOfDigitsValue(s[lo..hi]);
  }

  /** Two strings agreeing on the six field slices agree on their first
      fourteen characters. */
  lemma SameFieldSlices(s: string, f: string)
    requires |s| == 15 && |f| == 15
    requires s[0..4] == f[0..4] && s[4..6] == f[4..6] && s[6..8] == f[6..8]
    requires s[8..10] == f[8..10] && s[10..12] == f[10..12] && s[12..14] == f[12..14]
    ensures s[..14] == f[..14]
  {
    forall i | 0 <= i < 14 ensures s[i] == f[i] {
      if i < 4 { assert s[i] == s[0..4][i] && f[i] == f[0..4][i]; }
      else if i < 6 { assert s[i] == s[4..6][i - 4] && f[i] == f[4..6][i - 4]; }
      else if i < 8 { assert s[i] == s[6..8][i - 6] && f[i] == f[6..8][i - 6]; }
      else if i < 10 { assert s[i] == s[8..10][i - 8] && f[i] == f[8..10][i - 8]; }
      else if i < 12 { assert s[i] == s[10..12][i - 10] && f[i] == f[10..12][i - 10]; }
      else { assert s[i] == s[12..14][i - 12] && f[i] == f[12..14][i - 12]; }
    }
  }

  /** Round trip the other way: a string that parses is the canonical text of
      what it parses to, up to the case of the final `Z`. */
  lemma FormatParse(s: string)
    requires ParseTimestamp(s).Some?
    ensures s[..14] == Format(ParseTimestamp(s).value)[..14]
  {
    var t := ParseTimestamp(s).value;
    FieldsText(s);
    FormatShape(t);
    SameFieldSlices(s, Format(t));
  }

  /** Well-shaped text with out-of-range fields fails instead of yielding an
      instant. */
  lemma ParseRejectsInvalid(s: string)
    requires WellShaped(s) && !Valid(Fields(s))
    ensures Parse(s) == None
  {
  }

  /** Later GeneralizedTime text (compared field by field) denotes a later
      instant. */
  lemma ParseIncreasing(s: string, s': string)
    requires ParseTimestamp(s).Some? && ParseTimestamp(s').Some?
    requires var t, t' := ParseTimestamp(s).value, ParseTimestamp(s').value;
      Calendar.DateBefore(t.year, t.month, t.day, t'.year, t'.month, t'.day)
    ensures Parse(s).value < Parse(s').value
  {
    var t, t' := ParseTimestamp(s).value, ParseTimestamp(s').value;
    Calendar.DaysFromCivilIncreasing(t.year, t.month, t.day, t'.year, t'.month, t'.day);
    var d, d' := Calendar.DaysFromCivil(t.year, t.month, t.day), Calendar.DaysFromCivil(t'.year, t'.month, t'.day);
    assert EpochSeconds(t) < (d + 1) * Calendar.SecondsPerDay;
    assert (d + 1) * Calendar.SecondsPerDay <= d' * Calendar.SecondsPerDay;
  }

  // Concrete readings: month 13, 29 February of a common year, hour 24,
  // second 60 and year 0 all fail; 29 February of a leap year and a
  // lower-case `z` parse.

  lemma RejectsMonth13()
    ensures Parse("20231301000000Z") == None
  {
    FieldsExample("20231301000000Z");
    ParseRejectsInvalid("20231301000000Z");
  }

  lemma RejectsFebruary29InCommonYear()
    ensures Parse("20230229000000Z") == None
  {
    FieldsExample("20230229000000Z");
    ParseRejectsInvalid("20230229000000Z");
  }

  lemma AcceptsFebruary29InLeapYear()
    ensures Parse("20240229000000Z") == Some(1709164800)
  {
    FieldsExample("20240229000000Z");
    assert Fields("20240229000000Z") == Timestamp(2024, 2, 29, 0, 0, 0);
    Leap2024Instant();
    ParseOfFields("20240229000000Z", Timestamp(2024, 2, 29, 0, 0, 0));
  }

  lemma Leap2024Instant()
    ensures Valid(Timestamp(2024, 2, 29, 0, 0, 0))
    ensures EpochSeconds(Timestamp(2024, 2, 29, 0, 0, 0)) == 1709164800
  {
    assert Calendar.DaysFromCivil(2024, 2, 29) == 19782;
  }

  lemma RejectsHour24()
    ensures Parse("20230101240000Z") == None
  {
    FieldsExample("20230101240000Z");
    ParseRejectsInvalid("20230101240000Z");
  }

  lemma RejectsLeapSecond()
    ensures Parse("20230101235960Z") == None
  {
    FieldsExample("20230101235960Z");
    ParseRejectsInvalid("20230101235960Z");
  }

  lemma RejectsYearZero()
    ensures Parse("00000101000000Z") == None
  {
    FieldsExample("00000101000000Z");
    ParseRejectsInvalid("00000101000000Z");
  }

  /** The final `Z` is read in either case. */
  lemma AcceptsEitherCaseZ(z: char)
    requires z == 'Z' || z == 'z'
    ensures Parse("20300101000000" + [z]) == Some(1893456000)
  {
    var s := "20300101000000" + [z];
    assert s[14] == z;
    assert s[..14] == "20300101000000";
    FieldsExample(s);
    assert Fields(s) == Timestamp(2030, 1, 1, 0, 0, 0);
    Year2030Instant();
    ParseOfFields(s, Timestamp(2030, 1, 1, 0, 0, 0));
  }

  lemma Year2030Instant()
    ensures Valid(Timestamp(2030, 1, 1, 0, 0, 0))
    ensures EpochSeconds(Timestamp(2030, 1, 1, 0, 0, 0)) == 1893456000
  {
    assert Calendar.DaysFromCivil(2030, 1, 1) == 21915;
  }

  /** A well-shaped string whose fields are a valid timestamp parses to
      that timestamp's instant. */
  lemma ParseOfFields(s: string, t: Timestamp)
    requires WellShaped(s) && Fields(s) == t && Valid(t)
    ensures Parse(s) == Some(EpochSeconds(t))
  {
  }

  lemma FieldsExample(s: string)
    requires WellShaped(s)
    ensures Fields(s) == Timestamp(
      1000 * (s[0] as int - '0' as int) + 100 * (s[1] as int - '0' as int)
        + 10 * (s[2] as int - '0' as int) + (s[3] as int - '0' as int),
      10 * (s[4] as int - '0' as int) + (s[5] as int - '0' as int),
      10 * (s[6] as int - '0' as int) + (s[7] as int - '0' as int),
      10 * (s[8] as int - '0' as int) + (s[9] as int - '0' as int),
      10 * (s[10] as int - '0' as int) + (s[11] as int - '0' as int),
      10 * (s[12] as int - '0' as int) + (s[13] as int - '0' as int))
  {
    assert AllDigits(s[0..4]) && AllDigits(s[4..6]) && AllDigits(s[6..8]);
    assert AllDigits(s[8..10]) && AllDigits(s[10..12]) && AllDigits(s[12..14]);
    DigitsValue4(s[0..4]);
    DigitsValue2(s[4..6]);
    DigitsValue2(s[6..8]);
    DigitsValue2(s[8..10]);
    DigitsValue2(s[10..12]);
    DigitsValue2(s[12..14]);
  }
}
