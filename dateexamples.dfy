/**
 * Date payloads written out: the texts the formatter gives for a few dates
 * and ranges, and what `toTMDateType()` makes of them.
 */
module DateExamples {
  import opened Wrappers
  import opened Dates
  import opened DatePayload

  lemma DigitChars()
    ensures DigitChar(0) == '0' && DigitChar(1) == '1' && DigitChar(2) == '2' && DigitChar(3) == '3'
    ensures DigitChar(4) == '4' && DigitChar(5) == '5' && DigitChar(6) == '6' && DigitChar(7) == '7'
    ensures DigitChar(8) == '8' && DigitChar(9) == '9'
  {
  }

  /** The year 2024 is written `2024`. */
  lemma Year2024()
    ensures FixedDigits(2024, 4) == "2024"
  {
    DigitChars();
    assert FixedDigits(2, 1) == "2";
    assert FixedDigits(20, 2) == "20";
    assert FixedDigits(202, 3) == "202";
  }

  lemma DateFieldsText(y: nat, m: nat, d: nat, ys: string, ms: string, ds: string)
    requires y < 10000 && m < 100 && d < 100
    requires FixedDigits(y, 4) == ys && FixedDigits(m, 2) == ms && FixedDigits(d, 2) == ds
    ensures DateParameters(y, m, d).FormattedDate() == ys + "-" + ms + "-" + ds
  {
    DateTextShape(DateParameters(y, m, d));
  }

  lemma TimeFieldsText(h: nat, m: nat, hs: string, ms: string)
    requires h < 100 && m < 100
    requires FixedDigits(h, 2) == hs && FixedDigits(m, 2) == ms
    ensures TimeParameters(h, m).FormattedDate() == hs + ":" + ms
  {
    TimeTextShape(TimeParameters(h, m));
  }

  /** Two-digit fields used below. */
  lemma Pairs()
    ensures FixedDigits(0, 2) == "00" && FixedDigits(2, 2) == "02" && FixedDigits(3, 2) == "03"
    ensures FixedDigits(10, 2) == "10" && FixedDigits(11, 2) == "11" && FixedDigits(12, 2) == "12"
    ensures FixedDigits(13, 2) == "13" && FixedDigits(17, 2) == "17" && FixedDigits(18, 2) == "18"
    ensures FixedDigits(23, 2) == "23" && FixedDigits(30, 2) == "30" && FixedDigits(31, 2) == "31"
  {
    DigitChars();
  }

  // ---------------------------------------------------------------------
  // The parameter texts
  // ---------------------------------------------------------------------

  /** Noon to half past six on Halloween, with the compact divider. */
  lemma HalloweenNoonToNightCompact()
    ensures DateTimeEndTimeParameters(DateParameters(2024, 10, 31), TimeParameters(12, 0), TimeParameters(18, 30), CompactOutput).FormattedDate() ==
      "2024-10-31 12:00-18:30"
  {
    Year2024();
    Pairs();
    DateFieldsText(2024, 10, 31, "2024", "10", "31");
    TimeFieldsText(12, 0, "12", "00");
    TimeFieldsText(18, 30, "18", "30");
  }

  /** The same with the expanded divider. */
  lemma HalloweenNoonToNightExpanded()
    ensures DateTimeEndTimeParameters(DateParameters(2024, 10, 31), TimeParameters(12, 0), TimeParameters(18, 30), ExpandedOutput).FormattedDate() ==
      "2024-10-31 12:00 thru 18:30"
  {
    Year2024();
    Pairs();
    DateFieldsText(2024, 10, 31, "2024", "10", "31");
    TimeFieldsText(12, 0, "12", "00");
    TimeFieldsText(18, 30, "18", "30");
  }

  lemma StPatricksText()
    ensures DateTimeParameters(DateParameters(2024, 3, 17), TimeParameters(3, 17)).FormattedDate() == "2024-03-17 03:17"
  {
    Year2024();
    Pairs();
    DateFieldsText(2024, 3, 17, "2024", "03", "17");
    TimeFieldsText(3, 17, "03", "17");
  }

  lemma HalloweenText()
    ensures DateTimeParameters(DateParameters(2024, 10, 31), TimeParameters(10, 31)).FormattedDate() == "2024-10-31 10:31"
  {
    Year2024();
    Pairs();
    DateFieldsText(2024, 10, 31, "2024", "10", "31");
    TimeFieldsText(10, 31, "10", "31");
  }

  /** Two date-times are joined by ` thru `. */
  lemma StPatricksToHalloween()
    ensures DateTimeDateTimeParameters(
      DateTimeParameters(DateParameters(2024, 3, 17), TimeParameters(3, 17)),
      DateTimeParameters(DateParameters(2024, 10, 31), TimeParameters(10, 31))).FormattedDate() ==
      "2024-03-17 03:17 thru 2024-10-31 10:31"
  {
    StPatricksText();
    HalloweenText();
  }

  // ---------------------------------------------------------------------
  // Payloads read
  // ---------------------------------------------------------------------

  function Halloween(): Instant { Instant(2024, 10, 31, 0, 0) }

  /** `2024-10-31` is a single date, with no end, that formats back to the same text. */
  lemma DatePayloadExample(s: string)
    requires s == "2024-10-31"
    ensures ToTMDateType(s) == Some(Converted(SingleDate(Halloween())))
    ensures SingleDate(Halloween()).EndDate() == None
    ensures ToFormattedDateString(SingleDate(Halloween()), DateOnly, Compact, true) == Some(s)
  {
    Year2024();
    Pairs();
    DateFieldsText(2024, 10, 31, "2024", "10", "31");
    assert DateText(Halloween()) == s;
    DateRoundTrip(Halloween());
  }

  function Start(): Instant { Instant(2024, 11, 30, 11, 30) }
  function EndSameDay(): Instant { Instant(2024, 11, 30, 23, 30) }
  function EndLater(): Instant { Instant(2024, 12, 2, 23, 30) }

  lemma StartText()
    ensures DateTimeText(Start()) == "2024-11-30 11:30"
  {
    Year2024();
    Pairs();
    DateFieldsText(2024, 11, 30, "2024", "11", "30");
    TimeFieldsText(11, 30, "11", "30");
  }

  lemma EndSameDayText()
    ensures DateTimeText(EndSameDay()) == "2024-11-30 23:30"
    ensures ParametersOf(EndSameDay()).time.FormattedDate() == "23:30"
    ensures DateText(Start()) == DateText(EndSameDay())
  {
    Year2024();
    Pairs();
    DateFieldsText(2024, 11, 30, "2024", "11", "30");
    TimeFieldsText(23, 30, "23", "30");
  }

  lemma EndLaterText()
    ensures DateTimeText(EndLater()) == "2024-12-02 23:30"
  {
    Year2024();
    Pairs();
    DateFieldsText(2024, 12, 2, "2024", "12", "02");
    TimeFieldsText(23, 30, "23", "30");
  }

  /** Any separator, spaced or not, between a date-time and an end time. */
  lemma EndTimeRead(sep: Separator, withSpaces: bool)
    ensures ToTMDateType("2024-11-30 11:30" + sep.ToString(withSpaces) + "23:30") ==
      Some(Converted(BeginEndDate(Start(), EndSameDay())))
  {
    StartText();
    EndSameDayText();
    FormattedDateStringRoundTrip(BeginEndDate(Start(), EndSameDay()), DateTimeEndTime, sep, withSpaces);
  }

  /** `2024-11-30 11:30-23:30`: both ends on the same date, 11:30 to 23:30. */
  lemma EndTimePayloadExample(s: string)
    requires s == "2024-11-30 11:30-23:30"
    ensures ToTMDateType(s) == Some(Converted(BeginEndDate(Start(), EndSameDay())))
  {
    EndSeparated(s, Compact, false);
  }

  /** The same span with ` through ` between the times. */
  lemma EndTimeThroughPayloadExample(s: string)
    requires s == "2024-11-30 11:30 through 23:30"
    ensures ToTMDateType(s) == Some(Converted(BeginEndDate(Start(), EndSameDay())))
  {
    EndSeparated(s, GrammarExtended, true);
  }

  /** The end-time payload for any separator, spaced or not. */
  lemma EndSeparated(s: string, sep: Separator, withSpaces: bool)
    requires s == "2024-11-30 11:30" + sep.ToString(withSpaces) + "23:30"
    ensures ToTMDateType(s) == Some(Converted(BeginEndDate(Start(), EndSameDay())))
  {
    EndTimeRead(sep, withSpaces);
  }

  /** Any separator between two date-times. */
  lemma RangeRead(sep: Separator, withSpaces: bool)
    ensures ToTMDateType("2024-11-30 11:30" + sep.ToString(withSpaces) + "2024-12-02 23:30") ==
      Some(Converted(BeginEndDate(Start(), EndLater())))
  {
    StartText();
    EndLaterText();
    FormattedDateStringRoundTrip(BeginEndDate(Start(), EndLater()), DateTimeDateTime, sep, withSpaces);
  }

  /** `2024-11-30 11:30 - 2024-12-02 23:30`: the span between two date-times. */
  lemma RangePayloadExample(s: string)
    requires s == "2024-11-30 11:30 - 2024-12-02 23:30"
    ensures ToTMDateType(s) == Some(Converted(BeginEndDate(Start(), EndLater())))
  {
    RangeSeparated(s, Compact, true);
  }

  /** The same span with `thru` and no spaces. */
  lemma RangeThruPayloadExample(s: string)
    requires s == "2024-11-30 11:30thru2024-12-02 23:30"
    ensures ToTMDateType(s) == Some(Converted(BeginEndDate(Start(), EndLater())))
  {
    RangeSeparated(s, Extended, false);
  }

  /** The two-date payload for any separator, spaced or not. */
  lemma RangeSeparated(s: string, sep: Separator, withSpaces: bool)
    requires s == "2024-11-30 11:30" + sep.ToString(withSpaces) + "2024-12-02 23:30"
    ensures ToTMDateType(s) == Some(Converted(BeginEndDate(Start(), EndLater())))
  {
    RangeRead(sep, withSpaces);
  }

  /** A thirteenth month is not on the calendar: the text is thrown back. */
  lemma ThirteenthMonthThrows(s: string)
    requires s == "2024-13-31"
    ensures ToTMDateType(s) == Some(Threw(InvalidFormattedString(s)))
  {
    Year2024();
    Pairs();
    DateFieldsText(2024, 13, 31, "2024", "13", "31");
    assert DateParameters(2024, 13, 31).FormattedDate() == s;
    IllegalDateThrows(DateParameters(2024, 13, 31));
  }

  lemma BackwardsText()
    ensures DateTimeEndTimeParameters(DateParameters(2024, 10, 31), TimeParameters(13, 13), TimeParameters(10, 31), CompactOutput).FormattedDate() ==
      "2024-10-31 13:13-10:31"
  {
    Year2024();
    Pairs();
    DateFieldsText(2024, 10, 31, "2024", "10", "31");
    TimeFieldsText(13, 13, "13", "13");
    TimeFieldsText(10, 31, "10", "31");
  }

  /** An end time before the start time on the same day throws both instants. */
  lemma BackwardsEndTimeThrows(s: string)
    requires s == "2024-10-31 13:13-10:31"
    ensures ToTMDateType(s) == Some(Threw(EndDateNotAfterStartDate(Instant(2024, 10, 31, 13, 13), Instant(2024, 10, 31, 10, 31))))
  {
    var p := DateTimeEndTimeParameters(DateParameters(2024, 10, 31), TimeParameters(13, 13), TimeParameters(10, 31), CompactOutput);
    BackwardsText();
    ParseDateTimeEndTimeParameters(p);
  }
}
