/**
 * `String.toTMDateType()`: the payload's length picks one of four shapes,
 * the whole string must match that shape, and the captured numbers go
 * through the parameter conversions, which may throw.
 *
 * Each regex is written as a function that consumes a prefix of the text
 * and returns what is left.  The patterns have fixed-width digit fields and
 * separators that begin with a character no whitespace run can hold, so the
 * greedy whitespace runs are the only ones a match can use and no
 * backtracking is needed.
 */
module DatePayload {
  import opened Wrappers
  import opened Chars
  import opened Dates

  // ---------------------------------------------------------------------
  // The pieces of the grammar
  // ---------------------------------------------------------------------

  /** `yyyy-MM-dd`: digits and the two dashes in place. */
  predicate DateShaped(a: string)
    requires |a| == 10
  {
    AllDigits(a[..4]) && a[4] == '-' && AllDigits(a[5..7]) && a[7] == '-' && AllDigits(a[8..])
  }

  function ReadDate(a: string): DateParameters
    requires |a| == 10 && DateShaped(a)
  {
    DateParameters(ValueOf(a[..4]), ValueOf(a[5..7]), ValueOf(a[8..]))
  }

  /** `HH:mm`. */
  predicate TimeShaped(a: string)
    requires |a| == 5
  {
    AllDigits(a[..2]) && a[2] == ':' && AllDigits(a[3..])
  }

  function ReadTime(a: string): TimeParameters
    requires |a| == 5 && TimeShaped(a)
  {
    TimeParameters(ValueOf(a[..2]), ValueOf(a[3..]))
  }

  /** `dateMatch` at the front of `s`: the captured fields and the rest. */
  function MatchDate(s: string): (r: Option<(DateParameters, string)>)
    ensures r.Some? ==> |s| >= 10 && r.value.1 == s[10..]
  {
    if |s| >= 10 && DateShaped(s[..10]) then Some((ReadDate(s[..10]), s[10..])) else None
  }

  /** `timeMatch` at the front of `s`. */
  function MatchTime(s: string): (r: Option<(TimeParameters, string)>)
    ensures r.Some? ==> |s| >= 5 && r.value.1 == s[5..]
  {
    if |s| >= 5 && TimeShaped(s[..5]) then Some((ReadTime(s[..5]), s[5..])) else None
  }

  /** `s` after its leading run of `.whitespace`, taken greedily. */
  function DropWhitespace(s: string): (r: string)
    ensures |r| <= |s| && (r == [] || !IsWhitespace(r[0]))
  {
    s[WhitespaceRun(s, 0)..]
  }

  /** `dateTimeMatch`: a date, at least one whitespace, a time. */
  function MatchDateTime(s: string): Option<(DateTimeParameters, string)> {
    var d := MatchDate(s);
    if d.None? || d.value.1 == [] || !IsWhitespace(d.value.1[0]) then None
    else
      var t := MatchTime(DropWhitespace(d.value.1));
      if t.None? then None else Some((DateTimeParameters(d.value.0, t.value.0), t.value.1))
  }

  /** `dateSeparatorMatch`: optional whitespace, `-`, `thru` or `through`, optional whitespace. */
  function MatchSeparator(s: string): Option<string> {
    var t := MatchSeparatorWord(DropWhitespace(s));
    if t.None? then None else Some(DropWhitespace(t.value))
  }

  /** The `ChoiceOf` of the three separator words, tried in order. */
  function MatchSeparatorWord(t: string): Option<string> {
    if |t| >= 1 && t[0] == '-' then Some(t[1..])
    else if |t| >= 4 && t[..4] == "thru" then Some(t[4..])
    else if |t| >= 7 && t[..7] == "through" then Some(t[7..])
    else None
  }

  /** `dateTimeEndTimeMatch`; the parameters get the default compact divider. */
  function MatchDateTimeEndTime(s: string): Option<(DateTimeEndTimeParameters, string)> {
    var dt := MatchDateTime(s);
    if dt.None? then None
    else
      var sep := MatchSeparator(dt.value.1);
      if sep.None? then None
      else
        var t := MatchTime(sep.value);
        if t.None? then None
        else Some((DateTimeEndTimeParameters(dt.value.0.date, dt.value.0.time, t.value.0, CompactOutput), t.value.1))
  }

  /** `dateTimeDateTimeMatch`. */
  function MatchDateTimeDateTime(s: string): Option<(DateTimeDateTimeParameters, string)> {
    var dt := MatchDateTime(s);
    if dt.None? then None
    else
      var sep := MatchSeparator(dt.value.1);
      if sep.None? then None
      else
        var dt2 := MatchDateTime(sep.value);
        if dt2.None? then None
        else Some((DateTimeDateTimeParameters(dt.value.0, dt2.value.0), dt2.value.1))
  }

  // ---------------------------------------------------------------------
  // `toTMDateType()`
  // ---------------------------------------------------------------------

  /**
   * `None` is the `nil` return; `Some(Converted(t))` the value and
   * `Some(Threw(e))` the error thrown.
   */
  function ToTMDateType(s: string): Option<Converted> {
    var format := FormatFrom(s);
    if format.None? then None
    else
      match format.value
      case DateOnly => ReadDateShape(s)
      case DateTime => ReadDateTimeShape(s)
      case DateTimeEndTime => ReadEndTimeShape(s)
      case DateTimeDateTime => ReadRangeShape(s)
  }

  /** The `.date` case: `nil` unless the whole text matches. */
  function ReadDateShape(s: string): Option<Converted> {
    var m := MatchDate(s);
    if m.Some? && m.value.1 == [] then Some(DateToDateType(m.value.0)) else None
  }

  function ReadDateTimeShape(s: string): Option<Converted> {
    var m := MatchDateTime(s);
    if m.Some? && m.value.1 == [] then Some(DateTimeToDateType(m.value.0)) else None
  }

  function ReadEndTimeShape(s: string): Option<Converted> {
    var m := MatchDateTimeEndTime(s);
    if m.Some? && m.value.1 == [] then Some(DateTimeEndTimeToDateType(m.value.0)) else None
  }

  function ReadRangeShape(s: string): Option<Converted> {
    var m := MatchDateTimeDateTime(s);
    if m.Some? && m.value.1 == [] then Some(DateTimeDateTimeToDateType(m.value.0)) else None
  }

  /** A length with no shape gives `nil`, and nothing is thrown. */
  lemma NoShapeIsNil(s: string)
    requires !(|s| == 10 || |s| == 16 || 22 <= |s| <= 41)
    ensures ToTMDateType(s) == None
  {
  }

  /** Whatever the text, a value that comes out is legal, and a range is in strict order. */
  lemma ParsedIsValid(s: string)
    ensures ToTMDateType(s).Some? && ToTMDateType(s).value.Converted? ==> ToTMDateType(s).value.value.Valid()
  {
  }

  // ---------------------------------------------------------------------
  // Each piece reads back what the formatter writes
  // ---------------------------------------------------------------------

  lemma DigitsAreNotWhitespace(c: char)
    requires IsDigit(c)
    ensures !IsWhitespace(c)
  {
  }

  /** A whitespace stretch before a non-whitespace character is dropped whole. */
  lemma DropWhitespaceOf(w: string, rest: string)
    requires forall k :: 0 <= k < |w| ==> IsWhitespace(w[k])
    requires rest == [] || !IsWhitespace(rest[0])
    ensures DropWhitespace(w + rest) == rest
  {
    var s := w + rest;
    assert forall k :: 0 <= k < |w| ==> IsWhitespace(s[k]);
    WhitespaceRunExact(s, 0, |w|);
    assert s[|w|..] == rest;
  }

  lemma FixedDigitsRead(n: nat, w: nat)
    requires 1 <= w && n < Pow10(w)
    ensures AllDigits(FixedDigits(n, w)) && ValueOf(FixedDigits(n, w)) == n
  {
    ValueOfFixed(n, w);
  }

  /** Four, two and two digits between dashes are date-shaped and read as those numbers. */
  lemma DateShapedOf(y: string, m: string, d: string)
    requires |y| == 4 && |m| == 2 && |d| == 2 && AllDigits(y) && AllDigits(m) && AllDigits(d)
    ensures var a := y + "-" + m + "-" + d; |a| == 10 && DateShaped(a) && ReadDate(a) == DateParameters(ValueOf(y), ValueOf(m), ValueOf(d))
  {
    var a := y + "-" + m + "-" + d;
    assert a[..4] == y;
    assert a[5..7] == m;
    assert a[8..] == d;
  }

  lemma TimeShapedOf(h: string, m: string)
    requires |h| == 2 && |m| == 2 && AllDigits(h) && AllDigits(m)
    ensures var a := h + ":" + m; |a| == 5 && TimeShaped(a) && ReadTime(a) == TimeParameters(ValueOf(h), ValueOf(m))
  {
    var a := h + ":" + m;
    assert a[..2] == h;
    assert a[3..] == m;
  }

  /** A prefix of ten characters forms the whole of `s[..10]`. */
  lemma PrefixSplit(a: string, rest: string, n: nat)
    requires |a| == n
    ensures (a + rest)[..n] == a && (a + rest)[n..] == rest
  {
  }

  /** A fitting date's text matches `dateMatch` and gives back its fields. */
  lemma MatchDateOf(p: DateParameters, rest: string)
    requires p.Fits()
    ensures MatchDate(p.FormattedDate() + rest) == Some((p, rest))
  {
    DateTextShape(p);
    assert Pow10(2) == 100 && Pow10(4) == 10000;
    FixedDigitsRead(p.year, 4);
    FixedDigitsRead(p.month, 2);
    FixedDigitsRead(p.day, 2);
    DateShapedOf(FixedDigits(p.year, 4), FixedDigits(p.month, 2), FixedDigits(p.day, 2));
    PrefixSplit(p.FormattedDate(), rest, 10);
  }

  lemma MatchTimeOf(p: TimeParameters, rest: string)
    requires p.Fits()
    ensures MatchTime(p.FormattedDate() + rest) == Some((p, rest))
  {
    TimeTextShape(p);
    assert Pow10(2) == 100;
    FixedDigitsRead(p.hour, 2);
    FixedDigitsRead(p.minute, 2);
    TimeShapedOf(FixedDigits(p.hour, 2), FixedDigits(p.minute, 2));
    PrefixSplit(p.FormattedDate(), rest, 5);
  }

  /** The text of a fitting record starts with a digit. */
  lemma StartsWithDigit(p: DateTimeParameters, rest: string)
    requires p.Fits()
    ensures var s := p.FormattedDate() + rest; s != [] && IsDigit(s[0])
  {
    DateTextShape(p.date);
    assert Pow10(4) == 10000;
    FixedDigitsRead(p.date.year, 4);
  }

  lemma TimeStartsWithDigit(p: TimeParameters, rest: string)
    requires p.Fits()
    ensures var s := p.FormattedDate() + rest; s != [] && IsDigit(s[0])
  {
    TimeTextShape(p);
    assert Pow10(2) == 100;
    FixedDigitsRead(p.hour, 2);
  }

  lemma MatchDateTimeOf(p: DateTimeParameters, rest: string)
    requires p.Fits()
    ensures MatchDateTime(p.FormattedDate() + rest) == Some((p, rest))
  {
    var t := p.time.FormattedDate() + rest;
    assert p.FormattedDate() + rest == p.date.FormattedDate() + (" " + t);
    MatchDateOf(p.date, " " + t);
    TimeStartsWithDigit(p.time, rest);
    DigitsAreNotWhitespace(t[0]);
    DropWhitespaceOf(" ", t);
    MatchTimeOf(p.time, rest);
  }

  /** Each separator word is read as itself; `through` is not taken for `thru`. */
  lemma MatchSeparatorWordOf(sep: Separator, tail: string)
    ensures MatchSeparatorWord(sep.RawValue() + tail) == Some(tail)
  {
    var t := sep.RawValue() + tail;
    PrefixSplit(sep.RawValue(), tail, |sep.RawValue()|);
    match sep
    case Compact =>
    case Extended =>
      assert t[0] == 't';
    case GrammarExtended =>
      assert t[0] == 't' && t[3] == 'o';
      assert t[..4] != "thru" by { assert t[..4][3] == 'o'; }
  }

  /** Every separator, with or without its spaces, is read before a digit. */
  lemma MatchSeparatorOf(sep: Separator, withSpaces: bool, rest: string)
    requires rest != [] && IsDigit(rest[0])
    ensures MatchSeparator(sep.ToString(withSpaces) + rest) == Some(rest)
  {
    DigitsAreNotWhitespace(rest[0]);
    var raw := sep.RawValue();
    assert !IsWhitespace(raw[0]);
    if withSpaces {
      var tail := " " + rest;
      assert sep.ToString(withSpaces) + rest == " " + (raw + tail);
      DropWhitespaceOf(" ", raw + tail);
      MatchSeparatorWordOf(sep, tail);
      DropWhitespaceOf(" ", rest);
    } else {
      DropWhitespaceOf([], raw + rest);
      assert [] + (raw + rest) == raw + rest;
      MatchSeparatorWordOf(sep, rest);
      DropWhitespaceOf([], rest);
      assert [] + rest == rest;
    }
  }

  // ---------------------------------------------------------------------
  // Round trips
  // ---------------------------------------------------------------------

  /** Reading a fitting date's text converts those parameters. */
  lemma ParseDateParameters(p: DateParameters)
    requires p.Fits()
    ensures ToTMDateType(p.FormattedDate()) == Some(DateToDateType(p))
  {
    MatchDateOf(p, []);
    AppendNothing(p.FormattedDate());
    DateTextShape(p);
  }

  lemma ParseDateTimeParameters(p: DateTimeParameters)
    requires p.Fits()
    ensures ToTMDateType(p.FormattedDate()) == Some(DateTimeToDateType(p))
  {
    MatchDateTimeOf(p, []);
    AppendNothing(p.FormattedDate());
    DateTextShape(p.date);
    TimeTextShape(p.time);
  }

  /** The end-time shape in terms of its three parts. */
  lemma MatchDateTimeEndTimeSteps(s: string, x: string, y: string, start: DateTimeParameters, endTime: TimeParameters, rest: string)
    requires MatchDateTime(s) == Some((start, x))
    requires MatchSeparator(x) == Some(y)
    requires MatchTime(y) == Some((endTime, rest))
    ensures MatchDateTimeEndTime(s) == Some((DateTimeEndTimeParameters(start.date, start.time, endTime, CompactOutput), rest))
  {
  }

  lemma MatchDateTimeDateTimeSteps(s: string, x: string, y: string, start: DateTimeParameters, end: DateTimeParameters, rest: string)
    requires MatchDateTime(s) == Some((start, x))
    requires MatchSeparator(x) == Some(y)
    requires MatchDateTime(y) == Some((end, rest))
    ensures MatchDateTimeDateTime(s) == Some((DateTimeDateTimeParameters(start, end), rest))
  {
  }

  /** A date-time, any separator and a time match the end-time shape. */
  lemma MatchEndTimeOf(start: DateTimeParameters, sep: Separator, withSpaces: bool, endTime: TimeParameters, rest: string)
    requires start.Fits() && endTime.Fits()
    ensures MatchDateTimeEndTime(start.FormattedDate() + sep.ToString(withSpaces) + endTime.FormattedDate() + rest) ==
      Some((DateTimeEndTimeParameters(start.date, start.time, endTime, CompactOutput), rest))
  {
    var e := endTime.FormattedDate() + rest;
    var x := sep.ToString(withSpaces) + e;
    var s := start.FormattedDate() + x;
    assert start.FormattedDate() + sep.ToString(withSpaces) + endTime.FormattedDate() + rest == s;
    assert MatchDateTime(s) == Some((start, x)) by { MatchDateTimeOf(start, x); }
    assert e != [] && IsDigit(e[0]) by { TimeStartsWithDigit(endTime, rest); }
    assert MatchSeparator(x) == Some(e) by { MatchSeparatorOf(sep, withSpaces, e); }
    assert MatchTime(e) == Some((endTime, rest)) by { MatchTimeOf(endTime, rest); }
    MatchDateTimeEndTimeSteps(s, x, e, start, endTime, rest);
  }

  /** Two date-times around any separator match the two-date shape. */
  lemma MatchRangeOf(start: DateTimeParameters, sep: Separator, withSpaces: bool, end: DateTimeParameters, rest: string)
    requires start.Fits() && end.Fits()
    ensures MatchDateTimeDateTime(start.FormattedDate() + sep.ToString(withSpaces) + end.FormattedDate() + rest) ==
      Some((DateTimeDateTimeParameters(start, end), rest))
  {
    var e := end.FormattedDate() + rest;
    var x := sep.ToString(withSpaces) + e;
    var s := start.FormattedDate() + x;
    assert start.FormattedDate() + sep.ToString(withSpaces) + end.FormattedDate() + rest == s;
    assert MatchDateTime(s) == Some((start, x)) by { MatchDateTimeOf(start, x); }
    assert e != [] && IsDigit(e[0]) by { StartsWithDigit(end, rest); }
    assert MatchSeparator(x) == Some(e) by { MatchSeparatorOf(sep, withSpaces, e); }
    assert MatchDateTime(e) == Some((end, rest)) by { MatchDateTimeOf(end, rest); }
    MatchDateTimeDateTimeSteps(s, x, e, start, end, rest);
  }

  /** The end-time text matches, with the default compact divider in the parameters read. */
  lemma MatchDateTimeEndTimeOf(p: DateTimeEndTimeParameters, rest: string)
    requires p.date.Fits() && p.time.Fits() && p.endTime.Fits()
    ensures MatchDateTimeEndTime(p.FormattedDate() + rest) == Some((p.(outputFormat := CompactOutput), rest))
  {
    var start := DateTimeParameters(p.date, p.time);
    DividerIsSeparator(p.outputFormat);
    var sep := if p.outputFormat.CompactOutput? then Compact else Extended;
    var withSpaces := p.outputFormat.ExpandedOutput?;
    assert p.FormattedDate() == start.FormattedDate() + sep.ToString(withSpaces) + p.endTime.FormattedDate();
    MatchEndTimeOf(start, sep, withSpaces, p.endTime, rest);
  }

  lemma MatchDateTimeDateTimeOf(p: DateTimeDateTimeParameters, rest: string)
    requires p.start.Fits() && p.end.Fits()
    ensures MatchDateTimeDateTime(p.FormattedDate() + rest) == Some((p, rest))
  {
    DividerIsSeparator(ExpandedOutput);
    assert p.FormattedDate() == p.start.FormattedDate() + Extended.ToString(true) + p.end.FormattedDate();
    MatchRangeOf(p.start, Extended, true, p.end, rest);
  }

  /** The lengths of the two range texts fall in the bands their shapes are picked by. */
  lemma RangeTextLengths(start: DateTimeParameters, sep: Separator, withSpaces: bool, endTime: TimeParameters, end: DateTimeParameters)
    requires start.Fits() && endTime.Fits() && end.Fits()
    ensures 22 <= |start.FormattedDate() + sep.ToString(withSpaces) + endTime.FormattedDate()| <= 32
    ensures 33 <= |start.FormattedDate() + sep.ToString(withSpaces) + end.FormattedDate()| <= 41
  {
    DateTextShape(start.date);
    TimeTextShape(start.time);
    TimeTextShape(endTime);
    DateTextShape(end.date);
    TimeTextShape(end.time);
  }

  /** The length picks the shape: ten characters, a date. */
  lemma ShapeDate(s: string)
    requires |s| == 10
    ensures ToTMDateType(s) == ReadDateShape(s)
  {
    assert FormatFrom(s) == Some(DateOnly);
  }

  lemma ShapeDateTime(s: string)
    requires |s| == 16
    ensures ToTMDateType(s) == ReadDateTimeShape(s)
  {
    assert FormatFrom(s) == Some(DateTime);
  }

  lemma ShapeEndTime(s: string)
    requires 22 <= |s| <= 32
    ensures ToTMDateType(s) == ReadEndTimeShape(s)
  {
    assert FormatFrom(s) == Some(DateTimeEndTime);
  }

  lemma ShapeRange(s: string)
    requires 33 <= |s| <= 41
    ensures ToTMDateType(s) == ReadRangeShape(s)
  {
    assert FormatFrom(s) == Some(DateTimeDateTime);
  }

  /** A text in the end-time band that the end-time shape matches whole is converted. */
  lemma EndTimeTextConverts(s: string, q: DateTimeEndTimeParameters)
    requires 22 <= |s| <= 32 && MatchDateTimeEndTime(s) == Some((q, []))
    ensures ToTMDateType(s) == Some(DateTimeEndTimeToDateType(q))
  {
    ShapeEndTime(s);
  }

  lemma DateTimeDateTimeTextConverts(s: string, q: DateTimeDateTimeParameters)
    requires 33 <= |s| <= 41 && MatchDateTimeDateTime(s) == Some((q, []))
    ensures ToTMDateType(s) == Some(DateTimeDateTimeToDateType(q))
  {
    ShapeRange(s);
  }

  /** The divider is read back, but the parameters read carry the default compact divider. */
  lemma ParseDateTimeEndTimeParameters(p: DateTimeEndTimeParameters)
    requires p.date.Fits() && p.time.Fits() && p.endTime.Fits()
    ensures ToTMDateType(p.FormattedDate()) == Some(DateTimeEndTimeToDateType(p.(outputFormat := CompactOutput)))
  {
    MatchDateTimeEndTimeOf(p, []);
    AppendNothing(p.FormattedDate());
    var start := DateTimeParameters(p.date, p.time);
    DividerIsSeparator(p.outputFormat);
    var sep := if p.outputFormat.CompactOutput? then Compact else Extended;
    var withSpaces := p.outputFormat.ExpandedOutput?;
    assert p.FormattedDate() == start.FormattedDate() + sep.ToString(withSpaces) + p.endTime.FormattedDate();
    RangeTextLengths(start, sep, withSpaces, p.endTime, start);
    EndTimeTextConverts(p.FormattedDate(), p.(outputFormat := CompactOutput));
  }

  lemma ParseDateTimeDateTimeParameters(p: DateTimeDateTimeParameters)
    requires p.start.Fits() && p.end.Fits()
    ensures ToTMDateType(p.FormattedDate()) == Some(DateTimeDateTimeToDateType(p))
  {
    MatchDateTimeDateTimeOf(p, []);
    AppendNothing(p.FormattedDate());
    DividerIsSeparator(ExpandedOutput);
    assert p.FormattedDate() == p.start.FormattedDate() + Extended.ToString(true) + p.end.FormattedDate();
    RangeTextLengths(p.start, Extended, true, p.start.time, p.end);
    DateTimeDateTimeTextConverts(p.FormattedDate(), p);
  }

  /** Fitting dates have equal text exactly when they fall on the same day. */
  lemma DateTextSameDay(a: Instant, b: Instant)
    requires ParametersOf(a).date.Fits() && ParametersOf(b).date.Fits()
    ensures DateText(a) == DateText(b) <==> SameDay(a, b)
  {
    MatchDateOf(ParametersOf(a).date, []);
    MatchDateOf(ParametersOf(b).date, []);
    AppendNothing(DateText(a));
    AppendNothing(DateText(b));
  }

  // ---------------------------------------------------------------------
  // A date value's text, read back
  // ---------------------------------------------------------------------

  /** A legal instant written as a date-time reads back as itself. */
  lemma DateTimeRoundTrip(d: Instant)
    requires Legal(d) && d.year < 10000
    ensures ToTMDateType(DateTimeText(d)) == Some(Converted(SingleDate(d)))
  {
    LegalFits(d);
    ParseDateTimeParameters(ParametersOf(d));
  }

  /** Written as a date only, it reads back as midnight of that day, which writes the same text. */
  lemma DateRoundTrip(d: Instant)
    requires Legal(d) && d.year < 10000
    ensures ToTMDateType(DateText(d)) == Some(Converted(SingleDate(d.(hour := 0, minute := 0))))
    ensures DateText(d.(hour := 0, minute := 0)) == DateText(d)
  {
    LegalFits(d);
    ParseDateParameters(ParametersOf(d).date);
  }

  /** The text of two date-times around any separator converts those two instants. */
  lemma RangeTextReads(s: Instant, e: Instant, sep: Separator, withSpaces: bool)
    requires s.year < 10000 && e.year < 10000 && s.month < 100 && e.month < 100 && s.day < 100 && e.day < 100
    requires s.hour < 100 && e.hour < 100 && s.minute < 100 && e.minute < 100
    ensures ToTMDateType(DateTimeText(s) + sep.ToString(withSpaces) + DateTimeText(e)) ==
      Some(RangeToDateType(ParametersOf(s), ParametersOf(e), DateTimeDateTimeParameters(ParametersOf(s), ParametersOf(e)).FormattedDate()))
  {
    var text := DateTimeText(s) + sep.ToString(withSpaces) + DateTimeText(e);
    MatchRangeOf(ParametersOf(s), sep, withSpaces, ParametersOf(e), []);
    AppendNothing(text);
    RangeTextLengths(ParametersOf(s), sep, withSpaces, ParametersOf(s).time, ParametersOf(e));
    DateTimeDateTimeTextConverts(text, DateTimeDateTimeParameters(ParametersOf(s), ParametersOf(e)));
  }

  /** A date-time, any separator and the end's time convert the range on the start's date. */
  lemma EndTimeTextReads(s: Instant, e: Instant, sep: Separator, withSpaces: bool)
    requires s.year < 10000 && s.month < 100 && s.day < 100 && s.hour < 100 && s.minute < 100 && e.hour < 100 && e.minute < 100
    ensures ToTMDateType(DateTimeText(s) + sep.ToString(withSpaces) + ParametersOf(e).time.FormattedDate()) ==
      Some(DateTimeEndTimeToDateType(DateTimeEndTimeParameters(ParametersOf(s).date, ParametersOf(s).time, ParametersOf(e).time, CompactOutput)))
  {
    var text := DateTimeText(s) + sep.ToString(withSpaces) + ParametersOf(e).time.FormattedDate();
    MatchEndTimeOf(ParametersOf(s), sep, withSpaces, ParametersOf(e).time, []);
    AppendNothing(text);
    RangeTextLengths(ParametersOf(s), sep, withSpaces, ParametersOf(e).time, ParametersOf(s));
    EndTimeTextConverts(text, DateTimeEndTimeParameters(ParametersOf(s).date, ParametersOf(s).time, ParametersOf(e).time, CompactOutput));
  }

  /**
   * Every text `toFormattedDateString` writes for a value the conversions
   * can produce reads back as that value, for every separator and spacing;
   * the date-only form of a single date drops its time of day, so it reads
   * back as midnight of that day.
   */
  lemma FormattedDateStringRoundTrip(t: TMDateType, format: DateParameterFormat, sep: Separator, withSpaces: bool)
    requires t.Valid() && t.StartDate().year < 10000 && (t.BeginEndDate? ==> t.end.year < 10000)
    requires ToFormattedDateString(t, format, sep, withSpaces).Some?
    ensures format != DateOnly ==> ToTMDateType(ToFormattedDateString(t, format, sep, withSpaces).value) == Some(Converted(t))
    ensures format == DateOnly ==>
      ToTMDateType(ToFormattedDateString(t, format, sep, withSpaces).value) == Some(Converted(SingleDate(t.date.(hour := 0, minute := 0))))
  {
    match t
    case SingleDate(d) =>
      if format == DateOnly { DateRoundTrip(d); } else { DateTimeRoundTrip(d); }
    case BeginEndDate(s, e) =>
      LegalFits(s);
      LegalFits(e);
      if format == DateTimeDateTime {
        RangeTextReads(s, e, sep, withSpaces);
      } else {
        FormatRange(s, e, format, sep, withSpaces);
        DateTextSameDay(s, e);
        EndTimeTextReads(s, e, sep, withSpaces);
      }
  }

  /** For fitting years, the end-time form is refused exactly when the two ends fall on different days. */
  lemma EndTimeFormRefused(s: Instant, e: Instant, sep: Separator, withSpaces: bool)
    requires Legal(s) && Legal(e) && s.year < 10000 && e.year < 10000
    ensures ToFormattedDateString(BeginEndDate(s, e), DateTimeEndTime, sep, withSpaces).None? <==> !SameDay(s, e)
  {
    LegalFits(s);
    LegalFits(e);
    FormatRange(s, e, DateTimeEndTime, sep, withSpaces);
    DateTextSameDay(s, e);
  }

  /** A text whose date is not on the calendar throws the text back. */
  lemma IllegalDateThrows(p: DateParameters)
    requires p.Fits() && !Legal(Instant(p.year, p.month, p.day, 0, 0))
    ensures ToTMDateType(p.FormattedDate()) == Some(Threw(InvalidFormattedString(p.FormattedDate())))
  {
    ParseDateParameters(p);
  }

  /** A range text whose end does not come after its start throws both instants. */
  lemma OutOfOrderRangeThrows(s: Instant, e: Instant, sep: Separator, withSpaces: bool)
    requires Legal(s) && Legal(e) && s.year < 10000 && e.year < 10000 && !Before(s, e)
    ensures ToTMDateType(DateTimeText(s) + sep.ToString(withSpaces) + DateTimeText(e)) == Some(Threw(EndDateNotAfterStartDate(s, e)))
  {
    LegalFits(s);
    LegalFits(e);
    RangeTextReads(s, e, sep, withSpaces);
  }
}
