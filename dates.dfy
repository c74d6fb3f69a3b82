/**
 * Calendar instants, the date values a tag payload holds (`TMDateType`),
 * and their text forms.  Foundation's `Date`, `DateFormatter` and
 * `Calendar` are replaced by an instant (year, month, day, hour, minute),
 * an explicit Gregorian legality predicate and the lexicographic order.
 */
module Dates {
  import opened Wrappers
  import opened Chars

  // ---------------------------------------------------------------------
  // Decimal text (`String(format: "%0Nd", n)`, `Int(digits)`)
  // ---------------------------------------------------------------------

  function Pow10(w: nat): (r: nat)
    ensures r >= 1
  {
    if w == 0 then 1 else 10 * Pow10(w - 1)
  }

  function DigitChar(d: nat): (c: char)
    requires d < 10
    ensures IsDigit(c)
  {
    ('0' as int + d) as char
  }

  function DigitValue(c: char): (d: nat)
    requires IsDigit(c)
    ensures d < 10
  {
    c as int - '0' as int
  }

  predicate AllDigits(s: string) {
    forall k :: 0 <= k < |s| ==> IsDigit(s[k])
  }

  /** The last `w` decimal digits of `n`, with leading zeros. */
  function FixedDigits(n: nat, w: nat): (r: string)
    ensures |r| == w && AllDigits(r)
  {
    if w == 0 then [] else FixedDigits(n / 10, w - 1) + [DigitChar(n % 10)]
  }

  /** How many digits `n` needs. */
  function NumDigits(n: nat): (k: nat)
    ensures k >= 1
  {
    if n < 10 then 1 else 1 + NumDigits(n / 10)
  }

  /** `leadingZeroString(digits:)`: at least `width` digits, more when `n` needs them. */
  function LeadingZeroString(n: nat, width: nat): string {
    FixedDigits(n, if NumDigits(n) > width then NumDigits(n) else width)
  }

  /** `Int(_:)` on a string of ASCII digits. */
  function ValueOf(s: string): nat
    requires AllDigits(s)
  {
    if s == [] then 0 else 10 * ValueOf(s[..|s| - 1]) + DigitValue(s[|s| - 1])
  }

  /** Reading back the digits written gives the number, when it fits. */
  lemma {:induction false} ValueOfFixed(n: nat, w: nat)
    requires n < Pow10(w)
    ensures ValueOf(FixedDigits(n, w)) == n
  {
    if w > 0 {
      var r := FixedDigits(n, w);
      assert r[..|r| - 1] == FixedDigits(n / 10, w - 1);
      ValueOfFixed(n / 10, w - 1);
    }
  }

  /** A number below `10^w` needs at most `w` digits. */
  lemma {:induction false} NumDigitsBound(n: nat, w: nat)
    requires w >= 1 && n < Pow10(w)
    ensures NumDigits(n) <= w
  {
    if n >= 10 {
      assert Pow10(1) == 10;
      NumDigitsBound(n / 10, w - 1);
    }
  }

  /** A number that fits `width` digits is written with exactly `width` digits. */
  lemma LeadingZeroFits(n: nat, width: nat)
    requires width >= 1 && n < Pow10(width)
    ensures LeadingZeroString(n, width) == FixedDigits(n, width)
    ensures ValueOf(LeadingZeroString(n, width)) == n
  {
    NumDigitsBound(n, width);
    ValueOfFixed(n, width);
  }

  // ---------------------------------------------------------------------
  // Instants and the calendar
  // ---------------------------------------------------------------------

  datatype Instant = Instant(year: nat, month: nat, day: nat, hour: nat, minute: nat)

  predicate IsLeapYear(year: nat) {
    year % 4 == 0 && (year % 100 != 0 || year % 400 == 0)
  }

  function DaysInMonth(year: nat, month: nat): nat {
    if month == 2 then (if IsLeapYear(year) then 29 else 28)
    else if month == 4 || month == 6 || month == 9 || month == 11 then 30
    else 31
  }

  /** What `DateFormatter` accepts: a Gregorian date from year 1 on, a time of day. */
  predicate Legal(i: Instant) {
    i.year >= 1 && 1 <= i.month <= 12 && 1 <= i.day <= DaysInMonth(i.year, i.month) &&
    i.hour < 24 && i.minute < 60
  }

  /** `<` on `Date`: lexicographic on the fields. */
  predicate Before(a: Instant, b: Instant) {
    a.year < b.year ||
    (a.year == b.year && (a.month < b.month ||
    (a.month == b.month && (a.day < b.day ||
    (a.day == b.day && (a.hour < b.hour ||
    (a.hour == b.hour && a.minute < b.minute)))))))
  }

  /** `Before` is a strict total order. */
  lemma BeforeOrder(a: Instant, b: Instant, c: Instant)
    ensures !Before(a, a)
    ensures Before(a, b) && Before(b, c) ==> Before(a, c)
    ensures a != b ==> Before(a, b) != Before(b, a)
  {
  }

  /** The same calendar day. */
  predicate SameDay(a: Instant, b: Instant) {
    a.year == b.year && a.month == b.month && a.day == b.day
  }

  // ---------------------------------------------------------------------
  // `TMDateType`
  // ---------------------------------------------------------------------

  datatype TMDateType = SingleDate(date: Instant) | BeginEndDate(start: Instant, end: Instant)
  {
    /** `startDate`: the date, or the start of the range. */
    function StartDate(): (r: Instant)
      ensures SingleDate? ==> r == date
      ensures BeginEndDate? ==> r == start
    {
      match this
      case SingleDate(d) => d
      case BeginEndDate(s, _) => s
    }

    /** A value the conversions can produce: legal instants, a range in strict order. */
    predicate Valid() {
      match this
      case SingleDate(d) => Legal(d)
      case BeginEndDate(s, e) => Legal(s) && Legal(e) && Before(s, e)
    }

    /** `endDate`: absent exactly for a single date. */
    function EndDate(): (r: Option<Instant>)
      ensures r.None? <==> SingleDate?
      ensures r.Some? ==> r.value == end
    {
      match this
      case SingleDate(_) => None
      case BeginEndDate(_, e) => Some(e)
    }
  }

  // ---------------------------------------------------------------------
  // Text forms
  // ---------------------------------------------------------------------

  datatype DateParameterFormat = DateOnly | DateTime | DateTimeEndTime | DateTimeDateTime

  /** `DateParameterFormat(from:)`: the shape is chosen by length alone. */
  function FormatFrom(s: string): (r: Option<DateParameterFormat>)
    ensures r == Some(DateOnly) <==> |s| == 10
    ensures r == Some(DateTime) <==> |s| == 16
    ensures r == Some(DateTimeEndTime) <==> 22 <= |s| <= 32
    ensures r == Some(DateTimeDateTime) <==> 33 <= |s| <= 41
  {
    if |s| == 10 then Some(DateOnly)
    else if |s| == 16 then Some(DateTime)
    else if 22 <= |s| <= 32 then Some(DateTimeEndTime)
    else if 33 <= |s| <= 41 then Some(DateTimeDateTime)
    else None
  }

  /** `DateFormatSeparatorType`. */
  datatype Separator = Compact | Extended | GrammarExtended
  {
    function RawValue(): string {
      match this
      case Compact => "-"
      case Extended => "thru"
      case GrammarExtended => "through"
    }

    /** `toString(withSpaces:)`: the raw value, with one space either side when asked. */
    function ToString(withSpaces: bool): (r: string)
      ensures withSpaces ==> r == " " + RawValue() + " "
      ensures !withSpaces ==> r == RawValue()
      ensures |r| == |RawValue()| + (if withSpaces then 2 else 0)
    {
      if withSpaces then " " + RawValue() + " " else RawValue()
    }
  }

  // ---------------------------------------------------------------------
  // The parameter records and their `formattedDate`
  // ---------------------------------------------------------------------

  datatype DateParameters = DateParameters(year: nat, month: nat, day: nat)
  {
    /** Every field fits its padded width, so the text has its fixed shape. */
    predicate Fits() {
      year < 10000 && month < 100 && day < 100
    }

    /** `yyyy-MM-dd`. */
    function FormattedDate(): string {
      LeadingZeroString(year, 4) + "-" + LeadingZeroString(month, 2) + "-" + LeadingZeroString(day, 2)
    }
  }

  datatype TimeParameters = TimeParameters(hour: nat, minute: nat)
  {
    predicate Fits() {
      hour < 100 && minute < 100
    }

    /** `HH:mm`. */
    function FormattedDate(): string {
      LeadingZeroString(hour, 2) + ":" + LeadingZeroString(minute, 2)
    }
  }

  datatype DateTimeParameters = DateTimeParameters(date: DateParameters, time: TimeParameters)
  {
    predicate Fits() {
      date.Fits() && time.Fits()
    }

    /** `yyyy-MM-dd HH:mm`. */
    function FormattedDate(): string {
      date.FormattedDate() + " " + time.FormattedDate()
    }

    function ToInstant(): Instant {
      Instant(date.year, date.month, date.day, time.hour, time.minute)
    }
  }

  /** `DateTimeEndTimeParameters.OutputFormat`. */
  datatype OutputFormat = CompactOutput | ExpandedOutput
  {
    function Divider(): string {
      match this
      case CompactOutput => "-"
      case ExpandedOutput => " thru "
    }
  }

  datatype DateTimeEndTimeParameters =
    DateTimeEndTimeParameters(date: DateParameters, time: TimeParameters, endTime: TimeParameters, outputFormat: OutputFormat)
  {
    /** `yyyy-MM-dd HH:mm`, the divider, then `HH:mm`. */
    function FormattedDate(): string {
      date.FormattedDate() + " " + time.FormattedDate() + outputFormat.Divider() + endTime.FormattedDate()
    }
  }

  datatype DateTimeDateTimeParameters = DateTimeDateTimeParameters(start: DateTimeParameters, end: DateTimeParameters)
  {
    /** Both date-times, joined by ` thru `. */
    function FormattedDate(): string {
      start.FormattedDate() + " thru " + end.FormattedDate()
    }
  }

  /** The parameters of an instant, as `toDateTimeParameters()` reads them. */
  function ParametersOf(i: Instant): DateTimeParameters {
    DateTimeParameters(DateParameters(i.year, i.month, i.day), TimeParameters(i.hour, i.minute))
  }

  /** `Date.string(format: .date)`. */
  function DateText(i: Instant): string {
    ParametersOf(i).date.FormattedDate()
  }

  /** `Date.string(format: .dateTime)`. */
  function DateTimeText(i: Instant): string {
    ParametersOf(i).FormattedDate()
  }

  // ---------------------------------------------------------------------
  // `toFormattedDateString(format:separator:withSpaces:)`
  // ---------------------------------------------------------------------

  function ToFormattedDateString(t: TMDateType, format: DateParameterFormat, sep: Separator, withSpaces: bool): Option<string> {
    match t
    case SingleDate(d) =>
      if format == DateOnly then Some(DateText(d))
      else if format == DateTime then Some(DateTimeText(d))
      else None
    case BeginEndDate(s, e) =>
      if format == DateTimeDateTime then Some(DateTimeText(s) + sep.ToString(withSpaces) + DateTimeText(e))
      else if format == DateTimeEndTime then
        if DateText(s) == DateText(e) then Some(DateTimeText(s) + sep.ToString(withSpaces) + ParametersOf(e).time.FormattedDate())
        else None
      else None
  }

  // ---------------------------------------------------------------------
  // `toDateType()`
  // ---------------------------------------------------------------------

  /** The two date errors of `TMError`. */
  datatype DateError = InvalidFormattedString(text: string) | EndDateNotAfterStartDate(startDate: Instant, endDate: Instant)

  /** A conversion that returns a value or throws. */
  datatype Converted = Converted(value: TMDateType) | Threw(error: DateError)

  /** `DateParameters.toDateType()`: the date at midnight, or the text it could not read. */
  function DateToDateType(p: DateParameters): (r: Converted)
    ensures r.Converted? ==> r.value.Valid() && r.value == SingleDate(Instant(p.year, p.month, p.day, 0, 0))
    ensures r.Threw? <==> !Legal(Instant(p.year, p.month, p.day, 0, 0))
    ensures r.Threw? ==> r.error == InvalidFormattedString(p.FormattedDate())
  {
    var i := Instant(p.year, p.month, p.day, 0, 0);
    if Legal(i) then Converted(SingleDate(i)) else Threw(InvalidFormattedString(p.FormattedDate()))
  }

  /** `DateTimeParameters.toDateType()`. */
  function DateTimeToDateType(p: DateTimeParameters): (r: Converted)
    ensures r.Converted? ==> r.value.Valid() && r.value == SingleDate(p.ToInstant())
    ensures r.Threw? <==> !Legal(p.ToInstant())
    ensures r.Threw? ==> r.error == InvalidFormattedString(p.FormattedDate())
  {
    if Legal(p.ToInstant()) then Converted(SingleDate(p.ToInstant()))
    else Threw(InvalidFormattedString(p.FormattedDate()))
  }

  /** Both ends must be legal, then the start must come strictly first. */
  function RangeToDateType(start: DateTimeParameters, end: DateTimeParameters, text: string): (r: Converted)
    ensures r.Converted? ==> r.value.Valid() && r.value == BeginEndDate(start.ToInstant(), end.ToInstant())
    ensures r == Threw(InvalidFormattedString(text)) <==> !Legal(start.ToInstant()) || !Legal(end.ToInstant())
    ensures r == Threw(EndDateNotAfterStartDate(start.ToInstant(), end.ToInstant())) <==>
      Legal(start.ToInstant()) && Legal(end.ToInstant()) && !Before(start.ToInstant(), end.ToInstant())
  {
    var s := start.ToInstant();
    var e := end.ToInstant();
    if !Legal(s) || !Legal(e) then Threw(InvalidFormattedString(text))
    else if !Before(s, e) then Threw(EndDateNotAfterStartDate(s, e))
    else Converted(BeginEndDate(s, e))
  }

  /** `DateTimeEndTimeParameters.toDateType()`: the end time is taken on the start's date. */
  function DateTimeEndTimeToDateType(p: DateTimeEndTimeParameters): (r: Converted)
    ensures r.Converted? ==> r.value.Valid() && r.value.BeginEndDate? && SameDay(r.value.start, r.value.end)
  {
    RangeToDateType(DateTimeParameters(p.date, p.time), DateTimeParameters(p.date, p.endTime), p.FormattedDate())
  }

  /** `DateTimeDateTimeParameters.toDateType()`. */
  function DateTimeDateTimeToDateType(p: DateTimeDateTimeParameters): (r: Converted)
    ensures r.Converted? ==> r.value.Valid()
  {
    RangeToDateType(p.start, p.end, p.FormattedDate())
  }

  // ---------------------------------------------------------------------
  // What the formatter refuses
  // ---------------------------------------------------------------------

  /** A single date formats as a date or a date-time, and never as a range. */
  lemma FormatSingle(d: Instant, format: DateParameterFormat, sep: Separator, withSpaces: bool)
    ensures ToFormattedDateString(SingleDate(d), format, sep, withSpaces).Some? <==> format == DateOnly || format == DateTime
    ensures format == DateOnly ==> ToFormattedDateString(SingleDate(d), format, sep, withSpaces) == Some(DateText(d))
    ensures format == DateTime ==> ToFormattedDateString(SingleDate(d), format, sep, withSpaces) == Some(DateTimeText(d))
  {
  }

  /**
   * A range never formats as a single date; the two-date form always
   * succeeds, and the end-time form only when both ends have the same date text.
   */
  lemma FormatRange(s: Instant, e: Instant, format: DateParameterFormat, sep: Separator, withSpaces: bool)
    ensures ToFormattedDateString(BeginEndDate(s, e), format, sep, withSpaces).Some? <==>
      format == DateTimeDateTime || (format == DateTimeEndTime && DateText(s) == DateText(e))
    ensures format == DateTimeDateTime ==>
      ToFormattedDateString(BeginEndDate(s, e), format, sep, withSpaces) == Some(DateTimeText(s) + sep.ToString(withSpaces) + DateTimeText(e))
  {
  }

  // ---------------------------------------------------------------------
  // The shape of the text
  // ---------------------------------------------------------------------

  /** A fitting date is written as four, two and two digits between dashes. */
  lemma DateTextShape(p: DateParameters)
    requires p.Fits()
    ensures p.FormattedDate() == FixedDigits(p.year, 4) + "-" + FixedDigits(p.month, 2) + "-" + FixedDigits(p.day, 2)
    ensures |p.FormattedDate()| == 10
  {
    assert Pow10(2) == 100 && Pow10(4) == 10000;
    LeadingZeroFits(p.year, 4);
    LeadingZeroFits(p.month, 2);
    LeadingZeroFits(p.day, 2);
  }

  lemma TimeTextShape(p: TimeParameters)
    requires p.Fits()
    ensures p.FormattedDate() == FixedDigits(p.hour, 2) + ":" + FixedDigits(p.minute, 2)
    ensures |p.FormattedDate()| == 5
  {
    assert Pow10(2) == 100;
    LeadingZeroFits(p.hour, 2);
    LeadingZeroFits(p.minute, 2);
  }

  /** A legal instant before the year 10000 has fitting parameters. */
  lemma LegalFits(i: Instant)
    requires Legal(i) && i.year < 10000
    ensures ParametersOf(i).Fits()
    ensures ParametersOf(i).ToInstant() == i
  {
  }

  /** The end-time divider is a separator: `-` bare, or `thru` with spaces. */
  lemma DividerIsSeparator(o: OutputFormat)
    ensures o.CompactOutput? ==> o.Divider() == Compact.ToString(false)
    ensures o.ExpandedOutput? ==> o.Divider() == Extended.ToString(true)
    ensures Extended.ToString(true) == " thru "
  {
  }
}
