/**
 * The calendar search rule of the event wrapper: which stored events a
 * search matches, decided by which of the search's fields are given, and
 * the date format a set of calendar fields supports.
 */
module Events {
  import opened Wrappers
  import opened Chars

  /** A Foundation `Date`, by its time interval: the rule only compares dates for equality. */
  type Time = int

  /** `Date.TMDateFormat`: a whole day, or a day and a time of day. */
  datatype TMDateFormat = Date | DateTime

  /** `EventParametersSearchable`: a search, with every field optional. */
  datatype Searchable = Searchable(
    title: Option<string>,
    startDate: Option<Time>,
    endDate: Option<Time>,
    notes: Option<string>,
    dateFormat: Option<TMDateFormat>)

  /** `TMSearchType`: by the calendar's identifier, or by field values. */
  datatype TMSearchType = ById(id: string) | BySearchValues(values: Searchable)

  /** The coding keys `matches(searchType:)` collects. */
  datatype CodingKey = TitleKey | StartDateKey | EndDateKey | NotesKey

  /** The keys a search gives a value for. */
  function Keys(s: Searchable): (r: set<CodingKey>)
    ensures TitleKey in r <==> s.title.Some?
    ensures StartDateKey in r <==> s.startDate.Some?
    ensures EndDateKey in r <==> s.endDate.Some?
    ensures NotesKey in r <==> s.notes.Some?
  {
    (if s.title.Some? then {TitleKey} else {}) +
    (if s.startDate.Some? then {StartDateKey} else {}) +
    (if s.endDate.Some? then {EndDateKey} else {}) +
    (if s.notes.Some? then {NotesKey} else {})
  }

  /** `keysToSearch`, built one `insert` at a time; `dateFormat` is never inserted. */
  method KeysToSearch(s: Searchable) returns (keys: set<CodingKey>)
    ensures keys == Keys(s)
  {
    keys := {};
    if s.title.Some? {
      keys := keys + {TitleKey};
    }
    if s.startDate.Some? {
      keys := keys + {StartDateKey};
    }
    if s.endDate.Some? {
      keys := keys + {EndDateKey};
    }
    if s.notes.Some? {
      keys := keys + {NotesKey};
    }
  }

  /** `EventParameters`: an event as the calendar holds it. */
  datatype EventParameters = EventParameters(
    title: string,
    startDate: Time,
    endDate: Option<Time>,
    notes: Option<string>,
    dateFormat: TMDateFormat)
  {
    /** `toSearchable`: the event's own fields, as a search. */
    function ToSearchable(): (r: Searchable)
      ensures r.title == Some(title) && r.startDate == Some(startDate)
      ensures r.endDate == endDate && r.notes == notes && r.dateFormat == Some(dateFormat)
    {
      Searchable(Some(title), Some(startDate), endDate, notes, Some(dateFormat))
    }

    function SearchType(): TMSearchType {
      BySearchValues(ToSearchable())
    }

    /**
     * `matches(searchType:)`: an event has no identifier, so a search by
     * identifier never matches it; a search by values is decided by the
     * keys it gives.
     */
    function Matches(t: TMSearchType): (r: bool)
      ensures t.ById? ==> !r
    {
      match t
      case ById(_) => false
      case BySearchValues(s) => MatchKeys(this, s, Keys(s))
    }
  }

  /**
   * The `switch keysToSearch`: fifteen listed key sets, each comparing the
   * keys it names, and a default that matches nothing.  Only a title alone
   * and notes alone are substring searches.
   */
  function MatchKeys(e: EventParameters, s: Searchable, keys: set<CodingKey>): bool {
    var title := s.title == Some(e.title);
    var start := s.startDate == Some(e.startDate);
    var end := e.endDate == s.endDate;
    var notes := e.notes == s.notes;
    if keys == {TitleKey, StartDateKey, EndDateKey, NotesKey} then title && start && end && notes
    else if keys == {TitleKey, StartDateKey, EndDateKey} then title && start && end
    else if keys == {TitleKey, StartDateKey, NotesKey} then title && start && notes
    else if keys == {TitleKey, EndDateKey, NotesKey} then title && end && notes
    else if keys == {TitleKey, StartDateKey} then title && start
    else if keys == {TitleKey, EndDateKey} then title && end
    else if keys == {TitleKey, NotesKey} then title && notes
    else if keys == {TitleKey} then s.title.Some? && Contains(e.title, s.title.value)
    else if keys == {StartDateKey, EndDateKey, NotesKey} then start && end && notes
    else if keys == {StartDateKey, NotesKey} then start && notes
    else if keys == {StartDateKey} then start
    else if keys == {EndDateKey, NotesKey} then end && notes
    else if keys == {EndDateKey} then end
    else if keys == {NotesKey} then e.notes.Some? && s.notes.Some? && Contains(e.notes.value, s.notes.value)
    else false
  }

  /** `matches(searchType:)` as written: collect the keys, then switch on them. */
  method SearchMatches(e: EventParameters, t: TMSearchType) returns (r: bool)
    ensures r == e.Matches(t)
  {
    match t {
      case ById(_) =>
        r := false;
      case BySearchValues(s) =>
        var keys := KeysToSearch(s);
        r := MatchKeys(e, s, keys);
    }
  }

  /** `EventResult`: an event with the calendar's identifier for it. */
  datatype EventResult = EventResult(id: string, model: EventParameters)
  {
    function SearchType(): TMSearchType {
      ById(id)
    }

    /** By identifier: the identifiers are equal; by values: the event decides. */
    function Matches(t: TMSearchType): (r: bool)
      ensures t.ById? ==> (r <==> t.id == id)
      ensures t.BySearchValues? ==> (r <==> model.Matches(t))
    {
      match t
      case ById(other) => id == other
      case BySearchValues(_) => model.Matches(t)
    }
  }

  // ---------------------------------------------------------------------
  // The rule, by the fields a search gives
  // ---------------------------------------------------------------------

  /** The search gives no title, dates or notes (its `dateFormat` aside). */
  predicate GivesNothing(s: Searchable) {
    s.title.None? && s.startDate.None? && s.endDate.None? && s.notes.None?
  }

  predicate TitleOnly(s: Searchable) {
    s.title.Some? && s.startDate.None? && s.endDate.None? && s.notes.None?
  }

  predicate NotesOnly(s: Searchable) {
    s.title.None? && s.startDate.None? && s.endDate.None? && s.notes.Some?
  }

  predicate StartAndEndOnly(s: Searchable) {
    s.title.None? && s.startDate.Some? && s.endDate.Some? && s.notes.None?
  }

  /** Every field the search gives equals the event's. */
  predicate Exact(e: EventParameters, s: Searchable) {
    (s.title.Some? ==> s.title.value == e.title) &&
    (s.startDate.Some? ==> s.startDate.value == e.startDate) &&
    (s.endDate.Some? ==> e.endDate == s.endDate) &&
    (s.notes.Some? ==> e.notes == s.notes)
  }

  /** A search that gives no field matches no event. */
  lemma NothingMatchesNothing(e: EventParameters, s: Searchable)
    requires GivesNothing(s)
    ensures !e.Matches(BySearchValues(s))
  {
    assert Keys(s) == {};
  }

  /** A title alone is looked for inside the event's title; an empty one finds nothing. */
  lemma TitleAloneIsContained(e: EventParameters, s: Searchable)
    requires TitleOnly(s)
    ensures e.Matches(BySearchValues(s)) <==> |s.title.value| > 0 && IsSubstring(s.title.value, e.title)
    ensures s.title.value == "" ==> !e.Matches(BySearchValues(s))
  {
    assert Keys(s) == {TitleKey};
  }

  /** Notes alone are looked for inside the event's notes, and match nothing when it has none or they are empty. */
  lemma NotesAloneAreContained(e: EventParameters, s: Searchable)
    requires NotesOnly(s)
    ensures e.notes.None? || s.notes.value == "" ==> !e.Matches(BySearchValues(s))
    ensures e.notes.Some? ==>
      (e.Matches(BySearchValues(s)) <==> |s.notes.value| > 0 && IsSubstring(s.notes.value, e.notes.value))
  {
    assert Keys(s) == {NotesKey};
  }

  /** A start and an end date and nothing else is the one combination the switch leaves out. */
  lemma StartAndEndMatchNothing(e: EventParameters, s: Searchable)
    requires StartAndEndOnly(s)
    ensures !e.Matches(BySearchValues(s))
  {
    assert Keys(s) == {StartDateKey, EndDateKey};
  }

  /** Every other combination matches exactly when each field given is equal. */
  lemma OtherCombinationsAreExact(e: EventParameters, s: Searchable)
    requires !GivesNothing(s) && !TitleOnly(s) && !NotesOnly(s) && !StartAndEndOnly(s)
    ensures e.Matches(BySearchValues(s)) <==> Exact(e, s)
  {
    var t, st, en, no := s.title.Some?, s.startDate.Some?, s.endDate.Some?, s.notes.Some?;
    if t && st && en && no {
      assert Keys(s) == {TitleKey, StartDateKey, EndDateKey, NotesKey};
    } else if t && st && en {
      assert Keys(s) == {TitleKey, StartDateKey, EndDateKey};
    } else if t && st && no {
      assert Keys(s) == {TitleKey, StartDateKey, NotesKey};
    } else if t && en && no {
      assert Keys(s) == {TitleKey, EndDateKey, NotesKey};
    } else if t && st {
      assert Keys(s) == {TitleKey, StartDateKey};
    } else if t && en {
      assert Keys(s) == {TitleKey, EndDateKey};
    } else if t && no {
      assert Keys(s) == {TitleKey, NotesKey};
    } else if st && en && no {
      assert Keys(s) == {StartDateKey, EndDateKey, NotesKey};
    } else if st && no {
      assert Keys(s) == {StartDateKey, NotesKey};
    } else if st {
      assert Keys(s) == {StartDateKey};
    } else if en && no {
      assert Keys(s) == {EndDateKey, NotesKey};
    } else {
      assert Keys(s) == {EndDateKey};
    }
  }

  /** Neither the event's `dateFormat` nor the search's is ever consulted. */
  lemma DateFormatIgnored(e: EventParameters, s: Searchable, f: TMDateFormat, g: Option<TMDateFormat>)
    ensures e.(dateFormat := f).Matches(BySearchValues(s.(dateFormat := g))) == e.Matches(BySearchValues(s))
  {
    assert Keys(s.(dateFormat := g)) == Keys(s);
  }

  /** An event matches its own search type: its own fields, compared exactly. */
  lemma EventMatchesItself(e: EventParameters)
    ensures e.Matches(e.SearchType())
  {
    var s := e.ToSearchable();
    assert !GivesNothing(s) && !TitleOnly(s) && !NotesOnly(s) && !StartAndEndOnly(s) by {
      assert s.title.Some? && s.startDate.Some?;
    }
    OtherCombinationsAreExact(e, s);
  }

  /** A result matches its own search type, and no result with another identifier does. */
  lemma ResultMatchesOnlyItself(r: EventResult, other: EventResult)
    ensures r.Matches(r.SearchType())
    ensures other.Matches(r.SearchType()) <==> other.id == r.id
  {
  }

  // ---------------------------------------------------------------------
  // The date format of calendar fields
  // ---------------------------------------------------------------------

  /** The calendar fields of a Foundation `DateComponents` the format reads. */
  datatype DateComponents = DateComponents(
    year: Option<int>,
    month: Option<int>,
    day: Option<int>,
    hour: Option<int>,
    minute: Option<int>)
  {
    /**
     * `dateFormat`: no format without a year, month and day; a whole day
     * without an hour and a minute; a date and time otherwise.
     */
    function DateFormat(): (r: Option<TMDateFormat>)
      ensures r.None? <==> year.None? || month.None? || day.None?
      ensures r == Some(Date) <==> year.Some? && month.Some? && day.Some? && (hour.None? || minute.None?)
      ensures r == Some(DateTime) <==>
        year.Some? && month.Some? && day.Some? && hour.Some? && minute.Some?
    {
      if year.None? || month.None? || day.None? then None
      else if hour.None? || minute.None? then Some(Date)
      else Some(DateTime)
    }
  }
}
