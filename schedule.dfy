/** One schedule row, from its scraped text to a calendar event: the month
    table, the season-year rule, the date and time parsing, the `datetime`
    range checks and the event's fields, in the order main.py performs them. */
module Schedule {
  import opened PyText

  /** The raw text of one game row. `dateText` and `time` are the text of the
      date and time nodes before `.strip()`; the team and field names are
      taken as given. */
  datatype GameRow = GameRow(dateText: string, time: string, homeTeam: string, guestTeam: string, field: string)

  /** The exception a row can raise; any of them ends the whole loop. */
  datatype RowError =
    | DateNotTwoParts            // ValueError: `split(' ', 1)` gave one part to unpack into two
    | DayNotInteger(text: string)    // ValueError from `int(day_str)`
    | UnknownMonth(abbrev: string)   // KeyError from `month_map[month_str]`
    | HourNotInteger(text: string)   // ValueError from `int(time.split(':')[0])`
    | NoMinuteField                  // IndexError from `time.split(':')[1]`
    | MinuteNotInteger(text: string) // ValueError from `int(time.split(':')[1][:2])`
    | ArgumentOverflow               // OverflowError: a `datetime` argument does not fit a C int
    | YearOutOfRange                 // ValueError from `datetime(...)`, in its checking order
    | MonthOutOfRange
    | DayOutOfRange
    | HourOutOfRange
    | MinuteOutOfRange

  datatype Result<T> = Success(value: T) | Failure(error: RowError)

  datatype MonthDay = MonthDay(month: int, day: int)
  datatype ClockTime = ClockTime(hour: int, minute: int)

  /** A naive `datetime` with second and microsecond zero. */
  datatype DateTime = DateTime(year: int, month: int, day: int, hour: int, minute: int)

  /** The fields main.py sets on an `ics` Event; `end` is never set. */
  datatype Event = Event(name: string, begin: DateTime, location: string, description: string, end: Option<DateTime>)

  /** What one pass of the loop body does with a row. */
  datatype RowOutcome = Skipped | Added(event: Event) | Failed(error: RowError)

  // ---------------------------------------------------------------------------
  // month_map

  const MonthMap: map<string, int> := map[
    "Jan" := 1, "Feb" := 2, "Mar" := 3, "Apr" := 4, "May" := 5, "Jun" := 6,
    "Jul" := 7, "Aug" := 8, "Sep" := 9, "Oct" := 10, "Nov" := 11, "Dec" := 12]

  /** The twelve abbreviations in calendar order. */
  const MonthAbbrevs: seq<string> := [
    "Jan", "Feb", "Mar", "Apr", "May", "Jun", "Jul", "Aug", "Sep", "Oct", "Nov", "Dec"]

  /** `month_map[abbrev]`: defined exactly for the twelve abbreviations, and
      then the month's position in the calendar. */
  function MonthNumber(abbrev: string): (r: Option<int>)
    ensures r.Some? <==> abbrev in MonthAbbrevs
    ensures r.Some? ==> 1 <= r.value <= 12 && MonthAbbrevs[r.value - 1] == abbrev
  {
    if abbrev in MonthMap then Some(MonthMap[abbrev]) else None
  }

  /** Every month 1..12 is reached, from its own abbreviation. */
  lemma MonthNumberOnto(m: int)
    requires 1 <= m <= 12
    ensures MonthNumber(MonthAbbrevs[m - 1]) == Some(m)
  {
  }

  /** Different abbreviations never give the same month. */
  lemma MonthNumberInjective(a: string, b: string)
    requires MonthNumber(a).Some? && MonthNumber(a) == MonthNumber(b)
    ensures a == b
  {
  }

  // ---------------------------------------------------------------------------
  // Season year

  const SeasonStartYear := 2024
  const SeasonEndYear := 2025
  /** The first month that belongs to the season's start year. */
  const CutoffMonth := 8

  /** The year main.py gives a month: August onwards is the start year, and
      no month gets any other year than the season's two. */
  function EventYear(month: int): (y: int)
    ensures y == SeasonStartYear || y == SeasonEndYear
    ensures y == SeasonStartYear <==> month >= CutoffMonth
  {
    if month >= CutoffMonth then SeasonStartYear else SeasonEndYear
  }

  /** For every month the table can produce: August to December fall in 2024,
      January to July in 2025, and no other year occurs. */
  lemma YearInference(abbrev: string)
    requires MonthNumber(abbrev).Some?
    ensures var m := MonthNumber(abbrev).value;
      (EventYear(m) == 2024 <==> 8 <= m <= 12) &&
      (EventYear(m) == 2025 <==> 1 <= m <= 7) &&
      (EventYear(m) == 2024 || EventYear(m) == 2025)
  {
  }

  // ---------------------------------------------------------------------------
  // Parsing the date and time text

  /** `date_text.split(' - ')[0].split(' ', 1)`, `int(day_str)` and
      `month_map[month_str]`, failing with the first exception Python would
      raise. A date without a space cannot be unpacked, and a successful
      parse always names a real month. */
  function ParseDate(dateText: string): (r: Result<MonthDay>)
    ensures r == Failure(DateNotTwoParts) <==> ' ' !in SplitHead(dateText, " - ")
    ensures ' ' !in dateText ==> r == Failure(DateNotTwoParts)
    ensures r.Success? ==> 1 <= r.value.month <= 12
    ensures r.Failure? ==> r.error.DateNotTwoParts? || r.error.DayNotInteger? || r.error.UnknownMonth?
  {
    var head := SplitHead(dateText, " - ");
    assert ' ' !in dateText ==> ' ' !in head;
    SplitOnceFindsChar(head, ' ');
    match SplitOnce(head, " ")
    case None => Failure(DateNotTwoParts)
    case Some((monthText, dayText)) =>
      match ParseInt(dayText)
      case None => Failure(DayNotInteger(dayText))
      case Some(day) =>
        match MonthNumber(monthText)
        case None => Failure(UnknownMonth(monthText))
        case Some(month) => Success(MonthDay(month, day))
  }

  /** `int(time.split(':')[0])` and `int(time.split(':')[1][:2])`, in that
      order. There is no AM/PM handling; a time without a colon is an error. */
  function ParseTime(time: string): (r: Result<ClockTime>)
    ensures ':' !in time ==> r.Failure?
    ensures r == Failure(NoMinuteField) <==> ':' !in time && ParseInt(time).Some?
    ensures r.Failure? ==> r.error.HourNotInteger? || r.error.NoMinuteField? || r.error.MinuteNotInteger?
  {
    var hourText := SplitHead(time, ":");
    SplitOnceFindsChar(time, ':');
    match ParseInt(hourText)
    case None => Failure(HourNotInteger(hourText))
    case Some(hour) =>
      match SplitOnce(time, ":")
      case None => Failure(NoMinuteField)
      case Some((_, rest)) =>
        var minuteText := Prefix(SplitHead(rest, ":"), 2);
        match ParseInt(minuteText)
        case None => Failure(MinuteNotInteger(minuteText))
        case Some(minute) => Success(ClockTime(hour, minute))
  }

  // ---------------------------------------------------------------------------
  // datetime(...)

  predicate IsLeapYear(y: int) {
    y % 4 == 0 && (y % 100 != 0 || y % 400 == 0)
  }

  function DaysInMonth(y: int, m: int): int
    requires 1 <= m <= 12
  {
    if m == 2 then (if IsLeapYear(y) then 29 else 28)
    else if m == 4 || m == 6 || m == 9 || m == 11 then 30
    else 31
  }

  /** The range of a C `int`, into which `datetime` converts each argument
      before it looks at any of them. */
  const IntMin := -0x8000_0000
  const IntMax := 0x7FFF_FFFF

  predicate FitsCInt(n: int) { IntMin <= n <= IntMax }

  predicate ArgumentsFit(year: int, month: int, day: int, hour: int, minute: int) {
    FitsCInt(year) && FitsCInt(month) && FitsCInt(day) && FitsCInt(hour) && FitsCInt(minute)
  }

  /** The values Python's `datetime` accepts. */
  predicate ValidDateTime(d: DateTime) {
    1 <= d.year <= 9999 && 1 <= d.month <= 12 && 1 <= d.day <= DaysInMonth(d.year, d.month)
    && 0 <= d.hour <= 23 && 0 <= d.minute <= 59
  }

  /** `datetime(year, month, day, hour=, minute=)`: succeeds exactly on valid
      values and then holds them. Otherwise it raises OverflowError when an
      argument does not fit a C int, and else ValueError for the first field
      out of range, checking year, month, day, hour, minute in turn. */
  function MakeDateTime(year: int, month: int, day: int, hour: int, minute: int): (r: Result<DateTime>)
    ensures r.Success? <==> ValidDateTime(DateTime(year, month, day, hour, minute))
    ensures r.Success? ==> r.value == DateTime(year, month, day, hour, minute)
    ensures r == Failure(ArgumentOverflow) <==> !ArgumentsFit(year, month, day, hour, minute)
    ensures r == Failure(YearOutOfRange) <==>
      ArgumentsFit(year, month, day, hour, minute) && !(1 <= year <= 9999)
    ensures r == Failure(MonthOutOfRange) <==>
      ArgumentsFit(year, month, day, hour, minute) && 1 <= year <= 9999 && !(1 <= month <= 12)
    ensures r == Failure(DayOutOfRange) <==>
      ArgumentsFit(year, month, day, hour, minute) && 1 <= year <= 9999 && 1 <= month <= 12
      && !(1 <= day <= DaysInMonth(year, month))
    ensures r == Failure(HourOutOfRange) <==>
      ArgumentsFit(year, month, day, hour, minute) && 1 <= year <= 9999 && 1 <= month <= 12
      && 1 <= day <= DaysInMonth(year, month) && !(0 <= hour <= 23)
    ensures r == Failure(MinuteOutOfRange) <==>
      ArgumentsFit(year, month, day, hour, minute) && 1 <= year <= 9999 && 1 <= month <= 12
      && 1 <= day <= DaysInMonth(year, month) && 0 <= hour <= 23 && !(0 <= minute <= 59)
  {
    if !ArgumentsFit(year, month, day, hour, minute) then Failure(ArgumentOverflow)
    else if !(1 <= year <= 9999) then Failure(YearOutOfRange)
    else if !(1 <= month <= 12) then Failure(MonthOutOfRange)
    else if !(1 <= day <= DaysInMonth(year, month)) then Failure(DayOutOfRange)
    else if !(0 <= hour <= 23) then Failure(HourOutOfRange)
    else if !(0 <= minute <= 59) then Failure(MinuteOutOfRange)
    else Success(DateTime(year, month, day, hour, minute))
  }

  // ---------------------------------------------------------------------------
  // One row

  /** The row's time is missing or not yet announced. */
  predicate IsUnscheduled(time: string) {
    time == [] || time == "TBD"
  }

  /** The event main.py assembles for a row that starts at `begin`. */
  function MakeEvent(row: GameRow, begin: DateTime): Event {
    Event(row.homeTeam + " vs " + row.guestTeam, begin, row.field,
          "Home: " + row.homeTeam + ", Guest: " + row.guestTeam, None)
  }

  /** The start of a row whose time is announced: the date is parsed first,
      then the year is chosen from the month, then the time is parsed, then
      `datetime` checks the values. A start that exists is a valid date-time
      in the year the season rule gives its month; the year and month range
      errors never arise, since the table and the season rule only produce
      real months and years. */
  function RowStart(dateText: string, time: string): (r: Result<DateTime>)
    ensures r.Success? ==> ValidDateTime(r.value) && r.value.year == EventYear(r.value.month)
    ensures r.Failure? ==> !r.error.YearOutOfRange? && !r.error.MonthOutOfRange?
  {
    match ParseDate(dateText)
    case Failure(e) => Failure(e)
    case Success(date) =>
      var year := EventYear(date.month);
      match ParseTime(time)
      case Failure(e) => Failure(e)
      case Success(clock) => MakeDateTime(year, date.month, date.day, clock.hour, clock.minute)
  }

  /** The loop body for one row. A row is skipped exactly when its stripped
      time is empty or "TBD"; otherwise it becomes one event with the fixed
      name, location and description formats and no end, or it raises. */
  function NormalizeRow(row: GameRow): (r: RowOutcome)
    ensures r.Skipped? <==> IsUnscheduled(Strip(row.time))
  {
    var dateText := Strip(row.dateText);
    var time := Strip(row.time);
    if IsUnscheduled(time) then Skipped
    else
      match RowStart(dateText, time)
      case Failure(e) => Failed(e)
      case Success(begin) => Added(MakeEvent(row, begin))
  }

  /** Every event a row produces starts at a valid date and time in the
      season year of its month, is named "<home> vs <guest>", is located at
      the row's field, describes both teams and has no end; a row never
      fails on the year or the month, which the parsers already guarantee. */
  lemma RowEventShape(row: GameRow)
    ensures NormalizeRow(row).Added? ==>
      var e := NormalizeRow(row).event;
      ValidDateTime(e.begin) &&
      e.begin.year == (if e.begin.month >= 8 then 2024 else 2025) &&
      e.name == row.homeTeam + " vs " + row.guestTeam &&
      e.location == row.field &&
      e.description == "Home: " + row.homeTeam + ", Guest: " + row.guestTeam &&
      e.end == None
    ensures NormalizeRow(row).Failed? ==>
      !NormalizeRow(row).error.YearOutOfRange? && !NormalizeRow(row).error.MonthOutOfRange?
  {
  }

  // ---------------------------------------------------------------------------
  // The text formats the parsers read back

  /** A minute 0..59 as two digits, as in "6:05 PM". */
  function TwoDigits(m: int): (r: string)
    requires 0 <= m <= 59
    ensures |r| == 2 && AllDigits(r)
  {
    [DigitChar(m / 10), DigitChar(m % 10)]
  }

  /** The date text the league prints, such as "Sep 7 - Sunday". */
  function DateText(month: int, day: nat, weekday: string): string
    requires 1 <= month <= 12
  {
    MonthAbbrevs[month - 1] + " " + NatToString(day) + " - " + weekday
  }

  /** The time text the league prints, such as "6:30 PM"; `suffix` is
      whatever follows the two minute digits. */
  function TimeText(hour: nat, minute: int, suffix: string): string
    requires 0 <= minute <= 59
  {
    NatToString(hour) + ":" + TwoDigits(minute) + suffix
  }

  /** A date of the shape "<month> <day> - <weekday>" raises the day's
      ValueError when the day is not an integer, then the month's KeyError
      when the month is not in the table, and otherwise reads as that month
      and day. */
  lemma DateShapeParse(monthText: string, dayText: string, weekday: string)
    requires ' ' !in monthText && '-' !in monthText && '-' !in dayText
    ensures var r := ParseDate(monthText + " " + dayText + " - " + weekday);
      (ParseInt(dayText).None? ==> r == Failure(DayNotInteger(dayText))) &&
      (ParseInt(dayText).Some? && monthText !in MonthAbbrevs ==> r == Failure(UnknownMonth(monthText))) &&
      (ParseInt(dayText).Some? && monthText in MonthAbbrevs ==>
        r == Success(MonthDay(MonthNumber(monthText).value, ParseInt(dayText).value)))
  {
    DateShapeParts(monthText, dayText, weekday);
  }

  /** Such a date splits into its month text and its day text. */
  lemma DateShapeParts(monthText: string, dayText: string, weekday: string)
    requires ' ' !in monthText && '-' !in monthText && '-' !in dayText
    ensures SplitOnce(SplitHead(monthText + " " + dayText + " - " + weekday, " - "), " ")
      == Some((monthText, dayText))
  {
    var head := monthText + " " + dayText;
    assert '-' !in head;
    HeadBeforeDash(head, weekday);
    SplitAtChar(monthText, ' ', dayText);
    assert head == monthText + [' '] + dayText;
  }

  /** A printed date reads back as its month and day, whatever the weekday. */
  lemma DateTextRoundTrip(month: int, day: nat, weekday: string)
    requires 1 <= month <= 12
    ensures ParseDate(DateText(month, day, weekday)) == Success(MonthDay(month, day))
  {
    var abbrev := MonthAbbrevs[month - 1];
    var digits := NatToString(day);
    AbbrevLetters(month);
    assert '-' !in digits;
    DateShapeParse(abbrev, digits, weekday);
    assert IntToString(day) == digits;
    ParseIntRoundTrip(day);
    MonthNumberOnto(month);
  }

  /** Month abbreviations hold neither a space nor a dash. */
  lemma AbbrevLetters(month: int)
    requires 1 <= month <= 12
    ensures ' ' !in MonthAbbrevs[month - 1] && '-' !in MonthAbbrevs[month - 1]
  {
  }

  /** `split(' - ')[0]` stops at the first " - " when the text before it has
      no dash at all. */
  lemma HeadBeforeDash(a: string, b: string)
    requires '-' !in a
    ensures SplitHead(a + " - " + b, " - ") == a
  {
    var s := a + " - " + b;
    forall k | 0 <= k < |a| ensures !OccursAt(s, " - ", k) {
      if k + 1 < |a| {
        assert s[k + 1] == a[k + 1];
      } else {
        assert s[k + 1] == ' ';
      }
      if k + 3 <= |s| {
        assert s[k..k + 3][1] == s[k + 1];
      }
    }
    SplitAtFirst(a, " - ", b);
  }

  /** A time of the shape "<hour>:<mm><suffix>" raises the hour's ValueError
      when the hour is not an integer, then the minute's ValueError when the
      two minute characters are not an integer, and otherwise reads as that
      hour and minute, whatever the suffix. */
  lemma TimeShapeParse(hourText: string, minuteText: string, suffix: string)
    requires ':' !in hourText && |minuteText| == 2 && ':' !in minuteText
    ensures var r := ParseTime(hourText + ":" + minuteText + suffix);
      (ParseInt(hourText).None? ==> r == Failure(HourNotInteger(hourText))) &&
      (ParseInt(hourText).Some? && ParseInt(minuteText).None? ==> r == Failure(MinuteNotInteger(minuteText))) &&
      (ParseInt(hourText).Some? && ParseInt(minuteText).Some? ==>
        r == Success(ClockTime(ParseInt(hourText).value, ParseInt(minuteText).value)))
  {
    assert hourText + ":" + minuteText + suffix == hourText + [':'] + (minuteText + suffix);
    SplitAtChar(hourText, ':', minuteText + suffix);
    MinuteField(minuteText, suffix);
  }

  /** A time without a colon raises: the hour's ValueError when the whole
      text is not an integer, the IndexError of the missing minute field when
      it is. */
  lemma TimeWithoutColon(time: string)
    requires ':' !in time
    ensures ParseTime(time) ==
      if ParseInt(time).Some? then Failure(NoMinuteField) else Failure(HourNotInteger(time))
  {
    SplitHeadWithoutChar(time, ':');
  }

  /** The times the loop passes over are exactly ones `int()` would reject:
      an empty or "TBD" time would raise the hour's ValueError. */
  lemma UnscheduledUnparseable(time: string)
    requires IsUnscheduled(time)
    ensures ParseTime(time) == Failure(HourNotInteger(time))
  {
    assert forall i :: 0 <= i < |time| ==> !IsDigit(time[i]);
    assert ':' !in time;
    TimeWithoutColon(time);
  }

  /** A printed time reads back as its hour and minute, whatever follows the
      minute digits: the "PM" of "6:30 PM" is ignored, giving 06:30. */
  lemma TimeTextRoundTrip(hour: nat, minute: int, suffix: string)
    requires 0 <= minute <= 59
    ensures ParseTime(TimeText(hour, minute, suffix)) == Success(ClockTime(hour, minute))
  {
    var h := NatToString(hour);
    var mm := TwoDigits(minute);
    assert ':' !in h by {
      assert forall i :: 0 <= i < |h| ==> IsDigit(h[i]);
    }
    assert ':' !in mm by {
      assert IsDigit(mm[0]) && IsDigit(mm[1]);
    }
    TimeShapeParse(h, mm, suffix);
    assert IntToString(hour) == h;
    ParseIntRoundTrip(hour);
    TwoDigitsValue(minute);
  }

  /** `[1][:2]` after the colon is the two minute characters, whatever follows. */
  lemma MinuteField(mm: string, suffix: string)
    requires |mm| == 2 && ':' !in mm
    ensures Prefix(SplitHead(mm + suffix, ":"), 2) == mm
  {
    var rest := mm + suffix;
    match Find(rest, [':'])
    case None =>
    case Some(i) =>
      assert rest[i..i + 1][0] == ':';
      assert i >= 2 by {
        assert rest[0] == mm[0] && rest[1] == mm[1];
      }
  }

  lemma TwoDigitsValue(m: int)
    requires 0 <= m <= 59
    ensures ParseInt(TwoDigits(m)) == Some(m)
  {
    var s := TwoDigits(m);
    var tens, units := m / 10, m % 10;
    assert m == tens * 10 + units;
    DigitNotSpace(s[0]);
    DigitNotSpace(s[1]);
    assert IntStrip(s) == s;
    assert s[..1] == [s[0]];
    assert DigitsValue([s[0]]) == tens;
    assert DigitsValue(s) == tens * 10 + units;
  }

  /** Writing "AM" or "PM" after the minutes makes no difference to the
      parsed time. */
  lemma MeridiemIgnored(hour: nat, minute: int)
    requires 0 <= minute <= 59
    ensures ParseTime(TimeText(hour, minute, " AM")) == ParseTime(TimeText(hour, minute, " PM"))
  {
    TimeTextRoundTrip(hour, minute, " AM");
    TimeTextRoundTrip(hour, minute, " PM");
  }

  /** February always takes the season's end year, 2025, which is not a leap
      year: a "Feb 29" date with a readable time always raises, with the day
      error unless the hour is too large for `datetime` to take at all. */
  lemma LeapDayRejected(dateText: string, time: string)
    requires ParseDate(dateText) == Success(MonthDay(2, 29))
    requires ParseTime(time).Success?
    ensures var clock := ParseTime(time).value;
      RowStart(dateText, time) ==
        Failure(if FitsCInt(clock.hour) && FitsCInt(clock.minute) then DayOutOfRange else ArgumentOverflow)
  {
    var clock := ParseTime(time).value;
    ParsedStart(dateText, time, 2, 29, clock.hour, clock.minute);
    NoLeapDay(clock.hour, clock.minute);
  }

  lemma NoLeapDay(hour: int, minute: int)
    ensures MakeDateTime(EventYear(2), 2, 29, hour, minute) ==
      Failure(if FitsCInt(hour) && FitsCInt(minute) then DayOutOfRange else ArgumentOverflow)
  {
    assert EventYear(2) == 2025;
    assert DaysInMonth(2025, 2) == 28;
  }

  /** A row with an announced time whose date and time parse yields exactly
      what `datetime` makes of the parsed month, day, hour and minute in the
      season year of that month. */
  lemma ParsedRow(row: GameRow, month: int, day: int, hour: int, minute: int)
    requires !IsUnscheduled(Strip(row.time))
    requires ParseDate(Strip(row.dateText)) == Success(MonthDay(month, day))
    requires ParseTime(Strip(row.time)) == Success(ClockTime(hour, minute))
    ensures NormalizeRow(row) ==
      match MakeDateTime(EventYear(month), month, day, hour, minute)
      case Success(begin) => Added(MakeEvent(row, begin))
      case Failure(e) => Failed(e)
  {
    assert RowStart(Strip(row.dateText), Strip(row.time))
      == MakeDateTime(EventYear(month), month, day, hour, minute);
    NormalizeScheduledRow(row);
  }

  /** A row whose date does not parse raises the date's error, whatever its
      time: the date is read first. */
  lemma DateFailure(row: GameRow)
    requires !IsUnscheduled(Strip(row.time))
    requires ParseDate(Strip(row.dateText)).Failure?
    ensures NormalizeRow(row) == Failed(ParseDate(Strip(row.dateText)).error)
  {
    NormalizeScheduledRow(row);
  }

  /** A row whose date parses but whose time does not raises the time's error. */
  lemma TimeFailure(row: GameRow)
    requires !IsUnscheduled(Strip(row.time))
    requires ParseDate(Strip(row.dateText)).Success?
    requires ParseTime(Strip(row.time)).Failure?
    ensures NormalizeRow(row) == Failed(ParseTime(Strip(row.time)).error)
  {
    NormalizeScheduledRow(row);
  }

  /** A row with an announced time becomes an event exactly when its start
      can be built, and fails with the start's error otherwise. */
  lemma NormalizeScheduledRow(row: GameRow)
    requires !IsUnscheduled(Strip(row.time))
    ensures NormalizeRow(row) ==
      match RowStart(Strip(row.dateText), Strip(row.time))
      case Success(begin) => Added(MakeEvent(row, begin))
      case Failure(e) => Failed(e)
  {
  }

  /** Printed dates and times carry no surrounding whitespace. */
  lemma PrintedTextsStripped(month: int, day: nat, weekday: string, hour: nat, minute: int, suffix: string)
    requires 1 <= month <= 12 && 0 <= minute <= 59
    requires weekday != [] && !IsSpace(weekday[|weekday| - 1])
    requires suffix == [] || !IsSpace(suffix[|suffix| - 1])
    ensures Strip(DateText(month, day, weekday)) == DateText(month, day, weekday)
    ensures Strip(TimeText(hour, minute, suffix)) == TimeText(hour, minute, suffix)
    ensures !IsUnscheduled(TimeText(hour, minute, suffix))
  {
    DateTextTrimmed(month, day, weekday);
    TimeTextTrimmed(hour, minute, suffix);
    TrimmedStrip(DateText(month, day, weekday));
    TrimmedStrip(TimeText(hour, minute, suffix));
  }

  /** Text that neither starts nor ends with whitespace. */
  predicate Trimmed(s: string) {
    s == [] || (!IsSpace(s[0]) && !IsSpace(s[|s| - 1]))
  }

  lemma TrimmedStrip(s: string)
    requires Trimmed(s)
    ensures Strip(s) == s
  {
  }

  lemma DateTextTrimmed(month: int, day: nat, weekday: string)
    requires 1 <= month <= 12
    requires weekday != [] && !IsSpace(weekday[|weekday| - 1])
    ensures Trimmed(DateText(month, day, weekday))
  {
    var d := DateText(month, day, weekday);
    var abbrev := MonthAbbrevs[month - 1];
    assert d[0] == abbrev[0];
    assert !IsSpace(abbrev[0]);
    assert d[|d| - 1] == weekday[|weekday| - 1];
  }

  lemma TimeTextTrimmed(hour: nat, minute: int, suffix: string)
    requires 0 <= minute <= 59
    requires suffix == [] || !IsSpace(suffix[|suffix| - 1])
    ensures Trimmed(TimeText(hour, minute, suffix))
    ensures !IsUnscheduled(TimeText(hour, minute, suffix))
  {
    var t := TimeText(hour, minute, suffix);
    var h := NatToString(hour);
    assert t[0] == h[0];
    DigitNotSpace(h[0]);
    assert t != "TBD" by { assert IsDigit(t[0]); }
    if suffix == [] {
      var mm := TwoDigits(minute);
      assert t[|t| - 1] == mm[1];
      DigitNotSpace(mm[1]);
    } else {
      assert t[|t| - 1] == suffix[|suffix| - 1];
    }
  }

  /** A whole row as the league prints it, such as "Sep 7 - Sunday" and
      "6:30 PM": it becomes the event named "<home> vs <guest>" at the field,
      starting at the printed month, day, hour and minute in the season year
      of the month, with no end, whenever `datetime` accepts those values;
      otherwise it raises `datetime`'s error. */
  lemma PrintedRow(month: int, day: nat, weekday: string, hour: nat, minute: int, suffix: string,
                   home: string, guest: string, field: string)
    requires 1 <= month <= 12 && 0 <= minute <= 59
    requires weekday != [] && !IsSpace(weekday[|weekday| - 1])
    requires suffix == [] || !IsSpace(suffix[|suffix| - 1])
    ensures var row := GameRow(DateText(month, day, weekday), TimeText(hour, minute, suffix), home, guest, field);
      var start := DateTime(EventYear(month), month, day, hour, minute);
      NormalizeRow(row) ==
        if ValidDateTime(start) then
          Added(Event(home + " vs " + guest, start, field, "Home: " + home + ", Guest: " + guest, None))
        else Failed(MakeDateTime(EventYear(month), month, day, hour, minute).error)
  {
    DateTextTrimmed(month, day, weekday);
    TimeTextTrimmed(hour, minute, suffix);
    DateTextRoundTrip(month, day, weekday);
    TimeTextRoundTrip(hour, minute, suffix);
    TrimmedTextsRow(DateText(month, day, weekday), TimeText(hour, minute, suffix), home, guest, field,
                    month, day, hour, minute);
  }

  /** A row whose texts carry no surrounding whitespace and parse as a month,
      day, hour and minute. */
  lemma TrimmedTextsRow(dateText: string, time: string, home: string, guest: string, field: string,
                        month: int, day: int, hour: int, minute: int)
    requires Trimmed(dateText) && Trimmed(time) && !IsUnscheduled(time)
    requires ParseDate(dateText) == Success(MonthDay(month, day))
    requires ParseTime(time) == Success(ClockTime(hour, minute))
    ensures var start := DateTime(EventYear(month), month, day, hour, minute);
      NormalizeRow(GameRow(dateText, time, home, guest, field)) ==
        if ValidDateTime(start) then
          Added(Event(home + " vs " + guest, start, field, "Home: " + home + ", Guest: " + guest, None))
        else Failed(MakeDateTime(EventYear(month), month, day, hour, minute).error)
  {
    TrimmedStrip(dateText);
    TrimmedStrip(time);
    ParsedRow(GameRow(dateText, time, home, guest, field), month, day, hour, minute);
  }

  /** The description names both teams in a way that reads back: after
      "Home: " it splits at the first ", Guest: " into the home team and the
      guest team, as long as the home team's name has no comma. */
  lemma DescriptionReadsBack(row: GameRow, begin: DateTime)
    requires ',' !in row.homeTeam
    ensures var d := MakeEvent(row, begin).description;
      d[..6] == "Home: " && SplitOnce(d[6..], ", Guest: ") == Some((row.homeTeam, row.guestTeam))
  {
    var home, guest := row.homeTeam, row.guestTeam;
    var s := home + ", Guest: " + guest;
    forall k | 0 <= k < |home| ensures !OccursAt(s, ", Guest: ", k) {
      if k + 9 <= |s| {
        assert s[k..k + 9][0] == s[k] == home[k];
      }
    }
    SplitAtFirst(home, ", Guest: ", guest);
    assert MakeEvent(row, begin).description == "Home: " + s;
  }

  /** Texts that parse as September 7th at 06:30, as the league's
      "Sep 7 - Sunday" and "6:30 PM" do, start at 2024-09-07 06:30: the year
      comes from September, the "PM" plays no part. */
  lemma ExampleStart(dateText: string, time: string)
    requires ParseDate(dateText) == Success(MonthDay(9, 7))
    requires ParseTime(time) == Success(ClockTime(6, 30))
    ensures RowStart(dateText, time) == Success(DateTime(2024, 9, 7, 6, 30))
  {
    ParsedStart(dateText, time, 9, 7, 6, 30);
    ExampleDateTime();
  }

  lemma ExampleDateTime()
    ensures MakeDateTime(EventYear(9), 9, 7, 6, 30) == Success(DateTime(2024, 9, 7, 6, 30))
  {
    assert EventYear(9) == 2024;
    assert ValidDateTime(DateTime(2024, 9, 7, 6, 30));
  }

  /** Once date and time have parsed, the start is whatever `datetime` makes
      of them in the season year of the month. */
  lemma ParsedStart(dateText: string, time: string, month: int, day: int, hour: int, minute: int)
    requires ParseDate(dateText) == Success(MonthDay(month, day))
    requires ParseTime(time) == Success(ClockTime(hour, minute))
    ensures RowStart(dateText, time) == MakeDateTime(EventYear(month), month, day, hour, minute)
  {
  }
}
