# Soccer schedule to calendar events — a Dafny model

This project models the loop in `main.py` of soccer-schedule-ics. The loop
turns scraped schedule rows of a youth soccer league into `ics` calendar
events. For each game row it does the following, in order:

1. It strips the date text (such as `"Sep 7 - Sunday"`) and the time text (such as `"6:30 PM"`).
2. It passes over rows whose time is empty or `"TBD"`.
3. It splits off the month abbreviation and the day, and reads the day with `int()`.
4. It looks the month up in `month_map`.
5. It puts August to December in 2024 and every other month in 2025.
6. It reads the hour and the minute from the time text with `int()`. There is no AM/PM handling, so `"6:30 PM"` starts at 06:30.
7. It builds a `datetime`.
8. It adds an event named `"<home> vs <guest>"` to the calendar. The event has the field as location, `"Home: <home>, Guest: <guest>"` as description, and no end.

Nothing catches an exception. The first row that raises ends the loop, and
the events added before it stay in the calendar.

The model has three modules:

- `PyText` (`py_text.dfy`) models the Python text operations the loop relies on:
  - `str.strip()`;
  - `split(sep)[0]` and `split(sep, 1)`;
  - slicing `s[:n]`;
  - `int()` on text, together with its inverse `str()`.
- `Schedule` (`schedule.dfy`) models one row:
  - the month table and the season-year rule;
  - date and time parsing, with Python's exceptions as a `Result`;
  - `datetime`'s conversion of each argument to a 32-bit C `int`, then its range checks in CPython's order;
  - the event's fields.
  It also proves that the league's printed formats read back, which is where the PM is lost.
- `GameLoop` (`game_loop.dfy`) models the loop:
  - `Run` is a specification function over the rows' outcomes;
  - `AddedEvents` is a reference definition for it;
  - a `Calendar` class holds the events in a `seq` field;
  - `ProcessGames` and `ProcessGame` are the imperative loop and the loop body, proved against `Run`.

Some behaviour of `main.py` that the model keeps as written:

| Topic | `main.py` and this model |
|---|---|
| Rows with an empty or `"TBD"` time | dropped, with no event at all |
| Event end | none |
| Time zone | none: the start is a naive date-time |
| Season years | hard-coded 2024 for August to December and 2025 otherwise |
| A row that raises | ends the loop |
| Bye rows (`"--"`) | not filtered |
| `"Sep 7 - Sunday"` at `"6:30 PM"` | starts at 2024-09-07 06:30 |

## Model

| member | source | states |
|---|---|---|
| Schedule.MonthNumber | main.py:2-15 | `month_map[abbrev]` is defined exactly for the twelve abbreviations. It then gives the abbreviation's position 1..12 in the calendar. |
| Schedule.MonthNumberOnto | main.py:2-15 | Every month 1..12 is produced, by its own abbreviation. |
| Schedule.MonthNumberInjective | main.py:2-15 | Two abbreviations that give the same month are the same abbreviation. |
| Schedule.YearInference | main.py:33-37 | For every month the table yields, the year is 2024 exactly for months 8..12 and 2025 exactly for months 1..7. No other year occurs. |
| Schedule.EventYear | main.py:34-37 | Every month gets 2024 or 2025, and 2024 exactly from August on. |
| PyText.Strip | main.py:22-23 | `.strip()` keeps no leading or trailing whitespace and never lengthens the text. Text that neither starts nor ends with whitespace is returned unchanged. |
| PyText.StripPadding | main.py:22-23 | Stripping removes exactly the surrounding whitespace: `strip(pad1 + s + pad2) == s` for trimmed `s`. This holds both for `str.strip()`'s whitespace and for the whitespace `int()` skips. |
| PyText.SplitHead | main.py:29 | `split(sep)[0]` is a prefix of the text that contains no occurrence of the separator. It is either the whole text or stops exactly where the separator first occurs. |
| PyText.SplitOnce | main.py:29 | `split(sep, 1)` has one part exactly when the separator does not occur. Otherwise its two parts rejoined with the separator give the text back, and the first part is `split(sep)[0]`. |
| PyText.SplitOnceFindsChar | main.py:29 | `split(c, 1)` has two parts exactly when the character occurs in the text. |
| PyText.Prefix | main.py:40 | `s[:n]` is the prefix of `s` of length `n`, or all of `s` when it is shorter. |
| PyText.SplitAtChar | main.py:29 | Splitting `a + c + b` at a character `c` that is not in `a` gives back `a` and `b`. |
| PyText.ParseInt | main.py:30 | `int()` succeeds exactly on text that is an optional sign and one or more digits once the whitespace it skips is removed. For an all-ASCII text that whitespace is C's `isspace` (space, tab, line feed, vertical tab, form feed, carriage return); for any other text it is all whitespace. The magnitude is then the value of the digits, and the result is negative only after a minus sign. Text without a digit always fails. |
| PyText.ParseIntRoundTrip | main.py:30 | `int(str(n)) == n` for every integer. |
| PyText.ParseIntIgnoresPadding | main.py:30 | `int()` ignores whitespace around the number, as long as it is whitespace `int()` skips in that text. |
| PyText.ParseIntRejectsSeparator | main.py:30 | A separator U+001C..U+001F in front of an all-ASCII number makes `int()` fail, although `str.strip()` would remove it. |
| Schedule.ParseDate | main.py:29-33 | The unpacking ValueError arises exactly when the text before the first `" - "` has no space. Any other failure is the day's ValueError or the month's KeyError. A parsed date always names a month 1..12. |
| Schedule.DateShapeParse | main.py:29-33 | A date `"<month> <day> - <weekday>"` raises the day's ValueError when the day is not an integer. Otherwise it raises the month's KeyError when the month is not in the table. Otherwise it reads as that month and day. |
| Schedule.DateTextRoundTrip | main.py:29-33 | Every printed `"<Mon> <day> - <weekday>"` parses back to that month and day, whatever the weekday. |
| Schedule.ParseTime | main.py:40 | A time without a colon raises. The missing minute field's IndexError arises exactly when there is no colon and the whole time is an integer. Every failure is the hour's ValueError, that IndexError or the minute's ValueError. |
| Schedule.TimeShapeParse | main.py:40 | A time `"<hour>:<mm><suffix>"` raises the hour's ValueError when the hour is not an integer. Otherwise it raises the minute's ValueError when the two minute characters are not an integer. Otherwise it reads as that hour and minute, whatever the suffix. |
| Schedule.TimeWithoutColon | main.py:40 | A time without a colon raises the hour's ValueError when it is not an integer, and the minute field's IndexError when it is. |
| Schedule.TimeTextRoundTrip | main.py:40 | Every printed `"<h>:<mm><suffix>"` parses back to that hour and minute, whatever the suffix: `"6:30 PM"` gives 06:30. |
| Schedule.MinuteField | main.py:40 | `time.split(':')[1][:2]` is the two characters after the colon, whatever follows them. |
| Schedule.MeridiemIgnored | main.py:40 | `" AM"` and `" PM"` after the minutes parse to the same clock time. |
| Schedule.MakeDateTime | main.py:40 | `datetime(...)` succeeds exactly on valid values and then holds them. It raises OverflowError exactly when an argument does not fit a C `int`. Otherwise it raises the ValueError of the first field out of range, checking year, month, day, hour and minute in that order, and each error arises exactly then. |
| Schedule.RowStart | main.py:29-40 | A start that is built is a valid date-time in the season year of its month. The year and month range errors never arise. |
| Schedule.LeapDayRejected | main.py:33-40 | A `"Feb 29"` date with a readable time always raises, because February falls in 2025. The error is the day's ValueError unless the hour or the minute is too large for a C `int`. |
| Schedule.ExampleStart | main.py:29-40 | Texts that parse as September 7th at 06:30, as `"Sep 7 - Sunday"` and `"6:30 PM"` do, start at 2024-09-07 06:30. |
| Schedule.NormalizeRow | main.py:22-26 | A row is passed over exactly when its stripped time is empty or `"TBD"`. |
| Schedule.UnscheduledUnparseable | main.py:25-26 | An empty or `"TBD"` time, the rows that are passed over, would otherwise raise the hour's ValueError. |
| Schedule.RowEventShape | main.py:34-47 | Every event a row produces has a valid start in the season year of its month, the name `"<home> vs <guest>"`, the field as location and the description `"Home: <home>, Guest: <guest>"`. It has no end. A row never fails on the year or the month. |
| Schedule.PrintedRow | main.py:22-50 | A row printed as `"<Mon> <day> - <weekday>"` and `"<h>:<mm><suffix>"` becomes the event `"<home> vs <guest>"` at the field. It starts at the printed month, day, hour and minute in the season year of the month and has no end. This holds whenever `datetime` accepts those values; otherwise the row raises `datetime`'s error. |
| Schedule.DescriptionReadsBack | main.py:47 | The description is `"Home: "` and then splits at the first `", Guest: "` into the home and the guest team, when the home team's name has no comma. |
| Schedule.DateFailure | main.py:29-33 | A row whose date does not parse raises the date's error, whatever its time. |
| Schedule.TimeFailure | main.py:29-40 | A row whose date parses but whose time does not raises the time's error. |
| Schedule.PrintedTextsStripped | main.py:22-26 | The printed date and time carry no surrounding whitespace, and a printed time is never `"TBD"`. |
| GameLoop.Run | main.py:21-50 | The loop adds at most one event per row. A reported failure points at a row of the input. |
| GameLoop.AddedEvents | main.py:21-50 | Reference definition: every event collected is the event of some row that was not passed over. There is at most one per row. |
| GameLoop.RunSucceedsIff | main.py:21-50 | The loop gets through all rows exactly when no row raises. |
| GameLoop.RunMatchesAddedEvents | main.py:21-50 | A loop that gets through all rows adds exactly the reference events, in row order. |
| GameLoop.RunFailureIsFirst | main.py:21-50 | A reported failure is the first row that raises, with that row's error. The events kept are exactly those of the rows before it. |
| GameLoop.RunExtends | main.py:21-50 | Later rows never remove an event already added. After a failure, later rows change nothing. |
| GameLoop.AddedCount | main.py:25-26 | When no row raises, every row that is not passed over adds exactly one event. |
| GameLoop.ScheduledAreAnnounced | main.py:25-26 | The rows that are not passed over are exactly the rows whose stripped time is neither empty nor `"TBD"`. |
| GameLoop.Calendar.Add | main.py:50 | `calendar.events.add(event)` appends the event and keeps every earlier one. |
| GameLoop.ProcessGame | main.py:22-50 | One pass of the loop body has the row's outcome. It adds that outcome's event to the calendar and nothing else. A row that raises leaves the calendar unchanged. |
| GameLoop.ProcessGames | main.py:21-50 | The loop leaves the calendar as it was plus `Run`'s events. It reports `Run`'s failure, which is the first row that raises. |

## Left out

- The HTML extraction (`game.find(...)` and `.text`, main.py:22-23) is not modelled. The model starts from the date and time text of each row.
- The team and field names are taken as given strings in each row. The code uses `home_team`, `guest_team` and `field` without defining them in the loop.
- `current_year` (main.py:18) is not modelled. It reads the clock and is never used.
- The calendar's creation, its serialisation and writing the `.ics` file happen outside the modelled loop and are not modelled.
- The helper scripts that query the league's web service (`find_*.py`) are network I/O and are not modelled.
- `GameLoop.Calendar.Add`: the `ics` library keeps events in a set keyed by a fresh uid. Every add therefore grows it, and the model uses a sequence in insertion order. The model does not capture the set's iteration order or the uids.
- The `ics` conversion of a naive `datetime` into its own time type is not modelled. `Event.begin` is the `datetime` itself.
- `PyText.ParseInt` has no limit on the number of digits. Python 3.11 and later reject text of more than 4300 digits with a ValueError by default.
- `PyText.ParseInt` does not accept underscores between digits or non-ASCII digits, both of which Python's `int()` accepts.
- `PyText.Strip` does not treat whitespace outside ASCII, U+001C..U+001F, U+0085 and U+00A0 as whitespace. Python's `str.strip()` also removes the other Unicode whitespace characters. `PyText.ParseInt` uses the same set for a text with a non-ASCII character.
- The 2024/2025 season years and the August cut-off are the constants in main.py:34-37. They are not configurable.
- The comment on main.py:36 speaks of January to May. The code puts June and July in 2025 as well, and the model follows the code.
- Placeholder events for unannounced games, a fixed event length, a time zone, a bye-row filter and per-row error recovery do not exist in `main.py`, so they are not modelled.
