# HK Squash League calendar generator — a verified model

`ics_app.py` turns the season schedule of the Hong Kong squash league into an
iCalendar file for one team. The user picks a division and then a team from
that division. The program keeps that team's fixtures, leaving out bye
rounds. Each fixture becomes a calendar event:

- the title is the team's short name, then `vs` (at home) or `@` (away), then
  the opponent's short name;
- the start is the fixture's date and time at Hong Kong time (UTC+08:00);
- the end is two and a half hours after the start;
- the location is the venue;
- the description names the division.

A fixture whose date or time does not parse is skipped with a warning. The
downloaded file is named after the team.

The Dafny modules follow those steps:

- `Wrappers` (`wrappers.dfy`) holds the `Option` type.
- `TeamNames` (`team_names.dfy`) models `abbreviate_team_name`. Python's
  `str.replace` is written out as a left-to-right replacement of
  non-overlapping occurrences. The five-entry table is folded over in
  declaration order.
  - A name that mentions none of the full club names comes back unchanged.
  - After abbreviation no full club name is left.
  - Abbreviating twice is the same as abbreviating once.

  The last two rest on the shape of the table. Every abbreviation is a run of
  two or more capitals. No full name has two capitals in a row. No full name
  ends in a capital. No full name starts with the last letter of any
  abbreviation. So no full name can be formed across an inserted
  abbreviation and its neighbours (`SpliceFree`).
- `DateTimes` (`date_times.dfy`) models `strptime(..., "%d/%m/%Y %H:%M")`.
  - It uses the proleptic Gregorian calendar and Python's `MAXYEAR` of 9999.
  - Adding minutes to a wall-clock time carries into the next day, month and
    year.
  - An independent count of days and minutes since 0001-01-01 is the
    reference for that addition, and for the order of dates.
  - Parsing and formatting are each other's inverse, in both directions.
- `Fixtures` (`fixtures.dfy`) models the division filter, the team filter
  and the team picker list. The picker list is built with `pd.unique`, then
  without `"[BYE]"`, then with Python's `sorted`.
- `Events` (`events.dfy`) models three things:
  - the body of the export loop: `MapFixture` is the specification and
    `ExportRow` the imperative step;
  - the loop itself: `ExportCalendar`, with its fold `Run`;
  - the download file name.

  The loop is proved against a front-to-back reference definition of the
  events and warnings it collects.

## Model

`TeamNames.Abbreviate` and its fold `TeamNames.ApplyTable` compute only; what
they do is stated by the `TeamNames.Abbreviate…` and `TeamNames.ApplyTable…`
lemmas below. Likewise the fold `Events.Run` of the export loop is stated by
`Events.RunCounts`, `Events.RunWithoutOverflow`, `Events.RunWithOverflow` and
`Events.RunStaysAborted`. `DateTimes.LocalizeOverflows` (ics_app.py:127) is
the OverflowError `localize` raises for any time on 01/01/0001 or 31/12/9999;
`Events.MapFixture`, `Events.OverflowExactly` and the `…Overflows` examples
state its effect. `Fixtures.Below` is Python's `<` on `str`, which `sorted`
uses at ics_app.py:67; the `Fixtures.Below…` lemmas state that it is a strict
total order.

| member | source | states |
|---|---|---|
| TeamNames.FindFrom | ics_app.py:90 | the position found is a match of the key at or after the start, and no match lies before it; None means there is no match at or after the start |
| TeamNames.InsertEverywhere | ics_app.py:90 | `str.replace` with an empty key: the result is as long as the text plus one copy of the replacement per character and one more, and it starts with a copy |
| TeamNames.ReplaceFrom | ics_app.py:90 | the scan from a position makes the rest of the text no longer, equally long or no shorter as the replacement is shorter than, as long as, or longer than the key |
| TeamNames.ReplaceAll | ics_app.py:90 | `str.replace` with an empty key adds one copy of the replacement per character plus one; with a non-empty key, a replacement no longer than the key never lengthens the text, and one of equal length keeps its length |
| TeamNames.ReplaceAbsent | ics_app.py:90 | `str.replace` returns a string without the key unchanged (an empty key occurs in every string, and is inserted everywhere as Python does) |
| TeamNames.ReplaceFromRemovesAll | ics_app.py:90 | the left-to-right scan, from any position, leaves no occurrence of the key behind when the key cannot be formed across the replacement text |
| TeamNames.ReplaceFromKeepsOut | ics_app.py:89-90 | the scan, from any position, brings in no occurrence of a string that cannot be formed across the replacement text |
| TeamNames.ReplaceRemovesAll | ics_app.py:90 | after the replacement, the key no longer occurs, when it cannot be formed across the replacement text |
| TeamNames.ReplaceKeepsOut | ics_app.py:89-90 | a replacement by an abbreviation never creates an occurrence of a full name that was absent |
| TeamNames.NoOverlap | ics_app.py:82-88 | a match of a full name in `x + abbreviation + y` lies wholly before or wholly after the abbreviation |
| TeamNames.SpliceFree | ics_app.py:82-88 | a full name occurs in `x + abbreviation + y` exactly when it occurs in `x` or in `y` |
| TeamNames.NoMatchBeforeFirst | ics_app.py:90 | the text before the first match holds no match |
| TeamNames.TableFacts | ics_app.py:82-88 | every full name is capitalised words and every abbreviation a run of capitals, so none of the five full names can be formed across any of the five abbreviations |
| TeamNames.ApplyTableUnchanged | ics_app.py:89-91 | folding the replacements over a name with no full name of the table returns it unchanged |
| TeamNames.ApplyTableClears | ics_app.py:89-91 | after folding the replacements in declaration order, no full name of the table remains |
| TeamNames.AbbreviateUnchanged | ics_app.py:81-91 | a name that contains none of the five full club names is returned unchanged |
| TeamNames.AbbreviateClears | ics_app.py:81-91 | an abbreviated name contains none of the five full club names |
| TeamNames.AbbreviateIdempotent | ics_app.py:81-91 | abbreviating an abbreviated name changes nothing |
| TeamNames.ApplyTableShortens | ics_app.py:89-90 | replacing non-empty full names by texts no longer than them, entry after entry, never lengthens the name |
| TeamNames.AbbreviateShortens | ics_app.py:81-91 | an abbreviated name is never longer than the name |
| TeamNames.AbbreviateTeamName | ics_app.py:81-91 | the loop over the dictionary computes the fold in declaration order; its result holds no full name and equals the input when the input holds none |
| TeamNames.ApplyTableSnoc | ics_app.py:89-90 | one more dictionary entry at the end is one more replacement, applied to the result of the entries before it |
| TeamNames.AbbreviateUnrolled | ics_app.py:82-91 | `abbreviate_team_name` is the five replacements in the dictionary's declaration order |
| TeamNames.AbbreviateHongKongFootballClub | ics_app.py:83 | "Hong Kong Football Club" abbreviates to "HKFC" |
| TeamNames.AbbreviateKowloonCricketClub | ics_app.py:85 | "Kowloon Cricket Club" abbreviates to "KCC" |
| DateTimes.DaysInMonth | ics_app.py:126 | months have 28 to 31 days; February has 29 exactly in a leap year and 28 otherwise |
| DateTimes.AddDays | ics_app.py:134 | stepping a valid date forward gives a valid date |
| DateTimes.AddDaysNumber | ics_app.py:134 | stepping n days forward adds n to the day count |
| DateTimes.AddMinutes | ics_app.py:134 | adding minutes to a valid wall-clock time gives a valid one |
| DateTimes.AddMinutesElapsed | ics_app.py:134 | adding n minutes moves the minute count forward by exactly n, across days, months and years |
| DateTimes.DayNumberIncreasing | ics_app.py:134 | an earlier date has a smaller day count |
| DateTimes.MinutesInjective | ics_app.py:134 | two distinct wall-clock times have distinct minute counts |
| DateTimes.EndSameEvening | ics_app.py:134 | 14/10/2024 19:30 plus 150 minutes is 22:00 the same day |
| DateTimes.EndCarriesIntoNewYear | ics_app.py:134 | 31/12/2024 23:00 plus 150 minutes is 01/01/2025 01:30 |
| DateTimes.EndLandsOnLeapDay | ics_app.py:134 | 28/02/2024 22:00 plus 150 minutes is 29/02/2024 00:30 |
| DateTimes.EndPastMaxYear | ics_app.py:134 | 31/12/9999 22:00 plus 150 minutes would fall in year 10000 |
| DateTimes.EndWithinRange | ics_app.py:127-134 | a start that `localize` accepts, that is, one not on 01/01/0001 or 31/12/9999, ends within year 9999 when less than a day is added |
| DateTimes.Number | ics_app.py:126 | a run of n digits reads as a number below 10^n |
| DateTimes.NumberOfDigits | ics_app.py:126 | writing a number with enough zero-padded digits and reading it back gives the number |
| DateTimes.DigitsOfNumber | ics_app.py:126 | reading a run of digits and writing it back with the same width gives the run |
| DateTimes.Parse | ics_app.py:126 | every accepted text denotes a real date and time that Python can hold |
| DateTimes.Format | ics_app.py:126 | the text of a date and time is sixteen characters long |
| DateTimes.ParseFormat | ics_app.py:126 | every date and time Python can hold is parsed back from its own text |
| DateTimes.FormatParse | ics_app.py:126 | an accepted text is exactly the text of the value it parses to |
| DateTimes.FieldsOfDigits | ics_app.py:126 | twelve digits in the frame "DD/MM/YYYY HH:MM" form a well-shaped text whose fields are the numbers those digits spell |
| DateTimes.Fields | ics_app.py:126 | the fields read off the two-digit and four-digit runs are below 100, and the year below 10000 |
| DateTimes.EveningStampAccepted | ics_app.py:126 | "14/10/2024 19:30" parses to that date and time |
| DateTimes.LastEveningAccepted | ics_app.py:126 | "31/12/9999 22:00" parses |
| DateTimes.LastMorningAccepted | ics_app.py:126 | "31/12/9999 09:00" parses to that date and time |
| DateTimes.FirstDayAccepted | ics_app.py:126 | "01/01/0001 19:30" parses to that date and time |
| DateTimes.LeapDayAccepted | ics_app.py:126 | 29/02/2024 is accepted |
| DateTimes.AprilThirtyFirstRejected | ics_app.py:126-128 | 31/04/2024 is rejected: April has thirty days |
| DateTimes.MayThirtyFirstAccepted | ics_app.py:126 | 31/05/2024 19:30 parses to that date and time: May has thirty-one |
| DateTimes.NonLeapDayRejected | ics_app.py:126-128 | 29/02/2023 is rejected |
| DateTimes.ThirtyFirstOfFebruaryRejected | ics_app.py:126-128 | 31/02/2024 is rejected |
| DateTimes.HourTwentyFourRejected | ics_app.py:126-128 | hour 24 is rejected |
| Fixtures.Filter | ics_app.py:72-78 | a boolean mask keeps exactly the rows that satisfy it, and no more rows than it was given |
| Fixtures.FilterAppend | ics_app.py:72-78 | masking keeps row order: the mask of two runs of rows is the two masks in turn |
| Fixtures.FilterFilter | ics_app.py:72-78 | masking by one condition and then another is masking once by both |
| Fixtures.FilterNone | ics_app.py:72-78 | a mask no row satisfies gives no rows |
| Fixtures.DivisionRows | ics_app.py:60 | a row is in the division's rows exactly when it is in the schedule and its Division cell is the selected division; there are no more of them than rows |
| Fixtures.TeamSchedule | ics_app.py:60-78 | a row is selected exactly when it is in the selected division, the team plays home or away, and the away team is not "[BYE]" |
| Fixtures.TeamScheduleIsOneMask | ics_app.py:72-78 | the two-step selection is the single mask of all three conditions over the whole schedule |
| Fixtures.TeamScheduleAppend | ics_app.py:72-78 | the selection keeps the schedule's row order |
| Fixtures.TeamScheduleSingle | ics_app.py:72-78 | one row is kept exactly when it meets the three conditions |
| Fixtures.OnlyByesGiveNoSchedule | ics_app.py:72-78 | a team whose fixtures in the division are all byes gets an empty schedule |
| Fixtures.BelowIrreflexive | ics_app.py:67 | no string sorts before itself |
| Fixtures.BelowTransitive | ics_app.py:67 | the string order is transitive |
| Fixtures.BelowTotal | ics_app.py:67 | of two different strings one sorts before the other |
| Fixtures.BelowAsymmetric | ics_app.py:67 | two strings never sort before each other |
| Fixtures.Unique | ics_app.py:63 | `pd.unique` gives each value once and loses none |
| Fixtures.Insert | ics_app.py:67 | inserting adds exactly the one element |
| Fixtures.InsertSorted | ics_app.py:67 | inserting into a sorted list keeps it sorted |
| Fixtures.Sort | ics_app.py:67 | sorting is a permutation |
| Fixtures.SortSorted | ics_app.py:67 | the sorted list is in ascending order |
| Fixtures.InsertStrictlySorted | ics_app.py:67 | inserting a new element into a strictly ascending list keeps it strictly ascending |
| Fixtures.SortStrictlySorted | ics_app.py:67 | sorting distinct names gives a strictly ascending list |
| Fixtures.StrictlySortedUnique | ics_app.py:67 | two strictly ascending lists with the same elements are equal, so the picker list is determined by its set of names |
| Fixtures.FilterDistinct | ics_app.py:66 | filtering keeps the elements distinct |
| Fixtures.SortKeepsElements | ics_app.py:67 | sorting neither adds nor drops a name |
| Fixtures.TeamColumns | ics_app.py:63 | a name is in the two columns exactly when some row has it as home or away team |
| Fixtures.PickerNames | ics_app.py:63-66 | the names before sorting are distinct and are exactly the home and away teams of the division other than "[BYE]" |
| Fixtures.TeamList | ics_app.py:63-67 | the picker list has no "[BYE]", is strictly ascending (sorted, no duplicates) and holds exactly the teams playing home or away in the division |
| Events.Stamp | ics_app.py:126 | the text handed to `strptime` is the Date cell, one space, and the Time cell |
| Events.Opponent | ics_app.py:115-122 | the opponent is one of the row's two teams, and not the selected team when that team plays in a row between two different teams |
| Events.EventName | ics_app.py:114-122 | the title is as long as the two short names plus 4 at home or 3 away; it starts with the team's short name, continues with " vs " exactly when the team is at home and " @ " exactly when it is away, and ends with the opponent's short name |
| Events.ParseWarning | ics_app.py:129 | the warning is "Error parsing date or time for match: ", the home side's short name, " vs ", the away side's short name, " on " and the raw date and time text, each at its place, and nothing else |
| Events.MapFixture | ics_app.py:124-134 | a row is skipped exactly when its date and time do not parse, with the warning naming both clubs' short names and the raw text; it stops the export when the text parses to a time on 01/01/0001 or 31/12/9999, where `localize` overflows, or when the end falls past year 9999 |
| Events.OverflowExactly | ics_app.py:124-134 | a row stops the export exactly when its text parses to a time on 01/01/0001 or 31/12/9999: the end of any other start stays within year 9999 |
| Events.MapFixtureEvent | ics_app.py:115-138 | an added event has the row's title; it starts at exactly the row's date and time text at +08:00; it ends 150 minutes later as an instant; its location is the venue and its description "Division: " and the division |
| Events.ExportRow | ics_app.py:100-141 | the loop body computes the outcome `MapFixture` describes |
| Events.ExportCalendar | ics_app.py:94-141 | the loop computes the fold `ExportOf`: no calendar exactly when the selection is empty, and otherwise one event or one warning per row when no row overflows |
| Events.ExportStops | ics_app.py:127-134 | an overflow on a row the loop reaches ends the export with the warnings shown before it |
| Events.RunStaysAborted | ics_app.py:127-134 | once a row overflows, the later rows change nothing |
| Events.EventsOfMembers | ics_app.py:141 | the calendar holds exactly the events that rows added |
| Events.EventsOfAppend | ics_app.py:99-141 | events are collected in row order |
| Events.WarningsOfAppend | ics_app.py:99-129 | warnings are collected in row order |
| Events.RunWithoutOverflow | ics_app.py:99-141 | without an overflow, the loop ends with all the events and all the warnings in row order, one per row |
| Events.RunWithOverflow | ics_app.py:127-134 | an overflow on any row stops the export |
| Events.Step | ics_app.py:99-141 | one iteration only adds: the events and warnings so far stay in front, a row that does not stop the loop adds exactly one of them, and a stopped loop stays as it is |
| Events.RunCounts | ics_app.py:99-141 | the loop collects one event or warning per row, exactly when it does not stop, and never more |
| Events.ExportOf | ics_app.py:94-141 | no calendar exactly for an empty selection; an aborted export has shown fewer warnings than there are rows; a calendar holds one event or warning per row |
| Events.ExportCharacterized | ics_app.py:94-141 | the export is "no schedule" exactly for an empty selection; it is aborted when a row overflows; otherwise it is the calendar of every event and warning |
| Events.Outcomes | ics_app.py:99-141 | one outcome per row, in row order; what each outcome is, is stated by `Events.MapFixture` and `Events.OutcomesAppend` |
| Events.EventsOf | ics_app.py:141 | the reference definition of the events the loop collects: no more than the outcomes, exactly the added ones (`Events.EventsOfMembers`), in row order (`Events.EventsOfAppend`) |
| Events.WarningsOf | ics_app.py:129 | the reference definition of the warnings shown: no more than the outcomes, in row order (`Events.WarningsOfAppend`) |
| Events.OutcomesAppend | ics_app.py:99 | the rows are handled one at a time, in order |
| Events.SingleOutcome | ics_app.py:128-141 | one row gives its event, or its warning, or neither |
| Events.SkipOutcome | ics_app.py:128-130 | a skipped row contributes its warning and no event, and the rows after it go on |
| Events.SkipUnparsable | ics_app.py:125-130 | a row whose date or time does not parse adds its warning and no event, and the rows after it are still exported |
| Events.TeamEvents | ics_app.py:72-138 | every event exported for a team's schedule is described with the selected division, is titled with the team's short name first, and lasts 150 minutes |
| Events.PremierFixtureEvent | ics_app.py:115-141 | HKFC at home to KCC on 14/10/2024 19:30 is "HKFC vs KCC" from 19:30 to 22:00 at HKFC Courts in "Division: Premier Main" |
| Events.PremierFixtureHomeName | ics_app.py:115-118 | that fixture's title for the home side is "HKFC vs KCC" |
| Events.PremierFixtureAwayName | ics_app.py:119-122 | that fixture's title for the away side is "KCC @ HKFC" |
| Events.ThirtyFirstOfFebruarySkipped | ics_app.py:125-130 | the same fixture on 31/02/2024 is skipped with the warning "Error parsing date or time for match: HKFC vs KCC on 31/02/2024 19:30" (the first part being `Events.WarningPrefix`) |
| Events.LeapMistakeWarning | ics_app.py:129 | the text of that warning |
| Events.LastEveningOverflows | ics_app.py:127 | a fixture at 22:00 on 31/12/9999 stops the export, as `localize` overflows |
| Events.LastMorningOverflows | ics_app.py:127 | so does one at 09:00 on 31/12/9999, though it would end the same morning |
| Events.FirstDayOverflows | ics_app.py:127 | so does one on 01/01/0001 |
| Events.LowerChar | ics_app.py:153 | `str.lower` on ASCII maps a capital to the lowercase letter 32 code points later and keeps every other character |
| Events.AsciiLower | ics_app.py:153 | lowering keeps the length and lowers each character on its own |
| Events.FileNameChar | ics_app.py:153 | a space becomes '_', an ASCII capital the letter 32 code points later, and any other character is kept; the result is neither a space nor a capital |
| Events.DownloadFileName | ics_app.py:153 | the file name is as long as the team name plus "_fixtures.ics"; it has no spaces and no ASCII capitals; each character of the team name is mapped on its own; it ends in "_fixtures.ics" |
| Events.ReplaceSpacesFrom | ics_app.py:153 | `.replace(' ', '_')` from any position on writes each space of the rest as an underscore and keeps every other character |
| Events.DownloadFileNameReplaces | ics_app.py:153 | the file name is exactly `str.replace(' ', '_')` and then ASCII `str.lower` of the team name followed by "_fixtures.ics" |
| Events.SecondTeamFileName | ics_app.py:153 | "HKFC B" gives "hkfc_b_fixtures.ics" |

## Left out

- The Streamlit interface (`st.selectbox`, `st.warning`, `st.stop`, `st.download_button`, page layout and the fixture table at ics_app.py:146-221) is presentation; the selected division and team are parameters.
- Loading the CSV file and its caching (ics_app.py:15-21) are I/O; the schedule is a sequence of `Fixture` values.
- The custom division order (ics_app.py:30-44) depends on pandas' treatment of labels outside the category list; the division is a parameter.
- The `ics` library's `Calendar`, `Event` and `serialize` are a foreign library. `cal.events` is a set, so the order of events in the file is not determined by the program; the model keeps the events in row order and does not produce iCalendar text.
- When every row of a non-empty schedule fails to parse, `ics_content` (ics_app.py:144) is never assigned and line 152 raises NameError; the model ends with a calendar of no events instead.
- Events.MapFixtureEvent: the offset is the fixed +08:00 of Hong Kong today. `pytz` gives other offsets for historical dates (local mean time before 1904, +09:00 in 1941-1945, summer time until 1979); they are not modelled. The OverflowError that `localize` raises for any time on 01/01/0001 or 31/12/9999 is modelled, as `Overflow`.
- DateTimes.Parse: accepts only the zero-padded form "DD/MM/YYYY HH:MM" with ASCII digits. `strptime` also accepts one-digit days, months, hours and minutes, a space-padded day (" 5"), digits of other scripts (its `\d` is Unicode), and any run of whitespace where the format has a space; the model rejects those texts.
- Events.DownloadFileName: lowercases ASCII letters only; Python's `str.lower` also lowercases other scripts.
- `timedelta(hours=2.5)` is the integer 150 minutes; floating point is not modelled.
