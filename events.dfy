/**
 * The calendar export: each fixture of the selected team becomes an event
 * (a title, a start and end at the Hong Kong offset, a location and a
 * description), a fixture whose date or time does not parse is skipped with
 * a warning, and the name of the downloaded file is derived from the team.
 */
module Events {

  import opened Wrappers
  import opened TeamNames
  import opened DateTimes
  import opened Fixtures

  /** One calendar entry (the fields of `ics.Event` the program sets). */
  datatype Event = Event(
    name: string,
    begin: ZonedDateTime,
    end: ZonedDateTime,
    location: string,
    description: string)

  /** `timedelta(hours=2.5)`. */
  const MatchMinutes := 150

  /** What one fixture contributes to the export. */
  datatype Outcome =
    | Added(event: Event)
      /** `strptime` raised ValueError: a warning is shown and the row skipped. */
    | Skipped(warning: string)
      /**
       * `localize` or the end computation left the range of `datetime`: the
       * OverflowError is not caught by `except ValueError`.
       */
    | Overflow

  // ---------------------------------------------------------------------
  // One fixture
  // ---------------------------------------------------------------------

  /** The text handed to `strptime`: the Date and Time cells joined by a space. */
  function Stamp(row: Fixture): (r: string)
    ensures |r| == |row.date| + 1 + |row.time|
    ensures r[..|row.date|] == row.date && r[|row.date|] == ' '
    ensures r[|row.date| + 1..] == row.time
  {
    row.date + " " + row.time
  }

  /** The team the selected team meets in `row`. */
  function Opponent(row: Fixture, team: string): (r: string)
    ensures r == row.homeTeam || r == row.awayTeam
    ensures row.homeTeam != row.awayTeam && (team == row.homeTeam || team == row.awayTeam) ==>
      r != team
  {
    if team == row.homeTeam then row.awayTeam else row.homeTeam
  }

  /**
   * The event title: the selected team's short name, " vs " at home or
   * " @ " away, and the opponent's short name.
   */
  function EventName(row: Fixture, team: string): (name: string)
    ensures |name| ==
      |Abbreviate(team)| + (if team == row.homeTeam then 4 else 3) + |Abbreviate(Opponent(row, team))|
    ensures name[..|Abbreviate(team)|] == Abbreviate(team)
    ensures team == row.homeTeam <==> MatchAt(name, " vs ", |Abbreviate(team)|)
    ensures team != row.homeTeam <==> MatchAt(name, " @ ", |Abbreviate(team)|)
    ensures name[|name| - |Abbreviate(Opponent(row, team))|..] == Abbreviate(Opponent(row, team))
  {
    var self, other := Abbreviate(team), Abbreviate(Opponent(row, team));
    var sep := if team == row.homeTeam then " vs " else " @ ";
    JoinedParts(self, sep, other);
    self + sep + other
  }

  /** The three parts of `a + sep + b` where the title separators are concerned. */
  lemma JoinedParts(a: string, sep: string, b: string)
    requires sep == " vs " || sep == " @ "
    ensures |a + sep + b| == |a| + |sep| + |b|
    ensures (a + sep + b)[..|a|] == a
    ensures (a + sep + b)[|a + sep + b| - |b|..] == b
    ensures MatchAt(a + sep + b, " vs ", |a|) <==> sep == " vs "
    ensures MatchAt(a + sep + b, " @ ", |a|) <==> sep == " @ "
  {
    var name := a + sep + b;
    assert name[|a|..|a| + |sep|] == sep;
    assert name[|a| + 1] == sep[1];
    if MatchAt(name, " vs ", |a|) {
      assert name[|a|..|a| + 4][1] == name[|a| + 1];
    }
    if MatchAt(name, " @ ", |a|) {
      assert name[|a|..|a| + 3][1] == name[|a| + 1];
    }
  }

  const WarningPrefix := "Error parsing date or time for match: "

  /**
   * The warning shown for a row whose date or time does not parse: the
   * prefix, the home side's short name, " vs ", the away side's short name,
   * " on " and the raw date and time text.
   */
  function ParseWarning(row: Fixture): (w: string)
    ensures |w| == |WarningPrefix| + |Abbreviate(row.homeTeam)| + 4
      + |Abbreviate(row.awayTeam)| + 4 + |Stamp(row)|
    ensures w[..|WarningPrefix|] == WarningPrefix
    ensures w[|WarningPrefix|..|WarningPrefix| + |Abbreviate(row.homeTeam)|] == Abbreviate(row.homeTeam)
    ensures MatchAt(w, " vs ", |WarningPrefix| + |Abbreviate(row.homeTeam)|)
    ensures w[|w| - |Stamp(row)| - 4 - |Abbreviate(row.awayTeam)|..|w| - |Stamp(row)| - 4] ==
      Abbreviate(row.awayTeam)
    ensures MatchAt(w, " on ", |w| - |Stamp(row)| - 4)
    ensures w[|w| - |Stamp(row)|..] == Stamp(row)
  {
    var home, away := Abbreviate(row.homeTeam), Abbreviate(row.awayTeam);
    WarningParts(WarningPrefix, home, away, Stamp(row));
    WarningPrefix + home + " vs " + away + " on " + Stamp(row)
  }

  /** The six parts of `pre + a + " vs " + b + " on " + t`, each found where it was put. */
  lemma WarningParts(pre: string, a: string, b: string, t: string)
    ensures var w := pre + a + " vs " + b + " on " + t;
      && |w| == |pre| + |a| + 4 + |b| + 4 + |t|
      && w[..|pre|] == pre
      && w[|pre|..|pre| + |a|] == a
      && MatchAt(w, " vs ", |pre| + |a|)
      && w[|w| - |t| - 4 - |b|..|w| - |t| - 4] == b
      && MatchAt(w, " on ", |w| - |t| - 4)
      && w[|w| - |t|..] == t
  {
    var w := pre + a + " vs " + b + " on " + t;
    var i := |pre| + |a|;
    var j := i + 4 + |b|;
    assert w[..i] == pre + a;
    assert w[i..i + 4] == " vs ";
    assert w[i + 4..j] == b;
    assert w[j..j + 4] == " on ";
    assert w[j + 4..] == t;
  }

  /**
   * What the body of the export loop does with one row: parse the stamp,
   * localize it at +08:00, end it 150 minutes later, and fill in the venue
   * and the division.
   */
  function MapFixture(row: Fixture, team: string): (o: Outcome)
    ensures o.Skipped? <==> Parse(Stamp(row)).None?
    ensures o.Skipped? ==> o.warning == ParseWarning(row)
    ensures o.Overflow? <==>
      && Parse(Stamp(row)).Some?
      && (|| LocalizeOverflows(Parse(Stamp(row)).value.date)
          || AddMinutes(Parse(Stamp(row)).value, MatchMinutes).date.year > MaxYear)
  {
    match Parse(Stamp(row))
    case None => Skipped(ParseWarning(row))
    case Some(begin) =>
      if LocalizeOverflows(begin.date) then Overflow
      else
        var end := AddMinutes(begin, MatchMinutes);
        if end.date.year > MaxYear then Overflow
        else
          Added(Event(EventName(row, team),
                      ZonedDateTime(begin, HongKongOffsetMinutes),
                      ZonedDateTime(end, HongKongOffsetMinutes),
                      row.venue,
                      "Division: " + row.division))
  }

  /**
   * The export stops at a row exactly when its stamp parses to the first or
   * the last day Python can hold: there `localize` overflows, and on every
   * other day the end 150 minutes later stays in range.
   */
  lemma OverflowExactly(row: Fixture, team: string)
    ensures MapFixture(row, team).Overflow? <==>
      Parse(Stamp(row)).Some? && LocalizeOverflows(Parse(Stamp(row)).value.date)
  {
    if Parse(Stamp(row)).Some? && !LocalizeOverflows(Parse(Stamp(row)).value.date) {
      EndWithinRange(Parse(Stamp(row)).value, MatchMinutes);
    }
  }

  /** What every event the export adds satisfies, relative to the row it comes from. */
  ghost predicate EventOfRow(e: Event, row: Fixture, team: string) {
    && e.name == EventName(row, team)
    && Representable(e.begin.local)
    && Format(e.begin.local) == Stamp(row)
    && e.begin.utcOffsetMinutes == HongKongOffsetMinutes
    && Representable(e.end.local)
    && e.end.utcOffsetMinutes == HongKongOffsetMinutes
    && InstantMinutes(e.end) == InstantMinutes(e.begin) + MatchMinutes
    && e.location == row.venue
    && e.description == "Division: " + row.division
  }

  /**
   * An added event starts at exactly the text of the row's Date and Time at
   * +08:00, ends 150 minutes later as an instant, and carries the title,
   * the venue and the division.
   */
  lemma MapFixtureEvent(row: Fixture, team: string)
    ensures MapFixture(row, team).Added? ==> EventOfRow(MapFixture(row, team).event, row, team)
  {
    if MapFixture(row, team).Added? {
      var begin := Parse(Stamp(row)).value;
      FormatParse(Stamp(row));
      AddMinutesElapsed(begin, MatchMinutes);
    }
  }

  // ---------------------------------------------------------------------
  // The loop over the selected rows
  // ---------------------------------------------------------------------

  /** The outcome of each row, in row order. */
  function Outcomes(rows: seq<Fixture>, team: string): (os: seq<Outcome>)
    ensures |os| == |rows|
  {
    seq(|rows|, i requires 0 <= i < |rows| => MapFixture(rows[i], team))
  }

  /** The state of the export loop: events added, warnings shown, and whether it stopped. */
  datatype Progress = Progress(events: seq<Event>, warnings: seq<string>, aborted: bool)

  /** One iteration; nothing happens after the loop has stopped. */
  function Step(p: Progress, o: Outcome): (q: Progress)
    ensures p.aborted ==> q == p
    ensures p.events <= q.events && p.warnings <= q.warnings
    ensures !q.aborted ==> |q.events| + |q.warnings| == |p.events| + |p.warnings| + 1
    ensures q.aborted ==> |q.events| + |q.warnings| == |p.events| + |p.warnings|
  {
    if p.aborted then p
    else match o
      case Added(e) => p.(events := p.events + [e])
      case Skipped(w) => p.(warnings := p.warnings + [w])
      case Overflow => p.(aborted := true)
  }

  /** The state after the loop has gone through `os` in order. */
  function Run(os: seq<Outcome>): Progress
  {
    if os == [] then Progress([], [], false)
    else Step(Run(os[..|os| - 1]), os[|os| - 1])
  }

  /** Each row adds one event or one warning until the loop stops; the stopping row adds nothing. */
  lemma {:induction false} RunCounts(os: seq<Outcome>)
    ensures |Run(os).events| + |Run(os).warnings| <= |os|
    ensures !Run(os).aborted <==> |Run(os).events| + |Run(os).warnings| == |os|
  {
    if os != [] {
      RunCounts(os[..|os| - 1]);
    }
  }

  /** What the program ends with. */
  datatype Export =
      /** `team_schedule.empty`: a warning and `st.stop()`. */
    | NoSchedule
      /** An uncaught OverflowError, after the warnings shown so far. */
    | Aborted(warnings: seq<string>)
    | Calendar(events: seq<Event>, warnings: seq<string>)

  function ExportOf(teamSchedule: seq<Fixture>, team: string): (x: Export)
    ensures x.NoSchedule? <==> teamSchedule == []
    ensures x.Aborted? ==> |x.warnings| < |teamSchedule|
    ensures x.Calendar? ==> |x.events| + |x.warnings| == |teamSchedule|
  {
    if teamSchedule == [] then NoSchedule
    else
      var p := Run(Outcomes(teamSchedule, team));
      RunCounts(Outcomes(teamSchedule, team));
      if p.aborted then Aborted(p.warnings) else Calendar(p.events, p.warnings)
  }

  /**
   * The body of the export loop for one row: the three names are
   * abbreviated, the title built, and the stamp parsed; a failure gives the
   * warning, and a success the event ending 150 minutes after it starts.
   */
  method ExportRow(row: Fixture, team: string) returns (o: Outcome)
    ensures o == MapFixture(row, team)
  {
    var homeAbbrev := AbbreviateTeamName(row.homeTeam);
    var awayAbbrev := AbbreviateTeamName(row.awayTeam);
    var selfAbbrev := AbbreviateTeamName(team);
    var name;
    if team == row.homeTeam {
      name := selfAbbrev + " vs " + awayAbbrev;
    } else {
      name := selfAbbrev + " @ " + homeAbbrev;
    }
    var parsed := Parse(row.date + " " + row.time);
    if parsed.None? {
      return Skipped(WarningPrefix + homeAbbrev + " vs "
                     + awayAbbrev + " on " + row.date + " " + row.time);
    }
    var begin := parsed.value;
    if LocalizeOverflows(begin.date) {
      return Overflow;
    }
    var end := AddMinutes(begin, MatchMinutes);
    if end.date.year > MaxYear {
      return Overflow;
    }
    return Added(Event(name, ZonedDateTime(begin, HongKongOffsetMinutes),
                       ZonedDateTime(end, HongKongOffsetMinutes),
                       row.venue, "Division: " + row.division));
  }

  /**
   * The export loop: the rows in order, each event added to the calendar,
   * each warning shown, and an overflow ending the program.
   */
  method ExportCalendar(teamSchedule: seq<Fixture>, team: string) returns (out: Export)
    ensures out == ExportOf(teamSchedule, team)
    ensures out.NoSchedule? <==> teamSchedule == []
    ensures out.Calendar? ==> |out.events| + |out.warnings| == |teamSchedule|
  {
    if teamSchedule == [] {
      return NoSchedule;
    }
    ghost var os := Outcomes(teamSchedule, team);
    var events: seq<Event> := [];
    var warnings: seq<string> := [];
    var i := 0;
    while i < |teamSchedule|
      invariant 0 <= i <= |teamSchedule|
      invariant Run(os[..i]) == Progress(events, warnings, false)
      invariant |events| + |warnings| == i
    {
      var o := ExportRow(teamSchedule[i], team);
      assert o == os[i];
      RunPrefixStep(os, i);
      match o {
        case Added(e) =>
          events := events + [e];
        case Skipped(w) =>
          warnings := warnings + [w];
        case Overflow =>
          ExportStops(teamSchedule, team, i);
          return Aborted(warnings);
      }
      i := i + 1;
    }
    assert os[..i] == os;
    return Calendar(events, warnings);
  }

  /** The loop state after one more row is one `Step` on from the state before it. */
  lemma RunPrefixStep(os: seq<Outcome>, i: nat)
    requires i < |os|
    ensures Run(os[..i + 1]) == Step(Run(os[..i]), os[i])
  {
    assert os[..i + 1][..i] == os[..i];
  }

  /** An overflow at row `i` of a loop not yet stopped ends the export with the warnings so far. */
  lemma ExportStops(teamSchedule: seq<Fixture>, team: string, i: nat)
    requires i < |teamSchedule|
    requires MapFixture(teamSchedule[i], team).Overflow?
    requires !Run(Outcomes(teamSchedule, team)[..i]).aborted
    ensures ExportOf(teamSchedule, team) == Aborted(Run(Outcomes(teamSchedule, team)[..i]).warnings)
  {
    var os := Outcomes(teamSchedule, team);
    var before := Run(os[..i]);
    RunPrefixStep(os, i);
    assert Run(os[..i + 1]) == before.(aborted := true);
    RunStaysAborted(os, i + 1, |os|);
    assert os[..|os|] == os;
    assert Run(os) == before.(aborted := true);
  }

  /** Once the loop has stopped, later rows change nothing. */
  lemma {:induction false} RunStaysAborted(os: seq<Outcome>, i: nat, j: nat)
    requires i <= j <= |os|
    requires Run(os[..i]).aborted
    ensures Run(os[..j]) == Run(os[..i])
    decreases j
  {
    if j > i {
      RunStaysAborted(os, i, j - 1);
      assert os[..j][..j - 1] == os[..j - 1];
    }
  }

  // ---------------------------------------------------------------------
  // A reference definition, outcome by outcome from the front
  // ---------------------------------------------------------------------

  /** The events among the outcomes, in order. */
  function EventsOf(os: seq<Outcome>): (es: seq<Event>)
    ensures |es| <= |os|
  {
    if os == [] then []
    else (if os[0].Added? then [os[0].event] else []) + EventsOf(os[1..])
  }

  /** The warnings among the outcomes, in order. */
  function WarningsOf(os: seq<Outcome>): (ws: seq<string>)
    ensures |ws| <= |os|
  {
    if os == [] then []
    else (if os[0].Skipped? then [os[0].warning] else []) + WarningsOf(os[1..])
  }

  /** The events kept are exactly the added ones. */
  lemma {:induction false} EventsOfMembers(os: seq<Outcome>, e: Event)
    ensures e in EventsOf(os) <==> Added(e) in os
  {
    if os != [] {
      EventsOfMembers(os[1..], e);
      assert os == [os[0]] + os[1..];
    }
  }

  lemma {:induction false} EventsOfAppend(a: seq<Outcome>, b: seq<Outcome>)
    ensures EventsOf(a + b) == EventsOf(a) + EventsOf(b)
  {
    if a == [] {
      assert a + b == b;
    } else {
      assert (a + b)[0] == a[0];
      assert (a + b)[1..] == a[1..] + b;
      EventsOfAppend(a[1..], b);
      var head := if a[0].Added? then [a[0].event] else [];
      assert EventsOf(a + b) == head + EventsOf(a[1..] + b);
      assert EventsOf(a) == head + EventsOf(a[1..]);
    }
  }

  lemma {:induction false} WarningsOfAppend(a: seq<Outcome>, b: seq<Outcome>)
    ensures WarningsOf(a + b) == WarningsOf(a) + WarningsOf(b)
  {
    if a == [] {
      assert a + b == b;
    } else {
      assert (a + b)[0] == a[0];
      assert (a + b)[1..] == a[1..] + b;
      WarningsOfAppend(a[1..], b);
      var head := if a[0].Skipped? then [a[0].warning] else [];
      assert WarningsOf(a + b) == head + WarningsOf(a[1..] + b);
      assert WarningsOf(a) == head + WarningsOf(a[1..]);
    }
  }

  /**
   * Without an overflow the loop keeps every event and every warning, in
   * order, and each outcome gives exactly one of the two.
   */
  lemma {:induction false} RunWithoutOverflow(os: seq<Outcome>)
    ensures Overflow !in os ==> Run(os) == Progress(EventsOf(os), WarningsOf(os), false)
    ensures Overflow !in os ==> |EventsOf(os)| + |WarningsOf(os)| == |os|
  {
    if os != [] && Overflow !in os {
      var init := os[..|os| - 1];
      var last := os[|os| - 1];
      assert os == init + [last];
      assert Overflow !in init;
      RunWithoutOverflow(init);
      EventsOfAppend(init, [last]);
      WarningsOfAppend(init, [last]);
      SingleOutcome(last);
    }
  }

  /** An overflow anywhere aborts the whole export. */
  lemma {:induction false} RunWithOverflow(os: seq<Outcome>)
    ensures Overflow in os ==> Run(os).aborted
  {
    if os != [] && Overflow in os {
      var init := os[..|os| - 1];
      assert os == init + [os[|os| - 1]];
      if os[|os| - 1] != Overflow {
        RunWithOverflow(init);
      }
    }
  }

  /** The export as a whole, stated without the loop. */
  lemma ExportCharacterized(teamSchedule: seq<Fixture>, team: string)
    ensures teamSchedule == [] <==> ExportOf(teamSchedule, team) == NoSchedule
    ensures teamSchedule != [] && Overflow in Outcomes(teamSchedule, team) ==>
      ExportOf(teamSchedule, team).Aborted?
    ensures teamSchedule != [] && Overflow !in Outcomes(teamSchedule, team) ==>
      ExportOf(teamSchedule, team) ==
        Calendar(EventsOf(Outcomes(teamSchedule, team)), WarningsOf(Outcomes(teamSchedule, team)))
  {
    RunWithoutOverflow(Outcomes(teamSchedule, team));
    RunWithOverflow(Outcomes(teamSchedule, team));
  }

  /** The outcomes of two runs of rows are the outcomes of each in turn. */
  lemma OutcomesAppend(a: seq<Fixture>, b: seq<Fixture>, team: string)
    ensures Outcomes(a + b, team) == Outcomes(a, team) + Outcomes(b, team)
  {
    var whole, left, right := Outcomes(a + b, team), Outcomes(a, team), Outcomes(b, team);
    forall i | 0 <= i < |whole| ensures whole[i] == (left + right)[i] {
      if i < |a| {
        assert (a + b)[i] == a[i];
      } else {
        assert (a + b)[i] == b[i - |a|];
      }
    }
  }

  /** A single outcome gives its event, or its warning, or neither. */
  lemma SingleOutcome(o: Outcome)
    ensures EventsOf([o]) == if o.Added? then [o.event] else []
    ensures WarningsOf([o]) == if o.Skipped? then [o.warning] else []
  {
    assert [o][1..] == [];
  }

  /** A skipped outcome contributes its warning and no event, and the rest go on. */
  lemma SkipOutcome(a: seq<Outcome>, o: Outcome, c: seq<Outcome>)
    ensures o.Skipped? ==> EventsOf(a + [o] + c) == EventsOf(a) + EventsOf(c)
    ensures o.Skipped? ==> WarningsOf(a + [o] + c) == WarningsOf(a) + [o.warning] + WarningsOf(c)
  {
    if o.Skipped? {
      SingleOutcome(o);
      EventsOfAppend(a, [o]);
      assert EventsOf(a + [o]) == EventsOf(a);
      EventsOfAppend(a + [o], c);
      WarningsOfAppend(a, [o]);
      assert WarningsOf(a + [o]) == WarningsOf(a) + [o.warning];
      WarningsOfAppend(a + [o], c);
    }
  }

  /**
   * A row that does not parse adds a warning and no event, and the rows
   * after it are still exported.
   */
  lemma SkipUnparsable(before: seq<Fixture>, bad: Fixture, after: seq<Fixture>, team: string)
    ensures Parse(Stamp(bad)).None? ==>
      EventsOf(Outcomes(before + [bad] + after, team)) ==
        EventsOf(Outcomes(before, team)) + EventsOf(Outcomes(after, team))
    ensures Parse(Stamp(bad)).None? ==>
      WarningsOf(Outcomes(before + [bad] + after, team)) ==
        WarningsOf(Outcomes(before, team)) + [ParseWarning(bad)] + WarningsOf(Outcomes(after, team))
  {
    OutcomesAppend(before, [bad], team);
    OutcomesAppend(before + [bad], after, team);
    var o := MapFixture(bad, team);
    assert Outcomes([bad], team) == [o];
    SkipOutcome(Outcomes(before, team), o, Outcomes(after, team));
  }

  /**
   * Exporting the selected team's schedule: every event belongs to the
   * selected division, is titled with the team's short name, and lasts 150
   * minutes.
   */
  lemma TeamEvents(schedule: seq<Fixture>, division: string, team: string, e: Event)
    ensures e in EventsOf(Outcomes(TeamSchedule(schedule, division, team), team)) ==>
      && e.description == "Division: " + division
      && |Abbreviate(team)| <= |e.name| && e.name[..|Abbreviate(team)|] == Abbreviate(team)
      && Representable(e.begin.local) && Representable(e.end.local)
      && InstantMinutes(e.end) == InstantMinutes(e.begin) + MatchMinutes
  {
    var rows := TeamSchedule(schedule, division, team);
    var os := Outcomes(rows, team);
    EventsOfMembers(os, e);
    if e in EventsOf(os) {
      var k :| 0 <= k < |os| && os[k] == Added(e);
      MapFixtureEvent(rows[k], team);
      assert rows[k] in rows;
    }
  }

  // ---------------------------------------------------------------------
  // Examples
  // ---------------------------------------------------------------------

  const PremierFixture := Fixture("Premier Main", "Hong Kong Football Club",
                                  "Kowloon Cricket Club", "HKFC Courts", "14/10/2024", "19:30")

  /** The home fixture of Hong Kong Football Club against Kowloon Cricket Club. */
  lemma PremierFixtureEvent()
    ensures MapFixture(PremierFixture, "Hong Kong Football Club") ==
      Added(Event("HKFC vs KCC",
                  ZonedDateTime(DateTime(Date(2024, 10, 14), 19, 30), HongKongOffsetMinutes),
                  ZonedDateTime(DateTime(Date(2024, 10, 14), 22, 0), HongKongOffsetMinutes),
                  "HKFC Courts", "Division: Premier Main"))
  {
    PremierFixtureParsed();
    EndSameEvening();
    PremierFixtureHomeName();
    PremierFixtureDescription();
  }

  lemma PremierFixtureDescription()
    ensures "Division: " + PremierFixture.division == "Division: Premier Main"
  {
  }

  lemma PremierFixtureParsed()
    ensures Parse(Stamp(PremierFixture)) == Some(DateTime(Date(2024, 10, 14), 19, 30))
  {
    assert Stamp(PremierFixture) == "14/10/2024 19:30";
    EveningStampAccepted();
  }

  lemma PremierFixtureHomeName()
    ensures EventName(PremierFixture, "Hong Kong Football Club") == "HKFC vs KCC"
  {
    AbbreviateHongKongFootballClub();
    AbbreviateKowloonCricketClub();
  }

  /** The same fixture seen from the away side. */
  lemma PremierFixtureAwayName()
    ensures EventName(PremierFixture, "Kowloon Cricket Club") == "KCC @ HKFC"
  {
    AbbreviateHongKongFootballClub();
    AbbreviateKowloonCricketClub();
  }

  const LeapMistakeFixture := PremierFixture.(date := "31/02/2024")

  /** 31/02/2024 is skipped with a warning naming both clubs and the raw text. */
  lemma ThirtyFirstOfFebruarySkipped()
    ensures MapFixture(LeapMistakeFixture, "Hong Kong Football Club") ==
      Skipped(WarningPrefix + "HKFC vs KCC on 31/02/2024 19:30")
  {
    assert Stamp(LeapMistakeFixture) == "31/02/2024 19:30";
    ThirtyFirstOfFebruaryRejected();
    LeapMistakeWarning();
  }

  lemma LeapMistakeWarning()
    ensures ParseWarning(LeapMistakeFixture) == WarningPrefix + "HKFC vs KCC on 31/02/2024 19:30"
  {
    AbbreviateHongKongFootballClub();
    AbbreviateKowloonCricketClub();
    LeapMistakeWarningText();
  }

  lemma LeapMistakeWarningText()
    ensures WarningPrefix + "HKFC" + " vs " + "KCC" + " on " + Stamp(LeapMistakeFixture) ==
      WarningPrefix + "HKFC vs KCC on 31/02/2024 19:30"
  {
    var body := "HKFC" + " vs " + "KCC" + " on " + Stamp(LeapMistakeFixture);
    assert body == "HKFC vs KCC on 31/02/2024 19:30";
    assert WarningPrefix + "HKFC" + " vs " + "KCC" + " on " + Stamp(LeapMistakeFixture) == WarningPrefix + body;
  }

  const LastEveningFixture := PremierFixture.(date := "31/12/9999", time := "22:00")

  /** A fixture on 31/12/9999 stops the export: `localize` looks a day ahead, past year 9999. */
  lemma LastEveningOverflows()
    ensures MapFixture(LastEveningFixture, "Hong Kong Football Club") == Overflow
  {
    assert Stamp(LastEveningFixture) == "31/12/9999 22:00";
    LastEveningAccepted();
  }

  const LastMorningFixture := PremierFixture.(date := "31/12/9999", time := "09:00")

  /** The whole last day stops the export, though this match would end the same morning. */
  lemma LastMorningOverflows()
    ensures MapFixture(LastMorningFixture, "Hong Kong Football Club") == Overflow
  {
    assert Stamp(LastMorningFixture) == "31/12/9999 09:00";
    LastMorningAccepted();
  }

  const FirstDayFixture := PremierFixture.(date := "01/01/0001")

  /** So does the first day: `localize` looks a day back, before year 1. */
  lemma FirstDayOverflows()
    ensures MapFixture(FirstDayFixture, "Hong Kong Football Club") == Overflow
  {
    assert Stamp(FirstDayFixture) == "01/01/0001 19:30";
    FirstDayAccepted();
  }

  // ---------------------------------------------------------------------
  // The name of the downloaded file
  // ---------------------------------------------------------------------

  const FileSuffix := "_fixtures.ics"

  /** `c.lower()` for ASCII: a capital becomes the letter 32 code points later. */
  function LowerChar(c: char): (d: char)
    ensures IsUpper(c) ==> d as int == c as int + 32 && 'a' <= d <= 'z'
    ensures !IsUpper(c) ==> d == c
  {
    if IsUpper(c) then (c as int + 32) as char else c
  }

  /** `s.lower()` for ASCII text, character by character. */
  function AsciiLower(s: string): (r: string)
    ensures |r| == |s|
    ensures forall i :: 0 <= i < |s| ==> r[i] == LowerChar(s[i])
  {
    seq(|s|, i requires 0 <= i < |s| => LowerChar(s[i]))
  }

  /** `.replace(' ', '_')` followed by `.lower()`, one character at a time. */
  function FileNameChar(c: char): (d: char)
    ensures c == ' ' ==> d == '_'
    ensures IsUpper(c) ==> d as int == c as int + 32
    ensures c != ' ' && !IsUpper(c) ==> d == c
    ensures d != ' ' && !IsUpper(d)
  {
    if c == ' ' then '_' else LowerChar(c)
  }

  /** `f'{team}_fixtures.ics'.replace(' ', '_').lower()`. */
  function DownloadFileName(team: string): (r: string)
    ensures |r| == |team| + |FileSuffix|
    ensures forall i :: 0 <= i < |r| ==> r[i] != ' ' && !IsUpper(r[i])
    ensures forall i :: 0 <= i < |team| ==> r[i] == FileNameChar(team[i])
    ensures r[|team|..] == FileSuffix
  {
    var s := team + FileSuffix;
    seq(|s|, i requires 0 <= i < |s| => FileNameChar(s[i]))
  }

  /** Every space of `s` written as an underscore. */
  function SpacesToUnderscores(s: string): (r: string)
    ensures |r| == |s|
  {
    seq(|s|, i requires 0 <= i < |s| => if s[i] == ' ' then '_' else s[i])
  }

  /** A text without spaces has none to write as underscores. */
  lemma SpacelessUnchanged(t: string)
    requires !Occurs(" ", t)
    ensures SpacesToUnderscores(t) == t
  {
    forall j | 0 <= j < |t|
      ensures SpacesToUnderscores(t)[j] == t[j]
    {
      if t[j] == ' ' {
        assert t[j..j + 1] == " ";
        assert MatchAt(t, " ", j);
      }
    }
  }

  /** Writing spaces as underscores works on each part of a concatenation on its own. */
  lemma SpacesAppend(a: string, b: string)
    ensures SpacesToUnderscores(a + b) == SpacesToUnderscores(a) + SpacesToUnderscores(b)
  {
    var l, r := SpacesToUnderscores(a + b), SpacesToUnderscores(a) + SpacesToUnderscores(b);
    forall j | 0 <= j < |l|
      ensures l[j] == r[j]
    {
      if j >= |a| {
        assert (a + b)[j] == b[j - |a|];
      }
    }
  }

  /** The text from `from` on, split at a space found at `i`. */
  lemma SliceAround(s: string, from: nat, i: nat)
    requires from <= i < |s| && MatchAt(s, " ", i)
    ensures s[from..] == s[from..i] + " " + s[i + 1..]
  {
    assert s[i] == s[i..i + 1][0];
  }

  /** The scan of `str.replace(' ', '_')` from `from` on turns each remaining space into '_'. */
  lemma {:induction false} ReplaceSpacesFrom(s: string, from: nat)
    requires from <= |s|
    ensures ReplaceFrom(s, " ", "_", from) == SpacesToUnderscores(s[from..])
    decreases |s| - from
  {
    match FindFrom(s, " ", from)
    case None =>
      ReplaceNotFound(s, " ", "_", from);
      SpacelessUnchanged(s[from..]);
    case Some(i) =>
      ReplaceFound(s, " ", "_", from, i);
      NoMatchBeforeFirst(s, " ", from, i);
      var before, after := s[from..i], s[i + 1..];
      SliceAround(s, from, i);
      calc {
        SpacesToUnderscores(s[from..]);
        { SpacesAppend(before + " ", after); }
        SpacesToUnderscores(before + " ") + SpacesToUnderscores(after);
        { SpacesAppend(before, " "); assert SpacesToUnderscores(" ") == "_"; }
        SpacesToUnderscores(before) + "_" + SpacesToUnderscores(after);
        { SpacelessUnchanged(before); ReplaceSpacesFrom(s, i + 1); }
        before + "_" + ReplaceFrom(s, " ", "_", i + 1);
      }
  }

  /** The file name is `.replace(' ', '_')` and then `.lower()` of the team name and suffix. */
  lemma DownloadFileNameReplaces(team: string)
    ensures DownloadFileName(team) == AsciiLower(ReplaceAll(team + FileSuffix, " ", "_"))
  {
    var s := team + FileSuffix;
    ReplaceSpacesFrom(s, 0);
    assert s[0..] == s;
    var r, l := DownloadFileName(team), AsciiLower(SpacesToUnderscores(s));
    forall i | 0 <= i < |r|
      ensures r[i] == l[i]
    {
      if i >= |team| {
        assert r[|team|..][i - |team|] == s[i];
      }
    }
  }

  lemma SecondTeamFileName()
    ensures DownloadFileName("HKFC B") == "hkfc_b_fixtures.ics"
  {
  }
}
