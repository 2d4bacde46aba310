/**
 * The season schedule and what is selected from it: the rows of one
 * division, the team picker list of that division, and the fixtures of the
 * chosen team.
 */
module Fixtures {

  /** One row of the season schedule (the columns the program reads). */
  datatype Fixture = Fixture(
    division: string,
    homeTeam: string,
    awayTeam: string,
    venue: string,
    date: string,
    time: string)

  /** The Away Team of a bye round, which is not a match. */
  const Bye := "[BYE]"

  // ---------------------------------------------------------------------
  // Boolean masks
  // ---------------------------------------------------------------------

  /** `rows[mask]`: the rows that satisfy `keep`, in their original order. */
  function Filter<T(!new)>(rows: seq<T>, keep: T -> bool): (r: seq<T>)
    ensures |r| <= |rows|
    ensures forall x :: x in r <==> x in rows && keep(x)
  {
    if rows == [] then []
    else (if keep(rows[0]) then [rows[0]] else []) + Filter(rows[1..], keep)
  }

  /** Masking a concatenation masks each part and keeps them in order. */
  lemma {:induction false} FilterAppend<T(!new)>(a: seq<T>, b: seq<T>, keep: T -> bool)
    ensures Filter(a + b, keep) == Filter(a, keep) + Filter(b, keep)
  {
    if a == [] {
      assert a + b == b;
    } else {
      assert (a + b)[1..] == a[1..] + b;
      FilterAppend(a[1..], b, keep);
    }
  }

  /** Two masks applied one after the other are one mask with both conditions. */
  lemma {:induction false} FilterFilter<T(!new)>(
    rows: seq<T>, first: T -> bool, second: T -> bool, both: T -> bool)
    requires forall x :: both(x) == (first(x) && second(x))
    ensures Filter(Filter(rows, first), second) == Filter(rows, both)
  {
    if rows != [] {
      FilterAppend(if first(rows[0]) then [rows[0]] else [], Filter(rows[1..], first), second);
      FilterFilter(rows[1..], first, second, both);
    }
  }

  /** A mask that no row satisfies selects nothing. */
  lemma {:induction false} FilterNone<T(!new)>(rows: seq<T>, keep: T -> bool)
    requires forall i :: 0 <= i < |rows| ==> !keep(rows[i])
    ensures Filter(rows, keep) == []
  {
    if rows != [] {
      FilterNone(rows[1..], keep);
    }
  }

  // ---------------------------------------------------------------------
  // Selecting the rows of a division and of a team
  // ---------------------------------------------------------------------

  /** `df[df['Division'] == division]`. */
  function DivisionRows(schedule: seq<Fixture>, division: string): (r: seq<Fixture>)
    ensures |r| <= |schedule|
    ensures forall row :: row in r <==> row in schedule && row.division == division
  {
    Filter(schedule, (row: Fixture) => row.division == division)
  }

  /** The team plays in the row, and the row is not a bye round. */
  predicate IsTeamFixture(row: Fixture, team: string) {
    (row.homeTeam == team || row.awayTeam == team) && row.awayTeam != Bye
  }

  /** `team_schedule`: the chosen team's matches in the chosen division, in schedule order. */
  function TeamSchedule(schedule: seq<Fixture>, division: string, team: string): (r: seq<Fixture>)
    ensures |r| <= |schedule|
    ensures forall row :: row in r <==>
      && row in schedule
      && row.division == division
      && (row.homeTeam == team || row.awayTeam == team)
      && row.awayTeam != Bye
  {
    Filter(DivisionRows(schedule, division), (row: Fixture) => IsTeamFixture(row, team))
  }

  /** The two-step selection keeps exactly the rows meeting all three conditions, in order. */
  lemma TeamScheduleIsOneMask(schedule: seq<Fixture>, division: string, team: string)
    ensures TeamSchedule(schedule, division, team) ==
      Filter(schedule, (row: Fixture) => row.division == division && IsTeamFixture(row, team))
  {
    FilterFilter(schedule, (row: Fixture) => row.division == division,
                 (row: Fixture) => IsTeamFixture(row, team),
                 (row: Fixture) => row.division == division && IsTeamFixture(row, team));
  }

  /** Row order is preserved: selecting from two halves gives the two selections in turn. */
  lemma TeamScheduleAppend(a: seq<Fixture>, b: seq<Fixture>, division: string, team: string)
    ensures TeamSchedule(a + b, division, team) ==
      TeamSchedule(a, division, team) + TeamSchedule(b, division, team)
  {
    FilterAppend(a, b, (row: Fixture) => row.division == division);
    FilterAppend(DivisionRows(a, division), DivisionRows(b, division),
                 (row: Fixture) => IsTeamFixture(row, team));
  }

  /** A single row is kept exactly when it meets the three conditions. */
  lemma TeamScheduleSingle(row: Fixture, division: string, team: string)
    ensures TeamSchedule([row], division, team) ==
      if row.division == division && IsTeamFixture(row, team) then [row] else []
  {
  }

  /** A team whose only fixtures in the division are bye rounds has an empty schedule. */
  lemma OnlyByesGiveNoSchedule(schedule: seq<Fixture>, division: string, team: string)
    requires forall row :: (row in schedule && row.division == division
      && (row.homeTeam == team || row.awayTeam == team)) ==> row.awayTeam == Bye
    ensures TeamSchedule(schedule, division, team) == []
  {
    TeamScheduleIsOneMask(schedule, division, team);
    FilterNone(schedule, (row: Fixture) => row.division == division && IsTeamFixture(row, team));
  }

  // ---------------------------------------------------------------------
  // Python's string order
  // ---------------------------------------------------------------------

  /** `a < b` on Python strings: code point by code point, a proper prefix first. */
  predicate Below(a: string, b: string) {
    if a == [] then b != []
    else if b == [] then false
    else if a[0] != b[0] then a[0] < b[0]
    else Below(a[1..], b[1..])
  }

  lemma {:induction false} BelowIrreflexive(a: string)
    ensures !Below(a, a)
  {
    if a != [] {
      BelowIrreflexive(a[1..]);
    }
  }

  lemma {:induction false} BelowTransitive(a: string, b: string, c: string)
    ensures Below(a, b) && Below(b, c) ==> Below(a, c)
  {
    if a != [] && b != [] && c != [] && a[0] == b[0] && b[0] == c[0] {
      BelowTransitive(a[1..], b[1..], c[1..]);
    }
  }

  /** Two different strings are always ordered one way or the other. */
  lemma {:induction false} BelowTotal(a: string, b: string)
    ensures a == b || Below(a, b) || Below(b, a)
  {
    if a != [] && b != [] && a[0] == b[0] {
      assert a == [a[0]] + a[1..] && b == [b[0]] + b[1..];
      BelowTotal(a[1..], b[1..]);
    }
  }

  lemma {:induction false} BelowAsymmetric(a: string, b: string)
    ensures Below(a, b) ==> !Below(b, a)
  {
    if a != [] && b != [] && a[0] == b[0] {
      BelowAsymmetric(a[1..], b[1..]);
    }
  }

  /** Every element is below every later one: ascending with no duplicates. */
  predicate StrictlySorted(s: seq<string>) {
    forall i, j :: 0 <= i < j < |s| ==> Below(s[i], s[j])
  }

  /** No element is below an earlier one: what `sorted` promises. */
  predicate Sorted(s: seq<string>) {
    forall i, j :: 0 <= i < j < |s| ==> !Below(s[j], s[i])
  }

  predicate Distinct(s: seq<string>) {
    forall i, j :: 0 <= i < j < |s| ==> s[i] != s[j]
  }

  // ---------------------------------------------------------------------
  // pd.unique and sorted
  // ---------------------------------------------------------------------

  /** `pd.unique`: each value once, in order of first appearance. */
  function Unique(xs: seq<string>): (r: seq<string>)
    ensures Distinct(r)
    ensures forall x :: x in r <==> x in xs
  {
    if xs == [] then []
    else
      var u := Unique(xs[..|xs| - 1]);
      var x := xs[|xs| - 1];
      assert xs == xs[..|xs| - 1] + [x];
      if x in u then u else u + [x]
  }

  /** Puts `x` into the sorted list `s` after every element not above it. */
  function Insert(s: seq<string>, x: string): (r: seq<string>)
    ensures multiset(r) == multiset(s) + multiset{x}
  {
    if s == [] then [x]
    else if Below(x, s[0]) then [x] + s
    else
      assert s == [s[0]] + s[1..];
      [s[0]] + Insert(s[1..], x)
  }

  lemma {:induction false} InsertSorted(s: seq<string>, x: string)
    requires Sorted(s)
    ensures Sorted(Insert(s, x))
  {
    if s == [] {
    } else if Below(x, s[0]) {
      forall j | 0 <= j < |s| ensures !Below(s[j], x) {
        BelowTransitive(s[j], x, s[0]);
        BelowAsymmetric(x, s[0]);
      }
    } else {
      InsertSorted(s[1..], x);
      var rest := Insert(s[1..], x);
      assert Insert(s, x) == [s[0]] + rest;
      forall j | 0 <= j < |rest| ensures !Below(rest[j], s[0]) {
        var y := rest[j];
        assert y in multiset(rest);
        assert y in multiset(s[1..]) + multiset{x};
        if y != x {
          var k :| 0 <= k < |s[1..]| && s[1..][k] == y;
          assert s[k + 1] == y;
        }
      }
    }
  }

  /** `sorted(xs)`: insertion sort, element by element. */
  function Sort(xs: seq<string>): (r: seq<string>)
    ensures multiset(r) == multiset(xs)
  {
    if xs == [] then []
    else
      assert xs == xs[..|xs| - 1] + [xs[|xs| - 1]];
      Insert(Sort(xs[..|xs| - 1]), xs[|xs| - 1])
  }

  lemma {:induction false} SortSorted(xs: seq<string>)
    ensures Sorted(Sort(xs))
  {
    if xs != [] {
      SortSorted(xs[..|xs| - 1]);
      InsertSorted(Sort(xs[..|xs| - 1]), xs[|xs| - 1]);
    }
  }

  lemma {:induction false} InsertStrictlySorted(s: seq<string>, x: string)
    requires StrictlySorted(s) && x !in s
    ensures StrictlySorted(Insert(s, x))
  {
    if s == [] {
    } else if Below(x, s[0]) {
      forall j | 0 <= j < |s| ensures Below(x, s[j]) {
        BelowTransitive(x, s[0], s[j]);
      }
    } else {
      InsertStrictlySorted(s[1..], x);
      BelowTotal(x, s[0]);
      var rest := Insert(s[1..], x);
      assert Insert(s, x) == [s[0]] + rest;
      forall j | 0 <= j < |rest| ensures Below(s[0], rest[j]) {
        var y := rest[j];
        assert y in multiset(rest);
        assert y in multiset(s[1..]) + multiset{x};
        if y != x {
          var k :| 0 <= k < |s[1..]| && s[1..][k] == y;
          assert s[k + 1] == y;
        }
      }
    }
  }

  /** Sorting values that are all different gives an ascending list without repeats. */
  lemma {:induction false} SortStrictlySorted(xs: seq<string>)
    requires Distinct(xs)
    ensures StrictlySorted(Sort(xs))
  {
    if xs != [] {
      var init, x := xs[..|xs| - 1], xs[|xs| - 1];
      SortStrictlySorted(init);
      assert x !in multiset(Sort(init));
      InsertStrictlySorted(Sort(init), x);
    }
  }

  /** A strictly ascending list is determined by its elements. */
  lemma {:induction false} StrictlySortedUnique(a: seq<string>, b: seq<string>)
    requires StrictlySorted(a) && StrictlySorted(b)
    requires forall x :: x in a <==> x in b
    ensures a == b
  {
    assert a != [] ==> a[0] in b;
    assert b != [] ==> b[0] in a;
    if a != [] && b != [] {
      assert a[0] in b && b[0] in a;
      var k :| 0 <= k < |b| && b[k] == a[0];
      var m :| 0 <= m < |a| && a[m] == b[0];
      BelowAsymmetric(a[0], b[0]);
      assert a[0] == b[0] by {
        assert k == 0 || m == 0;
      }
      forall x | x in a[1..] ensures x in b[1..] {
        var i :| 0 < i < |a| && a[i] == x;
        BelowIrreflexive(x);
        assert x in b;
        var j :| 0 <= j < |b| && b[j] == x;
        assert b[1..][j - 1] == x;
      }
      forall x | x in b[1..] ensures x in a[1..] {
        var j :| 0 < j < |b| && b[j] == x;
        BelowIrreflexive(x);
        assert x in a;
        var i :| 0 <= i < |a| && a[i] == x;
        assert a[1..][i - 1] == x;
      }
      StrictlySortedUnique(a[1..], b[1..]);
      assert a == [a[0]] + a[1..] && b == [b[0]] + b[1..];
    }
  }

  lemma {:induction false} FilterDistinct(xs: seq<string>, keep: string -> bool)
    requires Distinct(xs)
    ensures Distinct(Filter(xs, keep))
  {
    if xs != [] {
      FilterDistinct(xs[1..], keep);
      assert xs[0] !in xs[1..];
    }
  }

  // ---------------------------------------------------------------------
  // The team picker list
  // ---------------------------------------------------------------------

  /** `pd.concat([rows['Home Team'], rows['Away Team']])`. */
  function TeamColumns(rows: seq<Fixture>): (names: seq<string>)
    ensures forall n :: n in names <==>
      exists row :: row in rows && (row.homeTeam == n || row.awayTeam == n)
  {
    var homes := seq(|rows|, i requires 0 <= i < |rows| => rows[i].homeTeam);
    var aways := seq(|rows|, i requires 0 <= i < |rows| => rows[i].awayTeam);
    assert forall row :: row in rows ==> row.homeTeam in homes && row.awayTeam in aways by {
      forall row | row in rows ensures row.homeTeam in homes && row.awayTeam in aways {
        var i :| 0 <= i < |rows| && rows[i] == row;
        assert homes[i] == row.homeTeam && aways[i] == row.awayTeam;
      }
    }
    homes + aways
  }

  lemma SortKeepsElements(xs: seq<string>)
    ensures forall t :: t in Sort(xs) <==> t in xs
  {
    assert forall t :: t in Sort(xs) <==> t in multiset(Sort(xs));
  }

  /** The names offered in the picker, before sorting: unique, without "[BYE]". */
  function PickerNames(divisionRows: seq<Fixture>): (names: seq<string>)
    ensures Distinct(names)
    ensures forall t :: t in names <==> t != Bye && t in TeamColumns(divisionRows)
  {
    FilterDistinct(Unique(TeamColumns(divisionRows)), (n: string) => n != Bye);
    Filter(Unique(TeamColumns(divisionRows)), (n: string) => n != Bye)
  }

  /**
   * The team picker list of a division: the distinct Home and Away team
   * names, without "[BYE]", in ascending order.
   */
  function TeamList(divisionRows: seq<Fixture>): (teams: seq<string>)
    ensures Bye !in teams
    ensures StrictlySorted(teams)
    ensures forall t :: t in teams <==>
      (t != Bye && exists row :: row in divisionRows && (row.homeTeam == t || row.awayTeam == t))
  {
    var names := PickerNames(divisionRows);
    SortStrictlySorted(names);
    SortKeepsElements(names);
    Sort(names)
  }
}
