/**
 * Team-name abbreviation: `abbreviate_team_name` rewrites the five long club
 * names of the Hong Kong squash league into their initialisms, one
 * `str.replace` per table entry, in the table's declaration order.
 */
module TeamNames {

  import opened Wrappers

  // ---------------------------------------------------------------------
  // Substrings and Python's str.replace
  // ---------------------------------------------------------------------

  /** `p` occurs in `s` starting at index `k`. */
  predicate MatchAt(s: string, p: string, k: nat) {
    k + |p| <= |s| && s[k..k + |p|] == p
  }

  /** `p` is a substring of `s` (Python's `p in s`). */
  predicate Occurs(p: string, s: string) {
    exists k: nat | k <= |s| :: MatchAt(s, p, k)
  }

  /** The leftmost index at or after `from` where `p` occurs in `s`. */
  function FindFrom(s: string, p: string, from: nat): (r: Option<nat>)
    requires |p| > 0
    decreases |s| - from
    ensures r.Some? ==> from <= r.value && MatchAt(s, p, r.value)
    ensures forall k: nat :: from <= k && (r.None? || k < r.value) ==> !MatchAt(s, p, k)
  {
    if |s| < from + |p| then None
    else if s[from..from + |p|] == p then Some(from)
    else FindFrom(s, p, from + 1)
  }

  /**
   * `s.replace("", rep)`: `rep` before every character and at the end.
   */
  function InsertEverywhere(s: string, rep: string): (r: string)
    ensures |r| == |s| + (|s| + 1) * |rep|
    ensures r[..|rep|] == rep
  {
    if s == [] then rep else rep + [s[0]] + InsertEverywhere(s[1..], rep)
  }

  /**
   * `s.replace(p, rep)` from index `from` on: copies up to the next
   * occurrence of `p`, writes `rep` in its place and resumes the scan just
   * after it, so occurrences are replaced left to right without overlapping.
   */
  function ReplaceFrom(s: string, p: string, rep: string, from: nat): (r: string)
    requires |p| > 0 && from <= |s|
    decreases |s| - from
    ensures |rep| <= |p| ==> |r| <= |s| - from
    ensures |rep| == |p| ==> |r| == |s| - from
    ensures |rep| >= |p| ==> |r| >= |s| - from
  {
    match FindFrom(s, p, from)
    case None => s[from..]
    case Some(i) => s[from..i] + rep + ReplaceFrom(s, p, rep, i + |p|)
  }

  /** `s.replace(p, rep)`: every non-overlapping occurrence of `p`, scanning left to right. */
  function ReplaceAll(s: string, p: string, rep: string): (r: string)
    ensures p == [] ==> |r| == |s| + (|s| + 1) * |rep|
    ensures p != [] && |rep| <= |p| ==> |r| <= |s|
    ensures p != [] && |rep| == |p| ==> |r| == |s|
  {
    if p == [] then InsertEverywhere(s, rep) else ReplaceFrom(s, p, rep, 0)
  }

  /** A string in which the key does not occur is returned as it is. */
  lemma ReplaceAbsent(s: string, p: string, rep: string)
    ensures !Occurs(p, s) ==> ReplaceAll(s, p, rep) == s
  {
    if p == [] {
      assert MatchAt(s, p, 0);
    } else if FindFrom(s, p, 0).Some? {
      assert MatchAt(s, p, FindFrom(s, p, 0).value);
    } else {
      assert s[0..] == s;
    }
  }

  // ---------------------------------------------------------------------
  // Why no name can be spliced together across an initialism
  // ---------------------------------------------------------------------

  predicate IsUpper(c: char) { 'A' <= c <= 'Z' }

  /** At least two characters, all of them capital letters ("HKFC"). */
  predicate Initialism(a: string) {
    |a| >= 2 && forall k :: 0 <= k < |a| ==> IsUpper(a[k])
  }

  /** Capitals at `j` and at `j + 1`. */
  predicate CapitalPairAt(f: string, j: int) {
    0 <= j && j + 1 < |f| && IsUpper(f[j]) && IsUpper(f[j + 1])
  }

  /** Capitalised words: never two capitals in a row, and no capital at the end. */
  predicate WordCased(f: string) {
    && |f| >= 1
    && !IsUpper(f[|f| - 1])
    && forall j :: 0 <= j < |f| ==> !CapitalPairAt(f, j)
  }

  /** An occurrence of `f` can never overlap an inserted copy of `a`. */
  predicate CannotStraddle(f: string, a: string) {
    Initialism(a) && WordCased(f) && f[0] != a[|a| - 1]
  }

  /** An occurrence inside a slice is an occurrence in the whole. */
  lemma OccursInSlice(f: string, s: string, lo: nat, hi: nat)
    requires lo <= hi <= |s|
    ensures Occurs(f, s[lo..hi]) ==> Occurs(f, s)
  {
    if Occurs(f, s[lo..hi]) {
      var k: nat :| k <= hi - lo && MatchAt(s[lo..hi], f, k);
      assert k + |f| <= hi - lo;
      assert s[lo + k..lo + k + |f|] == f by {
        forall j | 0 <= j < |f| ensures s[lo + k + j] == f[j] {
          assert f[j] == s[lo..hi][k..k + |f|][j];
        }
      }
      assert MatchAt(s, f, lo + k);
    }
  }

  /** `s[i]`, or a space when `i` is out of range. */
  function CharAt(s: string, i: int): char {
    if 0 <= i < |s| then s[i] else ' '
  }

  /** The characters of a match are the characters of the pattern. */
  lemma MatchCharAt(s: string, f: string, k: nat, j: int)
    ensures MatchAt(s, f, k) && 0 <= j < |f| ==> CharAt(s, k + j) == CharAt(f, j)
  {
    if MatchAt(s, f, k) && 0 <= j < |f| {
      assert s[k..k + |f|][j] == s[k + j];
    }
  }

  /** The characters of `x + a + y` between `|x|` and `|x| + |a|` are those of `a`. */
  lemma MiddleCharAt(x: string, a: string, y: string, i: int)
    ensures |x| <= i < |x| + |a| ==> CharAt(x + a + y, i) == CharAt(a, i - |x|)
  {
  }

  /** A match of `f` in `x + a + y` lies wholly before `a` or wholly after it. */
  lemma NoOverlap(f: string, x: string, a: string, y: string, k: nat)
    requires CannotStraddle(f, a)
    requires MatchAt(x + a + y, f, k)
    ensures k + |f| <= |x| || |x| + |a| <= k
  {
    var s := x + a + y;
    var n, m := |x|, |a|;
    // Where the occurrence would meet `a`: from position lo of `s` on.
    var overlap := n < k + |f| && k < n + m;
    var lo := if k < n then n else k;
    MatchCharAt(s, f, k, lo - k);
    MiddleCharAt(x, a, y, lo);
    MatchCharAt(s, f, k, lo - k + 1);
    MiddleCharAt(x, a, y, lo + 1);
    MatchCharAt(s, f, k, |f| - 1);
    MiddleCharAt(x, a, y, k + |f| - 1);
    assert overlap && k + |f| <= n + m ==> IsUpper(CharAt(f, |f| - 1));
    assert overlap && lo + 1 < n + m && lo + 1 < k + |f| ==>
      IsUpper(CharAt(f, lo - k)) && IsUpper(CharAt(f, lo - k + 1)) && CapitalPairAt(f, lo - k);
    assert overlap && lo + 1 == n + m ==> lo == k && CharAt(f, 0) == CharAt(a, m - 1);
  }

  /** An occurrence of `f` in `x + a + y` cannot overlap `a`. */
  lemma SpliceForward(f: string, x: string, a: string, y: string)
    requires CannotStraddle(f, a)
    requires Occurs(f, x + a + y)
    ensures Occurs(f, x) || Occurs(f, y)
  {
    var s := x + a + y;
    var k: nat :| k <= |s| && MatchAt(s, f, k);
    var n, m := |x|, |a|;
    NoOverlap(f, x, a, y, k);
    if k + |f| <= n {
      assert s[..n] == x;
      assert s[k..k + |f|] == s[..n][k..k + |f|];
      assert MatchAt(x, f, k);
    } else {
      assert s[n + m..] == y;
      assert s[k..k + |f|] == s[n + m..][k - n - m..k - n - m + |f|];
      assert MatchAt(y, f, k - n - m);
    }
  }

  /**
   * Splicing an initialism between two strings neither creates nor destroys
   * an occurrence of `f`: it occurs in `x + a + y` exactly when it occurs in
   * `x` or in `y`.
   */
  lemma SpliceFree(f: string, x: string, a: string, y: string)
    requires CannotStraddle(f, a)
    ensures Occurs(f, x + a + y) <==> Occurs(f, x) || Occurs(f, y)
  {
    var s := x + a + y;
    assert s[0..|x|] == x;
    assert s[|x| + |a|..|s|] == y;
    OccursInSlice(f, s, 0, |x|);
    OccursInSlice(f, s, |x| + |a|, |s|);
    if Occurs(f, s) {
      SpliceForward(f, x, a, y);
    }
  }

  /** `f` occurs around an inserted `a` only where it occurs on one side of it. */
  ghost predicate Unspliceable(f: string, a: string) {
    forall x, y :: Occurs(f, x + a + y) ==> Occurs(f, x) || Occurs(f, y)
  }

  lemma SpliceFreeEverywhere(f: string, a: string)
    requires CannotStraddle(f, a)
    ensures Unspliceable(f, a)
  {
    forall x, y | Occurs(f, x + a + y)
      ensures Occurs(f, x) || Occurs(f, y)
    {
      SpliceFree(f, x, a, y);
    }
  }

  /** The scan from `from` finds nothing: the rest is copied, and holds no key. */
  lemma ReplaceNotFound(s: string, p: string, rep: string, from: nat)
    requires |p| > 0 && from <= |s| && FindFrom(s, p, from).None?
    ensures ReplaceFrom(s, p, rep, from) == s[from..] && !Occurs(p, s[from..])
  {
    if Occurs(p, s[from..]) {
      var k: nat :| k <= |s| - from && MatchAt(s[from..], p, k);
      assert s[from..][k..k + |p|] == s[from + k..from + k + |p|];
      assert MatchAt(s, p, from + k);
    }
  }

  /** The scan from `from` finds `p` at `i`: the text before it, `rep`, and the scan after it. */
  lemma ReplaceFound(s: string, p: string, rep: string, from: nat, i: nat)
    requires |p| > 0 && from <= |s| && FindFrom(s, p, from) == Some(i)
    ensures from <= i && i + |p| <= |s|
    ensures ReplaceFrom(s, p, rep, from) == s[from..i] + rep + ReplaceFrom(s, p, rep, i + |p|)
  {
  }

  /** No occurrence of `p` starts between `from` and the first one found, so none lies there. */
  lemma NoMatchBeforeFirst(s: string, p: string, from: nat, i: nat)
    requires |p| > 0 && from <= |s| && FindFrom(s, p, from) == Some(i)
    ensures !Occurs(p, s[from..i])
  {
    if Occurs(p, s[from..i]) {
      var k: nat :| k <= i - from && MatchAt(s[from..i], p, k);
      assert s[from..i][k..k + |p|] == s[from + k..from + k + |p|];
      assert MatchAt(s, p, from + k);
    }
  }

  /** The scan can only bring in `f` through `rep`, and `rep` cannot supply it. */
  lemma {:induction false} ReplaceFromKeepsOut(f: string, s: string, p: string, rep: string, from: nat)
    requires |p| > 0 && from <= |s| && Unspliceable(f, rep)
    requires !Occurs(f, s)
    ensures !Occurs(f, ReplaceFrom(s, p, rep, from))
    decreases |s| - from
  {
    var found := FindFrom(s, p, from);
    if found.None? {
      ReplaceNotFound(s, p, rep, from);
      OccursInSlice(f, s, from, |s|);
      assert s[from..|s|] == s[from..];
    } else {
      var i := found.value;
      ReplaceFound(s, p, rep, from, i);
      var y := ReplaceFrom(s, p, rep, i + |p|);
      OccursInSlice(f, s, from, i);
      ReplaceFromKeepsOut(f, s, p, rep, i + |p|);
      assert !Occurs(f, s[from..i] + rep + y);
    }
  }

  /** The scan from `from` leaves no occurrence of `p` behind. */
  lemma {:induction false} ReplaceFromRemovesAll(s: string, p: string, rep: string, from: nat)
    requires |p| > 0 && from <= |s| && Unspliceable(p, rep)
    ensures !Occurs(p, ReplaceFrom(s, p, rep, from))
    decreases |s| - from
  {
    var found := FindFrom(s, p, from);
    if found.None? {
      ReplaceNotFound(s, p, rep, from);
    } else {
      var i := found.value;
      ReplaceFound(s, p, rep, from, i);
      var y := ReplaceFrom(s, p, rep, i + |p|);
      NoMatchBeforeFirst(s, p, from, i);
      ReplaceFromRemovesAll(s, p, rep, i + |p|);
      assert !Occurs(p, s[from..i] + rep + y);
    }
  }

  /** Replacing a key brings in no `f` that was not there already. */
  lemma ReplaceKeepsOut(f: string, s: string, p: string, rep: string)
    requires |p| > 0 && Unspliceable(f, rep)
    requires !Occurs(f, s)
    ensures !Occurs(f, ReplaceAll(s, p, rep))
  {
    ReplaceFromKeepsOut(f, s, p, rep, 0);
  }

  /** After `s.replace(p, rep)` no occurrence of `p` is left. */
  lemma ReplaceRemovesAll(s: string, p: string, rep: string)
    requires |p| > 0 && Unspliceable(p, rep)
    ensures !Occurs(p, ReplaceAll(s, p, rep))
  {
    ReplaceFromRemovesAll(s, p, rep, 0);
  }

  // ---------------------------------------------------------------------
  // The abbreviation table and abbreviate_team_name
  // ---------------------------------------------------------------------

  datatype Abbreviation = Abbreviation(fullName: string, short: string)

  const HongKongFootballClub := Abbreviation("Hong Kong Football Club", "HKFC")
  const HongKongCricketClub := Abbreviation("Hong Kong Cricket Club", "HKCC")
  const KowloonCricketClub := Abbreviation("Kowloon Cricket Club", "KCC")
  const LadiesRecreationClub := Abbreviation("Ladies Recreation Club", "LRC")
  const UnitedServicesRecreationClub := Abbreviation("United Services Recreation Club", "USRC")

  /** The table in its declaration order. */
  const Abbreviations: seq<Abbreviation> := [
    HongKongFootballClub,
    HongKongCricketClub,
    KowloonCricketClub,
    LadiesRecreationClub,
    UnitedServicesRecreationClub
  ]

  /** No full name of the table can arise around any abbreviation of the table. */
  predicate SpliceFreeTable(table: seq<Abbreviation>) {
    forall j, k :: 0 <= j < |table| && 0 <= k < |table| ==>
      CannotStraddle(table[j].fullName, table[k].short)
  }

  /** None of the table's full names occurs in `s`. */
  predicate NoFullName(s: string, table: seq<Abbreviation>) {
    forall k :: 0 <= k < |table| ==> !Occurs(table[k].fullName, s)
  }

  /** The entries of `table` applied to `name` one after the other, first entry first. */
  function ApplyTable(name: string, table: seq<Abbreviation>): string
  {
    if table == [] then name
    else
      var last := table[|table| - 1];
      ReplaceAll(ApplyTable(name, table[..|table| - 1]), last.fullName, last.short)
  }

  /** `abbreviate_team_name` as a value. */
  function Abbreviate(name: string): string {
    ApplyTable(name, Abbreviations)
  }

  /** The shape of every entry: capitalised words mapped to capitals ending in 'C'. */
  predicate EntryShape(e: Abbreviation) {
    && WordCased(e.fullName) && e.fullName[0] != 'C'
    && Initialism(e.short) && e.short[|e.short| - 1] == 'C'
  }

  lemma HongKongFootballClubShape() ensures EntryShape(HongKongFootballClub) {}
  lemma HongKongCricketClubShape() ensures EntryShape(HongKongCricketClub) {}
  lemma KowloonCricketClubShape() ensures EntryShape(KowloonCricketClub) {}
  lemma LadiesRecreationClubShape() ensures EntryShape(LadiesRecreationClub) {}
  lemma UnitedServicesRecreationClubShape() ensures EntryShape(UnitedServicesRecreationClub) {}

  lemma TableFacts()
    ensures SpliceFreeTable(Abbreviations)
  {
    HongKongFootballClubShape();
    HongKongCricketClubShape();
    KowloonCricketClubShape();
    LadiesRecreationClubShape();
    UnitedServicesRecreationClubShape();
    assert forall k :: 0 <= k < |Abbreviations| ==> EntryShape(Abbreviations[k]);
  }

  /** Every entry replaces a non-empty full name by a text no longer than it. */
  predicate Shortening(table: seq<Abbreviation>) {
    forall k :: 0 <= k < |table| ==>
      0 < |table[k].fullName| && |table[k].short| <= |table[k].fullName|
  }

  /** Folding shortening replacements over a name never lengthens it. */
  lemma {:induction false} ApplyTableShortens(name: string, table: seq<Abbreviation>)
    requires Shortening(table)
    ensures |ApplyTable(name, table)| <= |name|
  {
    if table != [] {
      var init := table[..|table| - 1];
      assert Shortening(init) by {
        forall k | 0 <= k < |init|
          ensures 0 < |init[k].fullName| && |init[k].short| <= |init[k].fullName|
        {
          assert init[k] == table[k];
        }
      }
      ApplyTableShortens(name, init);
    }
  }

  /** An abbreviated name is never longer than the name. */
  lemma AbbreviateShortens(name: string)
    ensures |Abbreviate(name)| <= |name|
  {
    assert Shortening(Abbreviations);
    ApplyTableShortens(name, Abbreviations);
  }

  /** A name holding no full club name is left as it is. */
  lemma {:induction false} ApplyTableUnchanged(name: string, table: seq<Abbreviation>)
    requires NoFullName(name, table)
    ensures ApplyTable(name, table) == name
  {
    if table != [] {
      var init := table[..|table| - 1];
      assert NoFullName(name, init) by {
        forall k | 0 <= k < |init| ensures !Occurs(init[k].fullName, name) {
          assert init[k] == table[k];
        }
      }
      ApplyTableUnchanged(name, init);
      ReplaceAbsent(name, table[|table| - 1].fullName, table[|table| - 1].short);
    }
  }

  /** After the whole table has been applied, no full name of the table is left. */
  lemma {:induction false} ApplyTableClears(name: string, table: seq<Abbreviation>)
    requires SpliceFreeTable(table)
    ensures NoFullName(ApplyTable(name, table), table)
  {
    if table != [] {
      var init := table[..|table| - 1];
      var last := table[|table| - 1];
      assert SpliceFreeTable(init) by {
        forall j, k | 0 <= j < |init| && 0 <= k < |init|
          ensures CannotStraddle(init[j].fullName, init[k].short)
        {
          assert init[j] == table[j] && init[k] == table[k];
        }
      }
      ApplyTableClears(name, init);
      var before := ApplyTable(name, init);
      forall k | 0 <= k < |table|
        ensures !Occurs(table[k].fullName, ReplaceAll(before, last.fullName, last.short))
      {
        SpliceFreeEverywhere(table[k].fullName, last.short);
        if k == |table| - 1 {
          ReplaceRemovesAll(before, last.fullName, last.short);
        } else {
          assert init[k] == table[k];
          ReplaceKeepsOut(table[k].fullName, before, last.fullName, last.short);
        }
      }
    }
  }

  /** A name without any of the five full club names comes back unchanged. */
  lemma AbbreviateUnchanged(name: string)
    requires NoFullName(name, Abbreviations)
    ensures Abbreviate(name) == name
  {
    ApplyTableUnchanged(name, Abbreviations);
  }

  /** Every occurrence of every full club name has been replaced. */
  lemma AbbreviateClears(name: string)
    ensures NoFullName(Abbreviate(name), Abbreviations)
  {
    TableFacts();
    ApplyTableClears(name, Abbreviations);
  }

  /** Abbreviating an abbreviated name changes nothing. */
  lemma AbbreviateIdempotent(name: string)
    ensures Abbreviate(Abbreviate(name)) == Abbreviate(name)
  {
    AbbreviateClears(name);
    AbbreviateUnchanged(Abbreviate(name));
  }

  /**
   * `abbreviate_team_name`: rebinds the name once per table entry, in
   * declaration order.
   */
  method AbbreviateTeamName(teamName: string) returns (r: string)
    ensures r == Abbreviate(teamName)
    ensures NoFullName(r, Abbreviations)
    ensures NoFullName(teamName, Abbreviations) ==> r == teamName
  {
    r := teamName;
    var i := 0;
    while i < |Abbreviations|
      invariant 0 <= i <= |Abbreviations|
      invariant r == ApplyTable(teamName, Abbreviations[..i])
    {
      var entry := Abbreviations[i];
      assert Abbreviations[..i + 1][..i] == Abbreviations[..i];
      r := ReplaceAll(r, entry.fullName, entry.short);
      i := i + 1;
    }
    assert Abbreviations[..i] == Abbreviations;
    AbbreviateClears(teamName);
    if NoFullName(teamName, Abbreviations) {
      AbbreviateUnchanged(teamName);
    }
  }

  /** A string shorter than the key has nothing to replace. */
  lemma ReplaceInShorter(s: string, p: string, rep: string)
    requires 0 < |p| && |s| < |p|
    ensures ReplaceAll(s, p, rep) == s
  {
  }

  /** A string that is exactly the key becomes exactly the replacement. */
  lemma ReplaceWhole(p: string, rep: string)
    requires 0 < |p|
    ensures ReplaceAll(p, p, rep) == rep
  {
    assert p[0..|p|] == p;
    ReplaceFound(p, p, rep, 0, 0);
    ReplaceNotFound(p, p, rep, |p|);
    assert p[0..0] == [] && p[|p|..] == [];
  }

  /** One more entry at the end of the table: one more replacement, applied last. */
  lemma ApplyTableSnoc(name: string, table: seq<Abbreviation>, e: Abbreviation)
    ensures ApplyTable(name, table + [e]) == ReplaceAll(ApplyTable(name, table), e.fullName, e.short)
  {
    assert (table + [e])[..|table|] == table;
  }

  /** `abbreviate_team_name` written out as its five replacements in declaration order. */
  lemma AbbreviateUnrolled(name: string)
    ensures Abbreviate(name) ==
      ReplaceAll(ReplaceAll(ReplaceAll(ReplaceAll(ReplaceAll(name,
        HongKongFootballClub.fullName, HongKongFootballClub.short),
        HongKongCricketClub.fullName, HongKongCricketClub.short),
        KowloonCricketClub.fullName, KowloonCricketClub.short),
        LadiesRecreationClub.fullName, LadiesRecreationClub.short),
        UnitedServicesRecreationClub.fullName, UnitedServicesRecreationClub.short)
  {
    var t1 := [] + [HongKongFootballClub];
    var t2 := t1 + [HongKongCricketClub];
    var t3 := t2 + [KowloonCricketClub];
    var t4 := t3 + [LadiesRecreationClub];
    var t5 := t4 + [UnitedServicesRecreationClub];
    assert t5 == Abbreviations;
    ApplyTableSnoc(name, [], HongKongFootballClub);
    ApplyTableSnoc(name, t1, HongKongCricketClub);
    ApplyTableSnoc(name, t2, KowloonCricketClub);
    ApplyTableSnoc(name, t3, LadiesRecreationClub);
    ApplyTableSnoc(name, t4, UnitedServicesRecreationClub);
  }

  /** The first entry's full name: replaced by the first step, then too short for the others. */
  lemma AbbreviateHongKongFootballClub()
    ensures Abbreviate("Hong Kong Football Club") == "HKFC"
  {
    AbbreviateUnrolled("Hong Kong Football Club");
    ReplaceWhole("Hong Kong Football Club", "HKFC");
    ReplaceInShorter("HKFC", "Hong Kong Cricket Club", "HKCC");
    ReplaceInShorter("HKFC", "Kowloon Cricket Club", "KCC");
    ReplaceInShorter("HKFC", "Ladies Recreation Club", "LRC");
    ReplaceInShorter("HKFC", "United Services Recreation Club", "USRC");
  }

  /** The third entry's full name: the two longer names before it do not fit inside it. */
  lemma AbbreviateKowloonCricketClub()
    ensures Abbreviate("Kowloon Cricket Club") == "KCC"
  {
    AbbreviateUnrolled("Kowloon Cricket Club");
    ReplaceInShorter("Kowloon Cricket Club", "Hong Kong Football Club", "HKFC");
    ReplaceInShorter("Kowloon Cricket Club", "Hong Kong Cricket Club", "HKCC");
    ReplaceWhole("Kowloon Cricket Club", "KCC");
    ReplaceInShorter("KCC", "Ladies Recreation Club", "LRC");
    ReplaceInShorter("KCC", "United Services Recreation Club", "USRC");
  }
}
