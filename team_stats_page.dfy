/**
 * `TeamStatsPage`: reading the standings table into teams, and splitting them
 * by conference. A row of the table is the text of its three cells, as
 * `findElement(...).getText()` yields them; a cell that is not there is `None`.
 */
module TeamStatsPage {
  import opened Wrappers
  import opened JavaStrings
  import opened JavaIntegers
  import opened TeamTables
  import opened TestDataHelper
  import opened Models

  /** The team-name, wins and losses cells of one row of the standings table. */
  datatype Row = Row(nameCell: Option<string>, winsCell: Option<string>, lossesCell: Option<string>)

  /** The conference `determineConference` gives `name` with the tables `tb`. */
  ghost function ConferenceOf(tb: Tables, o: IterationOrder, name: string): (c: string)
    requires WellFormed(tb) && IsIterationOrder(tb, o)
    ensures Conference(tb, o, Some(name)) == Some(c)
    ensures c == Eastern || c == Western || c == Unknown
  {
    ResultIsAConference(tb, o, Some(name));
    Conference(tb, o, Some(name)).value
  }

  /** One pass of the loop body: the team a row yields, or `None` when the body throws and the row is skipped. */
  ghost function ParseRow(tb: Tables, o: IterationOrder, row: Row): Option<Team>
    requires WellFormed(tb) && IsIterationOrder(tb, o)
  {
    if row.nameCell.None? || row.winsCell.None? || row.lossesCell.None? then None
    else
      var name := Trim(row.nameCell.value);
      var wins := ParseInt(Trim(row.winsCell.value));
      var losses := ParseInt(Trim(row.lossesCell.value));
      if wins.None? || losses.None? then None
      else Some(Team(name, ConferenceOf(tb, o, name), wins.value, losses.value))
  }

  /** The outcome of the loop body for each row, in row order. */
  ghost function ParsedRows(tb: Tables, o: IterationOrder, rows: seq<Row>): (rs: seq<Option<Team>>)
    requires WellFormed(tb) && IsIterationOrder(tb, o)
    ensures |rs| == |rows| && forall i | 0 <= i < |rows| :: rs[i] == ParseRow(tb, o, rows[i])
  {
    seq(|rows|, i requires 0 <= i < |rows| => ParseRow(tb, o, rows[i]))
  }

  /** The teams among a sequence of outcomes, in order; a skipped row adds none. */
  function Present(rs: seq<Option<Team>>): seq<Team> {
    if rs == [] then []
    else
      var last := rs[|rs| - 1];
      Present(rs[..|rs| - 1]) + (if last.Some? then [last.value] else [])
  }

  /** The teams `getAllTeams` collects from `rows`, in row order. */
  ghost function KeptTeams(tb: Tables, o: IterationOrder, rows: seq<Row>): seq<Team>
    requires WellFormed(tb) && IsIterationOrder(tb, o)
  {
    Present(ParsedRows(tb, o, rows))
  }

  /** One pass of the loop body of `getAllTeams`, whose `catch` turns every exception into a skipped row. */
  method ReadRow(o: IterationOrder, row: Row) returns (r: Option<Team>)
    requires IsIterationOrder(Standard, o)
    ensures (StandardIsWellFormed(); r == ParseRow(Standard, o, row))
  {
    StandardIsWellFormed();
    if row.nameCell.None? || row.winsCell.None? || row.lossesCell.None? {
      return None;
    }
    var teamName := Trim(row.nameCell.value);
    var winsText := Trim(row.winsCell.value);
    var lossesText := Trim(row.lossesCell.value);
    var wins := ParseInt(winsText);
    var losses := ParseInt(lossesText);
    if wins.None? || losses.None? {
      return None;
    }
    var conference := DetermineConference(Standard, o, Some(teamName));
    assert conference == Some(ConferenceOf(Standard, o, teamName));
    return Some(Team(teamName, conference.value, wins.value, losses.value));
  }

  /** One more row of the loop: the outcome of row `i` is appended to the teams of the rows before it. */
  lemma AppendOutcome(rs: seq<Option<Team>>, i: nat)
    requires i <= |rs|
    ensures i < |rs| ==> Present(rs[..i + 1]) == Present(rs[..i]) + (if rs[i].Some? then [rs[i].value] else [])
    ensures i == |rs| ==> Present(rs[..i]) == Present(rs)
  {
    if i < |rs| {
      assert rs[..i + 1][..i] == rs[..i];
    } else {
      assert rs[..i] == rs;
    }
  }

  /** `getAllTeams`: every row is tried, and a row whose body throws is skipped. */
  method GetAllTeams(o: IterationOrder, rows: seq<Row>) returns (teams: seq<Team>)
    requires IsIterationOrder(Standard, o)
    ensures (StandardIsWellFormed(); teams == KeptTeams(Standard, o, rows))
  {
    StandardIsWellFormed();
    ghost var rs := ParsedRows(Standard, o, rows);
    teams := [];
    for i := 0 to |rows|
      invariant teams == Present(rs[..i])
    {
      var team := ReadRow(o, rows[i]);
      assert team == rs[i];
      AppendOutcome(rs, i);
      if team.Some? {
        teams := teams + [team.value];
      }
    }
    AppendOutcome(rs, |rows|);
  }

  /** The teams of `teams` whose conference equals `c` ignoring case, in their order. */
  function InConference(teams: seq<Team>, c: string): (r: seq<Team>)
    ensures |r| <= |teams|
  {
    if teams == [] then []
    else
      var last := teams[|teams| - 1];
      InConference(teams[..|teams| - 1], c) + (if EqualsIgnoreCase(last.conference, c) then [last] else [])
  }

  /** One more team of the loop: team `i` is appended to the list it belongs to. */
  lemma InConferenceStep(teams: seq<Team>, i: nat, c: string)
    requires i <= |teams|
    ensures i < |teams| ==>
      InConference(teams[..i + 1], c) == InConference(teams[..i], c) + (if EqualsIgnoreCase(teams[i].conference, c) then [teams[i]] else [])
    ensures i == |teams| ==> InConference(teams[..i], c) == InConference(teams, c)
  {
    if i < |teams| {
      assert teams[..i + 1][..i] == teams[..i];
    } else {
      assert teams[..i] == teams;
    }
  }

  /** The loop of `getTeamsByConferenceNames`: each team goes to every list whose conference it equals ignoring case. */
  method SplitByConference(allTeams: seq<Team>) returns (westernTeams: seq<Team>, easternTeams: seq<Team>)
    ensures westernTeams == InConference(allTeams, Western)
    ensures easternTeams == InConference(allTeams, Eastern)
  {
    westernTeams := [];
    easternTeams := [];
    for i := 0 to |allTeams|
      invariant westernTeams == InConference(allTeams[..i], Western)
      invariant easternTeams == InConference(allTeams[..i], Eastern)
    {
      var team := allTeams[i];
      if EqualsIgnoreCase(team.conference, Western) {
        westernTeams := westernTeams + [team];
      }
      if EqualsIgnoreCase(team.conference, Eastern) {
        easternTeams := easternTeams + [team];
      }
      InConferenceStep(allTeams, i, Western);
      InConferenceStep(allTeams, i, Eastern);
    }
    InConferenceStep(allTeams, |allTeams|, Western);
    InConferenceStep(allTeams, |allTeams|, Eastern);
  }

  /** `getTeamsByConferenceNames`: the teams of `getAllTeams`, split into a Western and an Eastern list. */
  method GetTeamsByConferenceNames(o: IterationOrder, rows: seq<Row>) returns (m: map<string, seq<Team>>)
    requires IsIterationOrder(Standard, o)
    ensures (StandardIsWellFormed(); m.Keys == {Western, Eastern})
    ensures (StandardIsWellFormed(); m[Western] == InConference(KeptTeams(Standard, o, rows), Western))
    ensures (StandardIsWellFormed(); m[Eastern] == InConference(KeptTeams(Standard, o, rows), Eastern))
  {
    var allTeams := GetAllTeams(o, rows);
    var westernTeams, easternTeams := SplitByConference(allTeams);
    m := map[Western := westernTeams, Eastern := easternTeams];
  }

  // ---------------------------------------------------------------------------
  // Properties of getAllTeams
  // ---------------------------------------------------------------------------

  /** The teams of `a + b` are the teams of `a`, then those of `b`. */
  lemma {:induction false} PresentAppend(a: seq<Option<Team>>, b: seq<Option<Team>>)
    ensures Present(a + b) == Present(a) + Present(b)
    decreases |b|
  {
    if b == [] {
      assert a + b == a;
    } else {
      var front := b[..|b| - 1];
      PresentAppend(a, front);
      assert (a + b)[..|a + b| - 1] == a + front;
    }
  }

  lemma {:induction false} PresentMembership(rs: seq<Option<Team>>, t: Team)
    ensures t in Present(rs) <==> exists i | 0 <= i < |rs| :: rs[i] == Some(t)
  {
    if rs != [] {
      var front := rs[..|rs| - 1];
      PresentMembership(front, t);
      if exists i | 0 <= i < |front| :: front[i] == Some(t) {
        var i :| 0 <= i < |front| && front[i] == Some(t);
        assert rs[i] == front[i];
      }
      if exists i | 0 <= i < |rs| :: rs[i] == Some(t) {
        var i :| 0 <= i < |rs| && rs[i] == Some(t);
        if i < |front| {
          assert front[i] == rs[i];
        }
      }
    }
  }

  lemma {:induction false} PresentCount(rs: seq<Option<Team>>)
    ensures |Present(rs)| <= |rs|
    ensures |Present(rs)| == |rs| <==> forall i | 0 <= i < |rs| :: rs[i].Some?
  {
    if rs != [] {
      var front := rs[..|rs| - 1];
      PresentCount(front);
      assert forall i | 0 <= i < |front| :: front[i] == rs[i];
    }
  }

  /** The pass never aborts: the rows of `a + b` yield the teams of `a`, then those of `b`. */
  lemma KeptTeamsAppend(tb: Tables, o: IterationOrder, a: seq<Row>, b: seq<Row>)
    requires WellFormed(tb) && IsIterationOrder(tb, o)
    ensures KeptTeams(tb, o, a + b) == KeptTeams(tb, o, a) + KeptTeams(tb, o, b)
  {
    var whole, left, right := ParsedRows(tb, o, a + b), ParsedRows(tb, o, a), ParsedRows(tb, o, b);
    forall i | 0 <= i < |whole| ensures whole[i] == (left + right)[i] {
      if i < |a| {
        assert (a + b)[i] == a[i];
      } else {
        assert (a + b)[i] == b[i - |a|];
      }
    }
    assert whole == left + right;
    PresentAppend(left, right);
  }

  /** A team is kept exactly when some row yields it. */
  lemma KeptTeamsMembership(tb: Tables, o: IterationOrder, rows: seq<Row>, t: Team)
    requires WellFormed(tb) && IsIterationOrder(tb, o)
    ensures t in KeptTeams(tb, o, rows) <==> exists i | 0 <= i < |rows| :: ParseRow(tb, o, rows[i]) == Some(t)
  {
    PresentMembership(ParsedRows(tb, o, rows), t);
  }

  /** There are no more teams than rows, and as many exactly when every row yields one. */
  lemma KeptTeamsCount(tb: Tables, o: IterationOrder, rows: seq<Row>)
    requires WellFormed(tb) && IsIterationOrder(tb, o)
    ensures |KeptTeams(tb, o, rows)| <= |rows|
    ensures |KeptTeams(tb, o, rows)| == |rows| <==> forall i | 0 <= i < |rows| :: ParseRow(tb, o, rows[i]).Some?
  {
    PresentCount(ParsedRows(tb, o, rows));
  }

  /** A row is skipped exactly when a cell is missing or its wins or losses text is no 32-bit integer. */
  lemma ParseRowSkips(tb: Tables, o: IterationOrder, row: Row)
    requires WellFormed(tb) && IsIterationOrder(tb, o)
    ensures ParseRow(tb, o, row).None? <==>
      row.nameCell.None? || row.winsCell.None? || row.lossesCell.None?
      || !IsIntegerText(Trim(row.winsCell.value)) || !InIntRange(TextValue(Trim(row.winsCell.value)))
      || !IsIntegerText(Trim(row.lossesCell.value)) || !InIntRange(TextValue(Trim(row.lossesCell.value)))
  {
    if row.nameCell.Some? && row.winsCell.Some? && row.lossesCell.Some? {
      ParseIntFails(Trim(row.winsCell.value));
      ParseIntFails(Trim(row.lossesCell.value));
    }
  }

  /**
   * A kept team's name is the trimmed name cell, its conference is what
   * `determineConference` gives that name, and its wins and losses are the
   * numbers its cells denote.
   */
  lemma KeptTeamFields(tb: Tables, o: IterationOrder, row: Row, t: Team)
    requires WellFormed(tb) && IsIterationOrder(tb, o)
    requires ParseRow(tb, o, row) == Some(t)
    ensures row.nameCell.Some? && t.name == Trim(row.nameCell.value) && IsTrimmed(t.name)
    ensures Conference(tb, o, Some(t.name)) == Some(t.conference)
    ensures t.conference == Eastern || t.conference == Western || t.conference == Unknown
    ensures row.winsCell.Some? && IsIntegerText(Trim(row.winsCell.value))
            && t.wins == TextValue(Trim(row.winsCell.value)) && InIntRange(t.wins)
    ensures row.lossesCell.Some? && IsIntegerText(Trim(row.lossesCell.value))
            && t.losses == TextValue(Trim(row.lossesCell.value)) && InIntRange(t.losses)
  {
  }

  lemma FormatIntIsTrimmed(n: int)
    ensures IsTrimmed(FormatInt(n))
  {
    var s := FormatInt(n);
    var d := if n < 0 then DigitsOf(-n) else DigitsOf(n);
    assert IsDigit(d[0]) && IsDigit(d[|d| - 1]);
    if n < 0 {
      assert s[|s| - 1] == d[|d| - 1];
    }
  }

  /** A row whose cells hold the decimal text of two `int`s yields a team with exactly those numbers. */
  lemma NumericRowIsKept(tb: Tables, o: IterationOrder, name: string, w: int, l: int)
    requires WellFormed(tb) && IsIterationOrder(tb, o)
    requires InIntRange(w) && InIntRange(l)
    ensures ParseRow(tb, o, Row(Some(name), Some(FormatInt(w)), Some(FormatInt(l))))
         == Some(Team(Trim(name), ConferenceOf(tb, o, Trim(name)), w, l))
  {
    FormatIntIsTrimmed(w);
    FormatIntIsTrimmed(l);
    TrimOfTrimmed(FormatInt(w));
    TrimOfTrimmed(FormatInt(l));
    ParseFormatRoundTrip(w);
    ParseFormatRoundTrip(l);
  }

  // ---------------------------------------------------------------------------
  // Properties of getTeamsByConferenceNames
  // ---------------------------------------------------------------------------

  /** A team is in the list for `c` exactly when it is in the input and its conference equals `c` ignoring case. */
  lemma {:induction false} InConferenceMembership(teams: seq<Team>, c: string, t: Team)
    ensures t in InConference(teams, c) <==> t in teams && EqualsIgnoreCase(t.conference, c)
  {
    if teams != [] {
      var front := teams[..|teams| - 1];
      InConferenceMembership(front, c, t);
      assert teams == front + [teams[|teams| - 1]];
    }
  }

  /** Each list keeps the teams in their input order: splitting the input splits the list the same way. */
  lemma {:induction false} InConferenceAppend(a: seq<Team>, b: seq<Team>, c: string)
    ensures InConference(a + b, c) == InConference(a, c) + InConference(b, c)
    decreases |b|
  {
    if b == [] {
      assert a + b == a;
    } else {
      var front := b[..|b| - 1];
      InConferenceAppend(a, front, c);
      assert (a + b)[..|a + b| - 1] == a + front;
      assert (a + b)[|a + b| - 1] == b[|b| - 1];
    }
  }

  /** Of "Western", "Eastern" and "Unknown", no two are equal ignoring case. */
  lemma ConferenceNamesDiffer()
    ensures !EqualsIgnoreCase(Western, Eastern) && !EqualsIgnoreCase(Unknown, Western) && !EqualsIgnoreCase(Unknown, Eastern)
  {
    CharEqualsIgnoreCaseIff(Western[0], Eastern[0]);
    CharEqualsIgnoreCaseIff(Unknown[0], Western[0]);
    CharEqualsIgnoreCaseIff(Unknown[0], Eastern[0]);
  }

  /** No conference text equals both "Western" and "Eastern" ignoring case. */
  lemma NotBothConferences(x: string)
    ensures !(EqualsIgnoreCase(x, Western) && EqualsIgnoreCase(x, Eastern))
  {
    ConferenceNamesDiffer();
    EqualsIgnoreCaseIsEquivalence(x, Western, Eastern);
    EqualsIgnoreCaseIsEquivalence(Western, x, Eastern);
  }

  /** The two lists are disjoint, so together they hold at most as many teams as the input. */
  lemma {:induction false} ListsAreDisjoint(teams: seq<Team>)
    ensures |InConference(teams, Western)| + |InConference(teams, Eastern)| <= |teams|
    ensures forall t | t in InConference(teams, Western) :: t !in InConference(teams, Eastern)
  {
    if teams != [] {
      var front := teams[..|teams| - 1];
      ListsAreDisjoint(front);
      NotBothConferences(teams[|teams| - 1].conference);
    }
    forall t | t in InConference(teams, Western) ensures t !in InConference(teams, Eastern) {
      InConferenceMembership(teams, Western, t);
      InConferenceMembership(teams, Eastern, t);
      NotBothConferences(t.conference);
    }
  }

  /**
   * For the page's own teams the lists are exact: the Western list holds the
   * kept teams whose conference is "Western", the Eastern list those whose
   * conference is "Eastern", and an "Unknown" team is in neither.
   */
  lemma KeptTeamsPartition(tb: Tables, o: IterationOrder, rows: seq<Row>, t: Team)
    requires WellFormed(tb) && IsIterationOrder(tb, o)
    ensures t in InConference(KeptTeams(tb, o, rows), Western) <==> t in KeptTeams(tb, o, rows) && t.conference == Western
    ensures t in InConference(KeptTeams(tb, o, rows), Eastern) <==> t in KeptTeams(tb, o, rows) && t.conference == Eastern
  {
    var teams := KeptTeams(tb, o, rows);
    InConferenceMembership(teams, Western, t);
    InConferenceMembership(teams, Eastern, t);
    if t in teams {
      KeptTeamsMembership(tb, o, rows, t);
      var i :| 0 <= i < |rows| && ParseRow(tb, o, rows[i]) == Some(t);
      KeptTeamFields(tb, o, rows[i], t);
      ConferenceNamesDiffer();
      EqualsIgnoreCaseIsEquivalence(Western, Eastern, Eastern);
      EqualsIgnoreCaseIsEquivalence(Eastern, Western, Western);
      EqualsIgnoreCaseIsEquivalence(Eastern, Unknown, Western);
      EqualsIgnoreCaseIsEquivalence(Western, Unknown, Eastern);
    }
  }
}
