/**
 * The three static tables of the test-data helper. Each is a `HashMap` that
 * the static initialiser fills with `put`; no key is put twice, so a map
 * display with the same entries is the state the initialiser leaves.
 */
module TeamTables {
  import opened JavaStrings

  const Eastern: string := "Eastern"
  const Western: string := "Western"
  const Unknown: string := "Unknown"

  /** Full team name to conference: the Eastern block, then the Western block. */
  const TeamConferences: map<string, string> := map[
    "Atlanta Hawks" := Eastern,
    "Boston Celtics" := Eastern,
    "Brooklyn Nets" := Eastern,
    "Charlotte Hornets" := Eastern,
    "Chicago Bulls" := Eastern,
    "Cleveland Cavaliers" := Eastern,
    "Detroit Pistons" := Eastern,
    "Indiana Pacers" := Eastern,
    "Miami Heat" := Eastern,
    "Milwaukee Bucks" := Eastern,
    "New York Knicks" := Eastern,
    "Orlando Magic" := Eastern,
    "Philadelphia 76ers" := Eastern,
    "Toronto Raptors" := Eastern,
    "Washington Wizards" := Eastern,
    "Dallas Mavericks" := Western,
    "Denver Nuggets" := Western,
    "Golden State Warriors" := Western,
    "Houston Rockets" := Western,
    "LA Clippers" := Western,
    "Los Angeles Lakers" := Western,
    "Memphis Grizzlies" := Western,
    "Minnesota Timberwolves" := Western,
    "New Orleans Pelicans" := Western,
    "Oklahoma City Thunder" := Western,
    "Phoenix Suns" := Western,
    "Portland Trail Blazers" := Western,
    "Sacramento Kings" := Western,
    "San Antonio Spurs" := Western,
    "Utah Jazz" := Western
  ]

  /** Nickname or short form to full team name. */
  const TeamNameAliases: map<string, string> := map[
    "Lakers" := "Los Angeles Lakers",
    "Clippers" := "LA Clippers",
    "Warriors" := "Golden State Warriors",
    "Celtics" := "Boston Celtics",
    "Heat" := "Miami Heat",
    "Bulls" := "Chicago Bulls",
    "Knicks" := "New York Knicks",
    "Nets" := "Brooklyn Nets",
    "76ers" := "Philadelphia 76ers",
    "Sixers" := "Philadelphia 76ers",
    "Mavs" := "Dallas Mavericks",
    "Spurs" := "San Antonio Spurs",
    "Thunder" := "Oklahoma City Thunder",
    "Blazers" := "Portland Trail Blazers",
    "Kings" := "Sacramento Kings",
    "Suns" := "Phoenix Suns",
    "Jazz" := "Utah Jazz",
    "Nuggets" := "Denver Nuggets",
    "Rockets" := "Houston Rockets",
    "Grizzlies" := "Memphis Grizzlies",
    "Pelicans" := "New Orleans Pelicans",
    "Timberwolves" := "Minnesota Timberwolves",
    "Hawks" := "Atlanta Hawks",
    "Hornets" := "Charlotte Hornets",
    "Cavaliers" := "Cleveland Cavaliers",
    "Cavs" := "Cleveland Cavaliers",
    "Pistons" := "Detroit Pistons",
    "Pacers" := "Indiana Pacers",
    "Bucks" := "Milwaukee Bucks",
    "Magic" := "Orlando Magic",
    "Raptors" := "Toronto Raptors",
    "Wizards" := "Washington Wizards"
  ]

  /** Three-letter abbreviation to full team name. */
  const TeamAbbreviations: map<string, string> := map[
    "ATL" := "Atlanta Hawks",
    "BOS" := "Boston Celtics",
    "BKN" := "Brooklyn Nets",
    "CHA" := "Charlotte Hornets",
    "CHI" := "Chicago Bulls",
    "CLE" := "Cleveland Cavaliers",
    "DET" := "Detroit Pistons",
    "IND" := "Indiana Pacers",
    "MIA" := "Miami Heat",
    "MIL" := "Milwaukee Bucks",
    "NYK" := "New York Knicks",
    "ORL" := "Orlando Magic",
    "PHI" := "Philadelphia 76ers",
    "TOR" := "Toronto Raptors",
    "WAS" := "Washington Wizards",
    "DAL" := "Dallas Mavericks",
    "DEN" := "Denver Nuggets",
    "GSW" := "Golden State Warriors",
    "HOU" := "Houston Rockets",
    "LAC" := "LA Clippers",
    "LAL" := "Los Angeles Lakers",
    "MEM" := "Memphis Grizzlies",
    "MIN" := "Minnesota Timberwolves",
    "NOP" := "New Orleans Pelicans",
    "OKC" := "Oklahoma City Thunder",
    "PHX" := "Phoenix Suns",
    "POR" := "Portland Trail Blazers",
    "SAC" := "Sacramento Kings",
    "SAS" := "San Antonio Spurs",
    "UTA" := "Utah Jazz"
  ]

  // ---------------------------------------------------------------------------
  // Facts about the tables
  // ---------------------------------------------------------------------------

  /** Every team belongs to one of the two conferences. */
  lemma ConferencesAreEasternOrWestern()
    ensures forall t | t in TeamConferences :: TeamConferences[t] == Eastern || TeamConferences[t] == Western
  {
  }

  /** Every alias names a team of the conference table. */
  lemma AliasTargetsAreTeams()
    ensures forall a | a in TeamNameAliases :: TeamNameAliases[a] in TeamConferences
  {
  }

  /** Every abbreviation names a team of the conference table. */
  lemma AbbreviationTargetsAreTeams()
    ensures forall a | a in TeamAbbreviations :: TeamAbbreviations[a] in TeamConferences
  {
  }

  lemma TeamNamesAreLong()
    ensures forall t | t in TeamConferences :: |t| >= 9
  {
  }

  lemma TeamNamesAreTrimmed()
    ensures forall t | t in TeamConferences :: IsTrimmed(t)
  {
  }

  lemma AliasesAreLong()
    ensures forall a | a in TeamNameAliases :: |a| >= 4
  {
  }

  lemma AbbreviationsHaveThreeChars()
    ensures forall a | a in TeamAbbreviations :: |a| == 3
  {
  }

  lemma NoLowerCaseInAbbreviationsAt0()
    ensures forall a | a in TeamAbbreviations :: |a| == 3 && !('a' <= a[0] <= 'z')
  {
  }

  lemma NoLowerCaseInAbbreviationsAt1()
    ensures forall a | a in TeamAbbreviations :: |a| == 3 && !('a' <= a[1] <= 'z')
  {
  }

  lemma NoLowerCaseInAbbreviationsAt2()
    ensures forall a | a in TeamAbbreviations :: |a| == 3 && !('a' <= a[2] <= 'z')
  {
  }

  /** An abbreviation has no lower-case letter, so `toUpperCase` leaves it alone. */
  lemma AbbreviationHasNoLowerCase(a: string)
    requires a in TeamAbbreviations
    ensures |a| == 3 && !('a' <= a[0] <= 'z') && !('a' <= a[1] <= 'z') && !('a' <= a[2] <= 'z')
  {
    NoLowerCaseInAbbreviationsAt0();
    NoLowerCaseInAbbreviationsAt1();
    NoLowerCaseInAbbreviationsAt2();
  }

  /** The first three chars of `a` and `b`, lower-cased, are not all the same. */
  predicate PrefixesDiffer(a: string, b: string) {
    |a| >= 3 && |b| >= 3
    && (LowerChar(a[0]) != LowerChar(b[0]) || LowerChar(a[1]) != LowerChar(b[1]) || LowerChar(a[2]) != LowerChar(b[2]))
  }

  /** Two different aliases of the same length differ within their first three chars ignoring case (one lemma per length). */
  lemma AliasPrefixesDistinct4()
    ensures forall a, b | a in TeamNameAliases && b in TeamNameAliases && |a| == 4 && |b| == |a| && a != b :: PrefixesDiffer(a, b)
  {
  }

  lemma AliasPrefixesDistinct5()
    ensures forall a, b | a in TeamNameAliases && b in TeamNameAliases && |a| == 5 && |b| == |a| && a != b :: PrefixesDiffer(a, b)
  {
  }

  lemma AliasPrefixesDistinct6()
    ensures forall a, b | a in TeamNameAliases && b in TeamNameAliases && |a| == 6 && |b| == |a| && a != b :: PrefixesDiffer(a, b)
  {
  }

  lemma AliasPrefixesDistinct7()
    ensures forall a, b | a in TeamNameAliases && b in TeamNameAliases && |a| == 7 && |b| == |a| && a != b :: PrefixesDiffer(a, b)
  {
  }

  lemma AliasPrefixesDistinctLong()
    ensures forall a, b | a in TeamNameAliases && b in TeamNameAliases && |a| >= 8 && |b| == |a| && a != b :: PrefixesDiffer(a, b)
  {
  }


  /** An alias and a team name of the same length already differ in their first char ignoring case. */
  lemma AliasAndTeamInitialsDiffer()
    ensures forall t, a | t in TeamConferences && a in TeamNameAliases && |t| == |a| :: LowerChar(t[0]) != LowerChar(a[0])
  {
  }

  lemma PrefixesDifferNotEqual(a: string, b: string)
    requires PrefixesDiffer(a, b)
    ensures !EqualsIgnoreCase(a, b)
  {
    CharEqualsIgnoreCaseIff(a[0], b[0]);
    CharEqualsIgnoreCaseIff(a[1], b[1]);
    CharEqualsIgnoreCaseIff(a[2], b[2]);
  }

  /** No two aliases are equal ignoring case, so at most one alias matches any name in step 3. */
  lemma AliasesDistinctIgnoringCase(a: string, b: string)
    requires a in TeamNameAliases && b in TeamNameAliases
    requires EqualsIgnoreCase(a, b)
    ensures a == b
  {
    if a != b {
      AliasesAreLong();
      if |a| == 4 {
        AliasPrefixesDistinct4();
      } else if |a| == 5 {
        AliasPrefixesDistinct5();
      } else if |a| == 6 {
        AliasPrefixesDistinct6();
      } else if |a| == 7 {
        AliasPrefixesDistinct7();
      } else {
        AliasPrefixesDistinctLong();
      }
      PrefixesDifferNotEqual(a, b);
    }
  }

  /** No alias equals a full team name ignoring case. */
  lemma AliasIsNoTeamName(t: string, a: string)
    requires t in TeamConferences && a in TeamNameAliases
    ensures !EqualsIgnoreCase(t, a)
  {
    AliasAndTeamInitialsDiffer();
    TeamNamesAreLong();
    if |t| == |a| {
      CharEqualsIgnoreCaseIff(t[0], a[0]);
    }
  }

  // ---------------------------------------------------------------------------
  // The tables as one value
  // ---------------------------------------------------------------------------

  /** The three tables `determineConference` consults. */
  datatype Tables = Tables(conferences: map<string, string>, aliases: map<string, string>, abbreviations: map<string, string>)

  const Standard: Tables := Tables(TeamConferences, TeamNameAliases, TeamAbbreviations)

  /** The facts about the tables that the properties of the resolver rest on. */
  ghost predicate WellFormed(tb: Tables) {
    (forall t | t in tb.conferences :: tb.conferences[t] == Eastern || tb.conferences[t] == Western)
    && (forall a | a in tb.aliases :: tb.aliases[a] in tb.conferences)
    && (forall a | a in tb.abbreviations :: tb.abbreviations[a] in tb.conferences)
    && (forall t | t in tb.conferences :: |t| >= 9 && IsTrimmed(t))
    && (forall a | a in tb.aliases :: |a| >= 4)
    && (forall a | a in tb.abbreviations :: |a| == 3)
    && (forall a, i | a in tb.abbreviations && 0 <= i < |a| :: !('a' <= a[i] <= 'z'))
    && (forall a, b | a in tb.aliases && b in tb.aliases && EqualsIgnoreCase(a, b) :: a == b)
    && (forall t, a | t in tb.conferences && a in tb.aliases :: !EqualsIgnoreCase(t, a))
  }

  lemma AbbreviationsHaveNoLowerCase()
    ensures forall a, i | a in TeamAbbreviations && 0 <= i < |a| :: !('a' <= a[i] <= 'z')
  {
    forall a, i | a in TeamAbbreviations && 0 <= i < |a| ensures !('a' <= a[i] <= 'z') {
      AbbreviationHasNoLowerCase(a);
    }
  }

  lemma AliasesAreDistinctIgnoringCase()
    ensures forall a, b | a in TeamNameAliases && b in TeamNameAliases && EqualsIgnoreCase(a, b) :: a == b
  {
    forall a, b | a in TeamNameAliases && b in TeamNameAliases && EqualsIgnoreCase(a, b) ensures a == b {
      AliasesDistinctIgnoringCase(a, b);
    }
  }

  lemma AliasesAreNoTeamNames()
    ensures forall t, a | t in TeamConferences && a in TeamNameAliases :: !EqualsIgnoreCase(t, a)
  {
    forall t, a | t in TeamConferences && a in TeamNameAliases ensures !EqualsIgnoreCase(t, a) {
      AliasIsNoTeamName(t, a);
    }
  }

  /** The tables of the source have all of these properties. */
  lemma StandardIsWellFormed()
    ensures WellFormed(Standard)
  {
    ConferencesAreEasternOrWestern();
    AliasTargetsAreTeams();
    AbbreviationTargetsAreTeams();
    TeamNamesAreLong();
    TeamNamesAreTrimmed();
    AliasesAreLong();
    AbbreviationsHaveThreeChars();
    AbbreviationsHaveNoLowerCase();
    AliasesAreDistinctIgnoringCase();
    AliasesAreNoTeamNames();
  }
}
