# NBA stats automation: conference resolution and the standings table

This project models the decision logic of the NBA web-automation framework (a Selenium
test suite) and proves properties of it. Two parts are modelled:

- **`TestDataHelper.determineConference`** maps a team name, as a page shows it, to
  "Eastern", "Western" or "Unknown". It works as a waterfall over three static tables:
  full team name to conference (30 entries), alias to full name (32) and abbreviation to
  full name (30). The first step that matches decides:
  1. a `null`, empty or blank name;
  2. the exact trimmed name;
  3. its upper-cased form as an abbreviation;
  4. an alias equal to it ignoring case;
  5. a full name that contains it, or lies inside it, ignoring case (or one of the full
     name's space-separated parts that equals it);
  6. an alias that contains it, or lies inside it, ignoring case;
  7. otherwise "Unknown".
- **`TeamStatsPage`**:
  - `getAllTeams` reads every row of the standings table into a `Team`. Each cell is
    trimmed, and wins and losses go through `Integer.parseInt`. A row whose body throws
    is skipped.
  - `getTeamsByConferenceNames` splits those teams into a "Western" and an "Eastern"
    list.

Modules:

- `Wrappers`: `Option`.
- `JavaStrings`: the Java string operations the code relies on: `trim`, ASCII
  `toUpperCase`/`toLowerCase`, `equalsIgnoreCase`, `contains` and `split(" ")`.
- `JavaIntegers`: `Integer.parseInt` on 32-bit `int`, and `Integer.toString` as its
  partner.
- `TeamTables`: the three tables as map displays with the entries the static initialiser
  `put`s. No key is put twice, so a `map` is the state the initialiser leaves. Here
  `Tables` bundles the three maps, and `Standard` is the source's own three tables.
  `WellFormed` collects the table facts the resolver's properties rest on, and
  `StandardIsWellFormed` proves them for `Standard`.
- `TestDataHelper`:
  - `Resolve` is the waterfall as a function, with the step that decides.
  - `DetermineConference` is the method with the search loops, proved equal to it.
  - Java leaves `HashMap.entrySet()` order unspecified. So the model takes an
    `IterationOrder` parameter, which lists each map's keys once. The property lemmas
    either hold for every order, or say how the result depends on it.
  - The resolver takes the tables as a parameter. The page always passes `Standard`.
- `Models`: `Team` without its `double` win percentage.
- `TeamStatsPage`:
  - A `Row` is the text of the three cells that `findElement(...).getText()` reads. A
    missing cell (`NoSuchElementException`) is `None`.
  - `KeptTeams` and `InConference` specify the two page methods, and the methods are
    proved against them.

Notes on the code:

- `determineConference` returns only a conference string. A blank name and an
  unmatched name both give "Unknown".
- The page imports `com.nba.automation.utils.TestDataHelper` and
  `com.nba.automation.models.Team`. The files used for them are
  `src/main/java/com/nba/automation/utils/TestDataHelper.java` and
  `src/main/java/com/nba/automation/models/Team.java`.

Observations the proofs make:

- Step 4's part test never decides on its own (`PartMatchImpliesContainment`). A part of
  the full name that equals the name ignoring case is a substring of it, so the
  containment test before it has already matched.
- Step 4 does depend on the iteration order (`PartialNameDependsOnOrder`). "la" lies inside both
  "Atlanta Hawks" (Eastern) and "LA Clippers" (Western).
- Steps 2, 3 and 5 could in principle return the `null` of a missing `get`. The tables
  are closed, so they never do (`ResultIsAConference`).

## Model

| member | source | states |
|---|---|---|
| JavaStrings.Trim | src/main/java/com/nba/automation/utils/TestDataHelper.java:162 | `trim()` returns the part of the text between its leading and trailing characters at or below U+0020, and that part has no such character at either end |
| JavaStrings.TrimIgnoresPadding | src/main/java/com/nba/automation/utils/TestDataHelper.java:162 | whitespace added on either side of a text does not change its `trim()` |
| JavaStrings.TrimOfPadded | src/main/java/com/nba/automation/utils/TestDataHelper.java:162 | a trimmed text with whitespace around it trims back to itself |
| JavaStrings.TrimIdempotent | src/main/java/com/nba/automation/utils/TestDataHelper.java:162 | trimming twice is trimming once |
| JavaStrings.BlankIffAllTrimmed | src/main/java/com/nba/automation/utils/TestDataHelper.java:157 | `trim().isEmpty()` holds exactly when every character is at or below U+0020 |
| JavaStrings.BlankIffTrimBlank | src/main/java/com/nba/automation/utils/TestDataHelper.java:157-162 | a text is blank exactly when its trimmed form is |
| JavaStrings.EqualsIgnoreCaseIff | src/main/java/com/nba/automation/utils/TestDataHelper.java:178 | `equalsIgnoreCase` holds exactly when the two lower-cased texts are equal |
| JavaStrings.EqualsIgnoreCaseIsEquivalence | src/main/java/com/nba/automation/utils/TestDataHelper.java:178 | `equalsIgnoreCase` is reflexive, symmetric and transitive |
| JavaStrings.UpperOfCaseVariant | src/main/java/com/nba/automation/utils/TestDataHelper.java:170-171 | a text equal ignoring case to one without lower-case letters upper-cases to exactly that text |
| JavaStrings.ContainsToLower | src/main/java/com/nba/automation/utils/TestDataHelper.java:190-191 | if one text contains another, their lower-cased forms do too |
| JavaStrings.Pieces | src/main/java/com/nba/automation/utils/TestDataHelper.java:196 | splitting at every space gives at least one piece, and no piece holds a space |
| JavaStrings.JoinPieces | src/main/java/com/nba/automation/utils/TestDataHelper.java:196 | joining the pieces with single spaces gives back the text |
| JavaStrings.PiecesOfJoin | src/main/java/com/nba/automation/utils/TestDataHelper.java:196 | splitting a space-joined list of space-free pieces gives back the list |
| JavaStrings.DropTrailingEmpty | src/main/java/com/nba/automation/utils/TestDataHelper.java:196 | `split` drops the trailing empty strings and keeps the rest in order |
| JavaStrings.SplitPartsOccur | src/main/java/com/nba/automation/utils/TestDataHelper.java:196-198 | every part `split(" ")` returns is a substring of the text |
| JavaIntegers.ParseInt | nba-stats-ui-automation/src/main/java/com/nba/automation/pages/TeamStatsPage.java:70-71 | `parseInt` yields a value only for an optional sign followed by digits, and the value is the one the text denotes and lies in the 32-bit range |
| JavaIntegers.ParseIntFails | nba-stats-ui-automation/src/main/java/com/nba/automation/pages/TeamStatsPage.java:70-71 | `parseInt` throws exactly for a malformed text or an out-of-range value |
| JavaIntegers.ParseFormatRoundTrip | nba-stats-ui-automation/src/main/java/com/nba/automation/pages/TeamStatsPage.java:70-71 | every 32-bit `int`, written in decimal, parses back to itself |
| JavaIntegers.ParseIntNeedsDigits | nba-stats-ui-automation/src/main/java/com/nba/automation/pages/TeamStatsPage.java:70-71 | the empty text and a lone sign do not parse |
| JavaIntegers.ParseIntBounds | nba-stats-ui-automation/src/main/java/com/nba/automation/pages/TeamStatsPage.java:70-71 | 2147483648 does not parse, and -2147483648 does |
| JavaIntegers.DigitsOf | nba-stats-ui-automation/src/main/java/com/nba/automation/pages/TeamStatsPage.java:70-71 | the decimal form of a natural number is a nonempty run of digits |
| TeamTables.ConferencesAreEasternOrWestern | src/main/java/com/nba/automation/utils/TestDataHelper.java:36-70 | every team of the conference table is Eastern or Western |
| TeamTables.AliasTargetsAreTeams | src/main/java/com/nba/automation/utils/TestDataHelper.java:76-110 | every alias names a team of the conference table |
| TeamTables.AbbreviationTargetsAreTeams | src/main/java/com/nba/automation/utils/TestDataHelper.java:115-149 | every abbreviation names a team of the conference table |
| TeamTables.TeamNamesAreTrimmed | src/main/java/com/nba/automation/utils/TestDataHelper.java:38-69 | no full team name starts or ends with whitespace |
| TeamTables.TeamNamesAreLong | src/main/java/com/nba/automation/utils/TestDataHelper.java:38-69 | every full team name has at least nine characters |
| TeamTables.AliasesAreLong | src/main/java/com/nba/automation/utils/TestDataHelper.java:78-109 | every alias has at least four characters |
| TeamTables.AbbreviationsHaveThreeChars | src/main/java/com/nba/automation/utils/TestDataHelper.java:117-148 | every abbreviation has three characters |
| TeamTables.AbbreviationHasNoLowerCase | src/main/java/com/nba/automation/utils/TestDataHelper.java:117-148 | no abbreviation holds a lower-case letter |
| TeamTables.AliasesDistinctIgnoringCase | src/main/java/com/nba/automation/utils/TestDataHelper.java:78-109 | two aliases equal ignoring case are the same alias |
| TeamTables.AliasIsNoTeamName | src/main/java/com/nba/automation/utils/TestDataHelper.java:38-69 | no alias equals a full team name ignoring case |
| TeamTables.StandardIsWellFormed | src/main/java/com/nba/automation/utils/TestDataHelper.java:36-149 | the source's tables have every property above |
| TestDataHelper.FirstPassing | src/main/java/com/nba/automation/utils/TestDataHelper.java:177-211 | a search loop returns the first key in iteration order that passes its test, and reports no key only when none passes |
| TestDataHelper.FirstPassingFindsKey | src/main/java/com/nba/automation/utils/TestDataHelper.java:177-211 | a loop over the iteration order finds a key exactly when some key of the map passes, and what it finds is a key of the map |
| TestDataHelper.DetermineConference | src/main/java/com/nba/automation/utils/TestDataHelper.java:156-216 | the method returns what the waterfall specifies |
| TestDataHelper.FindAliasEqual | src/main/java/com/nba/automation/utils/TestDataHelper.java:177-182 | the step-3 loop stops at the first alias equal to the name ignoring case |
| TestDataHelper.FindPartialName | src/main/java/com/nba/automation/utils/TestDataHelper.java:185-202 | the step-4 loop stops at the first full name that contains the name, lies inside it, or has a part equal to it, ignoring case |
| TestDataHelper.AnyPartMatches | src/main/java/com/nba/automation/utils/TestDataHelper.java:196-201 | the inner loop finds a part equal to the name ignoring case exactly when one exists |
| TestDataHelper.FindPartialAlias | src/main/java/com/nba/automation/utils/TestDataHelper.java:205-211 | the step-5 loop stops at the first alias that contains the name or lies inside it, ignoring case |
| TestDataHelper.BlankIsUnknown | src/main/java/com/nba/automation/utils/TestDataHelper.java:157-160 | a `null`, empty or blank name is "Unknown", for all tables and orders |
| TestDataHelper.TrimIsIrrelevant | src/main/java/com/nba/automation/utils/TestDataHelper.java:162 | a name and its trimmed form resolve alike |
| TestDataHelper.FullNameResolves | src/main/java/com/nba/automation/utils/TestDataHelper.java:164-167 | every full team name, with or without surrounding whitespace, resolves to its own conference at step 1 |
| TestDataHelper.AbbreviationResolves | src/main/java/com/nba/automation/utils/TestDataHelper.java:169-174 | an abbreviation in any letter case, padded or not, resolves at step 2 to the conference of the team it abbreviates |
| TestDataHelper.GswIsWestern | src/main/java/com/nba/automation/utils/TestDataHelper.java:136 | "gsw" resolves to Western in every iteration order |
| TestDataHelper.AliasResolves | src/main/java/com/nba/automation/utils/TestDataHelper.java:176-182 | an alias in any letter case, padded or not, resolves at step 3 to its team's conference, whatever the iteration order |
| TestDataHelper.ResultIsAConference | src/main/java/com/nba/automation/utils/TestDataHelper.java:156-216 | the result is never `null`, is Eastern, Western or Unknown, and is Unknown exactly when the name is blank or no step matched |
| TestDataHelper.ResultIsATeamsConference | src/main/java/com/nba/automation/utils/TestDataHelper.java:164-211 | a step that matches returns the conference of some team of the table |
| TestDataHelper.AliasStepsReturnATeam | src/main/java/com/nba/automation/utils/TestDataHelper.java:177-211 | what each search loop finds leads to a key of the conference table |
| TestDataHelper.StepPrecedence | src/main/java/com/nba/automation/utils/TestDataHelper.java:164-215 | each step decides exactly when it matches and no earlier step did, and NoMatch means no step matched |
| TestDataHelper.PartialStepsReturnAMatch | src/main/java/com/nba/automation/utils/TestDataHelper.java:184-211 | when step 4 or 5 decides, the result is the conference of a team (or an alias's team) that passes that step's test |
| TestDataHelper.PartMatchImpliesContainment | src/main/java/com/nba/automation/utils/TestDataHelper.java:189-201 | a part of the full name equal to the name ignoring case implies the full name contains the name ignoring case |
| TestDataHelper.CaseVariantOfFullName | src/main/java/com/nba/automation/utils/TestDataHelper.java:184-193 | a case variant of a full name passes steps 1 to 3, and step 4 returns the conference of a team matching it, its own team being one |
| TestDataHelper.VariantPassesNamePartial | src/main/java/com/nba/automation/utils/TestDataHelper.java:190-193 | a full name passes step 4's test for each of its case variants |
| TestDataHelper.VariantIsNoAlias | src/main/java/com/nba/automation/utils/TestDataHelper.java:177-182 | no alias equals a case variant of a full name ignoring case |
| TestDataHelper.ShortNameReachesPartialSteps | src/main/java/com/nba/automation/utils/TestDataHelper.java:164-193 | a one- or two-character name passes steps 1 to 3; the first full name in the iteration order that matches it decides, and when none matches, step 5 or the fallback does |
| TestDataHelper.PartialNameDependsOnOrder | src/main/java/com/nba/automation/utils/TestDataHelper.java:185-193 | "la" resolves to Eastern when "Atlanta Hawks" comes first and to Western when "LA Clippers" comes first |
| TestDataHelper.LaInAtlantaHawks | src/main/java/com/nba/automation/utils/TestDataHelper.java:190 | "atlanta hawks" contains "la" |
| TestDataHelper.LaInLaClippers | src/main/java/com/nba/automation/utils/TestDataHelper.java:190 | "la clippers" contains "la" |
| TeamStatsPage.ConferenceOf | nba-stats-ui-automation/src/main/java/com/nba/automation/pages/TeamStatsPage.java:75 | the conference a kept team gets is the non-`null` result of `determineConference` on its name, one of the three values |
| TeamStatsPage.ReadRow | nba-stats-ui-automation/src/main/java/com/nba/automation/pages/TeamStatsPage.java:63-81 | one pass of the loop body yields the team the row specifies, or nothing when the body throws |
| TeamStatsPage.GetAllTeams | nba-stats-ui-automation/src/main/java/com/nba/automation/pages/TeamStatsPage.java:56-86 | the method returns the teams of the rows that parse, in row order |
| TeamStatsPage.PresentAppend | nba-stats-ui-automation/src/main/java/com/nba/automation/pages/TeamStatsPage.java:62-83 | collecting over two runs of rows is collecting over each in turn |
| TeamStatsPage.PresentMembership | nba-stats-ui-automation/src/main/java/com/nba/automation/pages/TeamStatsPage.java:62-83 | a team is collected exactly when some row's outcome is that team |
| TeamStatsPage.PresentCount | nba-stats-ui-automation/src/main/java/com/nba/automation/pages/TeamStatsPage.java:62-83 | at most one team per row is collected, and one for every row exactly when no row fails |
| TeamStatsPage.KeptTeamsAppend | nba-stats-ui-automation/src/main/java/com/nba/automation/pages/TeamStatsPage.java:62-83 | the pass never aborts: the teams of two runs of rows are the teams of the first, then those of the second |
| TeamStatsPage.KeptTeamsMembership | nba-stats-ui-automation/src/main/java/com/nba/automation/pages/TeamStatsPage.java:62-83 | a team is returned exactly when some row yields it |
| TeamStatsPage.KeptTeamsCount | nba-stats-ui-automation/src/main/java/com/nba/automation/pages/TeamStatsPage.java:62-83 | no more teams than rows are returned, and as many exactly when every row yields a team |
| TeamStatsPage.ParseRowSkips | nba-stats-ui-automation/src/main/java/com/nba/automation/pages/TeamStatsPage.java:65-71 | a row is skipped exactly when a cell is missing or its wins or losses text is no 32-bit integer |
| TeamStatsPage.KeptTeamFields | nba-stats-ui-automation/src/main/java/com/nba/automation/pages/TeamStatsPage.java:65-76 | a kept team's name is the trimmed name cell, its conference is `determineConference` of that name, and its wins and losses are the numbers its cells denote |
| TeamStatsPage.NumericRowIsKept | nba-stats-ui-automation/src/main/java/com/nba/automation/pages/TeamStatsPage.java:65-77 | a row holding a name and the decimal text of two `int`s yields a team with that trimmed name and exactly those numbers |
| TeamStatsPage.InConference | nba-stats-ui-automation/src/main/java/com/nba/automation/pages/TeamStatsPage.java:95-102 | a conference list is no longer than the list it filters |
| TeamStatsPage.SplitByConference | nba-stats-ui-automation/src/main/java/com/nba/automation/pages/TeamStatsPage.java:95-102 | the loop builds each list from the teams whose conference equals its name ignoring case |
| TeamStatsPage.GetTeamsByConferenceNames | nba-stats-ui-automation/src/main/java/com/nba/automation/pages/TeamStatsPage.java:89-107 | the map has exactly the keys "Western" and "Eastern", even with no teams, and each holds its conference's teams from `getAllTeams` |
| TeamStatsPage.InConferenceMembership | nba-stats-ui-automation/src/main/java/com/nba/automation/pages/TeamStatsPage.java:95-102 | a team is in a list exactly when it is in the input and its conference equals the list's name ignoring case |
| TeamStatsPage.InConferenceAppend | nba-stats-ui-automation/src/main/java/com/nba/automation/pages/TeamStatsPage.java:95-102 | each list keeps the input order: the list for two runs of teams is the list for the first, then that for the second |
| TeamStatsPage.ConferenceNamesDiffer | nba-stats-ui-automation/src/main/java/com/nba/automation/pages/TeamStatsPage.java:97-101 | "Western", "Eastern" and "Unknown" are pairwise different ignoring case |
| TeamStatsPage.NotBothConferences | nba-stats-ui-automation/src/main/java/com/nba/automation/pages/TeamStatsPage.java:97-101 | no conference text equals both "Western" and "Eastern" ignoring case |
| TeamStatsPage.ListsAreDisjoint | nba-stats-ui-automation/src/main/java/com/nba/automation/pages/TeamStatsPage.java:95-102 | no team is in both lists, and together they hold at most as many teams as the input |
| TeamStatsPage.KeptTeamsPartition | nba-stats-ui-automation/src/main/java/com/nba/automation/pages/TeamStatsPage.java:89-107 | for the page's own teams, the Western list holds exactly those whose conference is "Western" and the Eastern list those whose conference is "Eastern", so an "Unknown" team is in neither |

## Left out

- Selenium I/O is not modelled: waiting for the table, locating rows and cells, and `getText`. The rows are a parameter, and a cell that cannot be found is `None`.
- The win percentage (`(double) wins / (wins + losses)`) and the `Team` field it fills are not modelled, because they are floating point. `wins + losses` can wrap around in 32 bits, but that changes only this value, and the division never throws.
- The logging in `determineConference` and `getAllTeams` (`System.out`/`System.err`) and the Allure `@Step` annotations are not modelled. They have no effect on the results.
- `HashMap` iteration order is not fixed. It is the `IterationOrder` parameter, and step 3 and step 5 walk the alias map in the same order.
- The `NullPointerException` that `getTeamsByConferenceNames` would raise on a team with a `null` conference is not modelled. `ResultIsAConference` shows that such a team cannot arise.
- `trim`, `toUpperCase`, `toLowerCase` and `equalsIgnoreCase` are modelled for ASCII only. Every table entry is ASCII. Java's full Unicode case mapping and `Character.digit` on non-ASCII digits are not modelled. The no-argument `toLowerCase()`/`toUpperCase()` follow the default locale, and the model assumes a locale without special case rules: under a Turkish locale, for instance, "chi".toUpperCase() is "CHİ" and step 2 would miss "CHI".
- CaseVariantOfFullName: proves that step 4 decides and returns the conference of a team matching the variant, but not that no other team matches first. That would need every pair of the 30 full names to be free of containment ignoring case, which is too costly to check over the literal table.
- The other getters and setters of `Team`, its `toString` and its default constructor hold no logic and are not modelled.
