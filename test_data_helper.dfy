/**
 * `TestDataHelper.determineConference`: the waterfall that maps a team name,
 * as a page shows it, to a conference. The first step that matches decides:
 * blank input, exact full name, upper-cased abbreviation, alias equal ignoring
 * case, full name contained either way (or one of its space-separated parts
 * equal) ignoring case, alias contained either way ignoring case, and
 * otherwise "Unknown". Steps 3 to 5 walk a `HashMap`'s `entrySet()`, whose
 * order Java leaves unspecified, so the model takes that order as a parameter.
 * The tables are a parameter too; the page uses `Standard`, the source's own.
 */
module TestDataHelper {
  import opened Wrappers
  import opened JavaStrings
  import opened TeamTables

  /** The order in which `entrySet()` visits the keys of the team map and of the alias map. */
  datatype IterationOrder = IterationOrder(teams: seq<string>, aliases: seq<string>)

  /** `keys` lists every key of `m` exactly once. */
  ghost predicate Enumerates(keys: seq<string>, m: map<string, string>) {
    (forall i | 0 <= i < |keys| :: keys[i] in m)
    && (forall k | k in m :: k in keys)
    && (forall i, j | 0 <= i < j < |keys| :: keys[i] != keys[j])
  }

  ghost predicate IsIterationOrder(tb: Tables, o: IterationOrder) {
    Enumerates(o.teams, tb.conferences) && Enumerates(o.aliases, tb.aliases)
  }

  /** `HashMap.get`: `None` is the `null` it returns for a missing key. */
  function Get(m: map<string, string>, k: string): Option<string> {
    if k in m then Some(m[k]) else None
  }

  /** The step of the waterfall that decides. */
  datatype Step = BlankInput | ExactName | Abbreviation | AliasName | PartialName | PartialAlias | NoMatch

  datatype Resolution = Resolution(step: Step, conference: Option<string>)

  predicate ContainsIgnoringCase(h: string, n: string) {
    Contains(ToLower(h), ToLower(n))
  }

  /** Step 4's second test: some part of `full.split(" ")` equals the name ignoring case. */
  predicate MatchesPart(full: string, clean: string) {
    exists p | p in Split(full) :: ToLower(p) == ToLower(clean)
  }

  /** The test each of the three loops applies to a key. */
  datatype Test = AliasEquals | NamePartial | AliasPartial

  predicate Passes(t: Test, key: string, clean: string) {
    match t
    case AliasEquals => EqualsIgnoreCase(clean, key)
    case NamePartial => ContainsIgnoringCase(key, clean) || ContainsIgnoringCase(clean, key) || MatchesPart(key, clean)
    case AliasPartial => ContainsIgnoringCase(clean, key) || ContainsIgnoringCase(key, clean)
  }

  /** The first position at or after `from` whose key passes the test: where the `for` loop returns. */
  function FirstPassing(keys: seq<string>, t: Test, clean: string, from: nat): (r: Option<nat>)
    requires from <= |keys|
    ensures r.Some? ==> from <= r.value < |keys| && Passes(t, keys[r.value], clean)
    ensures r.Some? ==> forall j | from <= j < r.value :: !Passes(t, keys[j], clean)
    ensures r.None? ==> forall j | from <= j < |keys| :: !Passes(t, keys[j], clean)
    decreases |keys| - from
  {
    if from == |keys| then None
    else if Passes(t, keys[from], clean) then Some(from)
    else FirstPassing(keys, t, clean, from + 1)
  }

  /** The waterfall of `determineConference`, with the step that decides. */
  ghost function Resolve(tb: Tables, o: IterationOrder, name: Option<string>): Resolution
    requires IsIterationOrder(tb, o)
  {
    if name.None? || IsBlank(name.value) then Resolution(BlankInput, Some(Unknown))
    else
      var clean := Trim(name.value);
      if clean in tb.conferences then Resolution(ExactName, Get(tb.conferences, clean))
      else if ToUpper(clean) in tb.abbreviations then
        Resolution(Abbreviation, Get(tb.conferences, tb.abbreviations[ToUpper(clean)]))
      else match FirstPassing(o.aliases, AliasEquals, clean, 0)
        case Some(i) => Resolution(AliasName, Get(tb.conferences, tb.aliases[o.aliases[i]]))
        case None =>
          match FirstPassing(o.teams, NamePartial, clean, 0)
          case Some(i) => Resolution(PartialName, Some(tb.conferences[o.teams[i]]))
          case None =>
            match FirstPassing(o.aliases, AliasPartial, clean, 0)
            case Some(i) => Resolution(PartialAlias, Get(tb.conferences, tb.aliases[o.aliases[i]]))
            case None => Resolution(NoMatch, Some(Unknown))
  }

  /** What `determineConference(name)` returns; `None` would be a `null`. */
  ghost function Conference(tb: Tables, o: IterationOrder, name: Option<string>): Option<string>
    requires IsIterationOrder(tb, o)
  {
    Resolve(tb, o, name).conference
  }

  /** `determineConference` with its three search loops. */
  method DetermineConference(tb: Tables, o: IterationOrder, name: Option<string>) returns (r: Option<string>)
    requires IsIterationOrder(tb, o)
    ensures r == Conference(tb, o, name)
  {
    if name.None? || IsBlank(name.value) {
      return Some(Unknown);
    }
    var clean := Trim(name.value);

    // Step 1: exact match.
    if clean in tb.conferences {
      return Get(tb.conferences, clean);
    }

    // Step 2: abbreviation.
    var upper := ToUpper(clean);
    if upper in tb.abbreviations {
      return Get(tb.conferences, tb.abbreviations[upper]);
    }

    // Step 3: alias equal ignoring case.
    var found := FindAliasEqual(o.aliases, clean);
    if found.Some? {
      return Get(tb.conferences, tb.aliases[o.aliases[found.value]]);
    }

    // Step 4: partial match against the full names.
    found := FindPartialName(o.teams, clean);
    if found.Some? {
      return Some(tb.conferences[o.teams[found.value]]);
    }

    // Step 5: alias contained either way ignoring case.
    found := FindPartialAlias(o.aliases, clean);
    if found.Some? {
      return Get(tb.conferences, tb.aliases[o.aliases[found.value]]);
    }

    return Some(Unknown);
  }

  /** The loop of step 3: the first alias equal to the name ignoring case. */
  method FindAliasEqual(aliases: seq<string>, clean: string) returns (r: Option<nat>)
    ensures r == FirstPassing(aliases, AliasEquals, clean, 0)
  {
    var i := 0;
    while i < |aliases|
      invariant 0 <= i <= |aliases|
      invariant FirstPassing(aliases, AliasEquals, clean, i) == FirstPassing(aliases, AliasEquals, clean, 0)
    {
      if EqualsIgnoreCase(clean, aliases[i]) {
        return Some(i);
      }
      i := i + 1;
    }
    return None;
  }

  /** The loop of step 4, with its inner loop over the parts of the full name. */
  method FindPartialName(teams: seq<string>, clean: string) returns (r: Option<nat>)
    ensures r == FirstPassing(teams, NamePartial, clean, 0)
  {
    var lowerClean := ToLower(clean);
    var i := 0;
    while i < |teams|
      invariant 0 <= i <= |teams|
      invariant FirstPassing(teams, NamePartial, clean, i) == FirstPassing(teams, NamePartial, clean, 0)
    {
      var full := teams[i];
      if Contains(ToLower(full), lowerClean) || Contains(lowerClean, ToLower(full)) {
        return Some(i);
      }
      var partMatches := AnyPartMatches(full, clean);
      if partMatches {
        return Some(i);
      }
      i := i + 1;
    }
    return None;
  }

  /** The inner loop of step 4, over `full.split(" ")`. */
  method AnyPartMatches(full: string, clean: string) returns (found: bool)
    ensures found == MatchesPart(full, clean)
  {
    var lowerClean := ToLower(clean);
    var parts := Split(full);
    var k := 0;
    while k < |parts|
      invariant 0 <= k <= |parts|
      invariant forall m | 0 <= m < k :: ToLower(parts[m]) != lowerClean
    {
      if ToLower(parts[k]) == lowerClean {
        return true;
      }
      k := k + 1;
    }
    return false;
  }

  /** The loop of step 5: the first alias that contains the name or lies inside it, ignoring case. */
  method FindPartialAlias(aliases: seq<string>, clean: string) returns (r: Option<nat>)
    ensures r == FirstPassing(aliases, AliasPartial, clean, 0)
  {
    var lowerClean := ToLower(clean);
    var i := 0;
    while i < |aliases|
      invariant 0 <= i <= |aliases|
      invariant FirstPassing(aliases, AliasPartial, clean, i) == FirstPassing(aliases, AliasPartial, clean, 0)
    {
      var alias := aliases[i];
      if Contains(lowerClean, ToLower(alias)) || Contains(ToLower(alias), lowerClean) {
        return Some(i);
      }
      i := i + 1;
    }
    return None;
  }

  // ---------------------------------------------------------------------------
  // Searching an iteration order is searching the map
  // ---------------------------------------------------------------------------

  ghost predicate SomeKeyPasses(m: map<string, string>, t: Test, clean: string) {
    exists k | k in m :: Passes(t, k, clean)
  }

  /** The loop over an iteration order finds a key exactly when some key of the map passes. */
  lemma FirstPassingFindsKey(keys: seq<string>, m: map<string, string>, t: Test, clean: string)
    requires Enumerates(keys, m)
    ensures FirstPassing(keys, t, clean, 0).Some? <==> SomeKeyPasses(m, t, clean)
    ensures FirstPassing(keys, t, clean, 0).Some? ==> keys[FirstPassing(keys, t, clean, 0).value] in m
  {
    var r := FirstPassing(keys, t, clean, 0);
    if SomeKeyPasses(m, t, clean) {
      var k :| k in m && Passes(t, k, clean);
      assert k in keys;
      var j :| 0 <= j < |keys| && keys[j] == k;
      assert r.Some?;
    }
    if r.Some? {
      assert keys[r.value] in m;
    }
  }

  // ---------------------------------------------------------------------------
  // Properties of the waterfall
  // ---------------------------------------------------------------------------

  /** A `null`, empty or whitespace-only name is "Unknown", whatever the tables and the iteration order. */
  lemma BlankIsUnknown(tb: Tables, o: IterationOrder, name: Option<string>)
    requires IsIterationOrder(tb, o)
    requires name.None? || AllTrimmed(name.value)
    ensures Resolve(tb, o, name) == Resolution(BlankInput, Some(Unknown))
  {
    if name.Some? {
      BlankIffAllTrimmed(name.value);
    }
  }

  /** Surrounding whitespace is irrelevant: the name and its `trim()` resolve alike. */
  lemma TrimIsIrrelevant(tb: Tables, o: IterationOrder, s: string)
    requires IsIterationOrder(tb, o)
    ensures Resolve(tb, o, Some(s)) == Resolve(tb, o, Some(Trim(s)))
  {
    BlankIffTrimBlank(s);
    TrimIdempotent(s);
  }

  /** Every full name of the table, padded with whitespace or not, resolves to its own conference. */
  lemma FullNameResolves(tb: Tables, o: IterationOrder, p: string, t: string, q: string)
    requires WellFormed(tb) && IsIterationOrder(tb, o)
    requires t in tb.conferences
    requires AllTrimmed(p) && AllTrimmed(q)
    ensures Resolve(tb, o, Some(p + t + q)) == Resolution(ExactName, Some(tb.conferences[t]))
  {
    TrimOfPadded(p, t, q);
  }

  /** An abbreviation in any letter case, padded or not, resolves to the conference of the team it abbreviates. */
  lemma AbbreviationResolves(tb: Tables, o: IterationOrder, s: string, a: string)
    requires WellFormed(tb) && IsIterationOrder(tb, o)
    requires a in tb.abbreviations
    requires EqualsIgnoreCase(Trim(s), a)
    ensures Resolve(tb, o, Some(s)) == Resolution(Abbreviation, Some(tb.conferences[tb.abbreviations[a]]))
  {
    var clean := Trim(s);
    UpperOfCaseVariant(clean, a);
    assert clean !in tb.conferences;
  }

  /**
   * An alias in any letter case, padded or not, resolves to the conference of its
   * team whatever the iteration order: no other alias equals it ignoring case.
   */
  lemma AliasResolves(tb: Tables, o: IterationOrder, s: string, a: string)
    requires WellFormed(tb) && IsIterationOrder(tb, o)
    requires a in tb.aliases
    requires EqualsIgnoreCase(Trim(s), a)
    ensures Resolve(tb, o, Some(s)) == Resolution(AliasName, Some(tb.conferences[tb.aliases[a]]))
  {
    var clean := Trim(s);
    assert |ToUpper(clean)| == |a|;
    assert Passes(AliasEquals, a, clean);
    FirstPassingFindsKey(o.aliases, tb.aliases, AliasEquals, clean);
    var i := FirstPassing(o.aliases, AliasEquals, clean, 0).value;
    var b := o.aliases[i];
    EqualsIgnoreCaseIsEquivalence(a, clean, b);
    EqualsIgnoreCaseIsEquivalence(clean, a, b);
  }

  /** Every result is "Eastern", "Western" or "Unknown"; in particular no `get` returns `null`. */
  lemma ResultIsAConference(tb: Tables, o: IterationOrder, name: Option<string>)
    requires WellFormed(tb) && IsIterationOrder(tb, o)
    ensures Conference(tb, o, name).Some?
    ensures Conference(tb, o, name).value in {Eastern, Western, Unknown}
    ensures Conference(tb, o, name) == Some(Unknown) <==> Resolve(tb, o, name).step in {BlankInput, NoMatch}
  {
    ResultIsATeamsConference(tb, o, name);
    assert Eastern != Unknown && Western != Unknown;
  }

  /** A step that matches returns the conference of a team of the table; the others return "Unknown". */
  lemma ResultIsATeamsConference(tb: Tables, o: IterationOrder, name: Option<string>)
    requires WellFormed(tb) && IsIterationOrder(tb, o)
    ensures Resolve(tb, o, name).step in {BlankInput, NoMatch} ==> Conference(tb, o, name) == Some(Unknown)
    ensures Resolve(tb, o, name).step !in {BlankInput, NoMatch} ==>
      exists t | t in tb.conferences :: Conference(tb, o, name) == Some(tb.conferences[t])
  {
    if name.Some? && !IsBlank(name.value) {
      var clean := Trim(name.value);
      if clean in tb.conferences {
        assert Conference(tb, o, name) == Some(tb.conferences[clean]);
      } else if ToUpper(clean) in tb.abbreviations {
        var t := tb.abbreviations[ToUpper(clean)];
        assert Conference(tb, o, name) == Some(tb.conferences[t]);
      } else {
        AliasStepsReturnATeam(tb, o, clean);
        var r3 := FirstPassing(o.aliases, AliasEquals, clean, 0);
        var r4 := FirstPassing(o.teams, NamePartial, clean, 0);
        var r5 := FirstPassing(o.aliases, AliasPartial, clean, 0);
        if r3.Some? {
          var t := tb.aliases[o.aliases[r3.value]];
          assert Conference(tb, o, name) == Some(tb.conferences[t]);
        } else if r4.Some? {
          var t := o.teams[r4.value];
          assert Conference(tb, o, name) == Some(tb.conferences[t]);
        } else if r5.Some? {
          var t := tb.aliases[o.aliases[r5.value]];
          assert Conference(tb, o, name) == Some(tb.conferences[t]);
        }
      }
    }
  }

  /** Steps 3 to 5 return the conference of a team of the table, or "Unknown" when none matches. */
  lemma AliasStepsReturnATeam(tb: Tables, o: IterationOrder, clean: string)
    requires WellFormed(tb) && IsIterationOrder(tb, o)
    ensures var r := FirstPassing(o.aliases, AliasEquals, clean, 0);
      r.Some? ==> tb.aliases[o.aliases[r.value]] in tb.conferences
    ensures var r := FirstPassing(o.teams, NamePartial, clean, 0);
      r.Some? ==> o.teams[r.value] in tb.conferences
    ensures var r := FirstPassing(o.aliases, AliasPartial, clean, 0);
      r.Some? ==> tb.aliases[o.aliases[r.value]] in tb.conferences
  {
    FirstPassingFindsKey(o.aliases, tb.aliases, AliasEquals, clean);
    FirstPassingFindsKey(o.teams, tb.conferences, NamePartial, clean);
    FirstPassingFindsKey(o.aliases, tb.aliases, AliasPartial, clean);
  }

  /**
   * Precedence: each step decides exactly when it matches and no earlier step did,
   * and "Unknown" after a non-blank name means no step matched.
   */
  lemma StepPrecedence(tb: Tables, o: IterationOrder, s: string)
    requires IsIterationOrder(tb, o)
    requires !IsBlank(s)
    ensures var clean, step := Trim(s), Resolve(tb, o, Some(s)).step;
      && (step == ExactName <==> clean in tb.conferences)
      && (step == Abbreviation <==> clean !in tb.conferences && ToUpper(clean) in tb.abbreviations)
      && (step == AliasName <==>
            clean !in tb.conferences && ToUpper(clean) !in tb.abbreviations
            && SomeKeyPasses(tb.aliases, AliasEquals, clean))
      && (step == PartialName <==>
            clean !in tb.conferences && ToUpper(clean) !in tb.abbreviations
            && !SomeKeyPasses(tb.aliases, AliasEquals, clean)
            && SomeKeyPasses(tb.conferences, NamePartial, clean))
      && (step == PartialAlias <==>
            clean !in tb.conferences && ToUpper(clean) !in tb.abbreviations
            && !SomeKeyPasses(tb.aliases, AliasEquals, clean)
            && !SomeKeyPasses(tb.conferences, NamePartial, clean)
            && SomeKeyPasses(tb.aliases, AliasPartial, clean))
      && (step == NoMatch <==>
            clean !in tb.conferences && ToUpper(clean) !in tb.abbreviations
            && !SomeKeyPasses(tb.aliases, AliasEquals, clean)
            && !SomeKeyPasses(tb.conferences, NamePartial, clean)
            && !SomeKeyPasses(tb.aliases, AliasPartial, clean))
  {
    var clean := Trim(s);
    FirstPassingFindsKey(o.aliases, tb.aliases, AliasEquals, clean);
    FirstPassingFindsKey(o.teams, tb.conferences, NamePartial, clean);
    FirstPassingFindsKey(o.aliases, tb.aliases, AliasPartial, clean);
  }

  /**
   * Steps 4 and 5 return the conference of some entry that passes their test: a
   * team whose name and the input contain each other ignoring case, or the team
   * of such an alias.
   */
  lemma PartialStepsReturnAMatch(tb: Tables, o: IterationOrder, s: string)
    requires IsIterationOrder(tb, o)
    requires !IsBlank(s)
    ensures Resolve(tb, o, Some(s)).step == PartialName ==>
      exists t | t in tb.conferences :: Passes(NamePartial, t, Trim(s))
                                       && Conference(tb, o, Some(s)) == Some(tb.conferences[t])
    ensures Resolve(tb, o, Some(s)).step == PartialAlias ==>
      exists a | a in tb.aliases :: Passes(AliasPartial, a, Trim(s))
                                    && Conference(tb, o, Some(s)) == Get(tb.conferences, tb.aliases[a])
  {
    var clean := Trim(s);
    FirstPassingFindsKey(o.teams, tb.conferences, NamePartial, clean);
    FirstPassingFindsKey(o.aliases, tb.aliases, AliasPartial, clean);
  }

  /**
   * The part test of step 4 never decides on its own: a part of the full name
   * equal to the name ignoring case is contained in the full name ignoring case.
   */
  lemma PartMatchImpliesContainment(full: string, clean: string)
    requires MatchesPart(full, clean)
    ensures ContainsIgnoringCase(full, clean)
  {
    var p :| p in Split(full) && ToLower(p) == ToLower(clean);
    SplitPartsOccur(full, p);
    ContainsToLower(full, p);
  }

  // ---------------------------------------------------------------------------
  // Case variants and short names
  // ---------------------------------------------------------------------------

  /**
   * A case variant of a full name, such as "boston celtics", passes steps 1 to 3
   * and is decided by step 4, which returns the conference of a team whose name
   * and the input contain each other ignoring case; its own team is such a team.
   */
  lemma CaseVariantOfFullName(tb: Tables, o: IterationOrder, s: string, t: string)
    requires WellFormed(tb) && IsIterationOrder(tb, o)
    requires t in tb.conferences
    requires EqualsIgnoreCase(Trim(s), t) && Trim(s) !in tb.conferences
    ensures Passes(NamePartial, t, Trim(s))
    ensures Resolve(tb, o, Some(s)).step == PartialName
    ensures exists u | u in tb.conferences :: Passes(NamePartial, u, Trim(s))
                                          && Conference(tb, o, Some(s)) == Some(tb.conferences[u])
  {
    var clean := Trim(s);
    assert |ToUpper(clean)| == |clean|;
    VariantPassesNamePartial(clean, t);
    VariantIsNoAlias(tb, clean, t);
    FirstPassingFindsKey(o.aliases, tb.aliases, AliasEquals, clean);
    FirstPassingFindsKey(o.teams, tb.conferences, NamePartial, clean);
  }

  lemma VariantPassesNamePartial(clean: string, t: string)
    requires EqualsIgnoreCase(clean, t)
    ensures Passes(NamePartial, t, clean)
  {
    EqualsIgnoreCaseIff(clean, t);
    assert OccursAt(ToLower(t), ToLower(clean), 0);
  }

  lemma VariantIsNoAlias(tb: Tables, clean: string, t: string)
    requires WellFormed(tb)
    requires t in tb.conferences && EqualsIgnoreCase(clean, t)
    ensures !SomeKeyPasses(tb.aliases, AliasEquals, clean)
  {
    forall a | a in tb.aliases ensures !Passes(AliasEquals, a, clean) {
      EqualsIgnoreCaseIsEquivalence(t, clean, a);
      EqualsIgnoreCaseIsEquivalence(clean, t, a);
    }
  }

  /**
   * A one- or two-character name is no full name, abbreviation or alias, so step 4
   * or a later one decides: the first full name in the order that matches it, if
   * there is one, and otherwise step 5 or the fallback.
   */
  lemma ShortNameReachesPartialSteps(tb: Tables, o: IterationOrder, s: string)
    requires WellFormed(tb) && IsIterationOrder(tb, o)
    requires 0 < |s| < 3 && IsTrimmed(s)
    ensures Resolve(tb, o, Some(s)).step in {PartialName, PartialAlias, NoMatch}
    ensures var r := FirstPassing(o.teams, NamePartial, s, 0);
      r.Some? ==> Resolve(tb, o, Some(s)) == Resolution(PartialName, Some(tb.conferences[o.teams[r.value]]))
    ensures FirstPassing(o.teams, NamePartial, s, 0).None? ==>
      Resolve(tb, o, Some(s)).step in {PartialAlias, NoMatch}
    ensures |o.teams| > 0 && Passes(NamePartial, o.teams[0], s) ==>
      Resolve(tb, o, Some(s)) == Resolution(PartialName, Some(tb.conferences[o.teams[0]]))
  {
    TrimOfTrimmed(s);
    assert |ToUpper(s)| == |s|;
    FirstPassingFindsKey(o.aliases, tb.aliases, AliasEquals, s);
  }

  // ---------------------------------------------------------------------------
  // The source's tables
  // ---------------------------------------------------------------------------

  lemma GswIsCaseVariant()
    ensures EqualsIgnoreCase(Trim("gsw"), "GSW")
  {
    TrimOfTrimmed("gsw");
  }

  lemma GswEntry()
    ensures "GSW" in Standard.abbreviations && Standard.conferences[Standard.abbreviations["GSW"]] == Western
  {
  }

  lemma GswIsWestern(o: IterationOrder)
    requires IsIterationOrder(Standard, o)
    ensures Conference(Standard, o, Some("gsw")) == Some(Western)
  {
    StandardIsWellFormed();
    GswIsCaseVariant();
    GswEntry();
    AbbreviationResolves(Standard, o, "gsw", "GSW");
  }

  lemma LaIsShort()
    ensures 0 < |"la"| < 3 && IsTrimmed("la")
  {
  }

  lemma LaInAtlantaHawks()
    ensures Passes(NamePartial, "Atlanta Hawks", "la")
  {
    assert ToLower("Atlanta Hawks")[2..4] == ToLower("la");
    assert OccursAt(ToLower("Atlanta Hawks"), ToLower("la"), 2);
  }

  lemma LaInLaClippers()
    ensures Passes(NamePartial, "LA Clippers", "la")
  {
    assert ToLower("LA Clippers")[0..2] == ToLower("la");
    assert OccursAt(ToLower("LA Clippers"), ToLower("la"), 0);
  }

  lemma LaEntries()
    ensures Standard.conferences["Atlanta Hawks"] == Eastern && Standard.conferences["LA Clippers"] == Western
  {
  }

  /**
   * Step 4 depends on the iteration order: "la" lies inside both "Atlanta Hawks"
   * (Eastern) and "LA Clippers" (Western), and whichever comes first decides.
   */
  lemma PartialNameDependsOnOrder(o: IterationOrder)
    requires IsIterationOrder(Standard, o)
    requires |o.teams| > 0
    ensures o.teams[0] == "Atlanta Hawks" ==> Conference(Standard, o, Some("la")) == Some(Eastern)
    ensures o.teams[0] == "LA Clippers" ==> Conference(Standard, o, Some("la")) == Some(Western)
  {
    StandardIsWellFormed();
    LaIsShort();
    LaInAtlantaHawks();
    LaInLaClippers();
    LaEntries();
    ShortNameReachesPartialSteps(Standard, o, "la");
  }
}
