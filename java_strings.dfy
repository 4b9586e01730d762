/**
 * The operations of `java.lang.String` that the conference resolver and the
 * standings page rely on: `trim`, `isEmpty`, ASCII `toLowerCase` and
 * `toUpperCase`, `equalsIgnoreCase`, `contains` and `split(" ")`.
 */
module JavaStrings {

  // ---------------------------------------------------------------------------
  // trim
  // ---------------------------------------------------------------------------

  /** `String.trim` removes the chars whose code is at most U+0020. */
  predicate IsTrimmedChar(c: char) {
    c <= ' '
  }

  predicate AllTrimmed(s: string) {
    forall i | 0 <= i < |s| :: IsTrimmedChar(s[i])
  }

  /** A string that `trim` leaves alone: empty, or starting and ending above U+0020. */
  predicate IsTrimmed(s: string) {
    s == [] || (!IsTrimmedChar(s[0]) && !IsTrimmedChar(s[|s| - 1]))
  }

  /** How many chars the first loop of `trim` skips. */
  function LeadingCount(s: string): (n: nat)
    ensures n <= |s|
    ensures forall i | 0 <= i < n :: IsTrimmedChar(s[i])
    ensures n < |s| ==> !IsTrimmedChar(s[n])
  {
    if |s| == 0 || !IsTrimmedChar(s[0]) then 0 else 1 + LeadingCount(s[1..])
  }

  /** How many chars the second loop of `trim` drops from the end. */
  function TrailingCount(s: string): (n: nat)
    ensures n <= |s|
    ensures forall i | |s| - n <= i < |s| :: IsTrimmedChar(s[i])
    ensures n < |s| ==> !IsTrimmedChar(s[|s| - 1 - n])
  {
    if |s| == 0 || !IsTrimmedChar(s[|s| - 1]) then 0 else 1 + TrailingCount(s[..|s| - 1])
  }

  /**
   * `s.trim()`: the run of `s` that starts at its first char above U+0020 and
   * neither starts nor ends with a trimmed char; every char after it is trimmed.
   */
  function Trim(s: string): (r: string)
    ensures IsTrimmed(r)
    ensures LeadingCount(s) + |r| <= |s|
    ensures r == s[LeadingCount(s)..LeadingCount(s) + |r|]
    ensures forall k | LeadingCount(s) + |r| <= k < |s| :: IsTrimmedChar(s[k])
  {
    var rest := s[LeadingCount(s)..];
    rest[..|rest| - TrailingCount(rest)]
  }

  /** `s.trim().isEmpty()`. */
  predicate IsBlank(s: string) {
    Trim(s) == []
  }

  /** Whatever surrounds a trimmed core, as long as it is trimmed chars, `trim` returns the core. */
  lemma TrimOfPadded(p: string, r: string, q: string)
    requires AllTrimmed(p) && AllTrimmed(q) && IsTrimmed(r)
    ensures Trim(p + r + q) == r
  {
    var s := p + r + q;
    assert forall i | 0 <= i < |p| :: s[i] == p[i];
    assert forall i | 0 <= i < |r| :: s[|p| + i] == r[i];
    assert forall i | 0 <= i < |q| :: s[|p| + |r| + i] == q[i];
    assert s[|p|..|p| + |r|] == r;
  }

  lemma TrimOfTrimmed(r: string)
    requires IsTrimmed(r)
    ensures Trim(r) == r
  {
    if r != [] {
      assert LeadingCount(r) == 0;
      assert r[0..] == r;
      assert TrailingCount(r) == 0;
    }
  }

  lemma TrimIdempotent(s: string)
    ensures Trim(Trim(s)) == Trim(s)
  {
    TrimOfTrimmed(Trim(s));
  }

  lemma AllTrimmedConcat(a: string, b: string)
    requires AllTrimmed(a) && AllTrimmed(b)
    ensures AllTrimmed(a + b)
  {
    assert forall k | 0 <= k < |a| :: (a + b)[k] == a[k];
    assert forall k | |a| <= k < |a| + |b| :: (a + b)[k] == b[k - |a|];
  }

  lemma Regroup(p: string, a: string, b: string, c: string, q: string)
    ensures p + (a + b + c) + q == (p + a) + b + (c + q)
  {
  }

  /** `s` is the trimmed-away head, the result of `trim`, and the trimmed-away tail. */
  lemma TrimSplits(s: string)
    ensures var i := LeadingCount(s);
            s == s[..i] + Trim(s) + s[i + |Trim(s)|..]
            && AllTrimmed(s[..i]) && AllTrimmed(s[i + |Trim(s)|..])
  {
    var r := Trim(s);
    var i := LeadingCount(s);
    var before, after := s[..i], s[i + |r|..];
    assert forall k | 0 <= k < i :: before[k] == s[k];
    assert forall k | 0 <= k < |after| :: after[k] == s[i + |r| + k];
    assert s == before + r + after;
  }

  /** Trimmed chars added on either side do not change the result of `trim`. */
  lemma TrimIgnoresPadding(p: string, s: string, q: string)
    requires AllTrimmed(p) && AllTrimmed(q)
    ensures Trim(p + s + q) == Trim(s)
  {
    var r := Trim(s);
    var i := LeadingCount(s);
    var before, after := s[..i], s[i + |r|..];
    TrimSplits(s);
    AllTrimmedConcat(p, before);
    AllTrimmedConcat(after, q);
    Regroup(p, before, r, after, q);
    TrimOfPadded(p + before, r, after + q);
  }

  /** `trim().isEmpty()` holds exactly when every char is at most U+0020. */
  lemma BlankIffAllTrimmed(s: string)
    ensures IsBlank(s) <==> AllTrimmed(s)
  {
    if AllTrimmed(s) {
      TrimOfPadded(s, [], []);
      assert s + [] + [] == s;
    }
  }

  lemma BlankIffTrimBlank(s: string)
    ensures IsBlank(Trim(s)) <==> IsBlank(s)
  {
    TrimIdempotent(s);
  }

  // ---------------------------------------------------------------------------
  // ASCII case mapping and equalsIgnoreCase
  // ---------------------------------------------------------------------------

  function LowerChar(c: char): char {
    if 'A' <= c <= 'Z' then (c as int + 32) as char else c
  }

  function UpperChar(c: char): char {
    if 'a' <= c <= 'z' then (c as int - 32) as char else c
  }

  /** `s.toLowerCase()` over ASCII. */
  function ToLower(s: string): string {
    seq(|s|, i requires 0 <= i < |s| => LowerChar(s[i]))
  }

  /** `s.toUpperCase()` over ASCII. */
  function ToUpper(s: string): string {
    seq(|s|, i requires 0 <= i < |s| => UpperChar(s[i]))
  }

  /** The char test of `String.regionMatches(true, ...)`, which `equalsIgnoreCase` applies pairwise. */
  predicate CharEqualsIgnoreCase(c1: char, c2: char) {
    c1 == c2 || UpperChar(c1) == UpperChar(c2) || LowerChar(UpperChar(c1)) == LowerChar(UpperChar(c2))
  }

  /** `a.equalsIgnoreCase(b)`: equal lengths and every pair of chars equal ignoring case. */
  predicate EqualsIgnoreCase(a: string, b: string) {
    |a| == |b| && forall i | 0 <= i < |a| :: CharEqualsIgnoreCase(a[i], b[i])
  }

  lemma CharEqualsIgnoreCaseIff(c1: char, c2: char)
    ensures CharEqualsIgnoreCase(c1, c2) <==> LowerChar(c1) == LowerChar(c2)
  {
  }

  /** Ignoring case means comparing the lower-case forms. */
  lemma EqualsIgnoreCaseIff(a: string, b: string)
    ensures EqualsIgnoreCase(a, b) <==> ToLower(a) == ToLower(b)
  {
    if EqualsIgnoreCase(a, b) {
      forall i | 0 <= i < |a| ensures ToLower(a)[i] == ToLower(b)[i] {
        CharEqualsIgnoreCaseIff(a[i], b[i]);
      }
    }
    if ToLower(a) == ToLower(b) {
      forall i | 0 <= i < |a| ensures CharEqualsIgnoreCase(a[i], b[i]) {
        assert ToLower(a)[i] == ToLower(b)[i];
        CharEqualsIgnoreCaseIff(a[i], b[i]);
      }
    }
  }

  lemma EqualsIgnoreCaseIsEquivalence(a: string, b: string, c: string)
    ensures EqualsIgnoreCase(a, a)
    ensures EqualsIgnoreCase(a, b) ==> EqualsIgnoreCase(b, a)
    ensures EqualsIgnoreCase(a, b) && EqualsIgnoreCase(b, c) ==> EqualsIgnoreCase(a, c)
  {
    EqualsIgnoreCaseIff(a, a);
    EqualsIgnoreCaseIff(a, b);
    EqualsIgnoreCaseIff(b, a);
    EqualsIgnoreCaseIff(b, c);
    EqualsIgnoreCaseIff(a, c);
  }

  /** A string whose letters are all capitals is its own `toUpperCase`, so a case variant of it upper-cases to it. */
  lemma UpperOfCaseVariant(a: string, b: string)
    requires forall i | 0 <= i < |b| :: !('a' <= b[i] <= 'z')
    requires EqualsIgnoreCase(a, b)
    ensures ToUpper(a) == b
  {
    forall i | 0 <= i < |a| ensures ToUpper(a)[i] == b[i] {
      CharEqualsIgnoreCaseIff(a[i], b[i]);
    }
  }

  // ---------------------------------------------------------------------------
  // contains
  // ---------------------------------------------------------------------------

  predicate OccursAt(h: string, n: string, k: int) {
    0 <= k && k + |n| <= |h| && h[k..k + |n|] == n
  }

  /** `h.contains(n)`. */
  predicate Contains(h: string, n: string) {
    exists k | 0 <= k <= |h| - |n| :: OccursAt(h, n, k)
  }

  /** Lower-casing both sides keeps an occurrence where it is. */
  lemma ContainsToLower(h: string, n: string)
    requires Contains(h, n)
    ensures Contains(ToLower(h), ToLower(n))
  {
    var k :| 0 <= k <= |h| - |n| && OccursAt(h, n, k);
    forall i | 0 <= i < |n| ensures ToLower(h)[k + i] == ToLower(n)[i] {
      assert h[k + i] == h[k..k + |n|][i];
    }
    assert ToLower(h)[k..k + |n|] == ToLower(n);
    assert OccursAt(ToLower(h), ToLower(n), k);
  }

  /** An occurrence inside a suffix is an occurrence in the whole string. */
  lemma ContainsInSuffix(h: string, j: nat, n: string)
    requires j <= |h| && Contains(h[j..], n)
    ensures Contains(h, n)
  {
    var k :| 0 <= k <= |h[j..]| - |n| && OccursAt(h[j..], n, k);
    assert h[j + k..j + k + |n|] == h[j..][k..k + |n|];
    assert OccursAt(h, n, j + k);
  }

  // ---------------------------------------------------------------------------
  // split(" ")
  // ---------------------------------------------------------------------------

  function IndexOfSpace(s: string): (i: nat)
    requires ' ' in s
    ensures i < |s| && s[i] == ' ' && ' ' !in s[..i]
  {
    if s[0] == ' ' then 0 else 1 + IndexOfSpace(s[1..])
  }

  /** The pieces of `s` between single spaces, empty pieces included. */
  function Pieces(s: string): (ps: seq<string>)
    ensures |ps| >= 1
    ensures forall p | p in ps :: ' ' !in p
    decreases |s|
  {
    if ' ' !in s then [s]
    else
      var i := IndexOfSpace(s);
      [s[..i]] + Pieces(s[i + 1..])
  }

  function JoinWithSpaces(ps: seq<string>): string
    requires |ps| >= 1
  {
    if |ps| == 1 then ps[0] else ps[0] + " " + JoinWithSpaces(ps[1..])
  }

  /** Joining the pieces with single spaces gives the string back. */
  lemma {:induction false} JoinPieces(s: string)
    ensures JoinWithSpaces(Pieces(s)) == s
    decreases |s|
  {
    if ' ' in s {
      var i := IndexOfSpace(s);
      JoinPieces(s[i + 1..]);
      assert Pieces(s)[1..] == Pieces(s[i + 1..]);
      assert s == s[..i] + " " + s[i + 1..];
    }
  }

  /** Splitting space-free pieces joined with single spaces gives the pieces back. */
  lemma {:induction false} PiecesOfJoin(ps: seq<string>)
    requires |ps| >= 1
    requires forall p | p in ps :: ' ' !in p
    ensures Pieces(JoinWithSpaces(ps)) == ps
  {
    if |ps| > 1 {
      var s := JoinWithSpaces(ps);
      var rest := JoinWithSpaces(ps[1..]);
      assert s == ps[0] + " " + rest;
      assert ps[0] in ps;
      assert s[|ps[0]|] == ' ';
      assert ' ' in s;
      assert s[..|ps[0]|] == ps[0];
      assert IndexOfSpace(s) == |ps[0]| by {
        var i := IndexOfSpace(s);
        assert forall j | 0 <= j < |ps[0]| :: s[j] == ps[0][j];
        assert forall j | 0 <= j < i :: s[..i][j] == s[j];
      }
      assert s[|ps[0]| + 1..] == rest;
      PiecesOfJoin(ps[1..]);
    }
  }

  function DropTrailingEmpty(ps: seq<string>): (r: seq<string>)
    ensures |r| <= |ps| && r == ps[..|r|]
    ensures r == [] || r[|r| - 1] != []
    ensures forall i | |r| <= i < |ps| :: ps[i] == []
  {
    if ps == [] || ps[|ps| - 1] != [] then ps else DropTrailingEmpty(ps[..|ps| - 1])
  }

  /** `s.split(" ")`: with no space the array `{s}`; otherwise the pieces with trailing empty ones removed. */
  function Split(s: string): seq<string> {
    if ' ' !in s then [s] else DropTrailingEmpty(Pieces(s))
  }

  lemma {:induction false} PiecesOccur(s: string, p: string)
    requires p in Pieces(s)
    ensures Contains(s, p)
    decreases |s|
  {
    if ' ' !in s {
      assert OccursAt(s, p, 0);
    } else {
      var i := IndexOfSpace(s);
      if p == s[..i] {
        assert OccursAt(s, p, 0);
      } else {
        PiecesOccur(s[i + 1..], p);
        ContainsInSuffix(s, i + 1, p);
      }
    }
  }

  /** Every part `split(" ")` returns is a substring of the input. */
  lemma SplitPartsOccur(s: string, p: string)
    requires p in Split(s)
    ensures Contains(s, p)
  {
    if ' ' !in s {
      assert OccursAt(s, p, 0);
    } else {
      var r := DropTrailingEmpty(Pieces(s));
      var j :| 0 <= j < |r| && r[j] == p;
      assert p in Pieces(s);
      PiecesOccur(s, p);
    }
  }
}
