/**
 * `Integer.parseInt` and `Integer.toString` for the 32-bit `int` the standings
 * page stores wins and losses in. Decimal digits are the ASCII ones.
 */
module JavaIntegers {
  import opened Wrappers

  const MinInt: int := -0x8000_0000
  const MaxInt: int := 0x7fff_ffff

  predicate InIntRange(n: int) {
    MinInt <= n <= MaxInt
  }

  predicate IsDigit(c: char) {
    '0' <= c <= '9'
  }

  predicate AllDigits(s: string) {
    forall i | 0 <= i < |s| :: IsDigit(s[i])
  }

  function DigitValue(c: char): nat
    requires IsDigit(c)
  {
    c as int - '0' as int
  }

  function DigitChar(d: nat): char
    requires d < 10
  {
    ('0' as int + d) as char
  }

  /** The number a run of decimal digits denotes, read from the left as the parse loop does. */
  function DigitsValue(s: string): nat
    requires AllDigits(s)
  {
    if s == [] then 0 else DigitsValue(s[..|s| - 1]) * 10 + DigitValue(s[|s| - 1])
  }

  predicate HasSign(s: string) {
    |s| > 0 && (s[0] == '-' || s[0] == '+')
  }

  /** What follows the optional sign. */
  function Magnitude(s: string): string {
    if HasSign(s) then s[1..] else s
  }

  /** The shape `parseInt` accepts before its range check: an optional sign, then at least one digit. */
  predicate IsIntegerText(s: string) {
    |Magnitude(s)| > 0 && AllDigits(Magnitude(s))
  }

  /** The exact value such a text denotes, with no bound on its size. */
  function TextValue(s: string): int
    requires IsIntegerText(s)
  {
    var m: int := DigitsValue(Magnitude(s));
    if |s| > 0 && s[0] == '-' then -m else m
  }

  /**
   * `Integer.parseInt(s)`; `None` stands for the `NumberFormatException` it throws
   * for a text of the wrong shape or a value outside the 32-bit range.
   */
  function ParseInt(s: string): (r: Option<int>)
    ensures r.Some? ==> InIntRange(r.value)
    ensures r.Some? ==> IsIntegerText(s) && r.value == TextValue(s)
  {
    if IsIntegerText(s) && InIntRange(TextValue(s)) then Some(TextValue(s)) else None
  }

  /** The decimal digits of `n`, with no leading zero. */
  function DigitsOf(n: nat): (s: string)
    ensures |s| > 0 && AllDigits(s)
  {
    if n < 10 then [DigitChar(n)] else DigitsOf(n / 10) + [DigitChar(n % 10)]
  }

  /** `Integer.toString(n)`. */
  function FormatInt(n: int): string {
    if n < 0 then "-" + DigitsOf(-n) else DigitsOf(n)
  }

  lemma {:induction false} DigitsValueOfDigits(n: nat)
    ensures DigitsValue(DigitsOf(n)) == n
  {
    var s := DigitsOf(n);
    if n >= 10 {
      DigitsValueOfDigits(n / 10);
      assert s[..|s| - 1] == DigitsOf(n / 10);
    }
  }

  /** What `Integer.toString` prints, `Integer.parseInt` reads back. */
  lemma ParseFormatRoundTrip(n: int)
    requires InIntRange(n)
    ensures ParseInt(FormatInt(n)) == Some(n)
  {
    var s := FormatInt(n);
    var m := if n < 0 then -n else n;
    DigitsValueOfDigits(m);
    if n < 0 {
      assert Magnitude(s) == DigitsOf(m);
    } else {
      assert !HasSign(s) by { assert IsDigit(s[0]); }
    }
  }

  /** `parseInt` throws exactly for a text of the wrong shape or an out-of-range value. */
  lemma ParseIntFails(s: string)
    ensures ParseInt(s).None? <==> !IsIntegerText(s) || !InIntRange(TextValue(s))
  {
  }

  /** A lone sign, or an empty text, is rejected. */
  lemma ParseIntNeedsDigits()
    ensures ParseInt("") == None && ParseInt("-") == None && ParseInt("+") == None
  {
    assert Magnitude("-") == [];
    assert Magnitude("+") == [];
  }

  /** One past the largest `int` is rejected, and the smallest `int` is accepted. */
  lemma {:induction false} ParseIntBounds()
    ensures ParseInt(FormatInt(MaxInt + 1)) == None
    ensures ParseInt(FormatInt(MinInt)) == Some(MinInt)
  {
    var s := FormatInt(MaxInt + 1);
    DigitsValueOfDigits(MaxInt + 1);
    assert !HasSign(s) by { assert IsDigit(s[0]); }
    ParseFormatRoundTrip(MinInt);
  }
}
