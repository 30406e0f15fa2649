/** Decimal rendering of integers, as Python's `str(int)` writes them:
    ASCII digits, most significant first, no leading zero, and a `-` sign
    for negative values. The generated payload identifier is printed
    through this rendering. */
module Decimal {

  /** The ASCII digits `0`..`9`, which is what the character class `[0-9]` accepts. */
  predicate IsDigit(c: char) {
    '0' <= c <= '9'
  }

  predicate AllDigits(s: string) {
    forall i :: 0 <= i < |s| ==> IsDigit(s[i])
  }

  function DigitChar(d: nat): (c: char)
    requires d < 10
    ensures IsDigit(c)
    ensures c as int - '0' as int == d
  {
    ('0' as int + d) as char
  }

  /** Numeric value of a digit string (the reading direction of `NatToString`). */
  function Value(s: string): nat
    requires AllDigits(s)
  {
    if s == [] then 0 else Value(s[..|s| - 1]) * 10 + (s[|s| - 1] as int - '0' as int)
  }

  /** `str(n)` for a non-negative `n`: a non-empty digit string whose first
      digit is `0` only for the number zero itself. */
  function NatToString(n: nat): (s: string)
    ensures |s| > 0 && AllDigits(s)
    ensures s[0] == '0' <==> n == 0
    ensures s[0] == '0' ==> |s| == 1
  {
    if n < 10 then [DigitChar(n)] else NatToString(n / 10) + [DigitChar(n % 10)]
  }

  /** `str(n)` for any integer. */
  function Str(n: int): (s: string)
    ensures n >= 0 ==> |s| > 0 && AllDigits(s)
    ensures n < 0 ==> |s| > 1 && s[0] == '-' && AllDigits(s[1..])
  {
    if n < 0 then "-" + NatToString(-n) else NatToString(n)
  }

  /** Reading back a rendered number gives the number: rendering loses nothing. */
  lemma {:induction false} ValueOfNatToString(n: nat)
    ensures Value(NatToString(n)) == n
  {
    if n >= 10 {
      var prefix := NatToString(n / 10);
      var s := prefix + [DigitChar(n % 10)];
      assert s[..|s| - 1] == prefix;
      ValueOfNatToString(n / 10);
    }
  }

  /** Different numbers are rendered differently. */
  lemma NatToStringInjective(a: nat, b: nat)
    requires a != b
    ensures NatToString(a) != NatToString(b)
  {
    if NatToString(a) == NatToString(b) {
      ValueOfNatToString(a);
      ValueOfNatToString(b);
    }
  }

  lemma StrInjective(m: int, n: int)
    requires m != n
    ensures Str(m) != Str(n)
  {
    if m < 0 && n < 0 {
      NatToStringInjective(-m, -n);
      assert Str(m)[1..] == NatToString(-m);
      assert Str(n)[1..] == NatToString(-n);
    } else if m >= 0 && n >= 0 {
      NatToStringInjective(m, n);
    } else {
      assert Str(m)[0] != Str(n)[0];
    }
  }
}
