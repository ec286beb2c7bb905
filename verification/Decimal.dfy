/** Decimal numerals: what the renderer writes and what the argument parser reads. */
module Decimal {
  import opened Prelude

  predicate IsDigit(c: char) {
    '0' <= c <= '9'
  }

  predicate AllDigits(s: string) {
    forall i | 0 <= i < |s| :: IsDigit(s[i])
  }

  function DigitOf(n: nat): char
    requires n < 10
  {
    '0' + n as char
  }

  /** The shortest numeral for `n`. */
  function Numeral(n: nat): string {
    if n < 10 then [DigitOf(n)] else Numeral(n / 10) + [DigitOf(n % 10)]
  }

  /** The number a string of digits denotes; leading zeros are fine. */
  function Denotes(s: string): nat
    requires AllDigits(s)
  {
    if s == [] then 0 else 10 * Denotes(s[..|s| - 1]) + (s[|s| - 1] as int - '0' as int)
  }

  lemma {:induction false} NumeralRoundTrip(n: nat)
    ensures Numeral(n) != [] && AllDigits(Numeral(n))
    ensures Denotes(Numeral(n)) == n
  {
    if n >= 10 {
      NumeralRoundTrip(n / 10);
      var s := Numeral(n);
      assert s[..|s| - 1] == Numeral(n / 10);
    } else {
      assert Numeral(n)[..0] == [];
    }
  }

  /** How many leading characters of `s` are digits. */
  function DigitPrefix(s: string): (k: nat)
    ensures k <= |s| && AllDigits(s[..k])
    ensures k < |s| ==> !IsDigit(s[k])
  {
    if s == [] || !IsDigit(s[0]) then
      0
    else
      var k := DigitPrefix(s[1..]) + 1;
      assert s[..k] == [s[0]] + s[1..][..k - 1];
      k
  }

  /** Reads the longest numeral at the front of `s`. */
  function ReadNumber(s: string): Option<(nat, string)> {
    var k := DigitPrefix(s);
    if k == 0 then None else Some((Denotes(s[..k]), s[k..]))
  }

  /** The next character cannot be taken for part of a number. */
  predicate NoDigitNext(s: string) {
    s == [] || !IsDigit(s[0])
  }

  lemma {:induction false} DigitPrefixUnique(a: string, b: string)
    requires AllDigits(a) && NoDigitNext(b)
    ensures DigitPrefix(a + b) == |a|
  {
    if a == [] {
      assert a + b == b;
    } else {
      assert (a + b)[1..] == a[1..] + b;
      DigitPrefixUnique(a[1..], b);
    }
  }

  lemma ReadsBackNumber(n: nat, rest: string)
    requires NoDigitNext(rest)
    ensures ReadNumber(Numeral(n) + rest) == Some((n, rest))
  {
    NumeralRoundTrip(n);
    DigitPrefixUnique(Numeral(n), rest);
    assert (Numeral(n) + rest)[..|Numeral(n)|] == Numeral(n);
    assert (Numeral(n) + rest)[|Numeral(n)|..] == rest;
  }

  // ---------------------------------------------------------------- base ten

  function Pow10(k: nat): (m: nat)
    ensures m > 0
  {
    if k == 0 then 1 else 10 * Pow10(k - 1)
  }

  /** A numeral's characters are the base-ten digits of its number: the one with `k` to its right counts
      the powers `10^k` modulo ten. */
  lemma {:induction false} NumeralDigits(n: nat, k: nat)
    requires k < |Numeral(n)|
    ensures '0' <= Numeral(n)[|Numeral(n)| - 1 - k] <= '9'
    ensures Numeral(n)[|Numeral(n)| - 1 - k] as int - '0' as int == n / Pow10(k) % 10
  {
    if k > 0 {
      var s, t, m := Numeral(n), Numeral(n / 10), Pow10(k - 1);
      NumeralDigits(n / 10, k - 1);
      assert s[|s| - 1 - k] == t[|t| - 1 - (k - 1)];
      assert n / Pow10(k) == n / 10 / m by {
        DivideTwice(n, 10, m);
      }
    }
  }

  /** And there are as many of them as the number has digits. */
  lemma {:induction false} NumeralLength(n: nat)
    ensures |Numeral(n)| >= 1 && n < Pow10(|Numeral(n)|)
    ensures n > 0 ==> Pow10(|Numeral(n)| - 1) <= n
  {
    if n >= 10 {
      NumeralLength(n / 10);
      var m := |Numeral(n / 10)|;
      assert Pow10(m) == 10 * Pow10(m - 1);
    } else {
      assert Pow10(1) == 10 * Pow10(0);
    }
  }
}
