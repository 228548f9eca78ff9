/** Decimal numerals without leading zeros. */
module Numerals {
  import opened Collections

  predicate IsDigit(c: char) {
    '0' <= c <= '9'
  }

  /** `0`, or digits that do not start with a zero. */
  predicate Numeral(s: string) {
    s == "0" || (s != "" && s[0] != '0' && forall i :: 0 <= i < |s| ==> IsDigit(s[i]))
  }

  function DigitOf(c: char): nat
    requires IsDigit(c)
  {
    c as int - '0' as int
  }

  function Value(s: string): nat
    requires forall i :: 0 <= i < |s| ==> IsDigit(s[i])
  {
    if s == "" then 0 else Value(s[..|s| - 1]) * 10 + DigitOf(s[|s| - 1])
  }

  function Decimal(n: nat): string {
    if n < 10 then [('0' as int + n) as char] else Decimal(n / 10) + [('0' as int + n % 10) as char]
  }

  lemma {:induction false} DecimalReads(n: nat)
    ensures Numeral(Decimal(n)) && (forall i :: 0 <= i < |Decimal(n)| ==> IsDigit(Decimal(n)[i]))
    ensures Value(Decimal(n)) == n
    ensures n > 0 ==> Decimal(n)[0] != '0'
  {
    if n < 10 {
      assert Decimal(n)[..0] == "";
    } else {
      DecimalReads(n / 10);
      var d := Decimal(n);
      assert d[..|d| - 1] == Decimal(n / 10);
    }
  }

  lemma DecimalMore(v: nat, d: nat)
    requires v > 0 && d < 10
    ensures Decimal(10 * v + d) == Decimal(v) + [('0' as int + d) as char]
  {
    assert (10 * v + d) / 10 == v && (10 * v + d) % 10 == d;
  }

  lemma {:induction false} NumeralIsDecimal(s: string)
    requires Numeral(s)
    ensures (forall i :: 0 <= i < |s| ==> IsDigit(s[i])) && Decimal(Value(s)) == s
    ensures s != "0" ==> Value(s) > 0
    decreases |s|
  {
    var n := |s| - 1;
    var t, c := s[..n], s[n];
    assert IsDigit(c) && s == t + [c];
    if n == 0 {
      assert t == "" && Value(s) == DigitOf(c);
    } else {
      assert forall i :: 0 <= i < |t| ==> t[i] == s[i];
      assert Numeral(t);
      NumeralIsDecimal(t);
      assert Value(s) == 10 * Value(t) + DigitOf(c);
      DecimalMore(Value(t), DigitOf(c));
    }
  }

  function NumberOf(s: string): Option<nat> {
    if Numeral(s) then NumeralIsDecimal(s); Some(Value(s)) else None
  }

  /** Reading undoes printing, and nothing else can be read. */
  lemma NumberIsPrinted(s: string, n: nat)
    ensures NumberOf(s) == Some(n) <==> s == Decimal(n)
  {
    DecimalReads(n);
    if Numeral(s) {
      NumeralIsDecimal(s);
    }
  }
}
