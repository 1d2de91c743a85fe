/** Numbers in decimal digits. */
module Decimals {
  predicate Digit(c: char) {
    '0' <= c <= '9'
  }

  function DigitChar(d: nat): (c: char)
    requires d < 10
    ensures Digit(c)
  {
    ('0' as int + d) as char
  }

  predicate AllDigits(s: string) {
    forall i | 0 <= i < |s| :: Digit(s[i])
  }

  /** The decimal digits that `%d` prints. */
  function Decimal(n: nat): (s: string)
    ensures s != [] && AllDigits(s)
  {
    if n < 10 then [DigitChar(n)] else Decimal(n / 10) + [DigitChar(n % 10)]
  }

  function Parse(s: string): nat
    requires AllDigits(s)
  {
    if s == [] then 0 else
    assert Digit(s[|s| - 1]);
    10 * Parse(s[..|s| - 1]) + (s[|s| - 1] as int - '0' as int)
  }

  lemma {:induction false} ParseDecimal(n: nat)
    ensures Parse(Decimal(n)) == n
  {
    if n < 10 {
      assert Decimal(n)[..0] == [];
    } else {
      ParseDecimal(n / 10);
      assert Decimal(n)[..|Decimal(n)| - 1] == Decimal(n / 10);
    }
  }

  lemma {:induction false} NoLeadingZero(n: nat)
    ensures n >= 10 ==> |Decimal(n)| >= 2
    ensures n > 0 ==> Decimal(n)[0] != '0'
  {
    if n >= 10 {
      NoLeadingZero(n / 10);
      assert Decimal(n)[0] == Decimal(n / 10)[0];
    }
  }

  lemma {:induction false} DecimalParse(s: string)
    requires s != [] && AllDigits(s) && s[0] != '0'
    ensures Parse(s) > 0 && Decimal(Parse(s)) == s
  {
    var k := |s| - 1;
    assert Digit(s[k]);
    var d := s[k] as int - '0' as int;
    assert DigitChar(d) == s[k];
    if k == 0 {
      assert s[..0] == [] && Parse(s) == d;
      assert s == [s[0]];
    } else {
      DecimalParse(s[..k]);
      var q := Parse(s[..k]);
      assert Parse(s) == 10 * q + d && Parse(s) / 10 == q && Parse(s) % 10 == d;
      assert s == s[..k] + [s[k]];
    }
  }

  // ----- reading from the front -----

  function PowerOfTen(k: nat): nat {
    if k == 0 then 1 else 10 * PowerOfTen(k - 1)
  }

  /** The first digit counts for as many powers of ten as digits follow. */
  lemma {:induction false} ParseFirst(c: char, s: string)
    requires Digit(c) && AllDigits(s)
    ensures AllDigits([c] + s)
    ensures Parse([c] + s) == (c as int - '0' as int) * PowerOfTen(|s|) + Parse(s)
  {
    assert AllDigits([c] + s);
    if s == [] {
      assert [c] + s == [c] && [c][..0] == [];
    } else {
      var k := |s| - 1;
      assert ([c] + s)[..k + 1] == [c] + s[..k];
      ParseFirst(c, s[..k]);
      TenTimes(c as int - '0' as int, PowerOfTen(k));
    }
  }

  lemma TenTimes(d: int, q: int)
    ensures 10 * (d * q) == d * (10 * q)
  {
  }
}
