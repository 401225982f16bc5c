/** Decimal numerals: writing them, telling them apart and reading them. */
module DecimalText {

  function Digit(d: nat): char
    requires d < 10
  {
    "0123456789"[d]
  }

  function Decimal(n: nat): string
  {
    if n < 10 then [Digit(n)] else Decimal(n / 10) + [Digit(n % 10)]
  }

  lemma {:induction false} DecimalTells(m: nat, n: nat)
    requires Decimal(m) == Decimal(n)
    ensures m == n
  {
    var a, b := Decimal(m), Decimal(n);
    assert a[|a| - 1] == Digit(m % 10) && b[|b| - 1] == Digit(n % 10);
    if m >= 10 && n >= 10 {
      assert a[..|a| - 1] == Decimal(m / 10) && b[..|b| - 1] == Decimal(n / 10);
      DecimalTells(m / 10, n / 10);
    } else {
      DecimalSize(m);
      DecimalSize(n);
    }
  }

  lemma {:induction false} DecimalSize(n: nat)
    ensures |Decimal(n)| >= 1 && (n >= 10 ==> |Decimal(n)| >= 2)
    ensures '|' !in Decimal(n)
  {
    if n >= 10 {
      DecimalSize(n / 10);
    }
  }

  predicate IsDigit(c: char)
  {
    '0' <= c <= '9'
  }

  /** Read as many digits as there are onto `n`: the number, and what follows. */
  function ReadDecimal(t: string, n: nat): (r: (nat, string))
    ensures |r.1| <= |t|
  {
    if t != [] && IsDigit(t[0]) then ReadDecimal(t[1..], 10 * n + (t[0] as int - '0' as int)) else (n, t)
  }

  lemma DigitReads(d: nat, r: string, n: nat)
    requires d < 10
    ensures IsDigit(Digit(d)) && ReadDecimal([Digit(d)] + r, n) == ReadDecimal(r, 10 * n + d)
  {
    assert ([Digit(d)] + r)[1..] == r;
  }

  /** A numeral reads back up to the first character that is no digit. */
  lemma {:induction false} DecimalReads(n: nat, r: string)
    ensures ReadDecimal(Decimal(n) + r, 0) == ReadDecimal(r, n)
    ensures IsDigit(Decimal(n)[0])
  {
    hide ReadDecimal, Digit;
    if n < 10 {
      DigitReads(n, r, 0);
    } else {
      DecimalReads(n / 10, [Digit(n % 10)] + r);
      DigitReads(n % 10, r, n / 10);
      assert Decimal(n) + r == Decimal(n / 10) + ([Digit(n % 10)] + r);
    }
  }
}
