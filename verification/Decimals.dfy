/** Decimal numerals. */
module Decimals {
  import opened Patterns

  function DigitChar(d: nat): (c: char)
    requires d < 10
    ensures IsDigit(c) && DigitValue(c) == d
  {
    ('0' as int + d) as char
  }

  function DigitValue(c: char): nat
    requires IsDigit(c)
  {
    c as int - '0' as int
  }

  /** The number that digits denote; none denote zero. */
  function NatOf(digits: string): nat
    requires AllDigits(digits)
  {
    if digits == "" then 0
    else 10 * NatOf(digits[..|digits| - 1]) + DigitValue(digits[|digits| - 1])
  }

  lemma NatOfSnoc(digits: string, d: nat)
    requires AllDigits(digits) && d < 10
    ensures AllDigits(digits + [DigitChar(d)])
    ensures NatOf(digits + [DigitChar(d)]) == 10 * NatOf(digits) + d
  {
    assert (digits + [DigitChar(d)])[..|digits|] == digits;
  }

  /** A number without leading zeros. */
  function Decimal(n: nat): (s: string)
    ensures s != "" && AllDigits(s) && NatOf(s) == n
  {
    if n < 10 then
      NatOfSnoc("", n);
      assert "" + [DigitChar(n)] == [DigitChar(n)];
      [DigitChar(n)]
    else
      NatOfSnoc(Decimal(n / 10), n % 10);
      Decimal(n / 10) + [DigitChar(n % 10)]
  }

  function Power10(k: nat): (p: nat)
    ensures p > 0
  {
    if k == 0 then 1 else 10 * Power10(k - 1)
  }

  /** The last digits of a number, with leading zeros. */
  function Padded(n: nat, width: nat): (s: string)
    ensures |s| == width && AllDigits(s)
  {
    if width == 0 then ""
    else
      NatOfSnoc(Padded(n / 10, width - 1), n % 10);
      Padded(n / 10, width - 1) + [DigitChar(n % 10)]
  }

  lemma {:induction false} PaddedValue(n: nat, width: nat)
    requires n < Power10(width)
    ensures NatOf(Padded(n, width)) == n
  {
    if width > 0 {
      PaddedValue(n / 10, width - 1);
      NatOfSnoc(Padded(n / 10, width - 1), n % 10);
    }
  }

  lemma LastThreeDigits(n: nat)
    ensures var m := n % 1000;
            && n / 10 / 10 / 10 == n / 1000
            && m % 10 == n % 10 && m / 10 % 10 == n / 10 % 10 && m / 10 / 10 % 10 == n / 10 / 10 % 10
  {
  }

  /** The last three digits can be split off. */
  lemma PaddedThousands(n: nat, width: nat)
    ensures Padded(n, width + 3) == Padded(n / 1000, width) + Padded(n % 1000, 3)
  {
    LastThreeDigits(n);
    ThreeDigits(n, width);
    LastPadded(n % 1000);
  }

  lemma LastPadded(m: nat)
    ensures Padded(m, 3) == [DigitChar(m / 10 / 10 % 10), DigitChar(m / 10 % 10), DigitChar(m % 10)]
  {
    ThreeDigits(m, 0);
  }

  lemma ThreeDigits(n: nat, width: nat)
    ensures Padded(n, width + 3)
         == Padded(n / 10 / 10 / 10, width) + [DigitChar(n / 10 / 10 % 10), DigitChar(n / 10 % 10), DigitChar(n % 10)]
  {
    assert Padded(n, width + 3) == Padded(n / 10, width + 2) + [DigitChar(n % 10)];
    assert Padded(n / 10, width + 2) == Padded(n / 10 / 10, width + 1) + [DigitChar(n / 10 % 10)];
  }

  lemma ThreeZeros(m: nat)
    requires m < 1000
    ensures Padded(m, 3) == "000" <==> m == 0
  {
    assert Power10(3) == 1000;
    PaddedValue(m, 3);
    PaddedValue(0, 3);
    assert Padded(0, 3) == "000" by {
      ThreeDigits(0, 0);
    }
  }
}
