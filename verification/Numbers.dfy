/** Machine words and bytes, and facts about products and quotients. */
module Numbers {

  type Byte = b: int | 0 <= b < 256

  const USIZE_MAX: nat := 0xFFFF_FFFF_FFFF_FFFF

  function Min(a: nat, b: nat): nat { if a < b then a else b }

  function Max(a: nat, b: nat): nat { if a < b then b else a }

  /** Subtraction of `usize` that stops at zero. */
  function Minus(a: nat, b: nat): nat { if b <= a then a - b else 0 }

  // ----- how numbers are written -----

  function DigitChar(d: nat): char
    requires d < 16
  {
    if d < 10 then ('0' as int + d) as char else ('a' as int + d - 10) as char
  }

  function Decimal(n: nat): string {
    if n < 10 then [DigitChar(n)] else Decimal(n / 10) + [DigitChar(n % 10)]
  }

  // ----- division -----

  lemma TimesAtLeast(d: int, a: int, b: int)
    requires d >= 0 && a <= b
    ensures d * a <= d * b
  {
    assert d * b == d * a + d * (b - a);
  }

  lemma DivisionIsUnique(n: int, d: int, q: int, p: int)
    requires d > 0 && d * q <= n < d * q + d && d * p <= n < d * p + d
    ensures q == p
  {
    if q < p { TimesAtLeast(d, q + 1, p); }
    if p < q { TimesAtLeast(d, p + 1, q); }
  }

  lemma DivisionIs(n: int, d: int, q: int)
    requires d > 0 && d * q <= n < d * q + d
    ensures n / d == q
  {
    DivisionIsUnique(n, d, q, n / d);
  }

  lemma DivisionSplits(n: nat, d: nat)
    requires d > 0
    ensures n == d * (n / d) + n % d && n % d < d
  {
  }

  lemma RemainderIs(n: int, d: int, q: int, r: int)
    requires d > 0 && n == d * q + r && 0 <= r < d
    ensures n % d == r
  {
    DivisionIsUnique(n, d, q, n / d);
  }
}
