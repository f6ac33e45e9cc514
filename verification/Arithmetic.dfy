/** Machine-word bounds, extrema, and products written as sums. */
module Arithmetic {
  const USIZE_MAX: nat := 0xFFFF_FFFF_FFFF_FFFF
  const U32_MAX: nat := 0xFFFF_FFFF

  function Min(a: nat, b: nat): nat
  {
    if a < b then a else b
  }

  function Max(a: nat, b: nat): nat
  {
    if a < b then b else a
  }

  /** `n * unit` (`TimesIsProduct`), as a sum so that the solver meets no product. */
  function Times(n: nat, unit: nat): nat
  {
    if n == 0 then 0 else Times(n - 1, unit) + unit
  }

  lemma {:induction false} TimesIsProduct(n: nat, unit: nat)
    ensures Times(n, unit) == n * unit
  {
    if n > 0 {
      TimesIsProduct(n - 1, unit);
      assert n * unit == (n - 1) * unit + unit;
    }
  }

  lemma {:induction false} TimesGrows(a: nat, b: nat, unit: nat, rest: nat)
    requires a < b && rest < unit
    ensures Times(a, unit) + rest < Times(b, unit)
  {
    if a + 1 < b { TimesGrows(a, b - 1, unit, rest); }
  }

  /** Row `i` of rows of length `unit` fits among `n` of them. */
  lemma {:induction false} RowFits(i: nat, n: nat, unit: nat)
    requires i < n
    ensures Times(i, unit) + unit == Times(i + 1, unit) <= Times(n, unit)
  {
    if i + 1 < n { RowFits(i, n - 1, unit); }
  }
}
