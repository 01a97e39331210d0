/** Multiples of a real number, by repeated addition and as a product. */
module Multiples {
  lemma Distribute(c: real, x: real, y: real)
    ensures c * (x + y) == c * x + c * y
  {
  }

  /** `n` times `c`, by addition. */
  function Times(n: nat, c: real): real {
    if n == 0 then 0.0 else Times(n - 1, c) + c
  }

  lemma {:induction false} TimesIsProduct(n: nat, c: real)
    ensures Times(n, c) == c * n as real
  {
    if n > 0 {
      TimesIsProduct(n - 1, c);
      Distribute(c, (n - 1) as real, 1.0);
    }
  }
}
