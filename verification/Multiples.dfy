/** Products as repeated sums, for offsets into rows of equal parts. */
module Multiples {
  /** `n` parts of size `c`. */
  ghost function Times(c: nat, n: nat): nat {
    if n == 0 then 0 else Times(c, n - 1) + c
  }

  lemma {:induction false} TimesMono(c: nat, m: nat, n: nat)
    requires m <= n
    ensures Times(c, m) <= Times(c, n)
  {
    if m < n { TimesMono(c, m, n - 1); }
  }

  lemma {:induction false} TimesProduct(c: nat, n: nat)
    ensures Times(c, n) == c * n
  {
    if n > 0 { TimesProduct(c, n - 1); }
  }

  /** Division finds the part that a position is in. */
  lemma {:induction false} TimesDivide(c: nat, n: nat, x: nat)
    requires c > 0
    ensures n <= x / c <==> Times(c, n) <= x
    ensures x == Times(c, x / c) + x % c
  {
    var q, r := x / c, x % c;
    TimesProduct(c, q);
    Parts(c, x, q, r);
    if n <= q { TimesMono(c, n, q); } else { TimesMono(c, q + 1, n); }
  }

  lemma {:induction false} Parts(c: nat, x: nat, q: nat, r: nat)
    requires c > 0 && q == x / c && r == x % c
    ensures x == c * q + r && r < c
  {
  }

  lemma {:induction false} TimesAtLeast(c: nat, n: nat)
    requires c > 0
    ensures n <= Times(c, n)
  {
    if n > 0 { TimesAtLeast(c, n - 1); }
  }

  lemma {:induction false} QuotientBound(x: nat, c: nat)
    requires c > 0
    ensures x / c <= x
  {
    TimesDivide(c, x / c, x);
    TimesAtLeast(c, x / c);
  }
}
