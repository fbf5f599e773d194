/** Shifts and masks of unsigned integers, bit by bit, and what they compute. */
module Bits {
  function Pow2(k: nat): (p: nat)
    ensures p > 0
  {
    if k == 0 then 1 else 2 * Pow2(k - 1)
  }

  function And(a: nat, b: nat): nat {
    if a == 0 || b == 0 then 0
    else 2 * And(a / 2, b / 2) + (if a % 2 == 1 && b % 2 == 1 then 1 else 0)
  }

  function ShiftRight(a: nat, k: nat): nat {
    if k == 0 then a else ShiftRight(a / 2, k - 1)
  }

  lemma Halve(n: nat, m: nat)
    requires m > 0
    ensures n % (2 * m) == 2 * (n / 2 % m) + n % 2 && n / (2 * m) == n / 2 / m
  {
    var q, r := n / 2 / m, n / 2 % m;
    assert n / 2 == q * m + r;
    assert n == q * (2 * m) + (2 * r + n % 2);
    QuotientIs(n, 2 * m, q, 2 * r + n % 2);
  }

  lemma UniqueQuotient(d: nat, q: nat, r: nat, q': nat, r': nat)
    requires r < d && r' < d && q * d + r == q' * d + r'
    ensures q == q' && r == r'
  {
    if q < q' { ProductStep(q, q', d); }
    if q' < q { ProductStep(q', q, d); }
  }

  lemma {:induction false} ProductStep(q: nat, q': nat, d: nat)
    requires q < q'
    ensures q * d + d <= q' * d
  {
    if q + 1 < q' { ProductStep(q, q' - 1, d); }
    assert (q' - 1) * d + d == q' * d;
  }

  lemma QuotientIs(n: nat, d: nat, q: nat, r: nat)
    requires d > 0 && r < d && n == q * d + r
    ensures n / d == q && n % d == r
  {
    UniqueQuotient(d, q, r, n / d, n % d);
  }

  /** Masking with 2^k - 1 is the remainder modulo 2^k. */
  lemma {:induction false} MaskIsModulo(n: nat, k: nat)
    ensures And(n, Pow2(k) - 1) == n % Pow2(k)
  {
    if k == 0 {
    } else {
      MaskIsModulo(n / 2, k - 1);
      Halve(n, Pow2(k - 1));
      if n == 0 { } else { assert (Pow2(k) - 1) / 2 == Pow2(k - 1) - 1; }
    }
  }

  lemma {:induction false} ShiftIsDivision(n: nat, k: nat)
    ensures ShiftRight(n, k) == n / Pow2(k)
  {
    if k == 0 {
    } else {
      ShiftIsDivision(n / 2, k - 1);
      Halve(n, Pow2(k - 1));
    }
  }

  /** The shift-and-mask quotient, rounded up. */
  function ShiftCeil(n: nat, k: nat): nat {
    ShiftRight(n, k) + if And(n, Pow2(k) - 1) != 0 then 1 else 0
  }

  lemma Ceiling(n: nat, p: nat)
    requires p > 0
    ensures n <= (n / p + if n % p != 0 then 1 else 0) * p < n + p
  {}

  /** ShiftCeil is ceil(n / 2^k): the least c with n <= c * 2^k. */
  lemma ShiftCeilIsCeiling(n: nat, k: nat)
    ensures n <= ShiftCeil(n, k) * Pow2(k) < n + Pow2(k)
  {
    MaskIsModulo(n, k);
    ShiftIsDivision(n, k);
    Ceiling(n, Pow2(k));
  }
}
