/** Facts about products and quotients that the prover is better told than left to find. */
module Arithmetic {

  lemma Product(x: nat, y: nat, b: nat)
    ensures x <= y ==> x * b <= y * b
  {
  }

  lemma StrictProduct(x: nat, y: nat, b: nat)
    requires x < y && 0 < b
    ensures x * b < y * b
  {
  }

  lemma Regroup(x: nat, p: nat, b: nat)
    ensures x * (p * b) == x * b * p
  {
  }

  lemma DivMod(v: nat, b: nat)
    requires 0 < b
    ensures v / b * b + v % b == v
  {
  }

  lemma DivBounds(v: nat, b: nat, lo: nat, hi: nat)
    requires 0 < b && lo * b <= v < hi * b
    ensures lo <= v / b < hi
  {
    Product(v / b + 1, lo, b);
    Product(hi, v / b, b);
  }

  lemma DivUnique(b: nat, q: nat, r: nat, q': nat, r': nat)
    requires r < b && r' < b && q * b + r == q' * b + r'
    ensures q == q' && r == r'
  {
    Product(q + 1, q', b);
    Product(q' + 1, q, b);
  }

  lemma SmallQuotient(a: nat, b: nat)
    requires a < b
    ensures a / b == 0
  {
    Product(1, a / b, b);
    DivMod(a, b);
  }

  lemma QuotientGrows(a: nat, b: nat, k: nat)
    requires a <= b && 0 < k
    ensures a / k <= b / k
  {
    Product(b / k + 1, a / k, k);
    DivMod(a, k);
    DivMod(b, k);
  }

  lemma LargeQuotient(a: nat, b: nat)
    requires 0 < b <= a
    ensures 0 < a / b
  {
    DivMod(a, b);
  }
}
