/** The bitwise operations of the code on unsigned words, bit by bit, and what they are in
    arithmetic. */
module Bits {
  import opened Arithmetic

  /** `x & y` */
  function And(x: nat, y: nat): nat {
    if x == 0 then 0 else (if x % 2 == 1 && y % 2 == 1 then 1 else 0) + 2 * And(x / 2, y / 2)
  }

  /** `x << s`, when no bit is lost. */
  function Left(x: nat, s: nat): nat {
    if s == 0 then x else 2 * Left(x, s - 1)
  }

  /** `x >> s` */
  function Right(x: nat, s: nat): nat
    decreases s
  {
    if s == 0 then x else Right(x / 2, s - 1)
  }

  function Pow2(k: nat): (p: nat)
    ensures 0 < p
  {
    if k == 0 then 1 else 2 * Pow2(k - 1)
  }

  lemma Sixteens(k: nat)
    ensures Pow2(k + 4) == 16 * Pow2(k)
  {
    assert Pow2(k + 2) == 2 * Pow2(k + 1);
    assert Pow2(k + 4) == 2 * Pow2(k + 3);
  }

  lemma {:induction false} PowersGrow(j: nat, k: nat)
    requires j <= k
    ensures Pow2(j) <= Pow2(k)
    decreases k
  {
    if j < k {
      PowersGrow(j, k - 1);
    }
  }

  lemma Halves(v: nat, p: nat)
    requires 0 < p
    ensures v % (2 * p) == v % 2 + 2 * (v / 2 % p)
  {
    var q, t := v / 2 / p, v / 2 % p;
    assert v == 2 * (q * p + t) + v % 2;
    assert v == q * (2 * p) + (2 * t + v % 2) by {
      assert 2 * (q * p) == q * (2 * p);
    }
    QuotientAndRemainder(v, 2 * p, q, 2 * t + v % 2);
  }

  lemma QuotientAndRemainder(v: nat, p: nat, q: nat, r: nat)
    requires v == q * p + r && r < p
    ensures v / p == q && v % p == r
  {
    DivMod(v, p);
    DivUnique(p, v / p, v % p, q, r);
  }

  /** The low bits of a word. */
  lemma {:induction false} AndLow(v: nat, k: nat)
    ensures And(v, Pow2(k) - 1) == v % Pow2(k)
    decreases k
  {
    hide And;
    if k == 0 {
      AndZero(v);
    } else {
      AndOdd(v, Pow2(k - 1) - 1);
      AndLow(v / 2, k - 1);
      Halves(v, Pow2(k - 1));
    }
  }

  lemma AndOdd(v: nat, y: nat)
    ensures And(v, 2 * y + 1) == v % 2 + 2 * And(v / 2, y)
  {
  }

  lemma {:induction false} AndZero(v: nat)
    ensures And(v, 0) == 0
  {
    if v != 0 {
      AndZero(v / 2);
    }
  }

  lemma AndEven(v: nat, y: nat)
    ensures And(v, 2 * y) == 2 * And(v / 2, y)
  {
  }

  /** Masking with `k` ones at position `s` is the remainder of a quotient, put back in its
      place. */
  lemma {:induction false} AndField(v: nat, k: nat, s: nat)
    ensures And(v, Left(Pow2(k) - 1, s)) == Left(Right(v, s) % Pow2(k), s)
    decreases s
  {
    hide And;
    if s == 0 {
      AndLow(v, k);
    } else {
      AndEven(v, Left(Pow2(k) - 1, s - 1));
      AndField(v / 2, k, s - 1);
    }
  }

  lemma {:induction false} LeftIsProduct(x: nat, s: nat)
    ensures Left(x, s) == x * Pow2(s)
    decreases s
  {
    if 0 < s {
      LeftIsProduct(x, s - 1);
      assert 2 * (x * Pow2(s - 1)) == x * (2 * Pow2(s - 1));
    }
  }

  lemma {:induction false} RightOfLeft(x: nat, s: nat)
    ensures Right(Left(x, s), s) == x && (Left(x, s) == 0 <==> x == 0)
    decreases s
  {
    if 0 < s {
      RightOfLeft(x, s - 1);
    }
  }

  /** Shifting by `s + k` is shifting by `s` and dividing. */
  lemma {:induction false} RightByMore(x: nat, s: nat, k: nat)
    ensures Right(x, s + k) == Right(x, s) / Pow2(k)
    decreases s + k
  {
    if 0 < s {
      RightByMore(x / 2, s - 1, k);
    } else if 0 < k {
      RightByMore(x / 2, 0, k - 1);
      HalfFirst(x, Pow2(k - 1));
    }
  }

  lemma HalfFirst(x: nat, p: nat)
    requires 0 < p
    ensures x / 2 / p == x / (2 * p)
  {
    Halves(x, p);
    var q, r := x / 2 / p, x % (2 * p);
    assert x == 2 * (q * p + x / 2 % p) + x % 2;
    assert 2 * (q * p) == q * (2 * p);
    QuotientAndRemainder(x, 2 * p, q, r);
  }
}
