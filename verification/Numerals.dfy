/** Numerals in a base from 2 to 16: writing a number down, and reading it back. */
module Numerals {
  import opened Arithmetic

  function DigitChar(d: nat, upper: bool): char
    requires d < 16
  {
    if d <= 9 then ('0' as int + d) as char else ((if upper then 'A' else 'a') as int + d - 10) as char
  }

  /** The value of a digit, in either case; anything else counts as zero. */
  function DigitValue(c: char): nat {
    if '0' <= c <= '9' then c as int - '0' as int
    else if 'a' <= c <= 'f' then c as int - 'a' as int + 10
    else if 'A' <= c <= 'F' then c as int - 'A' as int + 10
    else 0
  }

  predicate IsBase(b: nat) {
    2 <= b <= 16
  }

  /** Reading a numeral. */
  function Value(s: string, b: nat): nat {
    if s == [] then 0 else Value(s[..|s| - 1], b) * b + DigitValue(s[|s| - 1])
  }

  /** Writing a number, without leading zeros. */
  function Digits(v: nat, b: nat, upper: bool): (s: string)
    requires IsBase(b)
    ensures s != []
    decreases v
  {
    if v < b then [DigitChar(v, upper)] else Digits(v / b, b, upper) + [DigitChar(v % b, upper)]
  }

  predicate Numeral(s: string, b: nat, upper: bool)
    requires IsBase(b)
  {
    forall i :: 0 <= i < |s| ==> DigitValue(s[i]) < b && s[i] == DigitChar(DigitValue(s[i]), upper)
  }

  lemma DigitRoundTrip(d: nat, upper: bool)
    requires d < 16
    ensures DigitValue(DigitChar(d, upper)) == d
  {
  }

  lemma ValueOfSnoc(s: string, c: char, b: nat)
    ensures Value(s + [c], b) == Value(s, b) * b + DigitValue(c)
  {
    assert (s + [c])[..|s + [c]| - 1] == s;
  }

  lemma ValueOfDigit(c: char, b: nat)
    ensures Value([c], b) == DigitValue(c)
  {
    ValueOfSnoc([], c, b);
    assert [c] == [] + [c];
  }

  lemma AnotherDigit(s: string, q: nat, r: nat, b: nat, upper: bool)
    requires IsBase(b) && r < b && Value(s, b) == q
    ensures Value(s + [DigitChar(r, upper)], b) == q * b + r
  {
    DigitRoundTrip(r, upper);
    ValueOfSnoc(s, DigitChar(r, upper), b);
  }

  /** Reading what was written gives the number back. */
  lemma {:induction false} DigitsRoundTrip(v: nat, b: nat, upper: bool)
    requires IsBase(b)
    ensures Value(Digits(v, b, upper), b) == v
    decreases v
  {
    hide DigitChar, DigitValue, Value;
    if v < b {
      DigitRoundTrip(v, upper);
      ValueOfDigit(DigitChar(v, upper), b);
    } else {
      DivMod(v, b);
      DigitsRoundTrip(v / b, b, upper);
      AnotherDigit(Digits(v / b, b, upper), v / b, v % b, b, upper);
    }
  }

  lemma {:induction false} DigitsAreNumeral(v: nat, b: nat, upper: bool)
    requires IsBase(b)
    ensures Numeral(Digits(v, b, upper), b, upper)
    decreases v
  {
    hide DigitChar, DigitValue;
    if v < b {
      DigitRoundTrip(v, upper);
    } else {
      DigitRoundTrip(v % b, upper);
      DigitsAreNumeral(v / b, b, upper);
    }
  }

  /** There is no leading zero, except in "0" itself. */
  lemma {:induction false} NoLeadingZero(v: nat, b: nat, upper: bool)
    requires IsBase(b)
    ensures Digits(v, b, upper)[0] == '0' <==> v == 0
    ensures v == 0 ==> Digits(v, b, upper) == "0"
    decreases v
  {
    if v < b {
      DigitRoundTrip(v, upper);
    } else {
      LargeQuotient(v, b);
      NoLeadingZero(v / b, b, upper);
    }
  }

  function Pow(b: nat, k: nat): nat {
    if k == 0 then 1 else Pow(b, k - 1) * b
  }

  lemma {:induction false} PowPositive(b: nat, k: nat)
    requires 0 < b
    ensures 0 < Pow(b, k)
  {
    if 0 < k {
      PowPositive(b, k - 1);
    }
  }

  lemma DigitsGrow(v: nat, b: nat, upper: bool)
    requires IsBase(b)
    ensures |Digits(v, b, upper)| == if v < b then 1 else |Digits(v / b, b, upper)| + 1
  {
  }

  lemma {:induction false} DigitsCount(v: nat, b: nat, upper: bool, k: nat)
    requires IsBase(b) && (k == 0 || Pow(b, k) <= v) && v < Pow(b, k + 1)
    ensures |Digits(v, b, upper)| == k + 1
    decreases k
  {
    hide Digits;
    DigitsGrow(v, b, upper);
    if 0 < k {
      PowPositive(b, k - 1);
      Product(1, Pow(b, k - 1), b);
      assert Pow(b, k) == Pow(b, k - 1) * b >= b;
      DivBounds(v, b, Pow(b, k - 1), Pow(b, k));
      DigitsCount(v / b, b, upper, k - 1);
    }
  }

  /** The sixteen digits. */
  lemma DigitChars(d: nat, upper: bool)
    requires d < 16
    ensures DigitChar(d, upper) == (if upper then "0123456789ABCDEF" else "0123456789abcdef")[d]
  {
    if d <= 9 {
      assert "0123456789ABCDEF"[d] == "0123456789abcdef"[d] == ('0' as int + d) as char;
    }
  }

  lemma Nested(v: nat, b: nat, p: nat, m: nat, w: nat, q: nat)
    requires m == p * b && w * b <= v < (w + 1) * b && q * p <= w < (q + 1) * p
    ensures q * m <= v < (q + 1) * m
  {
    Product(q * p, w, b);
    Product(w + 1, (q + 1) * p, b);
    Regroup(q, b, p);
    Regroup(q + 1, b, p);
  }

  lemma QuotientIs(v: nat, b: nat, q: nat)
    requires 0 < b
    ensures v / b == q <==> q * b <= v < (q + 1) * b
  {
    DivMod(v, b);
    if q * b <= v < (q + 1) * b {
      DivBounds(v, b, q, q + 1);
    }
  }

  /** Dividing by one number and then by another is dividing by their product. */
  lemma DivDiv(v: nat, b: nat, p: nat, m: nat, w: nat, q: nat)
    requires 0 < b && 0 < p && 0 < m == p * b && v / b == w && w / p == q
    ensures v / m == q
  {
    QuotientIs(v, b, w);
    QuotientIs(w, p, q);
    Nested(v, b, p, m, w, q);
    QuotientIs(v, m, q);
  }

  lemma PlaceSplit(v: nat, b: nat, k: nat)
    requires 0 < b
    ensures 0 < Pow(b, k) && 0 < Pow(b, k + 1) && v / b / Pow(b, k) == v / Pow(b, k + 1)
  {
    PowPositive(b, k);
    PowPositive(b, k + 1);
    DivDiv(v, b, Pow(b, k), Pow(b, k + 1), v / b, v / b / Pow(b, k));
  }

  lemma DigitsAt(v: nat, b: nat, upper: bool, i: nat)
    requires IsBase(b) && i < |Digits(v, b, upper)|
    ensures var n := |Digits(v, b, upper)|;
            if i + 1 == n then Digits(v, b, upper)[i] == DigitChar(v % b, upper)
            else b <= v && n == |Digits(v / b, b, upper)| + 1 && Digits(v, b, upper)[i] == Digits(v / b, b, upper)[i]
  {
  }

  lemma UnitPlace(v: nat, b: nat)
    requires IsBase(b)
    ensures Pow(b, 0) == 1 && v / Pow(b, 0) % b == v % b
  {
  }

  /** Each digit, the most significant first, is the one for its place. */
  lemma {:induction false} DigitAt(v: nat, b: nat, upper: bool, i: nat)
    requires IsBase(b) && i < |Digits(v, b, upper)|
    ensures var place := Pow(b, |Digits(v, b, upper)| - 1 - i);
            && 0 < place
            && Digits(v, b, upper)[i] ==
               (if upper then "0123456789ABCDEF" else "0123456789abcdef")[v / place % b]
    decreases v
  {
    hide DigitChar, Digits, Pow;
    DigitsAt(v, b, upper, i);
    var n := |Digits(v, b, upper)|;
    if i + 1 < n {
      DigitAt(v / b, b, upper, i);
      PlaceSplit(v, b, n - 2 - i);
    } else {
      UnitPlace(v, b);
      DigitChars(v % b, upper);
    }
  }

  /** A numeral is determined by its length and value. */
  lemma {:induction false} NumeralIsUnique(s: string, t: string, b: nat, upper: bool)
    requires IsBase(b) && Numeral(s, b, upper) && Numeral(t, b, upper)
    requires |s| == |t| && Value(s, b) == Value(t, b)
    ensures s == t
  {
    if s != [] {
      var n := |s| - 1;
      DivUnique(b, Value(s[..n], b), DigitValue(s[n]), Value(t[..n], b), DigitValue(t[n]));
      NumeralIsUnique(s[..n], t[..n], b, upper);
      assert s == s[..n] + [s[n]] && t == t[..n] + [t[n]];
    }
  }

  /** Zeros in front do not change what is read. */
  lemma {:induction false} LeadingZeros(k: nat, s: string, b: nat)
    ensures Value(Repeat('0', k) + s, b) == Value(s, b)
    decreases k + |s|
  {
    var t := Repeat('0', k) + s;
    if s != [] {
      LeadingZeros(k, s[..|s| - 1], b);
      assert t[..|t| - 1] == Repeat('0', k) + s[..|s| - 1];
    } else if 0 < k {
      LeadingZeros(k - 1, [], b);
      assert t[..|t| - 1] == Repeat('0', k - 1) + [];
    }
  }

  function Repeat(c: char, k: int): string {
    seq(if k < 0 then 0 else k, i => c)
  }
}
