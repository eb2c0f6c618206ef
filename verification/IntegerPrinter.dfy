/** How the logging printer formats an integer: the sign and padding, and the digits by
    place value. */
module IntegerPrinter {
  import opened Arithmetic
  import opened Numerals
  import opened Words

  const SIGN_BIT: int := 0x8000_0000

  predicate Negative(word: U32, signed: bool) {
    signed && SIGN_BIT <= word
  }

  /** The number a word stands for. */
  function Number(word: U32, signed: bool): int {
    if Negative(word, signed) then word - TWO32 else word
  }

  function Magnitude(word: U32, signed: bool): nat {
    if Negative(word, signed) then TWO32 - word else word
  }

  /** The directives' parameters: the sign, base and case go with the letter, and there is
      no width when it is negative. */
  datatype Style = Style(signed: bool, base: nat, upper: bool, zeros: bool, width: int)

  predicate Printable(f: Style) {
    f.base == 8 || f.base == 10 || f.base == 16
  }

  function Text(word: U32, f: Style): string
    requires Printable(f)
  {
    var digits := Digits(Magnitude(word, f.signed), f.base, f.upper);
    var sign := Sign(Negative(word, f.signed));
    var pad := f.width - |digits| - |sign|;
    if f.zeros then sign + Repeat('0', pad) + digits else Repeat(' ', pad) + sign + digits
  }

  // ---------------------------------------------------------------- what the text says

  function Unpad(s: string): string {
    if s != [] && s[0] == ' ' then Unpad(s[1..]) else s
  }

  /** Reading an integer: spaces, a sign, and digits. */
  function Read(s: string, base: nat): int {
    var t := Unpad(s);
    if t != [] && t[0] == '-' then 0 - Value(t[1..], base) else Value(t, base)
  }

  lemma {:induction false} UnpadSpaces(k: int, s: string)
    ensures Unpad(Repeat(' ', k) + s) == Unpad(s)
    decreases k
  {
    if 0 < k {
      UnpadSpaces(k - 1, s);
      assert (Repeat(' ', k) + s)[1..] == Repeat(' ', k - 1) + s;
    } else {
      assert Repeat(' ', k) + s == s;
    }
  }

  lemma DigitsStartWithDigit(v: nat, base: nat, upper: bool)
    requires IsBase(base)
    ensures Digits(v, base, upper)[0] != ' ' && Digits(v, base, upper)[0] != '-'
  {
    DigitsAreNumeral(v, base, upper);
  }

  function Sign(negative: bool): string {
    if negative then "-" else ""
  }

  function Signed(negative: bool, m: nat): int {
    if negative then 0 - m else m
  }

  lemma ReadUnpadded(negative: bool, digits: string, base: nat)
    requires digits != [] && digits[0] != ' ' && digits[0] != '-'
    ensures Read(Sign(negative) + digits, base) == Signed(negative, Value(digits, base))
  {
    var text := Sign(negative) + digits;
    assert text[0] != ' ';
    if negative {
      assert text[1..] == digits;
    } else {
      assert text == digits;
    }
  }

  lemma ReadPadded(negative: bool, pad: int, digits: string, base: nat)
    requires digits != [] && digits[0] != ' ' && digits[0] != '-'
    ensures Read(Repeat(' ', pad) + Sign(negative) + digits, base) == Signed(negative, Value(digits, base))
    ensures Read(Sign(negative) + Repeat('0', pad) + digits, base) == Signed(negative, Value(digits, base))
  {
    hide Value;
    var (sign, zeros) := (Sign(negative), Repeat('0', pad));
    UnpadSpaces(pad, sign + digits);
    assert Repeat(' ', pad) + sign + digits == Repeat(' ', pad) + (sign + digits);
    ReadUnpadded(negative, digits, base);
    LeadingZeros(if pad < 0 then 0 else pad, digits, base);
    assert zeros == Repeat('0', if pad < 0 then 0 else pad);
    ReadUnpadded(negative, zeros + digits, base);
    assert sign + zeros + digits == sign + (zeros + digits);
  }

  /** Whatever the word, directive, width and padding, the text reads back as the number. */
  lemma TextRoundTrip(word: U32, f: Style)
    requires Printable(f)
    ensures Read(Text(word, f), f.base) == Number(word, f.signed)
  {
    var negative, m := Negative(word, f.signed), Magnitude(word, f.signed);
    var digits := Digits(m, f.base, f.upper);
    DigitsRoundTrip(m, f.base, f.upper);
    DigitsStartWithDigit(m, f.base, f.upper);
    ReadPadded(negative, f.width - |digits| - (if negative then 1 else 0), digits, f.base);
  }

  /** The text is as wide as asked for, or as wide as the number needs. */
  lemma TextLength(word: U32, f: Style)
    requires Printable(f)
    ensures var needed := |Digits(Magnitude(word, f.signed), f.base, f.upper)| + (if Negative(word, f.signed) then 1 else 0);
            |Text(word, f)| == if needed < f.width then f.width else needed
  {
  }

  // ---------------------------------------------------------------- where its parts stand

  /** The digit of a number at a place. */
  ghost predicate IsDigitAt(c: char, m: nat, k: nat, base: nat, upper: bool)
    requires IsBase(base)
  {
    && 0 < Pow(base, k)
    && c == (if upper then "0123456789ABCDEF" else "0123456789abcdef")[m / Pow(base, k) % base]
  }

  /** `text` ends in the `n` digits of `m`, one for each place, and no fewer would do. */
  ghost predicate EndsInDigits(text: string, n: nat, m: nat, base: nat, upper: bool)
    requires IsBase(base)
  {
    && 0 < n <= |text| && m < Pow(base, n) && (n == 1 || Pow(base, n - 1) <= m)
    && forall i :: |text| - n <= i < |text| ==> IsDigitAt(text[i], m, |text| - 1 - i, base, upper)
  }

  /** What stands before the `n` digits: with the zero flag a sign and then zeros, and
      without it spaces and then a sign, up to the width in either case. */
  ghost predicate Padded(text: string, n: nat, negative: bool, zeros: bool, width: int) {
    var needed := if negative then n + 1 else n;
    && |text| == (if needed < width then width else needed)
    && if zeros then
         (negative ==> text[0] == '-') && forall i :: needed - n <= i < |text| - n ==> text[i] == '0'
       else
         (negative ==> text[|text| - needed] == '-') && forall i :: 0 <= i < |text| - needed ==> text[i] == ' '
  }

  ghost predicate LaidOut(text: string, n: nat, number: int, base: nat, upper: bool, zeros: bool, width: int)
    requires IsBase(base)
  {
    && EndsInDigits(text, n, if number < 0 then 0 - number else number, base, upper)
    && Padded(text, n, number < 0, zeros, width)
  }

  /** `text` is how a number is printed: it reads as the number, and every character of it
      is told by the number, the base, the case, the zero flag and the width. */
  ghost predicate Shows(text: string, number: int, base: nat, upper: bool, zeros: bool, width: int)
    requires IsBase(base)
  {
    && Read(text, base) == number
    && exists n :: LaidOut(text, n, number, base, upper, zeros, width)
  }

  lemma OwnDigit(m: nat, base: nat, upper: bool, i: nat)
    requires IsBase(base) && i < |Digits(m, base, upper)|
    ensures IsDigitAt(Digits(m, base, upper)[i], m, |Digits(m, base, upper)| - 1 - i, base, upper)
  {
    hide Digits, Pow;
    DigitAt(m, base, upper, i);
  }

  lemma EndsInOwnDigits(before: string, m: nat, base: nat, upper: bool)
    requires IsBase(base)
    ensures var digits := Digits(m, base, upper);
            EndsInDigits(before + digits, |digits|, m, base, upper)
  {
    hide Digits, Pow, IsDigitAt;
    var digits := Digits(m, base, upper);
    var text := before + digits;
    Fits(m, base, upper);
    LeastDigits(m, base, upper);
    forall i | |before| <= i < |text|
      ensures IsDigitAt(text[i], m, |text| - 1 - i, base, upper)
    {
      OwnDigit(m, base, upper, i - |before|);
    }
  }

  lemma TextPadded(word: U32, f: Style)
    requires Printable(f)
    ensures var negative := f.signed && 0x8000_0000 <= word;
            var digits := Digits(if negative then 0x1_0000_0000 - word else word, f.base, f.upper);
            && Padded(Text(word, f), |digits|, negative, f.zeros, f.width)
            && exists before :: Text(word, f) == before + digits
  {
    hide Digits;
    var digits := Digits(Magnitude(word, f.signed), f.base, f.upper);
    var sign := Sign(Negative(word, f.signed));
    var pad := f.width - |digits| - |sign|;
    if f.zeros {
      assert Text(word, f) == (sign + Repeat('0', pad)) + digits;
    } else {
      assert Text(word, f) == (Repeat(' ', pad) + sign) + digits;
    }
  }

  /** The text of a word, signed or not, told without the words the printer goes by. */
  lemma TextShows(word: U32, f: Style)
    requires Printable(f)
    ensures var number := if f.signed && 0x8000_0000 <= word then word - 0x1_0000_0000 else word;
            Shows(Text(word, f), number, f.base, f.upper, f.zeros, f.width)
  {
    hide Text, Digits, Padded, EndsInDigits, Read;
    TextRoundTrip(word, f);
    TextPadded(word, f);
    var number := if f.signed && 0x8000_0000 <= word then word - 0x1_0000_0000 else word;
    var m: nat := if number < 0 then 0 - number else number;
    var digits := Digits(m, f.base, f.upper);
    var before :| Text(word, f) == before + digits;
    EndsInOwnDigits(before, m, f.base, f.upper);
    assert LaidOut(Text(word, f), |digits|, number, f.base, f.upper, f.zeros, f.width);
  }

  /** All widths below zero are the same: there is none. */
  lemma NoWidth(text: string, number: int, base: nat, upper: bool, zeros: bool, width: int)
    requires IsBase(base) && width < 0 && Shows(text, number, base, upper, zeros, -1)
    ensures Shows(text, number, base, upper, zeros, width)
  {
    hide EndsInDigits, Read;
    var n :| LaidOut(text, n, number, base, upper, zeros, -1);
    assert LaidOut(text, n, number, base, upper, zeros, width);
  }

  predicate OtherCase(c: char, upper: bool) {
    if upper then 'a' <= c <= 'z' else 'A' <= c <= 'Z'
  }

  lemma DigitLetters(c: char, m: nat, k: nat, base: nat, upper: bool)
    requires IsBase(base) && IsDigitAt(c, m, k, base, upper)
    ensures c != ' ' && c != '-' && !OtherCase(c, upper)
  {
    hide Pow;
    DigitChars(m / Pow(base, k) % base, upper);
  }

  lemma ShownDigits(text: string, n: nat, m: nat, base: nat, upper: bool)
    requires IsBase(base) && EndsInDigits(text, n, m, base, upper)
    ensures forall i :: |text| - n <= i < |text| ==>
              text[i] != ' ' && text[i] != '-' && !OtherCase(text[i], upper)
  {
    hide IsDigitAt, Pow, OtherCase;
    forall i | |text| - n <= i < |text|
      ensures text[i] != ' ' && text[i] != '-' && !OtherCase(text[i], upper)
    {
      DigitLetters(text[i], m, |text| - 1 - i, base, upper);
    }
  }

  lemma ShownSpaces(text: string, k: nat)
    requires k < |text| && text[k] != ' ' && forall i :: 0 <= i < k ==> text[i] == ' '
    ensures |Unpad(text)| == |text| - k
  {
    assert text == Repeat(' ', k) + text[k..];
    UnpadSpaces(k, text[k..]);
  }

  /** A '-' is printed for negative numbers alone; with the zero flag there are no spaces,
      and without it all that follows the spaces is the sign and the digits; and the letters
      among the digits are all of the case asked for. */
  lemma ShownText(text: string, n: nat, number: int, base: nat, upper: bool, zeros: bool, width: int)
    requires IsBase(base) && LaidOut(text, n, number, base, upper, zeros, width)
    ensures '-' in text <==> number < 0
    ensures zeros ==> ' ' !in text
    ensures !zeros ==> |Unpad(text)| == if number < 0 then n + 1 else n
    ensures forall c <- text :: !OtherCase(c, upper)
  {
    hide IsDigitAt, Pow, Read;
    ShownDigits(text, n, if number < 0 then 0 - number else number, base, upper);
    var needed := if number < 0 then n + 1 else n;
    assert number < 0 ==> '-' == if zeros then text[0] else text[|text| - needed];
    if !zeros {
      ShownSpaces(text, |text| - needed);
    }
  }

  // ---------------------------------------------------------------- the printer's own way

  /** `q` is what is left of `v` when it is divided by `p`. */
  ghost predicate Quotient(v: nat, p: nat, q: nat) {
    q * p <= v < (q + 1) * p
  }

  lemma ShrinkStep(v: nat, k: nat, shrink: nat, q: nat, r: nat, base: nat)
    requires r < base && shrink == q * base + r && Quotient(v, Pow(base, k), shrink)
    ensures Quotient(v, Pow(base, k + 1), q)
  {
    var place := Pow(base, k);
    Regroup(q, place, base);
    Regroup(q + 1, place, base);
    Product(q * base, shrink, place);
    Product(shrink + 1, (q + 1) * base, place);
  }

  lemma QuotientBounds(v: nat, p: nat, q: nat)
    requires Quotient(v, p, q)
    ensures if q == 0 then v < p else p <= v
  {
    Product(1, q, p);
  }

  // The machine's multiplication and division, by name: in the loops below the prover
  // goes by the lemmas about them.
  function Times(a: nat, b: nat): nat {
    a * b
  }

  function Quot(a: nat, b: nat): nat
    requires 0 < b
  {
    a / b
  }

  function Rem(a: nat, b: nat): nat
    requires 0 < b
  {
    a % b
  }

  lemma NoPlace(v: nat, base: nat)
    ensures Pow(base, 0) == 1 && Quotient(v, Pow(base, 0), v)
  {
  }

  lemma NextPlace(base: nat, k: nat)
    ensures Pow(base, k + 1) == Times(Pow(base, k), base)
  {
  }

  lemma Shrink(v: nat, k: nat, shrink: nat, base: nat)
    requires 2 <= base && Quotient(v, Pow(base, k), shrink)
    ensures Quotient(v, Pow(base, k + 1), Quot(shrink, base))
    ensures 0 < shrink ==> Quot(shrink, base) < shrink
  {
    hide Pow, Quotient;
    DivMod(shrink, base);
    ShrinkStep(v, k, shrink, shrink / base, shrink % base, base);
  }

  /** Counts the digits of a number, and finds its largest place value; the place value
      never exceeds the number, so it does not overflow. */
  method LargestPlace(v: U32, base: nat, ghost upper: bool) returns (digitCount: nat, p: U32)
    requires IsBase(base)
    ensures digitCount == |Digits(v, base, upper)| && p == Pow(base, digitCount - 1)
  {
    hide Digits, Pow, Quotient, Times, Quot;
    NoPlace(v, base);
    Shrink(v, 0, v, base);
    var vShrink: nat := Quot(v, base);
    p, digitCount := 1, 1;
    while vShrink > 0
      invariant 0 < digitCount && p == Pow(base, digitCount - 1) && (digitCount == 1 || p <= v)
      invariant Quotient(v, Pow(base, digitCount), vShrink)
      decreases vShrink
    {
      QuotientBounds(v, Pow(base, digitCount), vShrink);
      NextPlace(base, digitCount - 1);
      Shrink(v, digitCount, vShrink, base);
      digitCount := digitCount + 1;
      p := Times(p, base);
      vShrink := Quot(vShrink, base);
    }
    QuotientBounds(v, Pow(base, digitCount), 0);
    DigitsCount(v, base, upper, digitCount - 1);
  }

  /** The digits written and the rest of the number, of `n` places, make up the number. */
  ghost predicate Written(out: string, v: nat, n: nat, number: nat, base: nat, upper: bool)
    requires IsBase(base)
  {
    && Numeral(out, base, upper) && v < Pow(base, n)
    && Value(out, base) * Pow(base, n) + v == number
  }

  lemma PlaceStep(x: nat, v: nat, p: nat, q: nat, r: nat, base: nat)
    requires v == q * p + r && r < p && v < p * base
    ensures q < base && x * (p * base) + v == (x * base + q) * p + r
  {
    Product(base, q, p);
    Regroup(x, p, base);
  }

  lemma WriteDigit(out: string, v: nat, n: nat, q: nat, r: nat, number: nat, base: nat, upper: bool)
    requires IsBase(base) && 0 < n && Written(out, v, n, number, base, upper)
    requires v == q * Pow(base, n - 1) + r && r < Pow(base, n - 1)
    ensures q < base && Written(out + [DigitChar(q, upper)], r, n - 1, number, base, upper)
  {
    hide DigitChar, DigitValue;
    PlaceStep(Value(out, base), v, Pow(base, n - 1), q, r, base);
    DigitRoundTrip(q, upper);
    ValueOfSnoc(out, DigitChar(q, upper), base);
  }

  lemma WriteNext(out: string, v: nat, n: nat, number: nat, base: nat, upper: bool)
    requires IsBase(base) && 0 < n && Written(out, v, n, number, base, upper)
    ensures var p := Pow(base, n - 1);
            && 0 < p && Quot(v, p) < base && Rem(v, p) <= v
            && Written(out + [DigitChar(Quot(v, p), upper)], Rem(v, p), n - 1, number, base, upper)
  {
    hide Pow, Written, DigitChar;
    PowPositive(base, n - 1);
    DivMod(v, Pow(base, n - 1));
    WriteDigit(out, v, n, v / Pow(base, n - 1), v % Pow(base, n - 1), number, base, upper);
  }

  lemma PowDiv(b: nat, k: nat)
    requires 0 < b
    ensures Pow(b, k + 1) / b == Pow(b, k)
  {
    DivBounds(Pow(b, k + 1), b, Pow(b, k), Pow(b, k) + 1);
  }

  lemma QuotShrinks(a: nat, b: nat)
    requires 0 < b
    ensures Quot(a, b) <= a
  {
    DivMod(a, b);
    Product(1, b, a / b);
  }

  lemma LastPlace(base: nat, k: nat)
    requires 1 < base
    ensures Quot(Pow(base, k), base) == if k == 0 then 0 else Pow(base, k - 1)
  {
    if 0 < k {
      PowDiv(base, k - 1);
    }
  }

  /** Prints the digits from the largest place down. */
  method PrintDigits(v0: U32, p0: U32, base: nat, upper: bool) returns (out: string)
    requires IsBase(base) && p0 == Pow(base, |Digits(v0, base, upper)| - 1)
    ensures out == Digits(v0, base, upper)
  {
    hide Digits, Pow, Written, DigitChar, Quot, Rem;
    Fits(v0, base, upper);
    var v: U32, p: U32 := v0, p0;
    out := "";
    ghost var n: nat := |Digits(v0, base, upper)|;
    StartWriting(v0, n, base, upper);
    while p != 0
      invariant |out| + n == |Digits(v0, base, upper)| && p == (if n == 0 then 0 else Pow(base, n - 1))
      invariant Written(out, v, n, v0, base, upper)
      decreases n
    {
      WriteNext(out, v, n, v0, base, upper);
      out := out + [DigitChar(Quot(v, p), upper)];
      v := Rem(v, p);
      LastPlace(base, n - 1);
      QuotShrinks(p, base);
      p := Quot(p, base);
      n := n - 1;
    }
    StopWriting(out, v, n, v0, base, upper);
  }

  lemma StartWriting(v: nat, n: nat, base: nat, upper: bool)
    requires IsBase(base) && v < Pow(base, n)
    ensures Written("", v, n, v, base, upper)
  {
  }

  lemma StopWriting(out: string, v: nat, n: nat, number: nat, base: nat, upper: bool)
    requires IsBase(base) && Written(out, v, n, number, base, upper) && |out| + n == |Digits(number, base, upper)|
    requires n == 0 || Pow(base, n - 1) == 0
    ensures out == Digits(number, base, upper)
  {
    if 0 < n {
      PowPositive(base, n - 1);
    }
    DigitsRoundTrip(number, base, upper);
    DigitsAreNumeral(number, base, upper);
    NumeralIsUnique(out, Digits(number, base, upper), base, upper);
  }

  lemma {:induction false} Fits(v: nat, base: nat, upper: bool)
    requires IsBase(base)
    ensures v < Pow(base, |Digits(v, base, upper)|)
    decreases v
  {
    hide Pow;
    if base <= v {
      Fits(v / base, base, upper);
      FitsStep(v, base, |Digits(v / base, base, upper)|);
    } else {
      OnePlace(base);
    }
  }

  /** No fewer places would hold the number. */
  lemma {:induction false} LeastDigits(v: nat, base: nat, upper: bool)
    requires IsBase(base)
    ensures var n := |Digits(v, base, upper)|; n == 1 || (1 < n && Pow(base, n - 1) <= v)
    decreases v
  {
    hide Pow;
    if base <= v {
      LeastDigits(v / base, base, upper);
      LeastStep(v, base, |Digits(v / base, base, upper)| - 1);
    }
  }

  lemma LeastStep(v: nat, base: nat, k: nat)
    requires 0 < base <= v && (k == 0 || Pow(base, k) <= v / base)
    ensures Pow(base, k + 1) <= v
  {
    DivMod(v, base);
    if 0 < k {
      Product(Pow(base, k), v / base, base);
    } else {
      OnePlace(base);
    }
  }

  lemma OnePlace(base: nat)
    ensures Pow(base, 1) == base
  {
    assert Pow(base, 0) == 1;
  }

  lemma FitsStep(v: nat, base: nat, k: nat)
    requires 0 < base && v / base < Pow(base, k)
    ensures v < Pow(base, k + 1)
  {
    DivMod(v, base);
    Product(v / base + 1, Pow(base, k), base);
  }

  /** `alt_log_repchar` */
  method RepChar(c: char, r: int) returns (out: string)
    ensures out == Repeat(c, r)
  {
    out := "";
    var left := r;
    while left > 0
      invariant |out| == (if r < 0 then 0 else r) - (if left < 0 then 0 else left) && (r < 0 ==> left < 0)
      invariant forall i :: 0 <= i < |out| ==> out[i] == c
    {
      left := left - 1;
      out := out + [c];
    }
  }

  /** `doIntegerPrint` */
  method PrintInteger(word: U32, f: Style) returns (out: string)
    requires Printable(f)
    ensures out == Text(word, f)
    ensures Shows(out, if f.signed && 0x8000_0000 <= word then word - 0x1_0000_0000 else word,
                  f.base, f.upper, f.zeros, f.width)
  {
    hide Digits, Repeat, Pow, Shows;
    TextShows(word, f);
    var v: U32, sign := word, false;
    if f.signed && SIGN_BIT <= v {
      v := (TWO32 - 1 - v + 1) % TWO32;
      sign := true;
    }
    assert v == Magnitude(word, f.signed);
    var digitCount, p := LargestPlace(v, f.base, f.upper);
    var before := f.width - digitCount;
    out := "";
    if f.zeros {
      if sign {
        out := out + "-";
        before := before - 1;
      }
      var padding := RepChar('0', before);
      out := out + padding;
    } else {
      if sign {
        before := before - 1;
      }
      var padding := RepChar(' ', before);
      out := out + padding;
      if sign {
        out := out + "-";
      }
    }
    var digits := PrintDigits(v, p, f.base, f.upper);
    out := out + digits;
  }
}
