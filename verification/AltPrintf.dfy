/** The small printer: it writes hexadecimal by shifting and masking, and prints the formats
    it shares with the logging printer alike. */
module AltPrintf {
  import opened Bits
  import opened IntegerPrinter
  import opened LogPrintf
  import opened Numerals
  import opened Words

  // ---------------------------------------------------------------- shifting and masking

  predicate IsShift(shift: int) {
    0 <= shift <= 28 && shift % 4 == 0
  }

  /** `v & (0xF << shift)` */
  function Masked(v: U32, shift: nat): nat {
    And(v, Left(0xF, shift))
  }

  lemma Powers()
    ensures Pow2(4) == 16 && Pow2(28) == 0x1000_0000
  {
    Sixteens(0);
    Sixteens(4);
    Sixteens(8);
    Sixteens(12);
    Sixteens(16);
    Sixteens(20);
    Sixteens(24);
  }

  /** No bit of the mask is lost in a word. */
  lemma MaskIsWord(shift: nat)
    requires IsShift(shift)
    ensures Left(0xF, shift) < TWO32
  {
    hide Left, Pow2;
    Powers();
    LeftIsProduct(0xF, shift);
    PowersGrow(shift, 28);
  }

  /** Masking and shifting isolate one digit of a word, and shifting by one digit more
      divides by 16. */
  lemma MaskFacts(v: U32, shift: nat)
    requires IsShift(shift)
    ensures Right(Masked(v, shift), shift) == Right(v, shift) % 16
    ensures Masked(v, shift) == 0 <==> Right(v, shift) % 16 == 0
    ensures 4 <= shift ==> Right(v, shift) == Right(v, shift - 4) / 16
    ensures Right(v, 0) == v && Right(v, 28) < 16
  {
    hide And, Left;
    Powers();
    AndField(v, 4, shift);
    RightOfLeft(Right(v, shift) % 16, shift);
    RightByMore(v, 0, 28);
    if 4 <= shift {
      RightByMore(v, shift - 4, 4);
    }
  }

  /** The shift of the first digit that is not zero. */
  method FirstShift(v: U32) returns (shift: nat)
    requires v != 0
    ensures IsShift(shift) && 0 < Right(v, shift) < 16
  {
    hide Masked, Right;
    shift := 28;
    MaskFacts(v, 28);
    while Masked(v, shift) == 0
      invariant IsShift(shift) && 0 <= Right(v, shift) < 16
      decreases shift
    {
      MaskFacts(v, shift);
      shift := shift - 4;
      MaskFacts(v, shift);
    }
    MaskFacts(v, shift);
  }

  /** The number that the digits above a shift make up. */
  ghost function Above(v: U32, shift: int): nat
    requires -4 <= shift
  {
    if shift < 28 then Right(v, shift + 4) else 0
  }

  lemma HexStep(v: U32, shift: nat)
    requires IsShift(shift)
    ensures var digit := Right(Masked(v, shift), shift);
            && 0 <= digit < 16 && 0 <= Above(v, shift)
            && Above(v, shift - 4) == Right(v, shift) == Above(v, shift) * 16 + digit
  {
    hide Masked, Right;
    MaskFacts(v, shift);
    if shift < 28 {
      MaskFacts(v, shift + 4);
    }
  }

  /** The digits of a number above a shift are printed once there are any. */
  ghost predicate Shown(out: string, above: nat) {
    out == if above == 0 then "" else Digits(above, 16, false)
  }

  lemma ShowDigit(out: string, above: nat, digit: nat)
    requires digit < 16 && Shown(out, above) && above * 16 + digit != 0
    ensures Shown(out + [DigitChar(digit, false)], above * 16 + digit)
  {
  }

  /** The `%x` directive. */
  method PrintHex(v: U32) returns (out: string)
    ensures out == Digits(v, 16, false)
  {
    hide Digits, Masked, Right, Above, Shown;
    if v == 0 {
      NoLeadingZero(0, 16, false);
      return "0";
    }
    var shift: int := FirstShift(v);
    NothingAbove(v, shift);
    out := "";
    while shift >= 0
      invariant shift == -4 || IsShift(shift)
      invariant Shown(out, Above(v, shift)) && (0 <= shift ==> Above(v, shift - 4) != 0)
    {
      HexStep(v, shift);
      if 0 < shift {
        HexStep(v, shift - 4);
      }
      var digit := Right(Masked(v, shift), shift);
      var c: char;
      if digit <= 9 {
        c := ('0' as int + digit) as char;
      } else {
        c := ('a' as int + digit - 10) as char;
      }
      ShowDigit(out, Above(v, shift), digit);
      out := out + [c];
      shift := shift - 4;
    }
    AllShown(out, v);
  }

  lemma NothingAbove(v: U32, shift: nat)
    requires IsShift(shift) && 0 < Right(v, shift) < 16
    ensures Above(v, shift) == 0 && Above(v, shift - 4) != 0 && Shown("", 0)
  {
    HexStep(v, shift);
  }

  lemma AllShown(out: string, v: U32)
    requires v != 0 && Shown(out, Above(v, -4))
    ensures out == Digits(v, 16, false)
  {
  }

  // ---------------------------------------------------------------- the printer

  function Run(fmt: string, args: seq<Arg>): Result
    decreases |fmt|
  {
    if fmt == "" then Printed("")
    else if fmt[0] != '%' then Then([fmt[0]], Run(fmt[1..], args))
    else if |fmt| == 1 then Printed("")
    else if fmt[1] == '%' then Then("%", Run(fmt[2..], args))
    else if fmt[1] == 'c' || fmt[1] == 'x' || fmt[1] == 's' then
      if !Fetchable(fmt[1], args) then Undefined
      else
        Then(if fmt[1] == 'c' then [LowByte(args[0].w)]
             else if fmt[1] == 'x' then Digits(args[0].w, 16, false)
             else args[0].s,
             Run(fmt[2..], args[1..]))
    else Run(fmt[2..], args)
  }

  /** `alt_printf` */
  method Print(fmt: string, args: seq<Arg>) returns (out: string)
    requires Run(fmt, args).Printed?
    ensures Printed(out) == Run(fmt, args)
    ensures forall items :: Spells(items, fmt) ==> PrintsPieces(items, args, out)
  {
    var i, left := 0, args;
    out := "";
    ThenNothing(Run(fmt, args));
    while i < |fmt|
      invariant 0 <= i <= |fmt| && Run(fmt, args) == Then(out, Run(fmt[i..], left))
    {
      ghost var was, rest := out, fmt[i..];
      var c := fmt[i];
      i := i + 1;
      if c != '%' {
        out := out + [c];
        ThenThen(was, [c], Run(fmt[i..], left));
      } else if i < |fmt| {
        c := fmt[i];
        i := i + 1;
        var text := "";
        if c == '%' {
          text := "%";
        } else if c == 'c' {
          text, left := [LowByte(left[0].w)], left[1..];
        } else if c == 'x' {
          text := PrintHex(left[0].w);
          left := left[1..];
        } else if c == 's' {
          text, left := left[0].s, left[1..];
        }
        out := out + text;
        assert rest[2..] == fmt[i..];
        ThenThen(was, text, Run(fmt[i..], left));
        ThenNothing(Run(fmt[i..], left));
      } else {
        break;
      }
    }
    PrintedPieces(fmt, args, out);
  }

  lemma PrintedPieces(fmt: string, args: seq<Arg>, out: string)
    requires Run(fmt, args) == Printed(out)
    ensures forall items :: Spells(items, fmt) ==> PrintsPieces(items, args, out)
  {
    hide Run, UnparseAll, PrintsPieces;
    forall items | Spells(items, fmt)
      ensures PrintsPieces(items, args, out)
    {
      SmallFormatPrints(items, UnparseAll(items) != fmt, args);
      assert UnparseAll(items) + "" == UnparseAll(items);
    }
  }

  // ---------------------------------------------------------------- letter by letter

  /** A character, a `%%`, or a `%` and a letter of any kind. */
  predicate IsPiece(item: Item) {
    match item
    case Char(c) => c != '%'
    case Percent => true
    case Directive(zeros, width, precision, long, letter) =>
      !zeros && width < 0 && precision < 0 && !long && letter != '%'
  }

  predicate IsPlain(item: Item) {
    item.Directive? && item.letter in "cxs"
  }

  /** What a piece prints: a letter unknown to this printer prints nothing. */
  ghost predicate PrintsPiece(item: Item, args: seq<Arg>, text: string) {
    if item.Char? then text == [item.c]
    else if item.Percent? then text == "%"
    else if !IsPlain(item) then text == ""
    else if args == [] then false
    else if item.letter == 's' then args[0] == String(text)
    else if !args[0].Word? then false
    else if item.letter == 'c' then text == [(args[0].w % 256) as char]
    else EndsInDigits(text, |text|, args[0].w, 16, false)
  }

  /** The pieces are printed one behind the other; each letter known takes the next
      argument, and no other letter takes any. */
  ghost predicate PrintsPieces(items: seq<Item>, args: seq<Arg>, out: string)
    decreases |items|
  {
    if items == [] then out == ""
    else if IsPlain(items[0]) && args == [] then false
    else
      exists n :: 0 <= n <= |out| && PrintsPiece(items[0], args, out[..n]) &&
                  PrintsPieces(items[1..], if IsPlain(items[0]) then args[1..] else args, out[n..])
  }

  /** The pieces make up the format, but for a lone `%` at its end. */
  predicate Spells(items: seq<Item>, fmt: string) {
    (forall item <- items :: IsPiece(item)) && (UnparseAll(items) == fmt || UnparseAll(items) + "%" == fmt)
  }

  /** The argument of a letter known is there. */
  predicate SuppliedPiece(item: Item, args: seq<Arg>) {
    IsPlain(item) ==> args != [] && (args[0].String? <==> item.letter == 's')
  }

  predicate SuppliedPieces(items: seq<Item>, args: seq<Arg>)
    decreases |items|
  {
    items != [] ==>
      && SuppliedPiece(items[0], args)
      && SuppliedPieces(items[1..], if IsPlain(items[0]) then args[1..] else args)
  }

  lemma PrintsBothPieces(items: seq<Item>, args: seq<Arg>, text: string, out: string)
    requires items != [] && (IsPlain(items[0]) ==> args != []) && PrintsPiece(items[0], args, text)
    requires PrintsPieces(items[1..], if IsPlain(items[0]) then args[1..] else args, out)
    ensures PrintsPieces(items, args, text + out)
  {
    hide PrintsPiece, IsPlain;
    assert (text + out)[..|text|] == text && (text + out)[|text|..] == out;
  }

  function PieceText(item: Item, args: seq<Arg>): string
    requires SuppliedPiece(item, args)
  {
    if item.Char? then [item.c]
    else if item.Percent? then "%"
    else if item.letter == 'c' then [LowByte(args[0].w)]
    else if item.letter == 'x' then Digits(args[0].w, 16, false)
    else if item.letter == 's' then args[0].s
    else ""
  }

  lemma PiecePrinted(item: Item, args: seq<Arg>)
    requires SuppliedPiece(item, args)
    ensures PrintsPiece(item, args, PieceText(item, args))
  {
    hide EndsInDigits;
    if item.Directive? && item.letter == 'x' {
      EndsInOwnDigits("", args[0].w, 16, false);
      assert "" + Digits(args[0].w, 16, false) == Digits(args[0].w, 16, false);
    }
  }

  /** What the printer does at a piece. */
  lemma RunPiece(item: Item, rest: string, args: seq<Arg>)
    requires IsPiece(item)
    ensures Run(Unparse(item) + rest, args) ==
            if !SuppliedPiece(item, args) then Undefined
            else Then(PieceText(item, args), Run(rest, if IsPlain(item) then args[1..] else args))
  {
    hide Digits;
    var fmt := Unparse(item) + rest;
    ThenNothing(Run(rest, args));
    if item.Char? {
      assert fmt[1..] == rest;
    } else {
      assert item.Directive? ==> Unparse(item) == ['%', item.letter];
      assert fmt[2..] == rest;
    }
  }

  /** For every format, a lone `%` at its end included, the printer prints each piece as
      its letter says, in their order, and it comes to grief just if an argument is missing
      or of the wrong kind. */
  lemma {:induction false} SmallFormatPrints(items: seq<Item>, lone: bool, args: seq<Arg>)
    requires forall i :: 0 <= i < |items| ==> IsPiece(items[i])
    ensures var r := Run(UnparseAll(items) + (if lone then "%" else ""), args);
            && (r.Printed? <==> SuppliedPieces(items, args))
            && (r.Printed? ==> PrintsPieces(items, args, r.out))
    decreases |items|
  {
    hide PrintsPiece;
    var end := if lone then "%" else "";
    if items == [] {
      assert UnparseAll(items) + end == end;
    } else {
      hide Run, PrintsPieces;
      var rest := UnparseAll(items[1..]) + end;
      assert UnparseAll(items) + end == Unparse(items[0]) + rest;
      RunPiece(items[0], rest, args);
      if SuppliedPiece(items[0], args) {
        var left := if IsPlain(items[0]) then args[1..] else args;
        PiecePrinted(items[0], args);
        SmallFormatPrints(items[1..], lone, left);
        if Run(rest, left).Printed? {
          PrintsBothPieces(items, args, PieceText(items[0], args), Run(rest, left).out);
        }
      }
    }
  }

  // ---------------------------------------------------------------- agreement

  /** The formats both printers know. */
  predicate Shared(item: Item) {
    match item
    case Char(c) => c != '%'
    case Percent => true
    case Directive(zeros, width, precision, long, letter) =>
      !zeros && width < 0 && precision < 0 && !long && (letter == 'c' || letter == 'x' || letter == 's')
  }

  lemma SharedText(letter: char, args: seq<Arg>)
    requires (letter == 'c' || letter == 'x' || letter == 's') && Fetchable(letter, args)
    ensures Directed(BLANK, letter, args) ==
            if letter == 'c' then [LowByte(args[0].w)] else if letter == 'x' then Digits(args[0].w, 16, false) else args[0].s
  {
  }

  lemma {:induction false} SmallFormatMeans(items: seq<Item>, args: seq<Arg>)
    requires forall i :: 0 <= i < |items| ==> Shared(items[i])
    ensures Run(UnparseAll(items), args) == Render(items, args)
    decreases |items|
  {
    if items != [] {
      var (item, rest) := (items[0], UnparseAll(items[1..]));
      var fmt := Unparse(item) + rest;
      match item
      case Char(c) =>
        assert fmt[1..] == rest;
        SmallFormatMeans(items[1..], args);
      case Percent =>
        assert fmt[2..] == rest;
        SmallFormatMeans(items[1..], args);
      case Directive(zeros, width, precision, long, letter) =>
        assert Unparse(item) == ['%', letter];
        assert fmt[2..] == rest;
        if Fetchable(letter, args) {
          SharedText(letter, args);
          SmallFormatMeans(items[1..], args[1..]);
        }
    }
  }

  /** The two printers print the same for every format they share, whatever the
      arguments. */
  lemma PrintersAgree(items: seq<Item>, args: seq<Arg>)
    requires forall i :: 0 <= i < |items| ==> Shared(items[i])
    ensures Run(UnparseAll(items), args) == LogPrintf.Run(Chars, UnparseAll(items), args)
  {
    SmallFormatMeans(items, args);
    assert forall i :: 0 <= i < |items| ==> Valid(items[i]);
    FormatMeans(items, args);
  }
}
