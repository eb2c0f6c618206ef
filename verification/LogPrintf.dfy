/** The logging printer's reading of its format string, one character at a time. */
module LogPrintf {
  import opened IntegerPrinter
  import opened Numerals
  import opened Words

  /** What the variable arguments hold: words, and strings up to their terminator. */
  datatype Arg = Word(w: U32) | String(s: string)

  /** What has been printed, unless the call fetched an argument that is not there or is of
      another kind. */
  datatype Result = Printed(out: string) | Undefined

  function Then(out: string, r: Result): Result {
    if r.Printed? then Printed(out + r.out) else Undefined
  }

  /** What a directive has said so far: widths are negative when they are not given. */
  datatype Format = Format(zeros: bool, long: bool, before: int, after: int)

  const BLANK := Format(false, false, -1, -1)

  datatype State = Chars | FirstChar | OtherChar(f: Format)

  function LowByte(w: U32): char {
    (w % 256) as char
  }

  predicate IsInteger(letter: char) {
    letter in {'d', 'i', 'u', 'o', 'x', 'X'}
  }

  function StyleOf(f: Format, letter: char): (r: Style)
    requires IsInteger(letter)
    ensures Printable(r)
  {
    Style(letter == 'd' || letter == 'i',
          if letter == 'o' then 8 else if letter == 'x' || letter == 'X' then 16 else 10,
          letter == 'X', f.zeros, f.before)
  }

  /** The letter takes an argument. */
  predicate Fetches(letter: char) {
    IsInteger(letter) || letter == 'c' || letter == 's'
  }

  /** The argument a letter takes is there. */
  predicate Fetchable(letter: char, args: seq<Arg>) {
    Fetches(letter) ==> args != [] && if letter == 's' then args[0].String? else args[0].Word?
  }

  /** What the letter that ends a directive prints. */
  function Directed(f: Format, letter: char, args: seq<Arg>): string
    requires Fetchable(letter, args)
  {
    if IsInteger(letter) then Text(args[0].w, StyleOf(f, letter))
    else if letter == 'c' then Repeat(' ', f.before - 1) + [LowByte(args[0].w)]
    else if letter == 's' then Repeat(' ', f.before - |args[0].s|) + args[0].s
    else ""
  }

  function Fetched(letter: char, args: seq<Arg>): seq<Arg>
    requires Fetchable(letter, args)
  {
    if Fetches(letter) then args[1..] else args
  }

  predicate IsDigit(c: char) {
    '0' <= c <= '9'
  }

  /** A digit of a width or of a precision. */
  function WithDigit(f: Format, c: char): Format
    requires IsDigit(c)
  {
    var d := DigitValue(c);
    if f.after < 0 then f.(before := (if f.before < 0 then 0 else f.before * 10) + d)
    else f.(after := f.after * 10 + d)
  }

  /** What one character of the format does. */
  datatype Fed = Fed(state: State, out: string, args: seq<Arg>) | Unfetchable

  function FeedOther(f: Format, c: char, args: seq<Arg>): Fed {
    if c == '.' then Fed(OtherChar(f.(after := 0)), "", args)
    else if IsDigit(c) then Fed(OtherChar(WithDigit(f, c)), "", args)
    else if c == 'l' then Fed(OtherChar(f.(long := true)), "", args)
    else if !Fetchable(c, args) then Unfetchable
    else Fed(Chars, Directed(f, c, args), Fetched(c, args))
  }

  function Feed(state: State, c: char, args: seq<Arg>): Fed {
    match state
    case Chars => if c == '%' then Fed(FirstChar, "", args) else Fed(Chars, [c], args)
    case FirstChar =>
      if c == '0' then Fed(OtherChar(BLANK.(zeros := true)), "", args)
      else if c == '%' then Fed(Chars, [c], args)
      else FeedOther(BLANK, c, args)
    case OtherChar(f) => FeedOther(f, c, args)
  }

  function Run(state: State, fmt: string, args: seq<Arg>): Result
    decreases |fmt|
  {
    if fmt == "" then Printed("")
    else
      match Feed(state, fmt[0], args)
      case Unfetchable => Undefined
      case Fed(next, out, rest) => Then(out, Run(next, fmt[1..], rest))
  }

  // ---------------------------------------------------------------- what formats mean

  /** The pieces of a format: a width or precision is negative when it is not given. */
  datatype Item =
    | Char(c: char)
    | Percent
    | Directive(zeros: bool, width: int, precision: int, long: bool, letter: char)

  predicate IsLetter(letter: char) {
    !IsDigit(letter) && letter != '.' && letter != 'l'
  }

  /** From the letter `l`, or from the letter that ends the directive. */
  function Ending(long: bool, letter: char): string {
    (if long then "l" else "") + [letter]
  }

  /** The width does not begin with the zero flag, and a directive ended by a `%` is not
      that character alone. */
  predicate Valid(item: Item) {
    match item
    case Char(c) => c != '%'
    case Percent => true
    case Directive(zeros, width, precision, long, letter) =>
      && IsLetter(letter)
      && (!zeros ==> width != 0 && (letter == '%' ==> 0 < width || 0 <= precision || long))
  }

  function Optional(prefix: string, n: int): string {
    if n < 0 then "" else prefix + Digits(n, 10, false)
  }

  function Unparse(item: Item): string {
    match item
    case Char(c) => [c]
    case Percent => "%%"
    case Directive(zeros, width, precision, long, letter) =>
      "%" + (if zeros then "0" else "") + Optional("", width) + Optional(".", precision)
      + Ending(long, letter)
  }

  function UnparseAll(items: seq<Item>): string {
    if items == [] then "" else Unparse(items[0]) + UnparseAll(items[1..])
  }

  /** Printing the items in turn. */
  function Render(items: seq<Item>, args: seq<Arg>): Result {
    if items == [] then Printed("")
    else
      match items[0]
      case Char(c) => Then([c], Render(items[1..], args))
      case Percent => Then("%", Render(items[1..], args))
      case Directive(zeros, width, precision, long, letter) =>
        if !Fetchable(letter, args) then Undefined
        else
          var f := Format(zeros, long, if width < 0 then -1 else width, if precision < 0 then -1 else precision);
          Then(Directed(f, letter, args), Render(items[1..], Fetched(letter, args)))
  }

  lemma RunStep(state: State, c: char, rest: string, args: seq<Arg>)
    ensures var fed := Feed(state, c, args);
            Run(state, [c] + rest, args) == if fed.Fed? then Then(fed.out, Run(fed.state, rest, fed.args)) else Undefined
  {
    assert ([c] + rest)[1..] == rest;
  }

  lemma ThenNothing(r: Result)
    ensures Then("", r) == r
  {
    assert r.Printed? ==> "" + r.out == r.out;
  }

  lemma LastDigit(n: nat, rest: string)
    ensures Digits(n, 10, false) + rest ==
            var last := [DigitChar(n % 10, false)] + rest; if n < 10 then last else Digits(n / 10, 10, false) + last
  {
  }

  /** A digit belongs to the precision if there is a point before it, and to the width if
      not. */
  function Extended(f: Format, d: nat): Format {
    if f.after >= 0 then f.(after := f.after * 10 + d)
    else f.(before := if f.before < 0 then d else f.before * 10 + d)
  }

  lemma DigitIsFed(f: Format, d: nat, args: seq<Arg>)
    requires d < 10
    ensures Feed(OtherChar(f), DigitChar(d, false), args) == Fed(OtherChar(Extended(f, d)), "", args)
  {
    hide Digits, Value;
    DigitRoundTrip(d, false);
  }

  lemma FeedDigit(f: Format, d: nat, rest: string, args: seq<Arg>)
    requires d < 10
    ensures Run(OtherChar(f), [DigitChar(d, false)] + rest, args) == Run(OtherChar(Extended(f, d)), rest, args)
  {
    hide Run, Feed, DigitChar, Extended;
    DigitIsFed(f, d, args);
    RunStep(OtherChar(f), DigitChar(d, false), rest, args);
    ThenNothing(Run(OtherChar(Extended(f, d)), rest, args));
  }

  /** The digits of a width are read as the width. */
  lemma {:induction false} FeedWidth(f: Format, n: nat, rest: string, args: seq<Arg>)
    requires f.before < 0 && f.after < 0
    ensures Run(OtherChar(f), Digits(n, 10, false) + rest, args) == Run(OtherChar(f.(before := n)), rest, args)
    decreases n
  {
    hide Run, Digits, DigitChar;
    LastDigit(n, rest);
    if n < 10 {
      FeedDigit(f, n, rest, args);
    } else {
      FeedWidth(f, n / 10, [DigitChar(n % 10, false)] + rest, args);
      FeedDigit(f.(before := n / 10), n % 10, rest, args);
    }
  }

  lemma {:induction false} FeedPrecision(f: Format, n: nat, rest: string, args: seq<Arg>)
    requires f.after == 0
    ensures Run(OtherChar(f), Digits(n, 10, false) + rest, args) == Run(OtherChar(f.(after := n)), rest, args)
    decreases n
  {
    hide Run, Digits, DigitChar;
    LastDigit(n, rest);
    if n < 10 {
      FeedDigit(f, n, rest, args);
    } else {
      FeedPrecision(f, n / 10, [DigitChar(n % 10, false)] + rest, args);
      FeedDigit(f.(after := n / 10), n % 10, rest, args);
    }
  }

  /** Where the letter leads. */
  function Finish(f: Format, letter: char, rest: string, args: seq<Arg>): Result {
    if !Fetchable(letter, args) then Undefined
    else Then(Directed(f, letter, args), Run(Chars, rest, Fetched(letter, args)))
  }

  lemma FeedEnding(f: Format, long: bool, letter: char, rest: string, args: seq<Arg>)
    requires IsLetter(letter) && !f.long
    ensures Run(OtherChar(f), Ending(long, letter) + rest, args) == Finish(f.(long := long), letter, rest, args)
  {
    RunStep(OtherChar(f.(long := long)), letter, rest, args);
    if long {
      assert Ending(long, letter) + rest == ['l'] + ([letter] + rest);
      RunStep(OtherChar(f), 'l', [letter] + rest, args);
      ThenNothing(Run(OtherChar(f.(long := true)), [letter] + rest, args));
    } else {
      assert Ending(long, letter) + rest == [letter] + rest;
    }
  }

  lemma FeedPrecisionAndEnding(f: Format, precision: int, long: bool, letter: char, rest: string, args: seq<Arg>)
    requires IsLetter(letter) && !f.long && f.after == -1
    ensures Run(OtherChar(f), Optional(".", precision) + (Ending(long, letter) + rest), args) ==
            Finish(f.(long := long, after := if precision < 0 then -1 else precision), letter, rest, args)
  {
    var tail := Ending(long, letter) + rest;
    if precision < 0 {
      assert Optional(".", precision) + tail == tail;
      FeedEnding(f, long, letter, rest, args);
    } else {
      var g := f.(after := 0);
      assert Optional(".", precision) + tail == ['.'] + (Digits(precision, 10, false) + tail);
      RunStep(OtherChar(f), '.', Digits(precision, 10, false) + tail, args);
      ThenNothing(Run(OtherChar(g), Digits(precision, 10, false) + tail, args));
      FeedPrecision(g, precision, tail, args);
      FeedEnding(g.(after := precision), long, letter, rest, args);
    }
  }

  lemma FeedWidthIfAny(f: Format, width: int, rest: string, args: seq<Arg>)
    requires f.before == -1 && f.after == -1
    ensures Run(OtherChar(f), Optional("", width) + rest, args) ==
            Run(OtherChar(f.(before := if width < 0 then -1 else width)), rest, args)
  {
    if width < 0 {
      assert Optional("", width) + rest == rest;
    } else {
      assert Optional("", width) == Digits(width, 10, false);
      FeedWidth(f, width, rest, args);
    }
  }

  /** The first character after the `%`, when it is neither the zero flag nor another `%`. */
  lemma FirstIsOther(text: string, args: seq<Arg>)
    requires text != "" && text[0] != '0' && text[0] != '%'
    ensures Run(FirstChar, text, args) == Run(OtherChar(BLANK), text, args)
  {
    assert text == [text[0]] + text[1..];
    RunStep(FirstChar, text[0], text[1..], args);
    RunStep(OtherChar(BLANK), text[0], text[1..], args);
  }

  lemma WidthStart(width: int, tail: string)
    requires width != 0 && tail != "" && (width < 0 ==> tail[0] != '0' && tail[0] != '%')
    ensures var text := Optional("", width) + tail;
            text != "" && text[0] != '0' && text[0] != '%'
  {
    if 0 < width {
      NoLeadingZero(width, 10, false);
      DigitsAreNumeral(width, 10, false);
    }
  }

  lemma UnparseDirective(zeros: bool, width: int, precision: int, long: bool, letter: char, rest: string)
    ensures var text := Optional("", width) + (Optional(".", precision) + (Ending(long, letter) + rest));
            Unparse(Directive(zeros, width, precision, long, letter)) + rest ==
            ['%'] + if zeros then ['0'] + text else text
  {
    hide Optional, Ending;
  }

  /** The start of a directive. */
  lemma FeedStart(zeros: bool, text: string, args: seq<Arg>)
    requires !zeros ==> text != "" && text[0] != '0' && text[0] != '%'
    ensures Run(Chars, ['%'] + (if zeros then ['0'] + text else text), args) ==
            Run(OtherChar(BLANK.(zeros := zeros)), text, args)
  {
    if zeros {
      RunStep(Chars, '%', ['0'] + text, args);
      RunStep(FirstChar, '0', text, args);
      ThenNothing(Run(FirstChar, ['0'] + text, args));
      ThenNothing(Run(OtherChar(BLANK.(zeros := true)), text, args));
    } else {
      RunStep(Chars, '%', text, args);
      ThenNothing(Run(FirstChar, text, args));
      FirstIsOther(text, args);
    }
  }

  /** A directive means what it says. */
  lemma FeedDirective(zeros: bool, width: int, precision: int, long: bool, letter: char, rest: string, args: seq<Arg>)
    requires Valid(Directive(zeros, width, precision, long, letter))
    ensures Run(Chars, Unparse(Directive(zeros, width, precision, long, letter)) + rest, args) ==
            Finish(Format(zeros, long, if width < 0 then -1 else width, if precision < 0 then -1 else precision),
                   letter, rest, args)
  {
    var tail := Optional(".", precision) + (Ending(long, letter) + rest);
    var f := BLANK.(zeros := zeros);
    UnparseDirective(zeros, width, precision, long, letter, rest);
    if !zeros {
      WidthStart(width, tail);
    }
    hide Run, Finish, Unparse, Optional;
    FeedStart(zeros, Optional("", width) + tail, args);
    FeedWidthIfAny(f, width, tail, args);
    FeedPrecisionAndEnding(f.(before := if width < 0 then -1 else width), precision, long, letter, rest, args);
  }

  /** The state machine prints every format item by item. */
  lemma {:induction false} FormatMeans(items: seq<Item>, args: seq<Arg>)
    requires forall i :: 0 <= i < |items| ==> Valid(items[i])
    ensures Run(Chars, UnparseAll(items), args) == Render(items, args)
    decreases |items|
  {
    if items != [] {
      var (item, rest) := (items[0], UnparseAll(items[1..]));
      match item
      case Char(c) =>
        FormatMeans(items[1..], args);
        RunStep(Chars, c, rest, args);
      case Percent =>
        FormatMeans(items[1..], args);
        assert Unparse(item) + rest == ['%'] + (['%'] + rest);
        RunStep(Chars, '%', ['%'] + rest, args);
        RunStep(FirstChar, '%', rest, args);
        ThenNothing(Run(FirstChar, ['%'] + rest, args));
      case Directive(zeros, width, precision, long, letter) =>
        FeedDirective(zeros, width, precision, long, letter, rest, args);
        if Fetchable(letter, args) {
          FormatMeans(items[1..], Fetched(letter, args));
        }
    }
  }

  // ---------------------------------------------------------------- letter by letter

  /** A character or a string stands behind the spaces that make up the width. */
  predicate Aligned(text: string, body: string, width: int) {
    && |text| == (if |body| < width then width else |body|)
    && text[|text| - |body|..] == body
    && forall i :: 0 <= i < |text| - |body| ==> text[i] == ' '
  }

  predicate TakesArgument(item: Item) {
    item.Directive? && item.letter in "diuoxXcs"
  }

  /** What a letter that takes an argument prints for it. */
  ghost predicate PrintsArgument(letter: char, arg: Arg, text: string, zeros: bool, width: int) {
    if letter == 's' then arg.String? && Aligned(text, arg.s, width)
    else if !arg.Word? then false
    else if letter == 'c' then Aligned(text, [(arg.w % 256) as char], width)
    else if letter == 'u' then Shows(text, arg.w, 10, false, zeros, width)
    else if letter == 'o' then Shows(text, arg.w, 8, false, zeros, width)
    else if letter == 'x' then Shows(text, arg.w, 16, false, zeros, width)
    else if letter == 'X' then Shows(text, arg.w, 16, true, zeros, width)
    else Shows(text, if arg.w < 0x8000_0000 then arg.w else arg.w - 0x1_0000_0000, 10, false, zeros, width)
  }

  /** What a piece of a format prints: a letter unknown to the printer prints nothing. */
  ghost predicate Prints(item: Item, args: seq<Arg>, text: string) {
    match item
    case Char(c) => text == [c]
    case Percent => text == "%"
    case Directive(zeros, width, precision, long, letter) =>
      if TakesArgument(item) then args != [] && PrintsArgument(letter, args[0], text, zeros, width)
      else text == ""
  }

  /** `out` is what the pieces print, one behind the other; each letter that takes an
      argument takes the next one. */
  ghost predicate PrintsAll(items: seq<Item>, args: seq<Arg>, out: string)
    decreases |items|
  {
    if items == [] then out == ""
    else if TakesArgument(items[0]) && args == [] then false
    else
      exists n :: 0 <= n <= |out| && Prints(items[0], args, out[..n]) &&
                  PrintsAll(items[1..], if TakesArgument(items[0]) then args[1..] else args, out[n..])
  }

  /** The arguments are all there, a string for each `s` and a word for each other letter. */
  predicate Supplied(items: seq<Item>, args: seq<Arg>)
    decreases |items|
  {
    if items == [] then true
    else if TakesArgument(items[0]) then
      args != [] && (args[0].String? <==> items[0].letter == 's') && Supplied(items[1..], args[1..])
    else Supplied(items[1..], args)
  }

  lemma ArgumentPrinted(f: Format, letter: char, args: seq<Arg>)
    requires Fetches(letter) && Fetchable(letter, args)
    ensures PrintsArgument(letter, args[0], Directed(f, letter, args), f.zeros, f.before)
  {
    hide Text, Shows;
    if IsInteger(letter) {
      TextShows(args[0].w, StyleOf(f, letter));
    }
  }

  lemma FetchesIfTakes(item: Item, args: seq<Arg>)
    requires item.Directive?
    ensures Fetches(item.letter) == TakesArgument(item)
    ensures Fetchable(item.letter, args) <==>
            (TakesArgument(item) ==> args != [] && (args[0].String? <==> item.letter == 's'))
  {
    assert forall c :: c in "diuoxXcs" <==> c in {'d', 'i', 'u', 'o', 'x', 'X', 'c', 's'};
  }

  lemma DirectivePrinted(item: Item, args: seq<Arg>)
    requires item.Directive? && Fetchable(item.letter, args)
    ensures var f := Format(item.zeros, item.long, if item.width < 0 then -1 else item.width,
                            if item.precision < 0 then -1 else item.precision);
            Prints(item, args, Directed(f, item.letter, args))
  {
    hide Directed, Shows;
    FetchesIfTakes(item, args);
    var f := Format(item.zeros, item.long, if item.width < 0 then -1 else item.width,
                    if item.precision < 0 then -1 else item.precision);
    if Fetches(item.letter) {
      ArgumentPrinted(f, item.letter, args);
      WithoutWidth(item.letter, args[0], Directed(f, item.letter, args), item.zeros, item.width);
    } else {
      NothingDirected(f, item.letter, args);
    }
  }

  lemma NothingDirected(f: Format, letter: char, args: seq<Arg>)
    requires !Fetches(letter)
    ensures Directed(f, letter, args) == ""
  {
  }

  lemma WithoutWidth(letter: char, arg: Arg, text: string, zeros: bool, width: int)
    requires PrintsArgument(letter, arg, text, zeros, if width < 0 then -1 else width)
    ensures PrintsArgument(letter, arg, text, zeros, width)
  {
    hide Shows;
    if width < 0 && arg.Word? && letter != 'c' {
      if letter == 'u' {
        NoWidth(text, arg.w, 10, false, zeros, width);
      } else if letter == 'o' {
        NoWidth(text, arg.w, 8, false, zeros, width);
      } else if letter == 'x' {
        NoWidth(text, arg.w, 16, false, zeros, width);
      } else if letter == 'X' {
        NoWidth(text, arg.w, 16, true, zeros, width);
      } else if letter != 's' {
        NoWidth(text, if arg.w < 0x8000_0000 then arg.w else arg.w - 0x1_0000_0000, 10, false, zeros, width);
      }
    }
  }

  /** A piece printed in front of what prints the rest. */
  lemma PrintsBoth(items: seq<Item>, args: seq<Arg>, text: string, out: string)
    requires items != [] && (TakesArgument(items[0]) ==> args != []) && Prints(items[0], args, text)
    requires PrintsAll(items[1..], if TakesArgument(items[0]) then args[1..] else args, out)
    ensures PrintsAll(items, args, text + out)
  {
    hide Prints, TakesArgument;
    assert (text + out)[..|text|] == text && (text + out)[|text|..] == out;
  }

  lemma {:induction false} RenderPrints(items: seq<Item>, args: seq<Arg>)
    ensures Render(items, args).Printed? <==> Supplied(items, args)
    ensures Render(items, args).Printed? ==> PrintsAll(items, args, Render(items, args).out)
    decreases |items|
  {
    hide Directed, PrintsAll, Fetchable, Fetches;
    if items == [] {
      PrintsNothing(args);
    } else {
      var rest := items[1..];
      match items[0]
      case Char(c) =>
        RenderPrints(rest, args);
        if Supplied(items, args) {
          PrintsBoth(items, args, [c], Render(rest, args).out);
        }
      case Percent =>
        RenderPrints(rest, args);
        if Supplied(items, args) {
          PrintsBoth(items, args, "%", Render(rest, args).out);
        }
      case Directive(zeros, width, precision, long, letter) =>
        FetchesIfTakes(items[0], args);
        if Fetchable(letter, args) {
          DirectivePrinted(items[0], args);
          RenderPrints(rest, Fetched(letter, args));
          if Supplied(items, args) {
            var f := Format(zeros, long, if width < 0 then -1 else width, if precision < 0 then -1 else precision);
            PrintsBoth(items, args, Directed(f, letter, args), Render(rest, Fetched(letter, args)).out);
          }
        }
    }
  }

  lemma PrintsNothing(args: seq<Arg>)
    ensures PrintsAll([], args, "")
  {
  }

  /** For every format the printer prints each piece as its letter says, in their order, and
      it comes to grief just if an argument is missing or of the wrong kind. */
  lemma FormatPrints(items: seq<Item>, args: seq<Arg>)
    requires forall i :: 0 <= i < |items| ==> Valid(items[i])
    ensures var r := Run(Chars, UnparseAll(items), args);
            && (r.Printed? <==> Supplied(items, args))
            && (r.Printed? ==> PrintsAll(items, args, r.out))
  {
    FormatMeans(items, args);
    RenderPrints(items, args);
  }

  // ---------------------------------------------------------------- the printer itself

  lemma ThenThen(a: string, b: string, r: Result)
    ensures Then(a, Then(b, r)) == Then(a + b, r)
  {
    assert r.Printed? ==> a + (b + r.out) == a + b + r.out;
  }

  datatype Mode = PfChars | PfFirstChar | PfOtherChar

  function StateOf(mode: Mode, f: Format): State {
    match mode
    case PfChars => Chars
    case PfFirstChar => FirstChar
    case PfOtherChar => OtherChar(f)
  }

  /** The letter that ends a directive. */
  method PrintDirective(f: Format, c: char, args: seq<Arg>) returns (out: string, left: seq<Arg>)
    requires Fetchable(c, args)
    ensures out == Directed(f, c, args) && left == Fetched(c, args)
  {
    left := args;
    out := "";
    if IsInteger(c) {
      var signed, base, upper := true, 10, false;
      if c == 'u' {
        signed := false;
      } else if c == 'o' {
        signed, base := false, 8;
      } else if c == 'x' {
        signed, base := false, 16;
      } else if c == 'X' {
        signed, base, upper := false, 16, true;
      }
      out := PrintInteger(args[0].w, Style(signed, base, upper, f.zeros, f.before));
      left := args[1..];
    } else if c == 'c' {
      out := RepChar(' ', f.before - 1);
      out := out + [LowByte(args[0].w)];
      left := args[1..];
    } else if c == 's' {
      out := RepChar(' ', f.before - |args[0].s|);
      out := out + args[0].s;
      left := args[1..];
    }
  }

  /** `alt_log_private_printf` */
  method Print(fmt: string, args: seq<Arg>) returns (out: string)
    requires Run(Chars, fmt, args).Printed?
    ensures Printed(out) == Run(Chars, fmt, args)
    ensures forall items :: UnparseAll(items) == fmt && (forall item <- items :: Valid(item)) ==>
              PrintsAll(items, args, out)
  {
    var mode, i, left := PfChars, 0, args;
    var f := BLANK;
    out := "";
    ThenNothing(Run(Chars, fmt, args));
    while i < |fmt|
      invariant 0 <= i <= |fmt| && (mode == PfFirstChar ==> f == BLANK)
      invariant Run(Chars, fmt, args) == Then(out, Run(StateOf(mode, f), fmt[i..], left))
    {
      var c := fmt[i];
      ghost var fed, was := Feed(StateOf(mode, f), c, left), out;
      if mode == PfChars {
        if c == '%' {
          f, mode := BLANK, PfFirstChar;
        } else {
          out := out + [c];
        }
      } else if mode == PfFirstChar && c == '0' {
        f, mode := f.(zeros := true), PfOtherChar;
      } else if mode == PfFirstChar && c == '%' {
        out := out + [c];
        mode := PfChars;
      } else {
        mode := PfOtherChar;
        if c == '.' {
          f := f.(after := 0);
        } else if IsDigit(c) {
          f := WithDigit(f, c);
        } else if c == 'l' {
          f := f.(long := true);
        } else {
          var text: string;
          text, left := PrintDirective(f, c, left);
          out := out + text;
          mode := PfChars;
        }
      }
      i := i + 1;
      assert fed.Fed? && fed.state == StateOf(mode, f) && fed.args == left && out == was + fed.out;
      ThenThen(was, fed.out, Run(StateOf(mode, f), fmt[i..], left));
    }
    PrintedAll(fmt, args, out);
  }

  lemma PrintedAll(fmt: string, args: seq<Arg>, out: string)
    requires Run(Chars, fmt, args) == Printed(out)
    ensures forall items :: UnparseAll(items) == fmt && (forall item <- items :: Valid(item)) ==>
              PrintsAll(items, args, out)
  {
    hide Run, UnparseAll, PrintsAll;
    forall items | UnparseAll(items) == fmt && (forall item <- items :: Valid(item))
      ensures PrintsAll(items, args, out)
    {
      FormatPrints(items, args);
    }
  }
}
