/**
 The log printer reads its format one character at a time and keeps what it has seen of a directive in
 a few variables. Here the same is said by a grammar of formats, and the two are shown to agree.
 */
module LogPrintf {
  import opened Arithmetic
  import opened Bytes
  import opened Printers
  import opened Wrappers

  /** A variadic argument. `int` and `long` are both 32 bits wide on this processor. */
  datatype Arg = Int(word: u32) | Text(text: string)

  datatype Mode = Chars | FirstFmtChar | OtherFmtChar

  datatype Machine = Machine(mode: Mode, leadingZero: bool, beforeDecimal: int, afterDecimal: int,
                             args: seq<Arg>, out: string)

  function Start(args: seq<Arg>): Machine {
    Machine(Chars, false, 0, 0, args, "")
  }

  // ---------------------------------------------------------------- characters of a directive

  predicate IsDigit(c: char) {
    '0' <= c <= '9'
  }

  /** What may stand between the percent sign and the letter. */
  predicate IsFlag(c: char) {
    c == '.' || IsDigit(c) || c == 'l'
  }

  predicate IsInteger(letter: char) {
    letter == 'd' || letter == 'i' || letter == 'u' || letter == 'o' || letter == 'x' || letter == 'X'
  }

  function IntegerFormat(letter: char, leadingZero: bool, width: int): (f: Format)
    requires IsInteger(letter)
    ensures f.Ok() && f.leadingZero == leadingZero && f.width == width
  {
    match letter
    case 'o' => Format(8, false, false, leadingZero, width)
    case 'x' => Format(16, false, false, leadingZero, width)
    case 'X' => Format(16, false, true, leadingZero, width)
    case 'u' => Format(10, false, false, leadingZero, width)
    case _ => Format(10, true, false, leadingZero, width)
  }

  /** The argument that a letter takes is there; the C code reads beyond its arguments if it is not. */
  predicate Available(letter: char, args: seq<Arg>) {
    && (IsInteger(letter) || letter == 'c' ==> args != [] && args[0].Int?)
    && (letter == 's' ==> args != [] && args[0].Text?)
  }

  predicate Takes(letter: char) {
    IsInteger(letter) || letter == 'c' || letter == 's'
  }

  /** What a directive prints; an unknown letter prints nothing and takes no argument. */
  function Converted(letter: char, leadingZero: bool, width: int, args: seq<Arg>): string
    requires Available(letter, args)
  {
    if IsInteger(letter) then Field(IntegerFormat(letter, leadingZero, width), args[0].word)
    else if letter == 'c' then Repeat(' ', width - 1) + [(args[0].word % 256) as char]
    else if letter == 's' then Repeat(' ', width - |args[0].text|) + args[0].text
    else ""
  }

  function Remaining(letter: char, args: seq<Arg>): seq<Arg>
    requires Available(letter, args)
  {
    if Takes(letter) then args[1..] else args
  }

  // ---------------------------------------------------------------- the state machine

  predicate IsLetter(m: Machine, c: char) {
    !IsFlag(c) && (m.mode == OtherFmtChar || (m.mode == FirstFmtChar && c != '%'))
  }

  predicate Fits(m: Machine, c: char) {
    IsLetter(m, c) ==> Available(c, m.args)
  }

  /** The width grows digit by digit until the decimal point. */
  function Widen(width: int, c: char): int {
    (if width < 0 then 0 else width * 10) + CharValue(c)
  }

  function OtherChar(m: Machine, c: char): Machine
    requires !IsFlag(c) ==> Available(c, m.args)
  {
    if c == '.' then
      m.(mode := OtherFmtChar, afterDecimal := 0)
    else if IsDigit(c) then
      if m.afterDecimal < 0 then
        m.(mode := OtherFmtChar, beforeDecimal := Widen(m.beforeDecimal, c))
      else
        m.(mode := OtherFmtChar, afterDecimal := m.afterDecimal * 10 + CharValue(c))
    else if c == 'l' then
      m.(mode := OtherFmtChar)
    else
      m.(mode := Chars, args := Remaining(c, m.args),
         out := m.out + Converted(c, m.leadingZero, m.beforeDecimal, m.args))
  }

  function Step(m: Machine, c: char): Machine
    requires Fits(m, c)
  {
    match m.mode
    case Chars =>
      if c == '%' then m.(mode := FirstFmtChar, leadingZero := false, beforeDecimal := -1, afterDecimal := -1)
      else m.(out := m.out + [c])
    case FirstFmtChar =>
      if c == '0' then m.(mode := OtherFmtChar, leadingZero := true)
      else if c == '%' then m.(mode := Chars, out := m.out + [c])
      else OtherChar(m, c)
    case OtherFmtChar => OtherChar(m, c)
  }

  /** Every letter on the way finds its argument. */
  predicate Served(m: Machine, format: string)
    decreases |format|
  {
    format == "" || (Fits(m, format[0]) && Served(Step(m, format[0]), format[1..]))
  }

  function Run(m: Machine, format: string): Machine
    requires Served(m, format)
    decreases |format|
  {
    if format == "" then m else Run(Step(m, format[0]), format[1..])
  }

  // ---------------------------------------------------------------- the grammar

  datatype Piece = Plain(c: char) | Percent | Directive(spec: string, letter: char) {
    predicate Ok() {
      match this
      case Plain(c) => c != '%'
      case Percent => true
      case Directive(spec, letter) => AllFlags(spec) && !IsFlag(letter) && (spec == "" ==> letter != '%')
    }

    function Source(): string {
      match this
      case Plain(c) => [c]
      case Percent => "%%"
      case Directive(spec, letter) => "%" + spec + [letter]
    }
  }

  predicate AllFlags(s: string) {
    forall i :: 0 <= i < |s| ==> IsFlag(s[i])
  }

  /** The flags at the head of a text */
  function Flags(s: string): (n: nat)
    ensures n <= |s| && AllFlags(s[..n]) && (n < |s| ==> !IsFlag(s[n]))
  {
    if s == "" || !IsFlag(s[0]) then 0 else 1 + Flags(s[1..])
  }

  /** The piece at the head of a format, none if it ends before the piece does. */
  function First(format: string): (piece: Option<Piece>)
    ensures piece.Some? ==> piece.value.Ok() && piece.value.Source() <= format && piece.value.Source() != ""
    ensures piece.None? <==> BrokenOff(format)
  {
    if format == "" then None
    else if format[0] != '%' then Some(Plain(format[0]))
    else if |format| > 1 && format[1] == '%' then Some(Percent)
    else
      var n := Flags(format[1..]);
      if n + 1 == |format| then
        assert format[1..][..n] == format[1..];
        None
      else
        assert format[1..][..n] == format[1..n + 1];
        assert !IsFlag(format[1..][n]);
        Some(Directive(format[1..n + 1], format[n + 1]))
  }

  function Pieces(format: string): seq<Piece>
    decreases |format|
  {
    match First(format)
    case None => []
    case Some(piece) => [piece] + Pieces(format[|piece.Source()|..])
  }

  /** The end of a format: nothing, or a directive without its letter. */
  predicate BrokenOff(tail: string) {
    tail == "" || (tail[0] == '%' && AllFlags(tail[1..]))
  }

  function Tail(format: string): string
    decreases |format|
  {
    match First(format)
    case None => format
    case Some(piece) => Tail(format[|piece.Source()|..])
  }

  function SourceOf(pieces: seq<Piece>): string {
    if pieces == [] then "" else pieces[0].Source() + SourceOf(pieces[1..])
  }

  predicate AllOk(pieces: seq<Piece>) {
    forall i :: 0 <= i < |pieces| ==> pieces[i].Ok()
  }

  lemma SourceOfMore(piece: Piece, pieces: seq<Piece>, tail: string)
    ensures SourceOf([piece] + pieces) + tail == piece.Source() + (SourceOf(pieces) + tail)
  {
    assert ([piece] + pieces)[1..] == pieces;
    hide Piece.Source;
    assert SourceOf([piece] + pieces) == piece.Source() + SourceOf(pieces);
  }

  /** Every format is the text of its pieces and its tail. */
  lemma {:induction false} PiecesAreAll(format: string)
    ensures AllOk(Pieces(format)) && BrokenOff(Tail(format))
    ensures SourceOf(Pieces(format)) + Tail(format) == format
    decreases |format|
  {
    hide BrokenOff, Piece.Ok, Piece.Source;
    var first := First(format);
    match first {
      case None =>
        assert Pieces(format) == [];
        assert "" + format == format;
      case Some(piece) =>
        hide SourceOf;
        var rest := format[|piece.Source()|..];
        PiecesAreAll(rest);
        SourceOfMore(piece, Pieces(rest), Tail(rest));
        assert piece.Source() + rest == format;
    }
  }

  // ---------------------------------------------------------------- the meaning of pieces

  predicate LeadingZero(spec: string) {
    spec != "" && spec[0] == '0'
  }

  /** The digits before the decimal point, wherever an `l` stands. */
  function WidthDigits(spec: string): string {
    if spec == "" || spec[0] == '.' then ""
    else (if IsDigit(spec[0]) then [spec[0]] else "") + WidthDigits(spec[1..])
  }

  /** The width that digits write down, -1 if there are none. */
  function Written(digits: string): int {
    if digits == "" then -1 else Decode(digits, 10)
  }

  /** A leading zero is a flag and no digit of the width. */
  function Width(spec: string): int {
    Written(WidthDigits(if LeadingZero(spec) then spec[1..] else spec))
  }

  /** The argument of a piece is there. */
  predicate Has(piece: Piece, args: seq<Arg>) {
    piece.Directive? ==> Available(piece.letter, args)
  }

  function Print(piece: Piece, args: seq<Arg>): string
    requires Has(piece, args)
  {
    match piece
    case Plain(c) => [c]
    case Percent => "%"
    case Directive(spec, letter) => Converted(letter, LeadingZero(spec), Width(spec), args)
  }

  function Behind(piece: Piece, args: seq<Arg>): seq<Arg>
    requires Has(piece, args)
  {
    if piece.Directive? then Remaining(piece.letter, args) else args
  }

  predicate Enough(pieces: seq<Piece>, args: seq<Arg>) {
    pieces == [] || (Has(pieces[0], args) && Enough(pieces[1..], Behind(pieces[0], args)))
  }

  function Shown(pieces: seq<Piece>, args: seq<Arg>): string
    requires Enough(pieces, args)
  {
    if pieces == [] then "" else Print(pieces[0], args) + Shown(pieces[1..], Behind(pieces[0], args))
  }

  // ---------------------------------------------------------------- machine and grammar agree

  /** What `spec` does to a width that is being read. */
  function Widened(width: int, spec: string): int
    decreases |spec|
  {
    if spec == "" || spec[0] == '.' then width
    else Widened(if IsDigit(spec[0]) then Widen(width, spec[0]) else width, spec[1..])
  }

  lemma WrittenMore(digits: string, c: char)
    ensures Written(digits + [c]) == Widen(Written(digits), c)
  {
    hide CharValue, Decode;
    DecodeLast(digits, c, 10);
    DecodeNothing(10);
    DecodeSign(digits);
  }

  lemma {:induction false} DecodeSign(digits: string)
    ensures Decode(digits, 10) >= 0
  {
  }

  lemma {:induction false} WidenedIsWritten(digits: string, spec: string)
    ensures Widened(Written(digits), spec) == Written(digits + WidthDigits(spec))
    decreases |spec|
  {
    hide Written, Widen, IsDigit;
    if spec == "" || spec[0] == '.' {
      assert digits + "" == digits;
    } else if IsDigit(spec[0]) {
      WrittenMore(digits, spec[0]);
      WidenedIsWritten(digits + [spec[0]], spec[1..]);
      assert digits + [spec[0]] + WidthDigits(spec[1..]) == digits + WidthDigits(spec);
    } else {
      WidenedIsWritten(digits, spec[1..]);
      assert "" + WidthDigits(spec[1..]) == WidthDigits(spec[1..]);
    }
  }

  /** Flags only change the width and what follows the decimal point. */
  lemma {:induction false} FlagsRun(m: Machine, spec: string)
    requires m.mode == OtherFmtChar && AllFlags(spec)
    ensures Served(m, spec)
    ensures var after := Run(m, spec);
      && after == m.(beforeDecimal := after.beforeDecimal, afterDecimal := after.afterDecimal)
      && after.beforeDecimal == (if m.afterDecimal < 0 then Widened(m.beforeDecimal, spec) else m.beforeDecimal)
    decreases |spec|
  {
    hide Converted, Remaining;
    if spec != "" {
      FlagsRun(Step(m, spec[0]), spec[1..]);
    }
  }

  lemma {:induction false} RunAppend(m: Machine, s: string, t: string)
    requires Served(m, s)
    ensures Served(m, s + t) <==> Served(Run(m, s), t)
    ensures Served(m, s + t) ==> Run(m, s + t) == Run(Run(m, s), t)
    decreases |s|
  {
    hide Step, Fits;
    if s == "" {
      assert s + t == t;
    } else {
      assert (s + t)[1..] == s[1..] + t;
      RunAppend(Step(m, s[0]), s[1..], t);
    }
  }

  /** The machine at a percent sign */
  function Opened(m: Machine): Machine {
    m.(mode := FirstFmtChar, leadingZero := false, beforeDecimal := -1, afterDecimal := -1)
  }

  /** Behind the flags the machine holds the leading zero and the width of the directive. */
  lemma SpecRuns(m: Machine, spec: string)
    requires AllFlags(spec) && spec != ""
    ensures Served(Opened(m), spec)
    ensures var after := Run(Opened(m), spec);
      && after == Opened(m).(mode := OtherFmtChar, leadingZero := LeadingZero(spec),
                             beforeDecimal := Width(spec), afterDecimal := after.afterDecimal)
  {
    hide Converted, Remaining;
    var first, rest := spec[0], spec[1..];
    FlagsRun(Step(Opened(m), first), rest);
    if first == '0' {
      WidenedIsWritten("", rest);
      assert "" + WidthDigits(rest) == WidthDigits(rest);
    } else {
      WidenedIsWritten("", spec);
      assert "" + WidthDigits(spec) == WidthDigits(spec);
    }
  }

  lemma LastChar(m: Machine, c: char)
    ensures Served(m, [c]) <==> Fits(m, c)
    ensures Fits(m, c) ==> Run(m, [c]) == Step(m, c)
  {
    hide Fits, Step;
    if Fits(m, c) {
      assert [c][1..] == "";
      assert Served(Step(m, c), "");
    }
  }

  lemma FirstChar(m: Machine, c: char, rest: string)
    requires Fits(m, c)
    ensures Served(m, [c] + rest) <==> Served(Step(m, c), rest)
    ensures Served(m, [c] + rest) ==> Run(m, [c] + rest) == Run(Step(m, c), rest)
  {
    hide Fits, Step;
    assert ([c] + rest)[1..] == rest;
  }

  /** A whole directive, from the percent sign to the letter. */
  lemma DirectiveRuns(m: Machine, spec: string, letter: char)
    requires m.mode == Chars && Directive(spec, letter).Ok()
    ensures var text := Directive(spec, letter).Source();
      && (Served(m, text) <==> Available(letter, m.args))
      && (Served(m, text) ==>
        var after := Run(m, text);
        && after.mode == Chars && after.args == Remaining(letter, m.args)
        && after.out == m.out + Converted(letter, LeadingZero(spec), Width(spec), m.args))
  {
    hide Converted, Remaining, Available, Run, Served;
    FirstChar(m, '%', spec + [letter]);
    assert Directive(spec, letter).Source() == ['%'] + (spec + [letter]);
    assert Step(m, '%') == Opened(m);
    if spec == "" {
      assert spec + [letter] == [letter];
      LastChar(Opened(m), letter);
    } else {
      SpecRuns(m, spec);
      RunAppend(Opened(m), spec, [letter]);
      LastChar(Run(Opened(m), spec), letter);
    }
  }

  // ---------------------------------------------------------------- machine and pieces

  lemma PieceRuns(m: Machine, piece: Piece)
    requires m.mode == Chars && piece.Ok()
    ensures Served(m, piece.Source()) <==> Has(piece, m.args)
    ensures Served(m, piece.Source()) ==>
      var after := Run(m, piece.Source());
      after.mode == Chars && after.args == Behind(piece, m.args) && after.out == m.out + Print(piece, m.args)
  {
    hide Converted, Remaining, Available, Run, Served, Width;
    match piece {
      case Plain(c) => LastChar(m, c);
      case Percent =>
        assert "%%" == ['%'] + ['%'];
        FirstChar(m, '%', "%");
        LastChar(Opened(m), '%');
      case Directive(spec, letter) => DirectiveRuns(m, spec, letter);
    }
  }

  /** In a directive that is broken off nothing is printed. */
  lemma TailRuns(m: Machine, tail: string)
    requires m.mode == Chars && BrokenOff(tail)
    ensures Served(m, tail) && Run(m, tail).out == m.out
  {
    if tail != "" {
      FirstChar(m, '%', tail[1..]);
      assert ['%'] + tail[1..] == tail;
      if tail[1..] != "" {
        SpecRuns(m, tail[1..]);
      }
    }
  }

  lemma {:induction false} PrefixServed(m: Machine, s: string, t: string)
    requires !Served(m, s)
    ensures !Served(m, s + t)
    decreases |s|
  {
    hide Step, Fits;
    assert (s + t)[1..] == s[1..] + t;
    if Fits(m, s[0]) {
      PrefixServed(Step(m, s[0]), s[1..], t);
    }
  }

  /** For every format the machine prints what its pieces mean, one after the other, and finds its
      arguments exactly if the pieces do. */
  lemma {:induction false} MachineIsGrammar(m: Machine, format: string)
    requires m.mode == Chars
    ensures Served(m, format) <==> Enough(Pieces(format), m.args)
    ensures Served(m, format) ==> Run(m, format).out == m.out + Shown(Pieces(format), m.args)
    decreases |format|
  {
    hide Served, Run, Print, Has, Behind, BrokenOff, Piece.Source, Piece.Ok;
    var first := First(format);
    match first {
      case None =>
        TailRuns(m, format);
        assert m.out + "" == m.out;
      case Some(piece) =>
        var source := piece.Source();
        var rest := format[|source|..];
        assert source + rest == format;
        assert Pieces(format)[1..] == Pieces(rest);
        PieceRuns(m, piece);
        if Served(m, source) {
          RunAppend(m, source, rest);
          MachineIsGrammar(Run(m, source), rest);
        } else {
          PrefixServed(m, source, rest);
        }
    }
  }

  // ---------------------------------------------------------------- directives as they are meant

  function WidthText(width: Option<nat>): string {
    if width.None? then "" else Digits(width.value, 10, false)
  }

  function Point(precision: Option<nat>): string {
    if precision.None? then "" else "." + Digits(precision.value, 10, false)
  }

  /** The text between the percent sign and the letter; a width is a positive number. */
  function Spec(leadingZero: bool, width: Option<nat>, precision: Option<nat>, long: bool): string {
    (if leadingZero then "0" else "")
    + (WidthText(width) + (Point(precision) + if long then "l" else ""))
  }

  predicate AllDigits(s: string) {
    forall i :: 0 <= i < |s| ==> IsDigit(s[i])
  }

  lemma {:induction false} DecimalDigits(v: nat)
    ensures AllDigits(Digits(v, 10, false))
  {
    if v >= 10 {
      DivSmaller(v, 10);
      DecimalDigits(v / 10);
    }
  }

  lemma {:induction false} WidthDigitsOf(digits: string, rest: string)
    requires AllDigits(digits)
    ensures WidthDigits(digits + rest) == digits + WidthDigits(rest)
  {
    if digits == "" {
      assert digits + rest == rest;
    } else {
      assert (digits + rest)[1..] == digits[1..] + rest;
      WidthDigitsOf(digits[1..], rest);
      assert [digits[0]] + (digits[1..] + WidthDigits(rest)) == digits + WidthDigits(rest);
    }
  }

  /** Neither the precision nor the length belongs to the width. */
  lemma NoWidthDigits(precision: Option<nat>, long: bool)
    ensures var rest := Point(precision) + if long then "l" else "";
      AllFlags(rest) && WidthDigits(rest) == "" && !LeadingZero(rest)
  {
    var end := if long then "l" else "";
    if precision.Some? {
      DecimalDigits(precision.value);
    } else {
      assert "" + end == end;
    }
    assert end != "" ==> end[1..] == "";
  }

  lemma WidthTextMeans(width: Option<nat>)
    requires width.Some? ==> width.value > 0
    ensures AllDigits(WidthText(width)) && !LeadingZero(WidthText(width))
    ensures Written(WidthText(width)) == if width.None? then -1 else width.value
  {
    hide Digits, Decode;
    if width.Some? {
      DecimalDigits(width.value);
      DecodeDigits(width.value, 10, false);
      NoLeadingZero(width.value, 10, false);
    }
  }

  lemma LeadingZeroOf(digits: string, rest: string)
    requires !LeadingZero(digits) && !LeadingZero(rest)
    ensures !LeadingZero(digits + rest)
  {
    if digits == "" {
      assert digits + rest == rest;
    }
  }

  lemma WidthOf(leadingZero: bool, text: string)
    requires !LeadingZero(text)
    ensures var spec := (if leadingZero then "0" else "") + text;
      LeadingZero(spec) == leadingZero && Width(spec) == Written(WidthDigits(text))
  {
    hide Written, WidthDigits;
    if leadingZero {
      assert ("0" + text)[1..] == text;
    } else {
      assert "" + text == text;
    }
  }

  /** A directive stands for the leading zero and the width it is written with. */
  lemma SpecMeans(leadingZero: bool, width: Option<nat>, precision: Option<nat>, long: bool)
    requires width.Some? ==> width.value > 0
    ensures var spec := Spec(leadingZero, width, precision, long);
      && AllFlags(spec) && LeadingZero(spec) == leadingZero
      && Width(spec) == if width.None? then -1 else width.value
  {
    hide WidthText, Point, WidthDigits, LeadingZero, Written, Width;
    var rest := Point(precision) + if long then "l" else "";
    NoWidthDigits(precision, long);
    WidthTextMeans(width);
    WidthDigitsOf(WidthText(width), rest);
    LeadingZeroOf(WidthText(width), rest);
    WidthOf(leadingZero, WidthText(width) + rest);
    assert WidthText(width) + "" == WidthText(width);
  }

  lemma IntegerLetter(letter: char, leadingZero: bool, width: int, v: u32, rest: seq<Arg>)
    requires IsInteger(letter)
    ensures var args := [Int(v)] + rest;
      && !IsFlag(letter) && letter != '%' && Available(letter, args) && Remaining(letter, args) == rest
      && Converted(letter, leadingZero, width, args) == Field(IntegerFormat(letter, leadingZero, width), v)
  {
    hide Field, IntegerFormat;
    assert ([Int(v)] + rest)[1..] == rest;
  }

  /** The digits that a letter's base has */
  predicate IsDigitOf(c: char, letter: char) {
    if letter == 'o' then '0' <= c <= '7'
    else if letter == 'x' then '0' <= c <= '9' || 'a' <= c <= 'f'
    else if letter == 'X' then '0' <= c <= '9' || 'A' <= c <= 'F'
    else '0' <= c <= '9'
  }

  function BaseOf(letter: char): nat {
    if letter == 'o' then 8 else if letter == 'x' || letter == 'X' then 16 else 10
  }

  /** The number that a letter takes a word for: `d` and `i` take it as signed. */
  function NumberOf(letter: char, v: u32): int {
    if (letter == 'd' || letter == 'i') && v >= 0x8000_0000 then v - 0x1_0000_0000 else v
  }

  /** `n` is the number of digits that `m` takes in a base. */
  predicate TakesDigits(m: nat, base: nat, n: nat) {
    n > 0 && m < Pow(base, n) && (n > 1 ==> Pow(base, n - 1) <= m)
  }

  /** The parts of a printed number: blanks, a sign, zeros and the digits. */
  predicate IsNumberText(text: string, blanks: nat, sign: nat, zeros: nat, n: nat, letter: char) {
    && sign <= 1 && |text| == blanks + sign + zeros + n
    && (forall i :: 0 <= i < blanks ==> text[i] == ' ')
    && (sign == 1 ==> text[blanks] == '-')
    && (forall i :: blanks + sign <= i < blanks + sign + zeros ==> text[i] == '0')
    && (forall i :: blanks + sign + zeros <= i < |text| ==> IsDigitOf(text[i], letter))
  }

  function Excess(width: int, length: nat): nat {
    if width > length then width - length else 0
  }

  /** A word as its letter shows it, with `n` digits: it reads back as the number that the letter takes it
      for, in the letter's base, with the fewest digits, and zeros or blanks make up the width. */
  predicate IsShown(text: string, letter: char, v: u32, leadingZero: bool, width: int, n: nat) {
    var m := NumberOf(letter, v);
    var sign := if m < 0 then 1 else 0;
    var more := Excess(width, n + sign);
    && ReadField(text, BaseOf(letter)) == m
    && TakesDigits(if m < 0 then 0 - m else m, BaseOf(letter), n)
    && IsNumberText(text, if leadingZero then 0 else more, sign, if leadingZero then more else 0, n, letter)
  }

  predicate AllDigitsOf(s: string, letter: char) {
    forall i :: 0 <= i < |s| ==> IsDigitOf(s[i], letter)
  }

  lemma {:induction false} DigitsOfLetter(v: nat, letter: char)
    requires IsInteger(letter)
    ensures AllDigitsOf(Digits(v, BaseOf(letter), letter == 'X'), letter)
  {
    var base := BaseOf(letter);
    if v >= base {
      DivSmaller(v, base);
      DigitsOfLetter(v / base, letter);
    }
  }

  lemma {:induction false} DigitsTaken(v: nat, base: nat, upper: bool)
    requires 2 <= base <= 16
    ensures TakesDigits(v, base, |Digits(v, base, upper)|)
  {
    if v < base {
      DivModUnique(v, base, 0, v);
      OneDigit(v, base);
    } else {
      DivSmaller(v, base);
      DigitsTaken(v / base, base, upper);
      MoreDigits(v, base, |Digits(v / base, base, upper)|);
    }
  }

  lemma OneDigit(v: nat, base: nat)
    requires v < base
    ensures TakesDigits(v, base, 1)
  {
    assert Pow(base, 1) == base * Pow(base, 0);
  }

  lemma MoreDigits(v: nat, base: nat, n: nat)
    requires v >= base > 0 && TakesDigits(v / base, base, n)
    ensures TakesDigits(v, base, n + 1)
  {
    hide Pow;
    Scaled(v, base, Pow(base, n));
    if n > 1 {
      ScaledUp(v, base, Pow(base, n - 1));
      PowNext(base, n - 1);
    } else {
      PowOne(base);
    }
    PowNext(base, n);
  }

  lemma PowNext(base: nat, n: nat)
    ensures Pow(base, n + 1) == base * Pow(base, n)
  {
  }

  lemma PowOne(base: nat)
    ensures Pow(base, 1) == base
  {
    PowNext(base, 0);
  }

  lemma Scaled(v: nat, base: nat, p: nat)
    requires base > 0 && v / base < p
    ensures v < base * p
  {
    QuotientAndDigit(v, base);
    MulGap(v / base, p, base);
  }

  lemma ScaledUp(v: nat, base: nat, p: nat)
    requires base > 0 && p <= v / base
    ensures base * p <= v
  {
    QuotientAndDigit(v, base);
    if p < v / base {
      MulGap(p, v / base, base);
    }
  }

  /** What a letter means */
  lemma LetterMeans(letter: char, leadingZero: bool, width: int, v: u32)
    requires IsInteger(letter)
    ensures var f := IntegerFormat(letter, leadingZero, width); var m := NumberOf(letter, v);
      && f.Ok() && f.leadingZero == leadingZero && f.width == width
      && f.base == BaseOf(letter) && f.upper == (letter == 'X') && Number(f, v) == m
      && Magnitude(f, v) == (if m < 0 then 0 - m else m) && |Sign(f, v)| == (if m < 0 then 1 else 0)
      && (m < 0 ==> Sign(f, v) == "-")
  {
  }

  lemma FieldParts(f: Format, v: u32)
    requires f.Ok()
    ensures var more := Excess(f.width, |Sign(f, v)| + |Numeral(f, v)|);
      Field(f, v) == Repeat(' ', if f.leadingZero then 0 else more) + Sign(f, v) +
                     Repeat('0', if f.leadingZero then more else 0) + Numeral(f, v)
  {
    hide Sign, Numeral;
    var sign := Sign(f, v);
    assert "" + sign == sign && sign + "" == sign;
  }

  lemma TextOfParts(blanks: nat, sign: string, zeros: nat, digits: string, letter: char)
    requires (sign == "" || sign == "-") && AllDigitsOf(digits, letter)
    ensures IsNumberText(Repeat(' ', blanks) + sign + Repeat('0', zeros) + digits, blanks, |sign|, zeros, |digits|,
                         letter)
  {
    hide IsDigitOf;
  }

  /** The text of an integer directive, in the terms of its letter: the number in the base of the
      letter, to be read back; the fewest digits, and zeros or blanks up to the width. */
  lemma FieldOfLetter(letter: char, leadingZero: bool, width: int, v: u32) returns (n: nat)
    requires IsInteger(letter)
    ensures IsShown(Field(IntegerFormat(letter, leadingZero, width), v), letter, v, leadingZero, width, n)
  {
    hide IntegerFormat, Number, NumberOf, ReadField, Digits, IsDigitOf, Pow, Sign, Magnitude, Negative, Field,
      IsNumberText, TakesDigits, BaseOf, Repeat;
    var f, m := IntegerFormat(letter, leadingZero, width), NumberOf(letter, v);
    LetterMeans(letter, leadingZero, width, v);
    FieldReadsBack(f, v);
    var digits, sign := Digits(Magnitude(f, v), f.base, f.upper), Sign(f, v);
    n := |digits|;
    DigitsTaken(Magnitude(f, v), f.base, f.upper);
    DigitsOfLetter(Magnitude(f, v), letter);
    FieldParts(f, v);
    assert sign == "" || sign == "-";
    var more := Excess(width, n + |sign|);
    TextOfParts(if leadingZero then 0 else more, sign, if leadingZero then more else 0, digits, letter);
  }

  /** Integer directives, written with any leading zero, positive width, precision and `l`, print the
      number that their letter takes the argument for; the precision and `l` make no difference. One
      argument is taken. */
  lemma DirectiveReadsBack(leadingZero: bool, width: Option<nat>, precision: Option<nat>, long: bool,
                           letter: char, v: u32, args: seq<Arg>)
    returns (n: nat)
    requires letter in "diuoxX" && (width.Some? ==> width.value > 0)
    ensures var format := "%" + Spec(leadingZero, width, precision, long) + [letter];
      && Served(Start([Int(v)] + args), format)
      && var end := Run(Start([Int(v)] + args), format);
      && end.mode == Chars && end.args == args
      && IsShown(end.out, letter, v, leadingZero, if width.None? then -1 else width.value, n)
  {
    assert IsInteger(letter);
    hide Served, Run, Field, Spec, Width, LeadingZero, AllFlags, IntegerFormat, ReadField, IsInteger, Available,
      Converted, IsShown, Remaining;
    var spec, w := Spec(leadingZero, width, precision, long), if width.None? then -1 else width.value;
    SpecMeans(leadingZero, width, precision, long);
    IntegerLetter(letter, leadingZero, w, v, args);
    DirectiveRuns(Start([Int(v)] + args), spec, letter);
    var text := Field(IntegerFormat(letter, leadingZero, w), v);
    assert "" + text == text;
    n := FieldOfLetter(letter, leadingZero, w, v);
  }

  /** `%c` prints the character, and `%s` the string, behind blanks up to the width; neither pads with
      zeros or cuts anything off. One argument is taken. */
  lemma TextDirectives(leadingZero: bool, width: Option<nat>, precision: Option<nat>, long: bool,
                       arg: Arg, args: seq<Arg>)
    requires width.Some? ==> width.value > 0
    ensures var text := if arg.Int? then [(arg.word % 256) as char] else arg.text;
      var letter := if arg.Int? then 'c' else 's';
      var format := "%" + Spec(leadingZero, width, precision, long) + [letter];
      && Served(Start([arg] + args), format)
      && var end := Run(Start([arg] + args), format);
      && end.mode == Chars && end.args == args
      && end.out == seq(Excess(if width.None? then 0 else width.value, |text|), _ => ' ') + text
  {
    var spec, letter := Spec(leadingZero, width, precision, long), if arg.Int? then 'c' else 's';
    hide Served, Run, Spec, Width, LeadingZero, AllFlags;
    SpecMeans(leadingZero, width, precision, long);
    TextConverted(width, arg, args);
    hide Converted, Remaining, Available;
    DirectiveRuns(Start([arg] + args), spec, letter);
  }

  lemma TextConverted(width: Option<nat>, arg: Arg, args: seq<Arg>)
    ensures var text := if arg.Int? then [(arg.word % 256) as char] else arg.text;
      var letter := if arg.Int? then 'c' else 's';
      var w := if width.None? then -1 else width.value;
      && Available(letter, [arg] + args) && Remaining(letter, [arg] + args) == args && !IsFlag(letter)
      && forall leadingZero :: Converted(letter, leadingZero, w, [arg] + args)
           == seq(Excess(if width.None? then 0 else width.value, |text|), _ => ' ') + text
  {
    assert ([arg] + args)[1..] == args;
    var w, n := if width.None? then -1 else width.value, if arg.Int? then 1 else |arg.text|;
    assert Repeat(' ', w - n) == seq(Excess(if width.None? then 0 else width.value, n), _ => ' ');
  }

  /** A directive with any other letter, a second percent sign included, prints nothing and takes no
      argument. */
  lemma UnknownLetter(spec: string, letter: char, args: seq<Arg>)
    requires AllFlags(spec) && !IsFlag(letter) && letter !in "diuoxXcs" && (letter == '%' ==> spec != "")
    ensures var format := "%" + spec + [letter];
      && Served(Start(args), format)
      && var end := Run(Start(args), format);
      end.mode == Chars && end.out == "" && end.args == args
  {
    hide Served, Run, Width, LeadingZero, AllFlags;
    DirectiveRuns(Start(args), spec, letter);
  }

  // ---------------------------------------------------------------- the loop

  /** Prints a format with its arguments. */
  method Printf(console: Console, fmt: string, va: seq<Arg>)
    requires Served(Start(va), fmt)
    modifies console
    ensures console.text == old(console.text) + Run(Start(va), fmt).out
  {
    hide Converted, Remaining, CharValue;
    var w, args := 0, va;
    var state := Chars;
    var fmtLeadingZero, fmtBeforeDecimal, fmtAfterDecimal := false, 0, 0;
    ghost var m := Start(va);
    while w < |fmt|
      invariant 0 <= w <= |fmt|
      invariant Served(m, fmt[w..]) && Run(m, fmt[w..]) == Run(Start(va), fmt)
      invariant console.text == old(console.text) + m.out
      invariant m == Machine(state, fmtLeadingZero, fmtBeforeDecimal, fmtAfterDecimal, args, m.out)
    {
      var c := fmt[w];
      w := w + 1;
      assert fmt[w - 1..][1..] == fmt[w..];
      if state == Chars {
        if c == '%' {
          fmtLeadingZero, fmtBeforeDecimal, fmtAfterDecimal := false, -1, -1;
          state := FirstFmtChar;
        } else {
          console.PutChar(c);
        }
      } else if state == FirstFmtChar && c == '0' {
        fmtLeadingZero := true;
        state := OtherFmtChar;
      } else if state == FirstFmtChar && c == '%' {
        console.PutChar(c);
        state := Chars;
      } else {
        state := OtherFmtChar;
        if c == '.' {
          fmtAfterDecimal := 0;
        } else if IsDigit(c) {
          if fmtAfterDecimal < 0 {
            if fmtBeforeDecimal < 0 {
              fmtBeforeDecimal := 0;
            } else {
              fmtBeforeDecimal := fmtBeforeDecimal * 10;
            }
            fmtBeforeDecimal := fmtBeforeDecimal + CharValue(c);
          } else {
            fmtAfterDecimal := fmtAfterDecimal * 10 + CharValue(c);
          }
        } else if c != 'l' {
          args := Convert(console, c, fmtLeadingZero, fmtBeforeDecimal, args);
          state := Chars;
        }
      }
      m := Step(m, c);
    }
    assert fmt[w..] == "";
  }

  /** The letter of a directive */
  method Convert(console: Console, letter: char, leadingZero: bool, width: int, va: seq<Arg>)
    returns (args: seq<Arg>)
    requires Available(letter, va)
    modifies console
    ensures console.text == old(console.text) + Converted(letter, leadingZero, width, va)
    ensures args == Remaining(letter, va)
  {
    hide Field, IntegerFormat, Repeat;
    args := va;
    if IsInteger(letter) {
      console.PrintInteger(IntegerFormat(letter, leadingZero, width), args[0].word);
      args := args[1..];
    } else if letter == 'c' {
      console.RepeatChar(' ', width - 1);
      console.PutChar((args[0].word % 256) as char);
      args := args[1..];
    } else if letter == 's' {
      var s := args[0].text;
      console.RepeatChar(' ', width - |s|);
      console.PutText(s);
      args := args[1..];
    }
  }
}
