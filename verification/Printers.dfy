/**
 The two number printers: the log printer, which divides by the largest place value, and the small
 printer, which shifts and masks hexadecimal digits.
 */
module Printers {
  import opened Bytes
  import opened Arithmetic

  // ---------------------------------------------------------------- numerals

  function DigitChar(d: nat, upper: bool): char
    requires d < 16
  {
    if d <= 9 then '0' + d as char else (if upper then 'A' else 'a') + (d - 10) as char
  }

  function CharValue(c: char): nat {
    if '0' <= c <= '9' then (c - '0') as nat
    else if 'a' <= c <= 'f' then (c - 'a') as nat + 10
    else if 'A' <= c <= 'F' then (c - 'A') as nat + 10
    else 0
  }

  /** The shortest numeral of `v` */
  function Digits(v: nat, base: nat, upper: bool): (s: string)
    requires 2 <= base <= 16
    ensures |s| >= 1
  {
    DivSmaller(v, base);
    (if v < base then "" else Digits(v / base, base, upper)) + [DigitChar(v % base, upper)]
  }

  function Decode(s: string, base: nat): nat {
    if s == "" then 0 else Decode(s[..|s| - 1], base) * base + CharValue(s[|s| - 1])
  }

  function Repeat(c: char, n: int): string {
    if n <= 0 then "" else seq(n, _ => c)
  }

  lemma DivSmaller(v: nat, base: nat)
    requires base >= 2
    ensures v >= base ==> 1 <= v / base < v
  {
  }

  lemma DigitCharValue(d: nat, upper: bool)
    requires d < 16
    ensures CharValue(DigitChar(d, upper)) == d
    ensures DigitChar(d, upper) != ' ' && DigitChar(d, upper) != '-'
    ensures d > 0 ==> DigitChar(d, upper) != '0'
  {
  }

  lemma DecodeLast(s: string, c: char, base: nat)
    ensures Decode(s + [c], base) == Decode(s, base) * base + CharValue(c)
  {
    assert (s + [c])[..|s|] == s;
  }

  lemma DecodeNothing(base: nat)
    ensures Decode("", base) == 0
  {
  }

  lemma QuotientAndDigit(v: nat, base: nat)
    requires base > 0
    ensures v / base * base + v % base == v
  {
  }

  lemma {:induction false} DecodeDigits(v: nat, base: nat, upper: bool)
    requires 2 <= base <= 16
    ensures Decode(Digits(v, base, upper), base) == v
  {
    hide Decode, DigitChar, CharValue;
    DigitCharValue(v % base, upper);
    QuotientAndDigit(v, base);
    if v < base {
      DivModUnique(v, base, 0, v);
      DecodeLast("", DigitChar(v % base, upper), base);
      DecodeNothing(base);
      assert "" + [DigitChar(v, upper)] == [DigitChar(v, upper)];
    } else {
      DivSmaller(v, base);
      DecodeDigits(v / base, base, upper);
      DecodeLast(Digits(v / base, base, upper), DigitChar(v % base, upper), base);
    }
  }

  /** A numeral has no leading zero, unless it is the numeral of zero. */
  lemma {:induction false} NoLeadingZero(v: nat, base: nat, upper: bool)
    requires 2 <= base <= 16 && v > 0
    ensures Digits(v, base, upper)[0] != '0'
  {
    if v < base {
      DivModUnique(v, base, 0, v);
      DigitCharValue(v, upper);
    } else {
      DivSmaller(v, base);
      NoLeadingZero(v / base, base, upper);
    }
  }

  lemma {:induction false} DigitsPrintable(v: nat, base: nat, upper: bool)
    requires 2 <= base <= 16
    ensures ' ' !in Digits(v, base, upper) && '-' !in Digits(v, base, upper)
  {
    DigitCharValue(v % base, upper);
    if v >= base {
      DivSmaller(v, base);
      DigitsPrintable(v / base, base, upper);
    }
  }

  // ---------------------------------------------------------------- fields

  /** The conversion that a format asks for; a width that is not given is -1. */
  datatype Format = Format(base: nat, signed: bool, upper: bool, leadingZero: bool, width: int) {
    predicate Ok() {
      base == 8 || base == 10 || base == 16
    }
  }

  predicate Negative(f: Format, v: u32) {
    f.signed && v >= 0x8000_0000
  }

  function Magnitude(f: Format, v: u32): u32 {
    if Negative(f, v) then Wrap(TWO_32 - 1 - v + 1) else v
  }

  /** The number that is printed. */
  function Number(f: Format, v: u32): int {
    if Negative(f, v) then v - TWO_32 else v
  }

  function Sign(f: Format, v: u32): string {
    if Negative(f, v) then "-" else ""
  }

  function Numeral(f: Format, v: u32): string
    requires f.Ok()
  {
    Digits(Magnitude(f, v), f.base, f.upper)
  }

  function Padding(f: Format, v: u32): int
    requires f.Ok()
  {
    f.width - |Numeral(f, v)| - |Sign(f, v)|
  }

  /** Zeros go between the sign and the digits, blanks in front of the sign. */
  function Field(f: Format, v: u32): string
    requires f.Ok()
  {
    if f.leadingZero then Sign(f, v) + Repeat('0', Padding(f, v)) + Numeral(f, v)
    else Repeat(' ', Padding(f, v)) + Sign(f, v) + Numeral(f, v)
  }

  /** The number in a field: blanks, a sign, digits. */
  function ReadField(s: string, base: nat): int {
    if s != "" && s[0] == ' ' then ReadField(s[1..], base)
    else if s != "" && s[0] == '-' then 0 - Decode(s[1..], base)
    else Decode(s, base)
  }

  lemma {:induction false} ZerosKeepValue(n: int, s: string, base: nat)
    ensures Decode(Repeat('0', n) + s, base) == Decode(s, base)
    decreases |s|, n
  {
    var t := Repeat('0', n) + s;
    if s == "" {
      if n > 0 {
        assert t[..|t| - 1] == Repeat('0', n - 1) + s;
        ZerosKeepValue(n - 1, s, base);
        assert CharValue('0') == 0;
      }
    } else {
      assert t[..|t| - 1] == Repeat('0', n) + s[..|s| - 1];
      ZerosKeepValue(n, s[..|s| - 1], base);
    }
  }

  lemma {:induction false} BlanksAreSkipped(n: int, s: string, base: nat)
    ensures ReadField(Repeat(' ', n) + s, base) == ReadField(s, base)
  {
    if n <= 0 {
      assert Repeat(' ', n) + s == s;
    } else {
      assert (Repeat(' ', n) + s)[1..] == Repeat(' ', n - 1) + s;
      BlanksAreSkipped(n - 1, s, base);
    }
  }

  lemma ReadSigned(digits: string, base: nat)
    requires digits != "" && digits[0] != ' ' && digits[0] != '-'
    ensures ReadField("" + digits, base) == Decode(digits, base)
    ensures ReadField("-" + digits, base) == 0 - Decode(digits, base)
  {
    assert "" + digits == digits;
    assert ("-" + digits)[1..] == digits;
  }

  lemma SignedText(f: Format, v: u32, zeros: int)
    requires f.Ok()
    ensures ReadField(Sign(f, v) + (Repeat('0', zeros) + Numeral(f, v)), f.base) == Number(f, v)
  {
    var digits := Repeat('0', zeros) + Numeral(f, v);
    hide Digits, Decode, ReadField, Repeat;
    DecodeDigits(Magnitude(f, v), f.base, f.upper);
    ZerosKeepValue(zeros, Numeral(f, v), f.base);
    FirstPrintable(f, v, zeros);
    SignOf(f, v);
    hide Numeral, Magnitude, Number, Negative;
    ReadSigned(digits, f.base);
  }

  lemma SignOf(f: Format, v: u32)
    ensures Number(f, v) == (if Negative(f, v) then 0 - Magnitude(f, v) else Magnitude(f, v))
    ensures Sign(f, v) == (if Negative(f, v) then "-" else "")
  {
  }

  lemma FirstPrintable(f: Format, v: u32, zeros: int)
    requires f.Ok()
    ensures var digits := Repeat('0', zeros) + Numeral(f, v);
      digits != "" && digits[0] != ' ' && digits[0] != '-'
  {
    hide Digits;
    DigitsPrintable(Magnitude(f, v), f.base, f.upper);
    hide Magnitude;
    if zeros <= 0 {
      assert Repeat('0', zeros) + Numeral(f, v) == Numeral(f, v);
    }
  }

  /** A field reads back as the number, whatever the base, the width and the padding, and is as long
      as the width asks for or the text needs. */
  lemma FieldReadsBack(f: Format, v: u32)
    requires f.Ok()
    ensures ReadField(Field(f, v), f.base) == Number(f, v)
    ensures var text := |Sign(f, v)| + |Numeral(f, v)|;
      |Field(f, v)| == if f.width > text then f.width else text
  {
    hide Digits, Decode, ReadField, Magnitude;
    if f.leadingZero {
      SignedText(f, v, Padding(f, v));
      assert Field(f, v) == Sign(f, v) + (Repeat('0', Padding(f, v)) + Numeral(f, v));
    } else {
      var text := Sign(f, v) + Numeral(f, v);
      SignedText(f, v, 0);
      assert Repeat('0', 0) + Numeral(f, v) == Numeral(f, v);
      BlanksAreSkipped(Padding(f, v), text, f.base);
      assert Field(f, v) == Repeat(' ', Padding(f, v)) + text;
    }
  }

  /** Zeros are put behind the sign, so that no blank is printed; blanks are put in front of it, and
      then the digits start with no zero but that of 0. */
  lemma PaddingIsPlaced(f: Format, v: u32)
    requires f.Ok()
    ensures f.leadingZero ==> ' ' !in Field(f, v) && (Field(f, v)[0] == '-' <==> Negative(f, v))
    ensures !f.leadingZero ==>
      var s, p := Field(f, v), |Field(f, v)| - |Sign(f, v)| - |Numeral(f, v)|;
      && p >= 0 && (forall i :: 0 <= i < p ==> s[i] == ' ')
      && (s[p] == '-' <==> Negative(f, v))
      && (s[p + |Sign(f, v)|] == '0' ==> Number(f, v) == 0)
  {
    DigitsPrintable(Magnitude(f, v), f.base, f.upper);
    if Magnitude(f, v) > 0 {
      NoLeadingZero(Magnitude(f, v), f.base, f.upper);
    }
    SignOf(f, v);
    hide Digits;
  }

  // ---------------------------------------------------------------- place values

  function Pow(base: nat, k: nat): nat {
    if k == 0 then 1 else base * Pow(base, k - 1)
  }

  lemma {:induction false} PowPositive(base: nat, k: nat)
    requires base > 0
    ensures Pow(base, k) > 0
  {
    if k > 0 {
      PowPositive(base, k - 1);
    }
  }

  /** The last `k` digits, leading zeros included. */
  function Places(v: nat, k: nat, base: nat, upper: bool): (s: string)
    requires 2 <= base <= 16
    ensures |s| == k
  {
    if k == 0 then "" else Places(v / base, k - 1, base, upper) + [DigitChar(v % base, upper)]
  }

  lemma {:induction false} DigitsArePlaces(v: nat, base: nat, upper: bool)
    requires 2 <= base <= 16
    ensures Digits(v, base, upper) == Places(v, |Digits(v, base, upper)|, base, upper)
  {
    hide DigitChar;
    if v >= base {
      DivSmaller(v, base);
      DigitsArePlaces(v / base, base, upper);
    } else {
      assert Places(v / base, 0, base, upper) == "";
    }
  }

  lemma PlaceBounds(v: nat, k: nat, base: nat)
    requires base >= 2 && v < Pow(base, k + 1)
    ensures Pow(base, k) > 0 && v / Pow(base, k) < base && v % Pow(base, k) < Pow(base, k)
  {
    PowPositive(base, k);
    ShrinksBelow(v, Pow(base, k), base) by { assert Pow(base, k) * base == base * Pow(base, k); }
  }

  /** The first of `k + 1` digits is the quotient by the place value, the others are the remainder's. */
  lemma {:induction false} FirstDigit(v: nat, k: nat, base: nat, upper: bool, q: nat, r: nat)
    requires 2 <= base <= 16 && v == q * Pow(base, k) + r && q < base && r < Pow(base, k)
    ensures Places(v, k + 1, base, upper) == [DigitChar(q, upper)] + Places(r, k, base, upper)
    decreases k
  {
    hide DigitChar;
    if k == 0 {
      DivModUnique(v, base, 0, v);
      assert Places(v / base, 0, base, upper) == "" == Places(r, 0, base, upper);
    } else {
      var p := Pow(base, k - 1);
      LastDigitOff(v, base, q, p, r);
      FirstDigit(v / base, k - 1, base, upper, q, r / base);
    }
  }

  /** Dividing by the base drops the last digit of the remainder. */
  lemma LastDigitOff(v: nat, base: nat, q: nat, p: nat, r: nat)
    requires base > 0 && v == q * (base * p) + r && r < base * p
    ensures v / base == q * p + r / base && v % base == r % base && 0 <= r / base < p
  {
    var t, d := r / base, r % base;
    QuotientAndDigit(r, base);
    ShrinksBelow(r, base, p);
    LastDigitParts(v, base, q, p, t, d);
  }

  lemma LastDigitParts(v: nat, base: nat, q: nat, p: nat, t: nat, d: nat)
    requires base > 0 && v == q * (base * p) + (t * base + d) && d < base
    ensures v / base == q * p + t && v % base == d
  {
    Regroup(q, p, t, base);
    DivModUnique(v, base, q * p + t, d);
  }

  lemma ShrinksBelow(v: nat, base: nat, p: nat)
    requires base > 0 && v < base * p
    ensures v / base < p
  {
    QuotientAndDigit(v, base);
    if v / base > p {
      MulGap(p, v / base, base);
    }
  }

  /** Where the digit count of `v` has got to: `p` is the place value of the digit counted last,
      `shrink` the number that is left above it. */
  ghost predicate Counted(v: nat, base: nat, count: nat, p: nat, shrink: nat)
    requires 2 <= base <= 16
  {
    && count > 0 && p > 0 && p == Pow(base, count - 1) && (p <= v || p == 1) && shrink == v / p
    && forall upper :: |Digits(shrink, base, upper)| + count == |Digits(v, base, upper)| + 1
  }

  lemma CountStarts(v: nat, base: nat)
    requires 2 <= base <= 16
    ensures Counted(v, base, 1, 1, v)
  {
    DivModUnique(v, 1, v, 0);
  }

  lemma CountGoesOn(v: nat, base: nat, count: nat, p: nat, shrink: nat)
    requires 2 <= base <= 16 && Counted(v, base, count, p, shrink) && shrink / base > 0
    ensures p * base > 0 && 0 <= shrink / base < shrink
    ensures Counted(v, base, count + 1, p * base, shrink / base)
  {
    CountShrinks(shrink, base);
    CountRound(v, base, count, p);
    hide Digits;
  }

  lemma CountEnds(v: nat, base: nat, count: nat, p: nat, shrink: nat)
    requires 2 <= base <= 16 && Counted(v, base, count, p, shrink) && shrink / base == 0
    ensures count > 0 && p == Pow(base, count - 1) && v < Pow(base, count) && (p <= v || p == 1)
    ensures forall upper :: |Digits(v, base, upper)| == count
  {
    LastPlace(v, base, p);
    CountShrinks(shrink, base);
    hide Digits;
  }

  /** One round of the digit count. */
  lemma CountRound(v: nat, base: nat, count: nat, p: nat)
    requires base >= 2 && count > 0 && p > 0 && p == Pow(base, count - 1) && v / p / base > 0
    ensures p * base == Pow(base, count) && 0 < p * base <= v && v / (p * base) == v / p / base
  {
    Nested(v, p, base);
    AtLeastDivisor(v, p * base);
  }

  lemma AtLeastDivisor(v: nat, d: nat)
    requires d > 0 && v / d > 0
    ensures d <= v
  {
    QuotientAndDigit(v, d);
    MulGap(0, v / d, d);
  }

  // ---------------------------------------------------------------- the log printer

  lemma PaddingJoins(text: string, f: Format, v: u32)
    requires f.Ok()
    ensures text + "" == text
    ensures f.leadingZero ==>
      text + Sign(f, v) + Repeat('0', Padding(f, v)) + Numeral(f, v) == text + Field(f, v)
    ensures !f.leadingZero ==>
      text + Repeat(' ', Padding(f, v)) + Sign(f, v) + Numeral(f, v) == text + Field(f, v)
  {
    hide Digits, Magnitude, Repeat, Numeral, Sign;
  }

  /** The device that the characters are sent to. */
  class Console {
    var text: string

    constructor ()
      ensures text == ""
    {
      text := "";
    }

    method PutChar(c: char)
      modifies this
      ensures text == old(text) + [c]
    {
      text := text + [c];
    }

    method PutText(s: string)
      modifies this
      ensures text == old(text) + s
    {
      var i := 0;
      while i < |s|
        invariant 0 <= i <= |s| && text == old(text) + s[..i]
      {
        PutChar(s[i]);
        i := i + 1;
      }
    }

    method RepeatChar(c: char, times: int)
      modifies this
      ensures text == old(text) + Repeat(c, times)
    {
      var r := times;
      while r > 0
        invariant text == old(text) + Repeat(c, times - if r > 0 then r else 0)
        decreases r
      {
        r := r - 1;
        PutChar(c);
      }
    }

    method PrintPadding(f: Format, v: u32, digitCount: nat)
      requires f.Ok() && digitCount == |Numeral(f, v)|
      modifies this
      ensures text + Numeral(f, v) == old(text) + Field(f, v)
    {
      hide Digits, Magnitude, Repeat;
      PaddingJoins(text, f, v);
      var width := f.width - digitCount;
      if f.leadingZero {
        if Negative(f, v) {
          PutChar('-');
          width := width - 1;
        }
        RepeatChar('0', width);
      } else {
        if Negative(f, v) {
          width := width - 1;
        }
        RepeatChar(' ', width);
        if Negative(f, v) {
          PutChar('-');
        }
      }
    }

    method PutDigit(quotient: nat, upper: bool)
      requires quotient < 16
      modifies this
      ensures text == old(text) + [DigitChar(quotient, upper)]
    {
      var d := quotient + '0' as nat;
      if d > '9' as nat {
        d := d + (if upper then 'A' else 'a') as nat - '0' as nat - 10;
      }
      PutChar(d as char);
    }

    /** Prints the digits from the largest place value down. */
    method PrintDigits(v0: u32, p0: nat, count: nat, base: nat, upper: bool)
      requires 2 <= base <= 16 && count > 0 && p0 == Pow(base, count - 1) && v0 < Pow(base, count)
      modifies this
      ensures text == old(text) + Places(v0, count, base, upper)
    {
      hide Places, DigitChar, Pow;
      var v: nat, p: nat := v0, p0;
      PowPositive(base, count - 1);
      ghost var k := count;
      while p != 0
        invariant p == if k == 0 then 0 else Pow(base, k - 1)
        invariant v < Pow(base, k)
        invariant text + Places(v, k, base, upper) == old(text) + Places(v0, count, base, upper)
        decreases k
      {
        PlaceBounds(v, k - 1, base);
        FirstDigit(v, k - 1, base, upper, v / p, v % p);
        ghost var before, rest := text, Places(v % p, k - 1, base, upper);
        PutDigit(v / p, upper);
        assert text + rest == before + ([DigitChar(v / p, upper)] + rest);
        v := v % p;
        NextPlace(base, k);
        p := p / base;
        k := k - 1;
      }
      if k > 0 {
        PowPositive(base, k - 1);
      }
      assert Places(v, k, base, upper) == "";
    }

    /** Counts the digits; the largest place value comes with the count. */
    method CountDigits(v: u32, base: nat) returns (digitCount: nat, p: nat)
      requires 2 <= base <= 16
      ensures digitCount > 0 && p == Pow(base, digitCount - 1) && v < Pow(base, digitCount)
      ensures p < TWO_32
      ensures forall upper :: |Digits(v, base, upper)| == digitCount
    {
      hide Counted, Digits, Pow;
      var vShrink: nat := v;
      p, digitCount := 1, 1;
      CountStarts(v, base);
      while vShrink / base > 0
        invariant Counted(v, base, digitCount, p, vShrink)
        decreases vShrink
      {
        CountGoesOn(v, base, digitCount, p, vShrink);
        vShrink := vShrink / base;
        digitCount := digitCount + 1;
        p := p * base;
      }
      CountEnds(v, base, digitCount, p, vShrink);
    }

    /** Prints an integer argument. */
    method PrintInteger(f: Format, v0: u32)
      requires f.Ok()
      modifies this
      ensures text == old(text) + Field(f, v0)
    {
      var v := v0;
      if f.signed && v >= 0x8000_0000 {
        v := Wrap(TWO_32 - 1 - v + 1);
      }
      assert v == Magnitude(f, v0);
      var digitCount, p := CountDigits(v, f.base);
      PrintPadding(f, v0, digitCount);
      DigitsArePlaces(v, f.base, f.upper);
      PrintDigits(v, p, digitCount, f.base, f.upper);
    }

    /** Prints a word in hexadecimal by shifting and masking. */
    method PrintHex(v: word)
      modifies this
      ensures text == old(text) + Field(PLAIN_HEX, WordValue(v))
    {
      PlainHexIsDigits(WordValue(v));
      if v == 0 {
        ZeroIsZero();
        PutChar('0');
        return;
      }
      hide Digits, Places, Masked, Extract, Low, Value, DigitChar, Field, Pow;
      var digitShift := 28;
      NonZeroValue(v, 8);
      while Masked(v, digitShift) == 0
        invariant text == old(text)
        invariant IsShift(digitShift) && Value(v, 8) == Value(v, digitShift / 4 + 1) > 0
        decreases digitShift
      {
        SkipNibble(v, digitShift);
        digitShift := digitShift - 4;
      }
      LeadingNibble(v, digitShift);
      PrintNibbles(v, digitShift);
    }

    method PrintNibbles(v: word, shift: int)
      requires IsShift(shift)
      modifies this
      ensures text == old(text) + Places(Value(v, shift / 4 + 1), shift / 4 + 1, 16, false)
    {
      hide Masked, Extract, Low, Value, DigitChar, Pow, Places;
      var digitShift := shift;
      ghost var all := Places(Value(v, shift / 4 + 1), shift / 4 + 1, 16, false);
      while digitShift >= 0
        invariant digitShift == -4 || IsShift(digitShift)
        invariant text + Places(Value(v, digitShift / 4 + 1), digitShift / 4 + 1, 16, false) == old(text) + all
        decreases digitShift
      {
        NibbleIsDigit(v, digitShift);
        ghost var before, rest := text, Places(Value(v, digitShift / 4), digitShift / 4, 16, false);
        var digit := Extract(v, digitShift);
        PutNibble(digit);
        assert text + rest == before + ([DigitChar(Low(digit), false)] + rest);
        digitShift := digitShift - 4;
      }
      assert Places(Value(v, 0), 0, 16, false) == "";
    }

    method PutNibble(digit: word)
      requires digit <= 15
      modifies this
      ensures Low(digit) < 16 && text == old(text) + [DigitChar(Low(digit), false)]
    {
      LowBound(digit);
      hide Low;
      var c := if digit <= 9 then '0' + Low(digit) as char else 'a' + (Low(digit) - 10) as char;
      PutChar(c);
    }
  }

  lemma ZeroIsZero()
    ensures Digits(WordValue(0), 16, false) == "0"
  {
    ValueOfZero(8);
  }

  lemma {:induction false} ValueOfZero(k: nat)
    ensures Value(0, k) == 0
  {
    if k > 0 {
      ValueOfZero(k - 1);
    }
  }

  lemma SkipNibble(w: word, shift: int)
    requires IsShift(shift) && Masked(w, shift) == 0 && Value(w, shift / 4 + 1) > 0
    ensures shift >= 4 && Value(w, shift / 4 + 1) == Value(w, (shift - 4) / 4 + 1)
  {
    hide Low, Extract, Masked;
    NibbleBound(w, shift);
    TopNibble(w, shift / 4);
  }

  /** Once the leading zeros are skipped, the groups left are the digits. */
  lemma LeadingNibble(w: word, shift: int)
    requires IsShift(shift) && Masked(w, shift) != 0 && Value(w, 8) == Value(w, shift / 4 + 1)
    ensures var k := shift / 4 + 1; Digits(WordValue(w), 16, false) == Places(Value(w, k), k, 16, false)
  {
    hide Low, Extract, Masked, Digits, Places, Pow, Value, Nibble;
    var k := shift / 4;
    NibbleBound(w, shift);
    TopNibble(w, k);
    ValueBound(w, k + 1);
    AtLeastPower(Nibble(w, shift), Pow(16, k), Value(w, k));
    DigitCount(Value(w, 8), k, 16, false);
    DigitsArePlaces(Value(w, 8), 16, false);
  }

  lemma AtLeastPower(n: nat, p: nat, v: nat)
    requires n > 0
    ensures n * p + v >= p
  {
    MulGap(0, n, p);
  }

  lemma NibbleIsDigit(w: word, shift: int)
    requires IsShift(shift)
    ensures Extract(w, shift) <= 15 && Nibble(w, shift) < 16
    ensures var k := shift / 4;
      Places(Value(w, k + 1), k + 1, 16, false) ==
        [DigitChar(Nibble(w, shift), false)] + Places(Value(w, k), k, 16, false)
  {
    ExtractSmall(w, shift);
    hide Low, Extract, Masked, Places, DigitChar, Pow;
    var k := shift / 4;
    NibbleBound(w, shift);
    TopNibble(w, k);
    ValueBound(w, k);
    FirstDigit(Value(w, k + 1), k, 16, false, Nibble(w, shift), Value(w, k));
  }

  lemma NextPlace(base: nat, k: nat)
    requires base >= 2 && k > 0
    ensures Pow(base, k - 1) / base == if k == 1 then 0 else Pow(base, k - 2)
  {
    if k > 1 {
      assert Pow(base, k - 1) == Pow(base, k - 2) * base;
      DivModUnique(Pow(base, k - 1), base, Pow(base, k - 2), 0);
    }
  }

  lemma CountShrinks(v: nat, base: nat)
    requires 2 <= base <= 16
    ensures v / base > 0 <==> v >= base
    ensures v / base > 0 ==> v / base < v
    ensures forall upper :: |Digits(v, base, upper)| == 1 + if v >= base then |Digits(v / base, base, upper)| else 0
  {
    DivSmaller(v, base);
    if v < base {
      DivModUnique(v, base, 0, v);
    }
  }

  lemma LastPlace(v: nat, base: nat, p: nat)
    requires base > 0 && p > 0 && v / p / base == 0
    ensures v < p * base && v < base * p
  {
    Nested(v, p, base);
    assert v == v / (p * base) * (p * base) + v % (p * base);
  }

  // ---------------------------------------------------------------- the small printer

  type word = bv32

  /** The value of the low four bits. */
  function Low(w: word): nat {
    (if w & 8 != 0 then 8 else 0) + (if w & 4 != 0 then 4 else 0) +
    (if w & 2 != 0 then 2 else 0) + (if w & 1 != 0 then 1 else 0)
  }

  /** The value of the low `k` groups of four bits. */
  function Value(w: word, k: nat): nat {
    if k == 0 then 0 else Value(w >> 4, k - 1) * 16 + Low(w)
  }

  predicate IsShift(shift: int) {
    0 <= shift <= 28 && shift % 4 == 0
  }

  function Masked(w: word, shift: int): word
    requires IsShift(shift)
  {
    match shift
    case 0 => w & 0xF
    case 4 => w & (0xF << 4)
    case 8 => w & (0xF << 8)
    case 12 => w & (0xF << 12)
    case 16 => w & (0xF << 16)
    case 20 => w & (0xF << 20)
    case 24 => w & (0xF << 24)
    case 28 => w & (0xF << 28)
  }

  function Extract(w: word, shift: int): word
    requires IsShift(shift)
  {
    match shift
    case 0 => Masked(w, 0)
    case 4 => Masked(w, 4) >> 4
    case 8 => Masked(w, 8) >> 8
    case 12 => Masked(w, 12) >> 12
    case 16 => Masked(w, 16) >> 16
    case 20 => Masked(w, 20) >> 20
    case 24 => Masked(w, 24) >> 24
    case 28 => Masked(w, 28) >> 28
  }

  function Nibble(w: word, shift: int): nat
    requires IsShift(shift)
  {
    Low(Extract(w, shift))
  }

  lemma LowBound(w: word)
    ensures Low(w) < 16 && (Low(w) == 0 <==> w & 0xF == 0)
    ensures Low(w & 0xF) == Low(w)
    ensures w <= 15 ==> (Low(w) <= 9 <==> w <= 9)
  {
  }

  lemma ExtractShifted(w: word, shift: int)
    requires IsShift(shift) && shift >= 4
    ensures Extract(w, shift) == Extract(w >> 4, shift - 4)
  {
    hide Low, IsShift;
    match shift {
      case 4 =>
      case 8 =>
      case 12 =>
      case 16 =>
      case 20 =>
      case 24 =>
      case 28 =>
      case _ => assert false by { NoOtherShift(shift); }
    }
  }

  lemma NoOtherShift(shift: int)
    requires IsShift(shift)
    ensures shift == 0 || shift == 4 || shift == 8 || shift == 12 ||
      shift == 16 || shift == 20 || shift == 24 || shift == 28
  {
  }

  lemma ExtractSmall(w: word, shift: int)
    requires IsShift(shift)
    ensures Extract(w, shift) <= 15
    ensures Masked(w, shift) == 0 <==> Extract(w, shift) == 0
  {
    hide Low, IsShift;
    match shift {
      case 0 =>
      case 4 =>
      case 8 =>
      case 12 =>
      case 16 =>
      case 20 =>
      case 24 =>
      case 28 =>
      case _ => assert false by { NoOtherShift(shift); }
    }
  }

  lemma NibbleBound(w: word, shift: int)
    requires IsShift(shift)
    ensures Nibble(w, shift) < 16
    ensures Masked(w, shift) == 0 <==> Nibble(w, shift) == 0
  {
    ExtractSmall(w, shift);
    var e := Extract(w, shift);
    hide Extract, Masked;
    LowBound(e);
    assert e <= 15 ==> e & 0xF == e;
  }

  lemma {:induction false} ValueBound(w: word, k: nat)
    ensures Value(w, k) < Pow(16, k)
  {
    if k > 0 {
      ValueBound(w >> 4, k - 1);
      LowBound(w);
    }
  }

  /** The topmost group is the first digit in base 16. */
  lemma {:induction false} TopNibble(w: word, k: nat)
    requires k < 8
    ensures Value(w, k + 1) == Nibble(w, 4 * k) * Pow(16, k) + Value(w, k)
  {
    if k == 0 {
      LowBound(w);
      assert Extract(w, 0) == w & 0xF;
    } else {
      TopNibble(w >> 4, k - 1);
      ExtractShifted(w, 4 * k);
      var n, p, v := Nibble(w, 4 * k), Pow(16, k - 1), Value(w >> 4, k - 1);
      assert Value(w, k + 1) == (n * p + v) * 16 + Low(w);
      Regroup(n, p, v, 16);
    }
  }

  predicate Within(w: word, k: nat)
    requires k <= 8
  {
    match k
    case 0 => w == 0
    case 1 => w <= 0xF
    case 2 => w <= 0xFF
    case 3 => w <= 0xFFF
    case 4 => w <= 0xFFFF
    case 5 => w <= 0xF_FFFF
    case 6 => w <= 0xFF_FFFF
    case 7 => w <= 0xFFF_FFFF
    case 8 => true
  }

  lemma {:induction false} NonZeroValue(w: word, k: nat)
    requires k <= 8 && w != 0 && Within(w, k)
    ensures Value(w, k) > 0
  {
    LowBound(w);
    if w & 0xF == 0 {
      NonZeroHigh(w, k);
      NonZeroValue(w >> 4, k - 1);
    }
  }

  lemma NonZeroHigh(w: word, k: nat)
    requires k <= 8 && w != 0 && Within(w, k) && w & 0xF == 0
    ensures k > 0 && w >> 4 != 0 && Within(w >> 4, k - 1)
  {
  }

  lemma {:induction false} DigitCount(v: nat, k: nat, base: nat, upper: bool)
    requires 2 <= base <= 16 && Pow(base, k) <= v < Pow(base, k + 1)
    ensures |Digits(v, base, upper)| == k + 1
  {
    if k > 0 {
      var p := Pow(base, k - 1);
      PowPositive(base, k - 1);
      ShrinksBelow(v, base, base * p);
      StaysAbove(v, base, p);
      DigitCount(v / base, k - 1, base, upper);
      MulGap(0, p, base);
      MulGap(1, p + 1, base);
    }
  }

  lemma StaysAbove(v: nat, base: nat, p: nat)
    requires base > 0 && base * p <= v
    ensures p <= v / base
  {
    QuotientAndDigit(v, base);
    if v / base < p {
      MulGap(v / base, p, base);
    }
  }

  const PLAIN_HEX := Format(16, false, false, false, -1)

  lemma PlainHexIsDigits(v: u32)
    ensures Field(PLAIN_HEX, v) == Digits(v, 16, false)
  {
    hide Digits;
    assert "" + "" + Digits(v, 16, false) == Digits(v, 16, false);
  }

  /** The value of a whole word */
  function WordValue(w: word): u32 {
    ValueBound(w, 8);
    PowerOfWord();
    Value(w, 8)
  }

  lemma PowerOfWord()
    ensures Pow(16, 8) == TWO_32
  {
    assert Pow(16, 4) == 0x10000;
  }
}
