/** Laws of strtol and of printed numbers: which text writes a number, and how each character is read (string.c,
    printfmt.c). */
module Numerals {
  import opened Basics
  import opened Division
  import opened Printing
  import opened Parsing
  import opened RoundTrip

  // ------------------------------------------------------------------ which text is printed

  /** The one spelling of a number: digits of the base, the letters small, no leading zero. */
  ghost predicate Numeral(t: seq<char>, num: nat, base: nat) {
    && t != [] && AllDigits(t, base) && Value(t, base) == num && (t[0] == '0' ==> |t| == 1)
    && forall i :: 0 <= i < |t| ==> '0' <= t[i] <= '9' || 'a' <= t[i] <= 'f'
  }

  lemma DigitSpelling(c: char, d: nat)
    requires d < 16 && ('0' <= c <= '9' || 'a' <= c <= 'f')
    ensures DigitValue(c) == d <==> c == DIGITS[d]
  {
  }

  lemma {:induction false} DigitsSmall(num: nat, base: nat)
    requires 1 < base <= 16
    ensures forall i :: 0 <= i < |Digits(num, base)| ==>
      '0' <= Digits(num, base)[i] <= '9' || 'a' <= Digits(num, base)[i] <= 'f'
    decreases num
  {
    hide Quot, Rem;
    if num >= base {
      SmallerQuotient(num, base);
      DigitsSmall(Quot(num, base), base);
    }
  }

  lemma {:induction false} DigitsHead(num: nat, base: nat)
    requires 1 < base <= 16
    ensures Digits(num, base)[0] == '0' ==> |Digits(num, base)| == 1
  {
    DigitsWriteNumber(num, base);
  }

  /** What is printed for a number is its one spelling. */
  lemma {:induction false} DigitsIff(t: seq<char>, num: nat, base: nat)
    requires 1 < base <= 16
    ensures Numeral(t, num, base) <==> t == Digits(num, base)
    decreases |t|
  {
    DigitsWriteNumber(num, base);
    DigitsSmall(num, base);
    DigitsHead(num, base);
    if Numeral(t, num, base) { OneSpelling(t, num, base); }
  }

  lemma {:induction false} OneSpelling(t: seq<char>, num: nat, base: nat)
    requires 1 < base <= 16 && Numeral(t, num, base)
    ensures t == Digits(num, base)
    decreases |t|
  {
    hide Quot, Rem, DigitValue, Value, Numeral;
    var m := |t| - 1;
    LastDigit(t, num, base);
    if m > 0 {
      FrontIsNumeral(t, num, base);
      OneSpelling(t[..m], Quot(num, base), base);
      assert t == t[..m] + [t[m]];
    }
  }

  lemma LastDigit(t: seq<char>, num: nat, base: nat)
    requires 1 < base <= 16 && Numeral(t, num, base)
    ensures t != [] && t[|t| - 1] == DIGITS[Rem(num, base)] && (|t| == 1 ==> num < base && t == [DIGITS[num]])
  {
    hide Quot, Rem, DigitValue;
    var m := |t| - 1;
    assert IsDigit(t[m], base);
    QuotientIs(num, ValueNat(t[..m], base), DigitValue(t[m]), base);
    DigitSpelling(t[m], DigitValue(t[m]));
    assert m == 0 ==> t[..m] == [];
  }

  lemma FrontIsNumeral(t: seq<char>, num: nat, base: nat)
    requires 1 < base <= 16 && Numeral(t, num, base) && |t| > 1
    ensures num >= base && Numeral(t[..|t| - 1], Quot(num, base), base)
  {
    hide Quot, Rem, DigitValue;
    var m := |t| - 1;
    assert IsDigit(t[m], base);
    var q := ValueNat(t[..m], base);
    HeadCounts(t[..m], base);
    AtLeastBase(q, base);
    QuotientIs(num, q, DigitValue(t[m]), base);
  }

  lemma AtLeastBase(q: nat, base: nat)
    requires q > 0
    ensures q * base >= base
  {
  }

  /** The value of digits is no negative number. */
  function ValueNat(t: seq<char>, base: nat): (v: nat)
    requires AllDigits(t, base)
    ensures v == Value(t, base)
  {
    if t == [] then 0 else
    assert IsDigit(t[|t| - 1], base);
    ValueNat(t[..|t| - 1], base) * base + DigitValue(t[|t| - 1])
  }

  /** Digits without a leading zero write a positive number. */
  lemma {:induction false} HeadCounts(t: seq<char>, base: nat)
    requires 1 < base && t != [] && AllDigits(t, base) && t[0] != '0'
    ensures Value(t, base) > 0
    decreases |t|
  {
    assert IsDigit(t[|t| - 1], base);
    if |t| > 1 { HeadCounts(t[..|t| - 1], base); }
  }

  /** What printnum prints: just so much padding that it fills the width, then the one spelling of the number. */
  lemma PrintedText(num: nat, base: nat, width: int, padc: char) returns (pads: nat)
    requires 1 < base <= 16
    ensures var s := Printed(num, base, width, padc);
      && pads < |s| && (forall i :: 0 <= i < pads ==> s[i] == padc) && Numeral(s[pads..], num, base)
      && |s| >= width && (pads > 0 ==> |s| == width)
  {
    var s := Printed(num, base, width, padc);
    pads := Pads(|Digits(num, base)|, width);
    assert s[pads..] == Digits(num, base);
    DigitsIff(Digits(num, base), num, base);
  }

  /** What %d prints for any number: a sign exactly if it is negative, then the magnitude, padded after the sign. */
  lemma DecimalText(n: int, width: int, padc: char) returns (sign: nat, pads: nat)
    ensures var s := Decimal(n, width, padc);
      && sign + pads < |s| && sign == (if n < 0 then 1 else 0) && (n < 0 ==> s[0] == '-')
      && (forall i :: sign <= i < sign + pads ==> s[i] == padc)
      && Numeral(s[sign + pads..], if n < 0 then -n else n, 10)
      && |s| - sign >= width && (pads > 0 ==> |s| - sign == width)
  {
    hide Printed, Numeral;
    var t := Printed(if n < 0 then -n else n, 10, width, padc);
    sign := if n < 0 then 1 else 0;
    pads := PrintedText(if n < 0 then -n else n, 10, width, padc);
    assert n < 0 ==> Decimal(n, width, padc)[sign + pads..] == t[pads..];
  }

  // ------------------------------------------------------------------ how each character is read

  const LETTERS := "0123456789abcdefghijklmnopqrstuvwxyz"

  function Upper(c: char): char { if 'a' <= c <= 'z' then c - 'a' + 'A' else c }

  function UpperAll(s: seq<char>): (t: seq<char>)
    ensures |t| == |s| && forall i :: 0 <= i < |s| ==> t[i] == Upper(s[i])
  {
    seq(|s|, i requires 0 <= i < |s| => Upper(s[i]))
  }

  lemma LetterAt(d: nat)
    requires d < 36
    ensures LETTERS[d] as int == if d < 10 then '0' as int + d else 'a' as int + d - 10
  {
  }

  lemma DigitValueIff(c: char, d: nat)
    requires d < 36
    ensures DigitValue(c) == d <==> c == LETTERS[d] || c == Upper(LETTERS[d])
  {
    LetterAt(d);
  }

  lemma OneCharacter(c: char, base: int)
    requires base > 0
    ensures IsDigit(c, base) ==> Parse([c], base) == (Long(DigitValue(c)), 1)
    ensures !IsDigit(c, base) && !Blank(c) && c != '+' && c != '-' ==> Parse([c], base) == (0, 0)
  {
    hide Long;
    LongFixed(0);
    var s := [c];
    if IsDigit(c, base) {
      assert s[0..] == s && s[..0] == [];
      AllRead(s, base);
    } else if !Blank(c) && c != '+' && c != '-' {
      assert SkipBlanks(s, 0) == 0 && RunEnd(s, 0, base) == 0 && s[0..0] == [];
    }
  }

  /** A base from 2 to 36 accepts exactly the first so many of 0-9a-z, small or capital, worth their positions. */
  lemma BaseAccepts(c: char, base: nat)
    requires 2 <= base <= 36 && !Blank(c) && c != '+' && c != '-'
    ensures forall d: nat :: d < base && (c == LETTERS[d] || c == Upper(LETTERS[d])) ==> Parse([c], base) == (d, 1)
    ensures (forall d: nat :: d < base ==> c != LETTERS[d] && c != Upper(LETTERS[d])) ==> Parse([c], base) == (0, 0)
  {
    hide Long, Parse, DigitValue;
    OneCharacter(c, base);
    forall d: nat | d < base ensures DigitValue(c) == d <==> c == LETTERS[d] || c == Upper(LETTERS[d]) {
      DigitValueIff(c, d);
    }
    if IsDigit(c, base) {
      LongFixed(DigitValue(c));
      var d: nat := DigitValue(c);
      assert c == LETTERS[d] || c == Upper(LETTERS[d]);
    }
  }

  /** In every base, digits alone are read to the end. */
  lemma AllRead(s: seq<char>, base: int)
    requires s != [] && base > 0 && AllDigits(s, base)
    ensures Parse(s, base) == (Long(Value(s, base)), |s|)
  {
    hide Value;
    assert s[0..] == s;
    BlanksThenDigits(s, 0, base);
  }

  /** One digit more, in any base: the value so far times the base, plus the digit. */
  lemma DigitAppended(s: seq<char>, c: char, base: int)
    requires s != [] && base > 0 && AllDigits(s, base) && IsDigit(c, base)
    ensures Parse(s + [c], base) == (Long(Parse(s, base).0 * base + DigitValue(c)), |s| + 1)
  {
    hide Long, Parse;
    var t := s + [c];
    assert t[..|t| - 1] == s;
    AllRead(s, base);
    AllRead(t, base);
    LongStep(Value(s, base), base, DigitValue(c));
  }

  /** What follows the digits is not read. */
  lemma TailIgnored(s: seq<char>, t: seq<char>, base: int)
    requires s != [] && base > 0 && AllDigits(s, base) && t != [] && !IsDigit(t[0], base)
    requires !(base == 16 && s == "0" && t[0] == 'x')
    ensures Parse(s + t, base) == Parse(s, base)
  {
    hide Long, Value;
    AllRead(s, base);
    var u := s + t;
    assert IsDigit(u[0], base);
    assert SkipBlanks(u, 0) == 0;
    assert |s| > 1 ==> IsDigit(u[1], base);
    assert Prefix(u, 0, base) == (0, base);
    assert RunEnd(u, 0, base) == |s| by { assert forall i :: 0 <= i < |s| ==> IsDigit(u[i], base); }
    assert u[0..|s|] == s;
  }

  // ------------------------------------------------------------------ blanks and signs

  lemma {:induction false} RunShifts(c: char, s: seq<char>, i: nat, base: int)
    requires i <= |s|
    ensures RunEnd([c] + s, i + 1, base) == RunEnd(s, i, base) + 1
    decreases |s| - i
  {
    assert At([c] + s, i + 1) == At(s, i);
    if IsDigit(At(s, i), base) { RunShifts(c, s, i + 1, base); }
  }

  lemma PrefixShifts(c: char, s: seq<char>, i: nat, base: int)
    requires i <= |s|
    ensures Prefix([c] + s, i + 1, base) == Prefix(s, i, base)
  {
    assert At([c] + s, i + 1) == At(s, i) && At([c] + s, i + 2) == At(s, i + 1);
  }

  lemma UnsignedShifts(c: char, s: seq<char>, i: nat, base: int)
    requires i <= |s|
    ensures Unsigned([c] + s, i + 1, base) == (Unsigned(s, i, base).0, Unsigned(s, i, base).1 + 1)
  {
    hide Value, RunEnd, Prefix, AllDigits;
    var t := [c] + s;
    var (skip, radix) := Prefix(s, i, base);
    PrefixShifts(c, s, i, base);
    RunShifts(c, s, i + skip, radix);
    var e := RunEnd(s, i + skip, radix);
    assert t[i + 1 + skip..e + 1] == s[i + skip..e];
  }

  lemma {:induction false} BlanksShift(c: char, s: seq<char>, i: nat)
    requires i <= |s|
    ensures SkipBlanks([c] + s, i + 1) == SkipBlanks(s, i) + 1
    decreases |s| - i
  {
    assert At([c] + s, i + 1) == At(s, i);
    if Blank(At(s, i)) { BlanksShift(c, s, i + 1); }
  }

  /** A space or tab in front changes nothing but the end, in every base and before every string. */
  lemma BlankInFront(c: char, s: seq<char>, base: int)
    requires c == ' ' || c == '\t'
    ensures Parse([c] + s, base) == (Parse(s, base).0, Parse(s, base).1 + 1)
  {
    hide Long, Unsigned;
    BlanksShift(c, s, 0);
    var i := SkipBlanks(s, 0);
    assert At([c] + s, i + 1) == At(s, i);
    UnsignedShifts(c, s, if At(s, i) == '+' || At(s, i) == '-' then i + 1 else i, base);
  }

  /** A sign in front of what has no blank or sign: '+' changes nothing but the end, '-' negates as well. */
  lemma SignInFront(c: char, s: seq<char>, base: int)
    requires (c == '+' || c == '-') && !Blank(At(s, 0)) && At(s, 0) != '+' && At(s, 0) != '-'
    ensures Parse([c] + s, base) ==
      (if c == '-' then Long(-Parse(s, base).0) else Parse(s, base).0, Parse(s, base).1 + 1)
  {
    hide Long, Unsigned;
    assert SkipBlanks(s, 0) == 0 && SkipBlanks([c] + s, 0) == 0;
    UnsignedShifts(c, s, 0, base);
    LongNegated(Unsigned(s, 0, base).0);
  }

  /** After a sign neither a blank nor another sign is taken. */
  lemma SignOnce(c: char, s: seq<char>, base: int)
    requires (c == '+' || c == '-') && (Blank(At(s, 0)) || At(s, 0) == '+' || At(s, 0) == '-')
    ensures Parse([c] + s, base) == (0, 1)
  {
    var t := [c] + s;
    assert SkipBlanks(t, 0) == 0 && At(t, 1) == At(s, 0);
    var (skip, radix) := Prefix(t, 1, base);
    assert skip == 0 && RunEnd(t, 1, radix) == 1 && t[1..1] == [];
  }

  // ------------------------------------------------------------------ base 0 and capital letters

  /** Base 0 is base 16 before "0x", base 8 before any other '0', and base 10 otherwise, for every string. */
  lemma BaseZeroIs(s: seq<char>)
    requires !Blank(At(s, 0)) && At(s, 0) != '+' && At(s, 0) != '-'
    ensures Parse(s, 0) == Parse(s, if At(s, 0) != '0' then 10 else if At(s, 1) == 'x' then 16 else 8)
  {
    hide Long;
    assert SkipBlanks(s, 0) == 0;
    if At(s, 0) == '0' && At(s, 1) != 'x' {
      assert IsDigit(s[0], 8);
      var e := RunEnd(s, 1, 8);
      assert RunEnd(s, 0, 8) == e;
      assert s[0..e] == ['0'] + s[1..e] == Repeat('0', 1) + s[1..e];
      LeadingZeros(1, s[1..e], 8);
    }
  }

  /** In base 0, octal digits after a '0', hexadecimal ones after a "0x", and decimal ones alone are read back. */
  lemma BaseZeroReadsBack(num: nat)
    ensures Parse(['0'] + Digits(num, 8), 0) == (Long(num), 1 + |Digits(num, 8)|)
    ensures Parse(['0', 'x'] + Digits(num, 16), 0) == (Long(num), 2 + |Digits(num, 16)|)
    ensures Parse(Digits(num, 10), 0) == (Long(num), |Digits(num, 10)|)
  {
    hide Long, Parse, Digits, DigitValue;
    OctalReadsBack(num);
    DecimalReadsBack(num);
    DigitsWriteNumber(num, 16);
    PrefixReadIff('x', Digits(num, 16), 0);
  }

  lemma OctalReadsBack(num: nat)
    ensures Parse(['0'] + Digits(num, 8), 0) == (Long(num), 1 + |Digits(num, 8)|)
  {
    hide Long, Parse, Digits, Value;
    var digits := Digits(num, 8);
    var s := ['0'] + digits;
    DigitsWriteNumber(num, 8);
    assert s == Repeat('0', 1) + digits;
    LeadingZeros(1, digits, 8);
    assert IsDigit(s[1], 8);
    BaseZeroIs(s);
    AllRead(s, 8);
  }

  lemma DecimalReadsBack(num: nat)
    ensures Parse(Digits(num, 10), 0) == (Long(num), |Digits(num, 10)|)
  {
    hide Long, Parse, Digits, Value;
    var s := Digits(num, 10);
    DigitsWriteNumber(num, 10);
    DigitsIff(s, num, 10);
    assert IsDigit(s[0], 10);
    BaseZeroIs(s);
    AllRead(s, 10);
    if s[0] == '0' {
      assert s == "0";
      ZeroAlone(8);
      ZeroAlone(10);
      AllRead(s, 8);
    }
  }

  lemma ZeroAlone(base: int)
    requires base > 0
    ensures AllDigits("0", base) && Value("0", base) == 0
  {
    assert "0"[..0] == [];
  }

  lemma UpperSame(c: char, base: int)
    ensures DigitValue(Upper(c)) == DigitValue(c) && IsDigit(Upper(c), base) == IsDigit(c, base)
    ensures Blank(Upper(c)) == Blank(c) && Upper(c) != 'x'
    ensures (Upper(c) == '+' <==> c == '+') && (Upper(c) == '-' <==> c == '-') && (Upper(c) == '0' <==> c == '0')
  {
  }

  lemma {:induction false} UpperRun(s: seq<char>, i: nat, base: int)
    requires i <= |s|
    ensures RunEnd(UpperAll(s), i, base) == RunEnd(s, i, base)
    decreases |s| - i
  {
    hide Upper;
    assert i < |s| ==> At(UpperAll(s), i) == Upper(At(s, i));
    UpperSame(At(s, i), base);
    if IsDigit(At(s, i), base) { UpperRun(s, i + 1, base); }
  }

  lemma {:induction false} UpperBlanks(s: seq<char>, i: nat)
    requires i <= |s|
    ensures SkipBlanks(UpperAll(s), i) == SkipBlanks(s, i)
    decreases |s| - i
  {
    hide Upper;
    assert i < |s| ==> At(UpperAll(s), i) == Upper(At(s, i));
    UpperSame(At(s, i), 10);
    if Blank(At(s, i)) { UpperBlanks(s, i + 1); }
  }

  lemma {:induction false} UpperValue(s: seq<char>, base: int)
    requires AllDigits(s, base)
    ensures AllDigits(UpperAll(s), base) && Value(UpperAll(s), base) == Value(s, base)
    decreases |s|
  {
    hide Upper;
    forall i | 0 <= i < |s| ensures IsDigit(UpperAll(s)[i], base) { UpperSame(s[i], base); }
    if s != [] {
      var m := |s| - 1;
      UpperValue(s[..m], base);
      UpperSame(s[m], base);
      assert UpperAll(s)[..m] == UpperAll(s[..m]);
    }
  }

  lemma UpperPrefixed(s: seq<char>, i: nat, base: int)
    requires i <= |s| && (base == 0 || base == 16 ==> 'x' !in s)
    ensures Prefix(UpperAll(s), i, base) == Prefix(s, i, base)
  {
    hide Upper, UpperAll;
    UpperSame(At(s, i), base);
    UpperSame(At(s, i + 1), base);
  }

  lemma UpperUnsigned(s: seq<char>, i: nat, base: int)
    requires i <= |s| && (base == 0 || base == 16 ==> 'x' !in s)
    ensures Unsigned(UpperAll(s), i, base) == Unsigned(s, i, base)
  {
    hide Upper, Value, UpperAll, RunEnd, Prefix, AllDigits;
    var t := UpperAll(s);
    var (skip, radix) := Prefix(s, i, base);
    UpperPrefixed(s, i, base);
    UpperRun(s, i + skip, radix);
    var e := RunEnd(s, i + skip, radix);
    UpperValue(s[i + skip..e], radix);
    assert t[i + skip..e] == UpperAll(s[i + skip..e]);
  }

  /** Capital letters are read as small ones, in every string that holds no small 'x' where a prefix may stand. */
  lemma UpperReadsAlike(s: seq<char>, base: int)
    requires base == 0 || base == 16 ==> 'x' !in s
    ensures Parse(UpperAll(s), base) == Parse(s, base)
  {
    hide Long, Unsigned, Upper, UpperAll;
    UpperBlanks(s, 0);
    var i := SkipBlanks(s, 0);
    UpperSame(At(s, i), base);
    assert i < |s| ==> At(UpperAll(s), i) == Upper(At(s, i));
    UpperUnsigned(s, if At(s, i) == '+' || At(s, i) == '-' then i + 1 else i, base);
  }
}
