/** What strtol reads back from what snprintf printed. */
module RoundTrip {
  import opened Basics
  import opened Division
  import opened Printing
  import opened Parsing

  /** The digits printed for a number write that number in the base, with no leading zero. */
  lemma {:induction false} DigitsWriteNumber(num: nat, base: nat)
    requires 1 < base <= 16
    ensures AllDigits(Digits(num, base), base) && Value(Digits(num, base), base) == num
    ensures num > 0 ==> Digits(num, base)[0] != '0'
    decreases num
  {
    hide Quot, Rem, DigitValue;
    if num < base {
      DigitWorth(num);
    } else {
      SmallerQuotient(num, base);
      DigitsWriteNumber(Quot(num, base), base);
      QuotRem(num, base);
      DigitWorth(Rem(num, base));
      var s := Digits(num, base);
      assert s[..|s| - 1] == Digits(Quot(num, base), base);
    }
  }

  lemma DigitWorth(d: nat)
    requires d < 16
    ensures DigitValue(DIGITS[d]) == d && (d > 0 ==> DIGITS[d] != '0') && !Blank(DIGITS[d])
  {
  }

  lemma {:induction false} LeadingZeros(k: nat, t: seq<char>, base: int)
    requires base > 1 && AllDigits(t, base)
    ensures AllDigits(Repeat('0', k) + t, base) && Value(Repeat('0', k) + t, base) == Value(t, base)
    decreases k + |t|
  {
    var s := Repeat('0', k) + t;
    if t != [] {
      LeadingZeros(k, t[..|t| - 1], base);
      assert s[..|s| - 1] == Repeat('0', k) + t[..|t| - 1];
    } else if k > 0 {
      LeadingZeros(k - 1, t, base);
      assert s[..|s| - 1] == Repeat('0', k - 1) + t;
    }
  }

  /** From a position where only digits follow, all of them are read. */
  lemma UnsignedDigits(s: seq<char>, i: nat, base: int)
    requires i < |s| && base > 0 && AllDigits(s[i..], base)
    ensures Unsigned(s, i, base) == (Value(s[i..], base), |s|)
    ensures !Blank(At(s, i)) && At(s, i) != '+' && At(s, i) != '-'
  {
    hide Value;
    assert forall k :: i <= k < |s| ==> s[k] == s[i..][k - i];
    assert IsDigit(s[i], base);
    assert i + 1 < |s| ==> IsDigit(s[i + 1], base);
    assert Prefix(s, i, base) == (0, base);
    assert RunEnd(s, i, base) == |s|;
    assert s[i..|s|] == s[i..];
  }

  /** A "0x" before hexadecimal digits is taken as a prefix and all is read; at a "0X" reading stops after the '0'. */
  lemma PrefixReadIff(x: char, digits: seq<char>, base: int)
    requires x == 'x' || x == 'X'
    requires AllDigits(digits, 16) && (base == 0 || base == 16)
    ensures var s := ['0', x] + digits;
      (Parse(s, base).1 == |s| <==> x == 'x')
      && Parse(s, base) == if x == 'x' then (Long(Value(digits, 16)), |s|) else (0, 1)
  {
    var s := ['0', x] + digits;
    assert SkipBlanks(s, 0) == 0;
    assert forall k :: 2 <= k < |s| ==> s[k] == digits[k - 2];
    if x == 'x' {
      assert Prefix(s, 0, base) == (2, 16);
      assert RunEnd(s, 2, 16) == |s|;
      assert s[2..|s|] == digits;
    } else {
      var (skip, radix) := Prefix(s, 0, base);
      assert !IsDigit(s[1], radix);
      UpperPrefix(s, skip, radix);
    }
  }

  lemma UpperPrefix(s: seq<char>, skip: nat, radix: int)
    requires |s| > 1 && s[0] == '0' && !IsDigit(s[1], radix) && skip <= 1 && radix > 0
    ensures RunEnd(s, skip, radix) == 1 && Value(s[skip..1], radix) == 0
  {
    assert IsDigit(s[0], radix);
    assert RunEnd(s, 1, radix) == 1;
    if skip == 0 {
      assert s[0..1][..0] == [] && s[0..1] == ['0'];
    } else {
      assert s[1..1] == [];
    }
  }

  /** Blanks, then digits. */
  lemma BlanksThenDigits(s: seq<char>, k: nat, base: int)
    requires k < |s| && base > 0 && AllDigits(s[k..], base) && forall i :: 0 <= i < k ==> Blank(s[i])
    ensures Parse(s, base) == (Long(Value(s[k..], base)), |s|)
  {
    UnsignedDigits(s, k, base);
    assert SkipBlanks(s, 0) == k;
  }

  /** A minus sign, then digits. */
  lemma MinusThenDigits(s: seq<char>, base: int)
    requires 1 < |s| && s[0] == '-' && 1 < base <= 16 && AllDigits(s[1..], base)
    ensures Parse(s, base) == (Long(-Value(s[1..], base)), |s|)
  {
    UnsignedDigits(s, 1, base);
    assert SkipBlanks(s, 0) == 0;
  }

  /** A minus sign, then something that is no digit. */
  lemma MinusThenNothing(s: seq<char>, base: int)
    requires 1 < |s| && s[0] == '-' && !IsDigit(s[1], base) && s[1] != '0' && base > 0
    ensures Parse(s, base) == (0, 1)
  {
    assert SkipBlanks(s, 0) == 0;
    assert s[1..1] == [];
  }

  /** Padded with spaces or zeros to any width, in any base from 2 to 16, a number is read back to its last digit,
      wrapped to a long; so it comes back as itself exactly below 2^31. */
  lemma PrintedReadsBack(num: nat, base: nat, width: int, padc: char)
    requires 1 < base <= 16 && (padc == ' ' || padc == '0')
    ensures var s := Printed(num, base, width, padc);
      Parse(s, base) == (Long(num), |s|) && (Parse(s, base).0 == num <==> num < 0x8000_0000)
  {
    var digits := Digits(num, base);
    var k := Pads(|digits|, width);
    var s := Printed(num, base, width, padc);
    DigitsWriteNumber(num, base);
    if padc == ' ' {
      assert s[k..] == digits;
      BlanksThenDigits(s, k, base);
    } else {
      LeadingZeros(k, digits, base);
      assert s[0..] == s;
      BlanksThenDigits(s, 0, base);
    }
    if num < 0x8000_0000 { LongFixed(num); }
  }

  /** For the three paddings that a %d conversion can ask for, a 32-bit number comes back exactly when nothing was
      padded, or with zeros, or with spaces before a number that has no sign, or when it is zero. */
  lemma DecimalReadsBackIff(n: int, width: int, padc: char)
    requires -0x8000_0000 <= n < 0x8000_0000 && padc in {' ', '0', '-'}
    ensures var k := Pads(|Digits(if n < 0 then -n else n, 10)|, width);
      Parse(Decimal(n, width, padc), 10).0 == n <==> k == 0 || padc == '0' || (padc == ' ' && n >= 0) || n == 0
  {
    LongFixed(n);
    if n < 0 {
      NegativeReadsBackIff(n, width, padc);
    } else if padc == '-' {
      DashedReadsBackIff(n, width);
    } else {
      PrintedReadsBack(n, 10, width, padc);
    }
  }

  lemma NegativeReadsBackIff(n: int, width: int, padc: char)
    requires -0x8000_0000 <= n < 0 && padc in {' ', '0', '-'}
    ensures Parse(Decimal(n, width, padc), 10).0 == n <==> Pads(|Digits(-n, 10)|, width) == 0 || padc == '0'
  {
    hide Parse, Value, Digits, Long;
    var digits := Digits(-n, 10);
    var k := Pads(|digits|, width);
    var s := Decimal(n, width, padc);
    DigitsWriteNumber(-n, 10);
    if k == 0 {
      assert s[1..] == digits;
      MinusThenDigits(s, 10);
    } else if padc == '0' {
      LeadingZeros(k, digits, 10);
      assert s[1..] == Repeat('0', k) + digits;
      MinusThenDigits(s, 10);
    } else {
      assert s[1] == padc;
      MinusThenNothing(s, 10);
    }
    LongFixed(n);
  }

  /** The '-' flag pads with dashes on the left, and a single dash reads as a sign. */
  lemma DashedReadsBackIff(n: int, width: int)
    requires 0 <= n < 0x8000_0000
    ensures Parse(Decimal(n, width, '-'), 10).0 == n <==> Pads(|Digits(n, 10)|, width) == 0 || n == 0
  {
    hide Parse, Value, Digits, Long;
    var digits := Digits(n, 10);
    var k := Pads(|digits|, width);
    var s := Decimal(n, width, '-');
    DigitsWriteNumber(n, 10);
    if k == 0 {
      assert s[0..] == s == digits;
      BlanksThenDigits(s, 0, 10);
    } else if k == 1 {
      assert s[1..] == digits;
      MinusThenDigits(s, 10);
    } else {
      assert s[1] == '-';
      MinusThenNothing(s, 10);
    }
    LongFixed(n);
    LongFixed(-n);
  }
}
