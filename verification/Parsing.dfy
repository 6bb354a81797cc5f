/** String to number (string.c, strtol). A string ends at its length, where a NUL is read. */
module Parsing {
  import opened Division

  function At(s: seq<char>, i: nat): char { if i < |s| then s[i] else '\0' }

  predicate Blank(c: char) { c == ' ' || c == '\t' }

  /** The value of a digit or letter, or -1. */
  function DigitValue(c: char): int {
    if '0' <= c <= '9' then c as int - '0' as int
    else if 'a' <= c <= 'z' then c as int - 'a' as int + 10
    else if 'A' <= c <= 'Z' then c as int - 'A' as int + 10
    else -1
  }

  predicate IsDigit(c: char, base: int) { 0 <= DigitValue(c) < base }

  /** Every character is a digit of the base. */
  ghost predicate AllDigits(s: seq<char>, base: int) { forall i :: 0 <= i < |s| ==> IsDigit(s[i], base) }

  /** The number that a row of digits writes. */
  function Value(s: seq<char>, base: int): int
    requires AllDigits(s, base)
  {
    if s == [] then 0 else Value(s[..|s| - 1], base) * base + DigitValue(s[|s| - 1])
  }

  /** A 32-bit long, wrapping around. */
  function Long(x: int): (r: int)
    ensures -0x8000_0000 <= r < 0x8000_0000
  {
    (x + 0x8000_0000) % WORD - 0x8000_0000
  }

  lemma LongIs(x: int, y: int, k: int)
    requires x == y + k * WORD
    ensures Long(x) == Long(y)
  {
  }

  lemma LongFixed(x: int)
    requires -0x8000_0000 <= x < 0x8000_0000
    ensures Long(x) == x
  {
  }

  lemma LongApart(x: int) returns (k: int)
    ensures x == Long(x) + k * WORD
  {
    k := (x + 0x8000_0000) / WORD;
  }

  /** Wrapping at every digit is wrapping once. */
  lemma LongStep(x: int, base: int, d: int)
    ensures Long(Long(x) * base + d) == Long(x * base + d)
  {
    var k := LongApart(x);
    assert x * base == Long(x) * base + k * base * WORD;
    LongIs(x * base + d, Long(x) * base + d, k * base);
  }

  lemma LongNegated(x: int)
    ensures Long(-Long(x)) == Long(-x)
  {
    var k := LongApart(x);
    LongIs(-x, -Long(x), -k);
  }

  /** The end of the longest run of blanks from `i`. */
  function SkipBlanks(s: seq<char>, i: nat): (e: nat)
    requires i <= |s|
    ensures i <= e <= |s| && !Blank(At(s, e)) && forall k :: i <= k < e ==> Blank(s[k])
    decreases |s| - i
  {
    if Blank(At(s, i)) then SkipBlanks(s, i + 1) else i
  }

  /** The end of the longest run of digits from `i`. */
  function RunEnd(s: seq<char>, i: nat, base: int): (e: nat)
    requires i <= |s|
    ensures i <= e <= |s| && !IsDigit(At(s, e), base) && AllDigits(s[i..e], base)
    decreases |s| - i
  {
    if !IsDigit(At(s, i), base) then i else
    var e := RunEnd(s, i + 1, base);
    assert s[i..e] == [s[i]] + s[i + 1..e];
    e
  }

  /** The base prefix at `i`: how many characters it takes, and the base that holds after it. */
  function Prefix(s: seq<char>, i: nat, base: int): (r: (nat, int))
    requires i <= |s|
    ensures i + r.0 <= |s|
  {
    if (base == 0 || base == 16) && At(s, i) == '0' && At(s, i + 1) == 'x' then (2, 16)
    else if base == 0 && At(s, i) == '0' then (1, 8)
    else if base == 0 then (0, 10)
    else (0, base)
  }

  /** The number after blanks and sign: its value before the sign, and its end. */
  function Unsigned(s: seq<char>, i: nat, base: int): (int, nat)
    requires i <= |s|
  {
    var (skip, base') := Prefix(s, i, base);
    var e := RunEnd(s, i + skip, base');
    (Value(s[i + skip..e], base'), e)
  }

  /** The whole of it: blanks, an optional sign, an optional prefix, the longest run of digits; wrapped to a long. */
  function Parse(s: seq<char>, base: int): (int, nat) {
    var i := SkipBlanks(s, 0);
    var signed := At(s, i) == '+' || At(s, i) == '-';
    var (value, e) := Unsigned(s, if signed then i + 1 else i, base);
    (Long(if At(s, i) == '-' then -value else value), e)
  }

  /** The digits loop: accumulate while the next character is a digit of the base. */
  method ReadDigits(s: seq<char>, start: nat, base: int) returns (val: int, end: nat)
    requires start <= |s|
    ensures end == RunEnd(s, start, base) && val == Long(Value(s[start..end], base))
  {
    hide Long, Value;
    end := start;
    val := 0;
    NoDigits(s, start, base);
    while true
      invariant start <= end <= |s| && RunEnd(s, start, base) == RunEnd(s, end, base)
      invariant AllDigits(s[start..end], base) && val == Long(Value(s[start..end], base))
      decreases |s| - end
    {
      var c := At(s, end);
      var dig;
      if '0' <= c <= '9' {
        dig := c as int - '0' as int;
      } else if 'a' <= c <= 'z' {
        dig := c as int - 'a' as int + 10;
      } else if 'A' <= c <= 'Z' {
        dig := c as int - 'A' as int + 10;
      } else {
        break;
      }
      if dig >= base { break; }
      OneDigit(s, start, end, base);
      end, val := end + 1, Long(val * base + dig);
    }
  }

  lemma NoDigits(s: seq<char>, i: nat, base: int)
    requires i <= |s|
    ensures s[i..i] == [] && Long(Value(s[i..i], base)) == 0
  {
  }

  lemma OneDigit(s: seq<char>, i: nat, e: nat, base: int)
    requires i <= e < |s| && AllDigits(s[i..e], base) && IsDigit(s[e], base)
    ensures AllDigits(s[i..e + 1], base)
    ensures Long(Value(s[i..e + 1], base)) == Long(Long(Value(s[i..e], base)) * base + DigitValue(s[e]))
  {
    hide Long;
    assert s[i..e + 1] == s[i..e] + [s[e]];
    assert s[i..e + 1][..e - i] == s[i..e];
    LongStep(Value(s[i..e], base), base, DigitValue(s[e]));
  }

  /** The optional prefix, then the digits. */
  method ReadMagnitude(s: seq<char>, start: nat, base: int) returns (val: int, end: nat)
    requires start <= |s|
    ensures val == Long(Unsigned(s, start, base).0) && end == Unsigned(s, start, base).1
  {
    hide Long, Value, RunEnd;
    var i, radix := start, base;
    if (radix == 0 || radix == 16) && At(s, i) == '0' && At(s, i + 1) == 'x' {
      i, radix := i + 2, 16;
    } else if radix == 0 && At(s, i) == '0' {
      i, radix := i + 1, 8;
    } else if radix == 0 {
      radix := 10;
    }
    val, end := ReadDigits(s, i, radix);
  }

  method Strtol(s: seq<char>, base: int) returns (val: int, end: nat)
    ensures (val, end) == Parse(s, base)
  {
    hide Long, Unsigned;
    var i: nat := 0;
    while At(s, i) == ' ' || At(s, i) == '\t'
      invariant i <= |s| && SkipBlanks(s, 0) == SkipBlanks(s, i)
      decreases |s| - i
    {
      i := i + 1;
    }
    var neg := false;
    if At(s, i) == '+' {
      i := i + 1;
    } else if At(s, i) == '-' {
      i, neg := i + 1, true;
    }
    val, end := ReadMagnitude(s, i, base);
    LongNegated(Unsigned(s, i, base).0);
    if neg { val := Long(-val); }
  }
}
