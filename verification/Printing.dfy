/** Numbers as digits in a bounded buffer (printfmt.c: printnum, the %d conversion, sprintputch, vsnprintf). */
module Printing {
  import opened Basics
  import opened Division

  const DIGITS := "0123456789abcdef"
  const E_INVAL := 3

  /** The digits of `num`, most significant first. In base 1 only zero can be printed. */
  function Digits(num: nat, base: nat): (s: seq<char>)
    requires 0 < base <= 16 && (base > 1 || num == 0)
    ensures |s| > 0
    decreases num
  {
    if num < base then [DIGITS[num]] else
    SmallerQuotient(num, base);
    Digits(Quot(num, base), base) + [DIGITS[Rem(num, base)]]
  }

  lemma SmallerQuotient(num: nat, base: nat)
    requires 1 < base <= num
    ensures 0 < Quot(num, base) < num && Rem(num, base) < base
  {
    hide Quot, Rem;
    QuotRem(num, base);
    Grows(base, Quot(num, base), num, Rem(num, base));
  }

  lemma Grows(base: nat, q: int, num: nat, r: nat)
    requires 1 < base <= num && num == q * base + r && r < base
    ensures 0 < q < num
  {
    assert q <= 0 ==> q * base <= 0;
    assert q * base == q + q * (base - 1);
    assert q > 0 ==> q * (base - 1) >= q;
  }

  /** The recursion of printnum gets a smaller number exactly when the base is above 1. */
  lemma QuotientShrinksIff(num: nat, base: nat)
    requires 1 <= base <= num
    ensures Quot(num, base) < num <==> base > 1
  {
    if base > 1 { SmallerQuotient(num, base); }
  }

  function Repeat(c: char, k: nat): (s: seq<char>)
    ensures |s| == k && forall i :: 0 <= i < k ==> s[i] == c
  {
    seq(k, _ => c)
  }

  /** The padding that brings `digits` up to `width`. */
  function Pads(digits: nat, width: int): (k: nat)
    ensures k + digits == if width > digits then width else digits
  {
    if width > digits then width - digits else 0
  }

  /** What is printed for a number: padding, then its digits. */
  function Printed(num: nat, base: nat, width: int, padc: char): (s: seq<char>)
    requires 0 < base <= 16 && (base > 1 || num == 0)
  {
    Repeat(padc, Pads(|Digits(num, base)|, width)) + Digits(num, base)
  }

  /** What %d prints: the sign comes before the padding. */
  function Decimal(n: int, width: int, padc: char): seq<char> {
    if n < 0 then ['-'] + Printed(-n, 10, width, padc) else Printed(n, 10, width, padc)
  }

  /** The buffer of snprintf: it counts every character and keeps those that leave room for the final NUL. */
  class SprintBuf {
    const str: array<char>
    const limit: nat
    var pos: nat
    var cnt: nat
    ghost var emitted: seq<char>

    ghost predicate Valid()
      reads this, str
    {
      && limit < str.Length && cnt == |emitted| && pos == Min(cnt, limit) && str[..pos] == emitted[..pos]
    }

    constructor (str: array<char>, size: nat)
      requires 0 < size <= str.Length
      ensures Valid() && this.str == str && limit == size - 1 && emitted == []
    {
      this.str := str;
      limit := size - 1;
      pos, cnt, emitted := 0, 0, [];
    }

    method Put(ch: char)
      requires Valid()
      modifies this, str
      ensures Valid() && emitted == old(emitted) + [ch]
      ensures forall k :: limit <= k < str.Length ==> str[k] == old(str[k])
    {
      cnt := cnt + 1;
      emitted := emitted + [ch];
      if pos < limit {
        str[pos] := ch;
        pos := pos + 1;
      }
    }

    /** Digits by recursion, most significant first, the padding before the first of them. */
    method PrintNum(num: nat, base: nat, width: int, padc: char)
      requires Valid() && num < DOUBLE && 0 < base <= 16 && (base > 1 || num == 0)
      modifies this, str
      ensures Valid() && emitted == old(emitted) + Printed(num, base, width, padc)
      ensures forall k :: limit <= k < str.Length ==> str[k] == old(str[k])
      decreases num
    {
      hide Quot, Rem;
      var result, mod := DoDiv(num, base);
      if num >= base {
        SmallerQuotient(num, base);
        PrintNum(result, base, width - 1, padc);
        assert Pads(|Digits(result, base)|, width - 1) == Pads(|Digits(num, base)|, width);
      } else {
        QuotientIs(num, 0, num, base);
        var w := width - 1;
        ghost var padded: nat := 0;
        while w > 0
          invariant Valid() && padded <= Pads(1, width) && Pads(1, width) - padded == if w > 0 then w else 0
          invariant emitted == old(emitted) + Repeat(padc, padded)
          invariant forall k :: limit <= k < str.Length ==> str[k] == old(str[k])
        {
          Put(padc);
          w := w - 1;
          padded := padded + 1;
        }
      }
      Put(DIGITS[mod]);
    }

    method PrintDecimal(n: int, width: int, padc: char)
      requires Valid() && -0x8000_0000_0000_0000 <= n < 0x8000_0000_0000_0000
      modifies this, str
      ensures Valid() && emitted == old(emitted) + Decimal(n, width, padc)
      ensures forall k :: limit <= k < str.Length ==> str[k] == old(str[k])
    {
      hide Printed, Min;
      var num := n;
      if num < 0 {
        Put('-');
        num := -num;
      }
      PrintNum(num, 10, width, padc);
    }
  }

  /** snprintf with a format of one %d conversion. The count is what an unbounded buffer would hold; the buffer gets
      as much of it as fits before the final NUL, and nothing past its size. */
  method SnprintfDecimal(str: array?<char>, size: nat, n: int, width: int, padc: char) returns (cnt: int)
    requires str != null ==> size <= str.Length
    requires -0x8000_0000_0000_0000 <= n < 0x8000_0000_0000_0000
    modifies if str == null then {} else {str}
    ensures cnt == if str == null || size == 0 then -E_INVAL else |Decimal(n, width, padc)|
    ensures str != null && size > 0 ==> var s := Decimal(n, width, padc); var kept := Min(|s|, size - 1);
      str[..kept] == s[..kept] && str[kept] == '\0' && forall k :: size <= k < str.Length ==> str[k] == old(str[k])
    ensures str != null && size == 0 ==> str[..] == old(str[..])
  {
    hide Decimal;
    if str == null || size == 0 { return -E_INVAL; }
    var b := new SprintBuf(str, size);
    b.PrintDecimal(n, width, padc);
    str[b.pos] := '\0';
    cnt := b.cnt;
  }
}
