/** 64-by-32-bit division in two steps (x86.h, do_div). */
module Division {
  import opened Basics

  const WORD := 0x1_0000_0000
  const DOUBLE := 0x1_0000_0000_0000_0000

  /** The processor's `divl`: it faults unless the quotient fits in 32 bits, which is when `upper < base`. */
  method Divl(upper: nat, low: nat, base: nat) returns (quotient: nat, remainder: nat)
    requires upper < base < WORD && low < WORD
    ensures upper * WORD + low == quotient * base + remainder && remainder < base && quotient < WORD
  {
    var n := upper * WORD + low;
    quotient, remainder := Quot(n, base), Rem(n, base);
    QuotRem(n, base);
    FitsWord(quotient, base, n);
  }

  lemma FitsWord(quotient: nat, base: nat, n: nat)
    requires quotient * base <= n < base * WORD
    ensures quotient < WORD
  {
    assert quotient < WORD || quotient * base >= WORD * base;
  }

  /** Exact quotient and remainder of a 64-bit number; the second division never faults. */
  method DoDiv(n: nat, base: nat) returns (quotient: nat, mod: nat)
    requires n < DOUBLE && 0 < base < WORD
    ensures n == quotient * base + mod && mod < base
    ensures quotient == Quot(n, base) && mod == Rem(n, base)
  {
    hide Quot, Rem;
    var low, high := Rem(n, WORD), Quot(n, WORD);
    QuotRem(n, WORD);
    ghost var top := high;
    var upper := high;
    if high != 0 {
      QuotRem(high, base);
      upper := Rem(high, base);
      high := Quot(high, base);
    }
    var lowQuotient;
    lowQuotient, mod := Divl(upper, low, base);
    quotient := high * WORD + lowQuotient;
    Joined(n, top, low, high, upper, lowQuotient, mod, base);
    QuotientIs(n, quotient, mod, base);
  }

  lemma Joined(n: nat, top: nat, low: nat, high: nat, upper: nat, lowQuotient: nat, mod: nat, base: nat)
    requires n == top * WORD + low && top == high * base + upper
    requires upper * WORD + low == lowQuotient * base + mod
    ensures n == (high * WORD + lowQuotient) * base + mod
  {
    assert top * WORD == high * base * WORD + upper * WORD;
    assert (high * WORD + lowQuotient) * base == high * WORD * base + lowQuotient * base;
    assert high * base * WORD == high * WORD * base;
  }
}
