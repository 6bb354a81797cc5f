/** Positions in a circular buffer. */
module Cyclic {
  import opened Basics

  function Wrap(x: nat, size: nat): (i: nat)
    requires size > 0
    ensures i < size && i == Rem(x, size)
  {
    x % size
  }

  lemma WrapIs(x: nat, q: nat, r: nat, size: nat)
    requires r < size && x == q * size + r
    ensures Wrap(x, size) == r
  {
    hide Rem;
    QuotientIs(x, q, r, size);
  }

  /** Stepping one place wraps with the count. */
  lemma WrapNext(x: nat, size: nat)
    requires size > 0
    ensures Wrap(Wrap(x, size) + 1, size) == Wrap(x + 1, size)
  {
    hide Rem, Quot;
    QuotRem(x, size);
    var q, r := Quot(x, size), Rem(x, size);
    if r + 1 < size {
      WrapIs(x + 1, q, r + 1, size);
      WrapIs(r + 1, 0, r + 1, size);
    } else {
      assert (q + 1) * size == q * size + size;
      WrapIs(x + 1, q + 1, 0, size);
      WrapIs(r + 1, 1, 0, size);
    }
  }

  /** Fewer than `size` apart, two counts have different places. */
  lemma WrapApart(a: nat, b: nat, size: nat)
    requires size > 0 && a < b < a + size
    ensures Wrap(a, size) != Wrap(b, size)
  {
    hide Rem, Quot;
    QuotRem(a, size);
    QuotRem(b, size);
    var d := Quot(b, size) - Quot(a, size);
    assert d * size == Quot(b, size) * size - Quot(a, size) * size;
    assert d <= 0 || d * size >= size;
    assert d >= 1 || d * size <= 0;
  }
}
