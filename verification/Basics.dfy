/** Small definitions the models share. */
module Basics {

  datatype Option<+T> = None | Some(value: T)

  function Min(a: nat, b: nat): nat { if a <= b then a else b }

  /** A sequence without its element at `k`. */
  function Without<T>(s: seq<T>, k: nat): seq<T>
    requires k < |s|
  {
    s[..k] + s[k + 1..]
  }

  lemma WithoutAt<T>(s: seq<T>, k: nat)
    requires k < |s|
    ensures |Without(s, k)| == |s| - 1
    ensures forall j :: 0 <= j < |s| - 1 ==> Without(s, k)[j] == s[if j < k then j else j + 1]
  {
  }

  function Quot(n: nat, base: nat): nat
    requires base > 0
  {
    n / base
  }

  function Rem(n: nat, base: nat): (r: nat)
    requires base > 0
    ensures r < base
  {
    n % base
  }

  lemma QuotRem(n: nat, base: nat)
    requires base > 0
    ensures n == Quot(n, base) * base + Rem(n, base) && Rem(n, base) < base
  {
  }

  lemma SameMultiple(q: nat, r: nat, q': nat, r': nat, base: nat)
    requires r < base && r' < base && q * base + r == q' * base + r'
    ensures q == q' && r == r'
  {
    var d := q - q';
    assert d * base == q * base - q' * base == r' - r;
    assert d <= 0 || d * base >= base;
    assert d >= 0 || d * base + base <= 0;
  }

  /** Quotient and remainder are what they have to be. */
  lemma QuotientIs(n: nat, q: nat, r: nat, base: nat)
    requires r < base && n == q * base + r
    ensures q == Quot(n, base) && r == Rem(n, base)
  {
    hide Quot, Rem;
    QuotRem(n, base);
    SameMultiple(q, r, Quot(n, base), Rem(n, base), base);
  }

  /** One sequence after another. */
  function Flat<T>(rounds: seq<seq<T>>): seq<T> {
    if rounds == [] then [] else rounds[0] + Flat(rounds[1..])
  }

  lemma {:induction false} FlatAppend<T>(a: seq<seq<T>>, b: seq<seq<T>>)
    ensures Flat(a + b) == Flat(a) + Flat(b)
    decreases |a|
  {
    if a == [] {
      assert a + b == b;
    } else {
      assert (a + b)[1..] == a[1..] + b;
      FlatAppend(a[1..], b);
    }
  }
}
