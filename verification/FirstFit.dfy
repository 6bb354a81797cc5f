/** First-fit free lists as values: what the page allocator computes on its list of free blocks,
    and what every run of allocations and frees keeps. */
module FirstFit {
  import opened Basics

  datatype Block = Block(base: nat, size: nat) {
    function End(): nat { base + size }

    predicate Has(p: nat) { base <= p < base + size }
  }

  predicate Apart(x: Block, y: Block) { x.End() <= y.base || y.End() <= x.base }

  ghost predicate Disjoint(l: seq<Block>) {
    && (forall i :: 0 <= i < |l| ==> l[i].size > 0)
    && (forall i, j :: 0 <= i < j < |l| ==> Apart(l[i], l[j]))
  }

  /** No listed block ends where another one starts. */
  ghost predicate Coalesced(l: seq<Block>) {
    forall x, y :: x in l && y in l ==> x.End() != y.base
  }

  ghost predicate Covered(l: seq<Block>, p: nat) { exists x :: x in l && x.Has(p) }

  lemma CoveredBy(l: seq<Block>, i: nat, p: nat)
    requires i < |l|
    ensures l[i].Has(p) ==> Covered(l, p)
  {
    assert l[i] in l;
  }

  /** The `n` pages from `a` on are all free. */
  ghost predicate FreeRange(l: seq<Block>, a: nat, n: nat) { forall p :: a <= p < a + n ==> Covered(l, p) }

  function Total(l: seq<Block>): nat {
    if l == [] then 0 else l[0].size + Total(l[1..])
  }

  function InsertAt<T>(l: seq<T>, i: nat, x: T): seq<T>
    requires i <= |l|
  {
    l[..i] + [x] + l[i..]
  }

  lemma TailDisjoint(l: seq<Block>)
    requires Disjoint(l) && l != []
    ensures Disjoint(l[1..]) && l[0].size > 0
    ensures forall x :: x in l[1..] ==> Apart(l[0], x) && x in l && x.size > 0
  {
    var t := l[1..];
    forall x | x in t ensures Apart(l[0], x) && x in l && x.size > 0 {
      var k :| 0 <= k < |t| && t[k] == x;
      assert l[k + 1] == x;
    }
  }

  lemma ConsDisjoint(x: Block, l: seq<Block>)
    requires Disjoint(l) && x.size > 0 && forall y :: y in l ==> Apart(x, y)
    ensures Disjoint([x] + l)
  {
    var t := [x] + l;
    forall i, j | 0 <= i < j < |t| ensures Apart(t[i], t[j]) {
      assert t[j] == l[j - 1] && l[j - 1] in l;
    }
  }

  // ------------------------------------------------------------------ the operations

  /** Index of the first block of at least `n` pages, or |l|. */
  function Fit(l: seq<Block>, n: nat): (i: nat)
    ensures i <= |l|
    ensures i < |l| ==> l[i].size >= n
    ensures forall j :: 0 <= j < i ==> l[j].size < n
  {
    if l == [] || l[0].size >= n then 0 else 1 + Fit(l[1..], n)
  }

  /** What is left of the list when block `i` gives up its first `n` pages: a remainder goes to the front. */
  function Carve(l: seq<Block>, i: nat, n: nat): seq<Block>
    requires i < |l| && l[i].size >= n
  {
    (if l[i].size > n then [Block(l[i].base + n, l[i].size - n)] else []) + Without(l, i)
  }

  function Alloc(l: seq<Block>, n: nat): (Option<nat>, seq<Block>) {
    var i := Fit(l, n);
    if i == |l| then (None, l) else (Some(l[i].base), Carve(l, i, n))
  }

  /** One pass over the list: every block that touches the growing block `b` is taken out and joined to it. */
  function Join(l: seq<Block>, b: Block): (Block, seq<Block>)
    decreases |l|
  {
    if l == [] then (b, [])
    else if b.End() == l[0].base then Join(l[1..], Block(b.base, b.size + l[0].size))
    else if l[0].End() == b.base then Join(l[1..], Block(l[0].base, l[0].size + b.size))
    else var (c, rest) := Join(l[1..], b); (c, [l[0]] + rest)
  }

  /** Index of the first block lying wholly after `b`, or |l|. */
  function Place(l: seq<Block>, b: Block): (i: nat)
    ensures i <= |l|
    ensures i < |l| ==> b.End() <= l[i].base
    ensures forall j :: 0 <= j < i ==> b.End() > l[j].base
  {
    if l == [] || b.End() <= l[0].base then 0 else 1 + Place(l[1..], b)
  }

  function Free(l: seq<Block>, b: Block): seq<Block> {
    var (c, rest) := Join(l, b);
    InsertAt(rest, Place(rest, c), c)
  }

  // ------------------------------------------------------------------ allocation

  lemma {:induction false} TotalSplit(a: seq<Block>, b: seq<Block>)
    ensures Total(a + b) == Total(a) + Total(b)
    decreases |a|
  {
    if a == [] {
      assert a + b == b;
    } else {
      assert (a + b)[1..] == a[1..] + b;
      TotalSplit(a[1..], b);
    }
  }

  lemma TotalOne(l: seq<Block>, i: nat)
    requires i < |l|
    ensures Total(l) == l[i].size + Total(Without(l, i))
  {
    assert l == l[..i] + l[i..];
    TotalSplit(l[..i], l[i..]);
    TotalSplit(l[..i], l[i + 1..]);
  }

  /** With coalesced blocks, consecutive free pages lie in one block. */
  lemma {:induction false} OneBlock(l: seq<Block>, a: nat, n: nat) returns (i: nat)
    requires Disjoint(l) && Coalesced(l) && n > 0
    requires FreeRange(l, a, n)
    ensures i < |l| && l[i].base <= a && a + n <= l[i].End()
  {
    assert Covered(l, a + n - 1);
    var x :| x in l && x.Has(a + n - 1);
    var j: nat :| j < |l| && l[j] == x;
    if n == 1 {
      i := j;
    } else {
      i := OneBlock(l, a, n - 1);
      assert l[i] in l && l[j] in l && l[i].End() != l[j].base;
    }
  }

  /** An allocation fails exactly when no `n` consecutive pages are free. */
  lemma AllocFailsIff(l: seq<Block>, n: nat)
    requires Disjoint(l) && Coalesced(l) && n > 0
    ensures Alloc(l, n).0.None? <==> !exists a: nat :: FreeRange(l, a, n)
  {
    var i := Fit(l, n);
    if i < |l| {
      var a := l[i].base;
      forall p | a <= p < a + n ensures Covered(l, p) { assert l[i] in l && l[i].Has(p); }
      assert FreeRange(l, a, n);
    } else {
      forall a: nat ensures !FreeRange(l, a, n) {
        if FreeRange(l, a, n) { var j := OneBlock(l, a, n); }
      }
    }
  }

  /** Comparing with the page count first changes nothing: such a request has no block either. */
  lemma BigRequestFails(l: seq<Block>, n: nat)
    requires n > Total(l)
    ensures Alloc(l, n) == (None, l)
  {
    var i := Fit(l, n);
    if i < |l| {
      TotalOne(l, i);
    }
  }

  lemma CarveIn(l: seq<Block>, i: nat, n: nat, x: Block)
    requires i < |l| && l[i].size >= n && x in Carve(l, i, n)
    ensures x == Block(l[i].base + n, l[i].size - n) || exists j :: 0 <= j < |l| && j != i && l[j] == x
  {
    if x in Without(l, i) {
      var k :| 0 <= k < |l| - 1 && Without(l, i)[k] == x;
      assert l[if k < i then k else k + 1] == x;
    }
  }

  lemma CarveFrom(l: seq<Block>, i: nat, n: nat, j: nat)
    requires i < |l| && l[i].size >= n && j < |l|
    ensures j != i ==> l[j] in Carve(l, i, n)
    ensures l[i].size > n ==> Block(l[i].base + n, l[i].size - n) in Carve(l, i, n)
  {
    var w := Without(l, i);
    if j < i { assert w[j] == l[j]; }
    if j > i { assert w[j - 1] == l[j]; }
    if l[i].size > n { assert Carve(l, i, n)[0] == Block(l[i].base + n, l[i].size - n); }
  }

  lemma CarveDisjoint(l: seq<Block>, i: nat, n: nat)
    requires Disjoint(l) && i < |l| && l[i].size >= n
    ensures Disjoint(Carve(l, i, n))
  {
    var w := Without(l, i);
    assert forall k :: 0 <= k < |w| ==> w[k] == l[if k < i then k else k + 1];
    assert forall k :: 0 <= k < |w| ==> Apart(l[i], w[k]);
    assert forall j, k :: 0 <= j < k < |w| ==> Apart(w[j], w[k]);
  }

  lemma CarveCovers(l: seq<Block>, i: nat, n: nat, p: nat)
    requires Disjoint(l) && i < |l| && l[i].size >= n
    ensures Covered(Carve(l, i, n), p) <==> Covered(l, p) && !Block(l[i].base, n).Has(p)
  {
    var t := Carve(l, i, n);
    if Covered(t, p) {
      var x :| x in t && x.Has(p);
      CarveIn(l, i, n, x);
      if x == Block(l[i].base + n, l[i].size - n) {
        assert l[i] in l && l[i].Has(p);
      } else {
        var j :| 0 <= j < |l| && j != i && l[j] == x;
        assert Apart(l[i], l[j]) || Apart(l[j], l[i]);
      }
    }
    if Covered(l, p) && !Block(l[i].base, n).Has(p) {
      var x :| x in l && x.Has(p);
      var j: nat :| j < |l| && l[j] == x;
      CarveFrom(l, i, n, j);
      if j == i {
        var y := Block(l[i].base + n, l[i].size - n);
        assert y in t && y.Has(p);
      }
    }
  }

  lemma CarveCoalesced(l: seq<Block>, i: nat, n: nat)
    requires Disjoint(l) && Coalesced(l) && i < |l| && l[i].size >= n > 0
    ensures Coalesced(Carve(l, i, n))
  {
    var t := Carve(l, i, n);
    forall x, y | x in t && y in t ensures x.End() != y.base {
      CarveIn(l, i, n, x);
      CarveIn(l, i, n, y);
      assert l[i] in l;
    }
  }

  /** A granted allocation comes from the first block in list order that is large enough; |l| stands for none. */
  lemma AllocIsFirstFit(l: seq<Block>, n: nat, i: nat)
    requires i <= |l|
    ensures ((i < |l| ==> l[i].size >= n) && forall j :: 0 <= j < i ==> l[j].size < n) <==> i == Fit(l, n)
  {
  }

  /** It takes exactly the first `n` pages of that block: no other page changes hands. */
  lemma AllocCovers(l: seq<Block>, n: nat, p: nat)
    requires Disjoint(l) && Alloc(l, n).0.Some?
    ensures var (r, t) := Alloc(l, n);
      && (Block(r.value, n).Has(p) ==> Covered(l, p))
      && (Covered(t, p) <==> Covered(l, p) && !Block(r.value, n).Has(p))
  {
    var i := Fit(l, n);
    CarveCovers(l, i, n, p);
    assert l[i] in l && (Block(l[i].base, n).Has(p) ==> l[i].Has(p));
  }

  lemma CarveKeeps(l: seq<Block>, i: nat, n: nat)
    requires Disjoint(l) && i < |l| && 0 < n <= l[i].size
    ensures var t := Carve(l, i, n);
      Disjoint(t) && (Coalesced(l) ==> Coalesced(t)) && Total(t) == Total(l) - n
  {
    CarveDisjoint(l, i, n);
    if Coalesced(l) { CarveCoalesced(l, i, n); }
    TotalOne(l, i);
    var w := Without(l, i);
    if l[i].size > n { assert Carve(l, i, n)[1..] == w; } else { assert Carve(l, i, n) == w; }
  }

  // ------------------------------------------------------------------ freeing

  lemma {:induction false} JoinShape(l: seq<Block>, b: Block)
    ensures var (c, r) := Join(l, b);
      && (forall x :: x in r ==> x in l)
      && c.size + Total(r) == b.size + Total(l)
      && c.size >= b.size
    decreases |l|
  {
    if l != [] {
      JoinShape(l[1..], b);
      JoinShape(l[1..], Block(b.base, b.size + l[0].size));
      JoinShape(l[1..], Block(l[0].base, l[0].size + b.size));
      assert forall x :: x in l[1..] ==> x in l;
    }
  }

  /** The joined block is bounded by ends of blocks that went into it. */
  lemma {:induction false} JoinEnds(l: seq<Block>, b: Block)
    ensures var c := Join(l, b).0;
      && (c.base == b.base || exists x :: x in l && x.base == c.base)
      && (c.End() == b.End() || exists x :: x in l && x.End() == c.End())
    decreases |l|
  {
    if l != [] {
      JoinEnds(l[1..], b);
      JoinEnds(l[1..], Block(b.base, b.size + l[0].size));
      JoinEnds(l[1..], Block(l[0].base, l[0].size + b.size));
      assert forall x :: x in l[1..] ==> x in l;
    }
  }

  ghost predicate Within(l: seq<Block>, b: Block, p: nat) { b.Has(p) || Covered(l, p) }

  lemma WithinTail(l: seq<Block>, b: Block, p: nat)
    requires l != []
    ensures Within(l, b, p) <==> b.Has(p) || l[0].Has(p) || Covered(l[1..], p)
  {
    if Covered(l, p) {
      var x :| x in l && x.Has(p);
      assert x == l[0] || x in l[1..];
    }
    assert l[0] in l;
    assert forall x :: x in l[1..] ==> x in l;
  }

  lemma {:induction false} JoinCovers(l: seq<Block>, b: Block, p: nat)
    ensures var (c, r) := Join(l, b); Within(r, c, p) <==> Within(l, b, p)
    decreases |l|
  {
    if l != [] {
      WithinTail(l, b, p);
      if b.End() == l[0].base {
        JoinCovers(l[1..], Block(b.base, b.size + l[0].size), p);
      } else if l[0].End() == b.base {
        JoinCovers(l[1..], Block(l[0].base, l[0].size + b.size), p);
      } else {
        var (c, r) := Join(l[1..], b);
        JoinCovers(l[1..], b, p);
        WithinTail([l[0]] + r, c, p);
        assert ([l[0]] + r)[1..] == r;
      }
    }
  }

  ghost predicate Joinable(l: seq<Block>, b: Block) {
    Disjoint(l) && b.size > 0 && forall x :: x in l ==> Apart(b, x)
  }

  lemma ApartByPages(c: Block, x: Block)
    requires c.size > 0 && x.size > 0 && forall p :: c.Has(p) ==> !x.Has(p)
    ensures Apart(c, x)
  {
    assert c.Has(c.base) && !x.Has(c.base);
    assert c.Has(x.base) ==> !x.Has(x.base);
  }

  lemma {:induction false} JoinDisjoint(l: seq<Block>, b: Block)
    requires Joinable(l, b)
    ensures var (c, r) := Join(l, b); Joinable(r, c)
    decreases |l|
  {
    if l != [] {
      var t := l[1..];
      assert l[0] in l;
      TailDisjoint(l);
      if b.End() == l[0].base {
        JoinDisjoint(t, Block(b.base, b.size + l[0].size));
      } else if l[0].End() == b.base {
        JoinDisjoint(t, Block(l[0].base, l[0].size + b.size));
      } else {
        var (c, r) := Join(t, b);
        JoinDisjoint(t, b);
        JoinShape(t, b);
        JoinAvoids(t, b, l[0]);
        ConsDisjoint(l[0], r);
      }
    }
  }

  /** A block apart from everything that is joined stays apart from the result. */
  lemma JoinAvoids(l: seq<Block>, b: Block, x: Block)
    requires b.size > 0 && x.size > 0 && Apart(b, x) && forall y :: y in l ==> Apart(x, y)
    ensures Apart(Join(l, b).0, x)
  {
    var (c, r) := Join(l, b);
    JoinShape(l, b);
    forall p: nat | c.Has(p) ensures !x.Has(p) {
      JoinCovers(l, b, p);
      assert Within(l, b, p);
    }
    ApartByPages(c, x);
  }

  /** The state of the pass at position `i`: blocks before `i` are kept, the rest are still to be looked at. */
  function JoinFrom(l: seq<Block>, i: nat, b: Block): (Block, seq<Block>)
    requires i <= |l|
  {
    var (c, r) := Join(l[i..], b);
    (c, l[..i] + r)
  }

  lemma JoinFromStart(l: seq<Block>, b: Block)
    ensures JoinFrom(l, 0, b) == Join(l, b)
  {
    assert l[0..] == l && l[..0] + Join(l, b).1 == Join(l, b).1;
  }

  lemma JoinFromEnd(l: seq<Block>, b: Block)
    ensures JoinFrom(l, |l|, b) == (b, l)
  {
    assert l[..|l|] + [] == l;
  }

  lemma JoinKeep(l: seq<Block>, i: nat, b: Block)
    requires i < |l| && !Touches(b, l[i])
    ensures JoinFrom(l, i, b) == JoinFrom(l, i + 1, b)
  {
    assert l[i..][0] == l[i] && l[i..][1..] == l[i + 1..];
    var r := Join(l[i + 1..], b).1;
    assert l[..i + 1] + r == l[..i] + ([l[i]] + r);
  }

  lemma JoinTake(l: seq<Block>, i: nat, b: Block, c: Block)
    requires i < |l|
    requires if b.End() == l[i].base then c == Block(b.base, b.size + l[i].size)
             else l[i].End() == b.base && c == Block(l[i].base, l[i].size + b.size)
    ensures JoinFrom(l, i, b) == JoinFrom(Without(l, i), i, c)
  {
    assert l[i..][0] == l[i] && l[i..][1..] == l[i + 1..];
    assert Without(l, i)[i..] == l[i + 1..] && Without(l, i)[..i] == l[..i];
  }

  predicate Touches(x: Block, y: Block) { x.End() == y.base || y.End() == x.base }

  /** A block touching nothing that is joined does not touch the result. */
  lemma JoinMisses(l: seq<Block>, b: Block, x: Block)
    requires !Touches(b, x) && forall y :: y in l ==> !Touches(y, x)
    ensures !Touches(Join(l, b).0, x)
  {
    JoinEnds(l, b);
  }

  lemma {:induction false} JoinCoalesced(l: seq<Block>, b: Block)
    requires Joinable(l, b) && Coalesced(l)
    ensures var (c, r) := Join(l, b); forall x :: x in r ==> !Touches(c, x)
    decreases |l|
  {
    if l != [] {
      var t := l[1..];
      TailDisjoint(l);
      assert Coalesced(t);
      forall x | x in t ensures !Touches(x, l[0]) { assert l[0] in l && x in l; }
      if b.End() == l[0].base {
        assert Join(l, b) == Join(t, Block(b.base, b.size + l[0].size));
        JoinCoalesced(t, Block(b.base, b.size + l[0].size));
      } else if l[0].End() == b.base {
        assert Join(l, b) == Join(t, Block(l[0].base, l[0].size + b.size));
        JoinCoalesced(t, Block(l[0].base, l[0].size + b.size));
      } else {
        JoinCoalesced(t, b);
        JoinMisses(t, b, l[0]);
      }
    }
  }

  lemma InsertMembers<T>(r: seq<T>, k: nat, c: T)
    requires k <= |r|
    ensures forall x :: x in InsertAt(r, k, c) <==> x == c || x in r
    ensures |InsertAt(r, k, c)| == |r| + 1
    ensures forall i :: 0 <= i <= |r| ==> InsertAt(r, k, c)[i] == if i < k then r[i] else if i == k then c else r[i - 1]
  {
    assert r == r[..k] + r[k..];
  }

  lemma InsertTotal(r: seq<Block>, k: nat, c: Block)
    requires k <= |r|
    ensures Total(InsertAt(r, k, c)) == c.size + Total(r)
  {
    assert InsertAt(r, k, c) == r[..k] + ([c] + r[k..]);
    TotalSplit(r[..k], [c] + r[k..]);
    assert ([c] + r[k..])[1..] == r[k..];
    assert r == r[..k] + r[k..];
    TotalSplit(r[..k], r[k..]);
  }

  lemma InsertDisjoint(r: seq<Block>, k: nat, c: Block)
    requires Joinable(r, c) && k <= |r|
    ensures Disjoint(InsertAt(r, k, c))
  {
    InsertMembers(r, k, c);
    assert forall i :: 0 <= i < |r| ==> r[i] in r;
  }

  /** Freeing adds exactly the freed pages, whatever the list order. */
  lemma FreeCovers(l: seq<Block>, b: Block, p: nat)
    ensures Covered(Free(l, b), p) <==> Covered(l, p) || b.Has(p)
  {
    var (c, r) := Join(l, b);
    InsertMembers(r, Place(r, c), c);
    JoinCovers(l, b, p);
  }

  lemma FreeKeeps(l: seq<Block>, b: Block)
    requires Joinable(l, b)
    ensures Disjoint(Free(l, b)) && Total(Free(l, b)) == Total(l) + b.size
  {
    var (c, r) := Join(l, b);
    var k := Place(r, c);
    JoinShape(l, b);
    JoinDisjoint(l, b);
    InsertDisjoint(r, k, c);
    InsertTotal(r, k, c);
  }

  /** It leaves no two blocks touching if none touched before. */
  lemma FreeCoalesced(l: seq<Block>, b: Block)
    requires Joinable(l, b) && Coalesced(l)
    ensures Coalesced(Free(l, b))
  {
    var (c, r) := Join(l, b);
    JoinShape(l, b);
    JoinDisjoint(l, b);
    JoinCoalesced(l, b);
    InsertMembers(r, Place(r, c), c);
  }

  /** A new region that touches no listed block, put at the end of the list. */
  lemma AppendKeeps(l: seq<Block>, b: Block)
    requires Joinable(l, b)
    ensures Disjoint(l + [b]) && Total(l + [b]) == Total(l) + b.size
    ensures Coalesced(l) && (forall x :: x in l ==> !Touches(b, x)) ==> Coalesced(l + [b])
  {
    assert l + [b] == InsertAt(l, |l|, b);
    InsertDisjoint(l, |l|, b);
    InsertTotal(l, |l|, b);
    InsertMembers(l, |l|, b);
  }

  lemma AppendCovers(l: seq<Block>, b: Block, p: nat)
    ensures Covered(l + [b], p) <==> Covered(l, p) || b.Has(p)
  {
    assert forall x :: x in l + [b] <==> x in l || x == b;
  }

  // ------------------------------------------------------------------ the order of the list

  /** An allocation takes one block out of the list, whose remainder, if any, comes first; the others keep their
      order. */
  lemma AllocOrder(l: seq<Block>, n: nat)
    requires Alloc(l, n).0.Some?
    ensures var i, t := Fit(l, n), Alloc(l, n).1; var m := if l[i].size > n then 1 else 0;
      && |t| == m + |l| - 1
      && (m == 1 ==> t[0] == Block(l[i].base + n, l[i].size - n))
      && forall j :: m <= j < |t| ==> t[j] == l[if j - m < i then j - m else j - m + 1]
  {
    WithoutAt(l, Fit(l, n));
  }

  predicate Inside(x: Block, c: Block) { c.base <= x.base && x.End() <= c.End() }

  /** The blocks that are not part of `c`, in list order. */
  function Outside(l: seq<Block>, c: Block): seq<Block> {
    if l == [] then [] else (if Inside(l[0], c) then [] else [l[0]]) + Outside(l[1..], c)
  }

  lemma {:induction false} JoinGrows(l: seq<Block>, b: Block)
    ensures Inside(b, Join(l, b).0)
    decreases |l|
  {
    if l != [] {
      JoinGrows(l[1..], b);
      JoinGrows(l[1..], Block(b.base, b.size + l[0].size));
      JoinGrows(l[1..], Block(l[0].base, l[0].size + b.size));
    }
  }

  lemma JoinableTail(l: seq<Block>, b: Block)
    requires Joinable(l, b) && l != []
    ensures Joinable(l[1..], b)
    ensures b.End() == l[0].base ==> Joinable(l[1..], Block(b.base, b.size + l[0].size))
    ensures l[0].End() == b.base ==> Joinable(l[1..], Block(l[0].base, l[0].size + b.size))
    ensures b.size > 0 && l[0].size > 0 && Apart(b, l[0]) && forall y :: y in l[1..] ==> Apart(l[0], y)
  {
    assert l[0] in l;
    TailDisjoint(l);
  }

  /** What the joining pass keeps is what does not lie in the grown block. */
  lemma {:induction false} JoinOutside(l: seq<Block>, b: Block)
    requires Joinable(l, b)
    ensures Join(l, b).1 == Outside(l, Join(l, b).0)
    decreases |l|
  {
    hide Joinable, Disjoint;
    if l != [] {
      var t := l[1..];
      JoinableTail(l, b);
      if b.End() == l[0].base {
        JoinGrows(t, Block(b.base, b.size + l[0].size));
        JoinOutside(t, Block(b.base, b.size + l[0].size));
      } else if l[0].End() == b.base {
        JoinGrows(t, Block(l[0].base, l[0].size + b.size));
        JoinOutside(t, Block(l[0].base, l[0].size + b.size));
      } else {
        JoinOutside(t, b);
        JoinAvoids(t, b, l[0]);
      }
    }
  }

  /** Where a freed block ends up in a list of any order: grown to the free pages it touches, it stands before the
      first remaining block after it in memory, or last; the remaining blocks keep their order. */
  lemma FreeOrder(l: seq<Block>, b: Block) returns (c: Block, k: nat)
    requires Joinable(l, b) && Coalesced(l)
    ensures k <= |Outside(l, c)| && Free(l, b) == InsertAt(Outside(l, c), k, c)
    ensures (k < |Outside(l, c)| ==> c.End() <= Outside(l, c)[k].base)
      && forall j :: 0 <= j < k ==> Outside(l, c)[j].base < c.End()
    ensures Inside(b, c) && (forall p: nat :: c.Has(p) ==> b.Has(p) || Covered(l, p))
    ensures forall x :: x in Outside(l, c) ==> !Touches(c, x)
  {
    c := Join(l, b).0;
    k := Place(Join(l, b).1, c);
    JoinGrows(l, b);
    JoinOutside(l, b);
    JoinCoalesced(l, b);
    forall p: nat | c.Has(p) ensures b.Has(p) || Covered(l, p) { JoinCovers(l, b, p); }
  }

  // ------------------------------------------------------------------ address order

  ghost predicate ByAddress(l: seq<Block>) {
    forall i, j :: 0 <= i < j < |l| ==> l[i].base < l[j].base
  }

  lemma {:induction false} JoinByAddress(l: seq<Block>, b: Block)
    requires ByAddress(l)
    ensures ByAddress(Join(l, b).1)
    decreases |l|
  {
    if l != [] {
      var t := l[1..];
      JoinByAddress(t, b);
      JoinByAddress(t, Block(b.base, b.size + l[0].size));
      JoinByAddress(t, Block(l[0].base, l[0].size + b.size));
      var r := Join(t, b).1;
      JoinShape(t, b);
      forall i | 0 <= i < |r| ensures l[0].base < r[i].base {
        assert r[i] in t;
        var k :| 0 <= k < |t| && t[k] == r[i];
        assert t[k] == l[k + 1];
      }
    }
  }

  /** Freeing keeps an address-ordered list address-ordered. */
  lemma FreeByAddress(l: seq<Block>, b: Block)
    requires Joinable(l, b) && ByAddress(l)
    ensures ByAddress(Free(l, b))
  {
    var (c, r) := Join(l, b);
    var k := Place(r, c);
    JoinByAddress(l, b);
    JoinDisjoint(l, b);
    InsertMembers(r, k, c);
    forall i | 0 <= i < |r| ensures if i < k then r[i].base < c.base else c.base < r[i].base {
      assert r[i] in r && Apart(c, r[i]);
      assert k < i ==> r[k].base < r[i].base;
    }
  }

  /** Allocation does so only when it takes the first block or leaves no remainder:
      a remainder goes to the front of the list. */
  lemma AllocByAddressIff(l: seq<Block>, n: nat)
    requires Disjoint(l) && ByAddress(l) && n > 0 && Alloc(l, n).0.Some?
    ensures ByAddress(Alloc(l, n).1) <==> Fit(l, n) == 0 || l[Fit(l, n)].size == n
  {
    hide Without, Disjoint, Total, Fit;
    var i := Fit(l, n);
    FitFits(l, n);
    var t := Carve(l, i, n);
    WithoutAt(l, i);
    if l[i].size > n {
      if i > 0 {
        assert t[1] == l[0] && l[0].base < l[i].base;
        assert !(t[0].base < t[1].base);
      } else {
        FirstApart(l);
        assert forall k :: 0 < k < |t| ==> t[k] == l[k] && l[0].base < l[k].base && Apart(l[0], l[k]);
      }
    }
  }

  lemma FitFits(l: seq<Block>, n: nat)
    requires Fit(l, n) < |l|
    ensures l[Fit(l, n)].size >= n
  {
  }

  lemma FirstApart(l: seq<Block>)
    requires Disjoint(l)
    ensures forall k :: 0 < k < |l| ==> Apart(l[0], l[k]) && l[k].size > 0
  {
  }

  /** The remainder is the first block the next request looks at. */
  lemma RemainderServedNext(l: seq<Block>, n: nat, k: nat)
    requires Fit(l, n) < |l| && 0 < k <= l[Fit(l, n)].size - n
    ensures Alloc(Alloc(l, n).1, k).0 == Some(l[Fit(l, n)].base + n)
  {
    assert Carve(l, Fit(l, n), n)[0] == Block(l[Fit(l, n)].base + n, l[Fit(l, n)].size - n);
  }

  // ------------------------------------------------------------------ runs

  datatype Op = AllocOp(n: nat) | FreeOp(b: Block)

  /** The free list together with the pages its clients hold. */
  datatype Memory = Memory(free: seq<Block>, lent: set<nat>)

  ghost function PagesOf(b: Block): (s: set<nat>)
    ensures |s| == b.size && forall p: nat :: p in s <==> b.Has(p)
    decreases b.size
  {
    if b.size == 0 then {} else PagesOf(Block(b.base, b.size - 1)) + {b.base + b.size - 1}
  }

  /** Clients ask for at least one page and give back only pages they hold. */
  ghost predicate Legal(m: Memory, op: Op) {
    match op
    case AllocOp(n) => n > 0
    case FreeOp(b) => b.size > 0 && PagesOf(b) <= m.lent
  }

  ghost function Apply(m: Memory, op: Op): Memory {
    match op
    case AllocOp(n) =>
      var (r, t) := Alloc(m.free, n);
      Memory(t, if r.None? then m.lent else m.lent + PagesOf(Block(r.value, n)))
    case FreeOp(b) => Memory(Free(m.free, b), m.lent - PagesOf(b))
  }

  ghost function After(m: Memory, ops: seq<Op>): Memory
    decreases |ops|
  {
    if ops == [] then m else After(Apply(m, ops[0]), ops[1..])
  }

  ghost predicate LegalRun(m: Memory, ops: seq<Op>)
    decreases |ops|
  {
    ops != [] ==> Legal(m, ops[0]) && LegalRun(Apply(m, ops[0]), ops[1..])
  }

  /** Every page of the region is either free or lent, never both, and the free blocks are maximal. */
  ghost predicate Sound(m: Memory, region: set<nat>) {
    && Disjoint(m.free) && Coalesced(m.free)
    && (forall p :: p in region <==> Covered(m.free, p) || p in m.lent)
    && (forall p :: !(Covered(m.free, p) && p in m.lent))
  }

  lemma AllocSound(m: Memory, n: nat, region: set<nat>)
    requires Sound(m, region) && n > 0
    ensures Sound(Apply(m, AllocOp(n)), region)
    ensures Total(Apply(m, AllocOp(n)).free) + |Apply(m, AllocOp(n)).lent| == Total(m.free) + |m.lent|
  {
    var (r, t) := Alloc(m.free, n);
    if r.Some? {
      var b := Block(r.value, n);
      CarveKeeps(m.free, Fit(m.free, n), n);
      forall p: nat
        ensures (b.Has(p) ==> Covered(m.free, p)) && (Covered(t, p) <==> Covered(m.free, p) && !b.Has(p))
      {
        AllocCovers(m.free, n, p);
      }
      assert m.lent !! PagesOf(b);
    }
  }

  lemma LentIsApart(m: Memory, b: Block, region: set<nat>)
    requires Sound(m, region) && Legal(m, FreeOp(b))
    ensures Joinable(m.free, b)
  {
    forall x | x in m.free ensures Apart(b, x) {
      forall p: nat | b.Has(p) ensures !x.Has(p) {
        assert p in m.lent;
        assert x.Has(p) ==> Covered(m.free, p);
      }
      var i :| 0 <= i < |m.free| && m.free[i] == x;
      ApartByPages(b, x);
    }
  }

  lemma FreeSound(m: Memory, b: Block, region: set<nat>)
    requires Sound(m, region) && Legal(m, FreeOp(b))
    ensures Sound(Apply(m, FreeOp(b)), region)
    ensures Total(Apply(m, FreeOp(b)).free) + |Apply(m, FreeOp(b)).lent| == Total(m.free) + |m.lent|
  {
    LentIsApart(m, b, region);
    FreeKeeps(m.free, b);
    FreeCoalesced(m.free, b);
    forall p: nat ensures Covered(Free(m.free, b), p) <==> Covered(m.free, p) || b.Has(p) {
      FreeCovers(m.free, b, p);
    }
    assert m.lent == (m.lent - PagesOf(b)) + PagesOf(b);
  }

  lemma {:induction false} RunSound(m: Memory, ops: seq<Op>, region: set<nat>)
    requires Sound(m, region) && LegalRun(m, ops)
    ensures Sound(After(m, ops), region)
    ensures Total(After(m, ops).free) + |After(m, ops).lent| == Total(m.free) + |m.lent|
    decreases |ops|
  {
    if ops != [] {
      match ops[0] {
        case AllocOp(n) => AllocSound(m, n, region);
        case FreeOp(b) => FreeSound(m, b, region);
      }
      RunSound(Apply(m, ops[0]), ops[1..], region);
    }
  }

  lemma CoverIsOneBlock(l: seq<Block>, whole: Block)
    requires Disjoint(l) && Coalesced(l) && whole.size > 0
    requires forall p: nat :: Covered(l, p) <==> whole.Has(p)
    ensures l == [whole]
  {
    assert FreeRange(l, whole.base, whole.size);
    var i := OneBlock(l, whole.base, whole.size);
    forall j | 0 <= j < |l|
      ensures whole.base <= l[j].base && l[j].End() <= whole.End()
    {
      assert l[j] in l && l[j].Has(l[j].base) && l[j].Has(l[j].End() - 1);
      assert Covered(l, l[j].base) && Covered(l, l[j].End() - 1);
    }
    var first, last := l[0], l[|l| - 1];
  }

  /** Freeing everything, in any order, leaves one block covering the region. */
  lemma AllFreeIsOneBlock(m: Memory, ops: seq<Op>, whole: Block)
    requires whole.size > 0 && Sound(m, PagesOf(whole)) && LegalRun(m, ops) && After(m, ops).lent == {}
    ensures After(m, ops).free == [whole]
  {
    RunSound(m, ops, PagesOf(whole));
    CoverIsOneBlock(After(m, ops).free, whole);
  }

  /** Allocations and a free of one page, from six free pages. */
  lemma SplitTwice(m: Memory) returns (t: Memory)
    requires m == Memory([Block(0, 6)], {})
    ensures t == Apply(Apply(m, AllocOp(1)), AllocOp(1)) && t == Memory([Block(2, 4)], {0, 1})
  {
    hide Free;
    assert PagesOf(Block(0, 1)) == {0} && PagesOf(Block(1, 1)) == {1};
    AllocFromOne([Block(0, 6)], 1);
    AllocFromOne([Block(1, 5)], 1);
    assert {} + {0} == {0} && {0} + {1} == {0, 1};
    t := Memory([Block(2, 4)], {0, 1});
  }

  lemma ThenBackAndCut(m: Memory) returns (t: Memory)
    requires m == Memory([Block(2, 4)], {0, 1})
    ensures Legal(m, FreeOp(Block(0, 1)))
    ensures t == Apply(Apply(m, FreeOp(Block(0, 1))), AllocOp(2)) && t.free == [Block(4, 2), Block(0, 1)]
  {
    assert PagesOf(Block(0, 1)) == {0};
    FreeBefore([Block(2, 4)], Block(0, 1));
    assert [Block(0, 1)] + [Block(2, 4)] == [Block(0, 1), Block(2, 4)];
    FitsSecond([Block(0, 1), Block(2, 4)]);
    t := Apply(Apply(m, FreeOp(Block(0, 1))), AllocOp(2));
  }

  lemma AllocFromOne(l: seq<Block>, n: nat)
    requires |l| == 1 && l[0].size > n
    ensures Alloc(l, n) == (Some(l[0].base), [Block(l[0].base + n, l[0].size - n)])
  {
    AllocIsFirstFit(l, n, 0);
    assert Carve(l, 0, n) == [Block(l[0].base + n, l[0].size - n)];
  }

  lemma FreeBefore(l: seq<Block>, b: Block)
    requires |l| == 1 && b.End() < l[0].base
    ensures Free(l, b) == [b] + l
  {
    assert l[1..] == [] && [l[0]] + [] == l;
    assert Join([], b) == (b, []);
    assert Join(l, b) == (b, l);
    assert InsertAt(l, 0, b) == [b] + l;
  }

  lemma FitsSecond(l: seq<Block>)
    requires l == [Block(0, 1), Block(2, 4)]
    ensures Alloc(l, 2) == (Some(2), [Block(4, 2), Block(0, 1)])
  {
    AllocIsFirstFit(l, 2, 1);
    assert Carve(l, 1, 2) == [Block(4, 2), Block(0, 1)];
  }

  /** A run after which the list is out of address order. */
  lemma OrderIsLost()
    ensures var m, ops := Memory([Block(0, 6)], {}), [AllocOp(1), AllocOp(1), FreeOp(Block(0, 1)), AllocOp(2)];
      LegalRun(m, ops) && After(m, ops).free == [Block(4, 2), Block(0, 1)] && !ByAddress(After(m, ops).free)
  {
    hide Apply, Alloc, Free;
    var m := Memory([Block(0, 6)], {});
    var split := SplitTwice(m);
    var cut := ThenBackAndCut(split);
    var ops := [AllocOp(1), AllocOp(1), FreeOp(Block(0, 1)), AllocOp(2)];
    RunsOn(m, ops);
    RunsOn(Apply(m, AllocOp(1)), ops[1..]);
    RunsOn(split, ops[2..]);
    RunsOn(Apply(split, FreeOp(Block(0, 1))), ops[3..]);
    RunsOut(cut, ops[4..]);
    assert cut.free[0].base == 4 && cut.free[1].base == 0;
  }

  lemma RunsOn(m: Memory, ops: seq<Op>)
    requires ops != [] && Legal(m, ops[0])
    ensures After(m, ops) == After(Apply(m, ops[0]), ops[1..])
    ensures LegalRun(m, ops) <==> LegalRun(Apply(m, ops[0]), ops[1..])
  {
  }

  lemma RunsOut(m: Memory, ops: seq<Op>)
    requires ops == []
    ensures After(m, ops) == m && LegalRun(m, ops)
  {
  }
}
