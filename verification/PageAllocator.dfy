/** The physical page allocator: page descriptors and the intrusive ring of free blocks, updated in place.
    List entries are numbered like their pages; entry `npage` is the list head. */
module PageAllocator {
  import opened Basics
  import opened FirstFit

  datatype Page = Page(ref: int, reserved: bool, head: bool, property: nat)

  // ------------------------------------------------------------------ the ring

  /** The entry after position `k` of the ring `c`. */
  function Follow(c: seq<nat>, k: nat): nat
    requires k < |c|
  {
    if k + 1 < |c| then c[k + 1] else c[0]
  }

  ghost predicate Distinct(c: seq<nat>) { forall i, j :: 0 <= i < j < |c| ==> c[i] != c[j] }

  predicate Linked(prev: seq<nat>, next: seq<nat>, a: nat, b: nat) {
    && a < |next| && b < |prev|
    && next[a] == b && prev[b] == a
  }

  /** `prev` and `next` are mutually inverse around the ring `c`. */
  ghost predicate Ring(prev: seq<nat>, next: seq<nat>, c: seq<nat>) {
    && |prev| == |next| && |c| > 0 && Distinct(c)
    && (forall k :: 0 <= k < |c| ==> c[k] < |next|)
    && (forall k :: 0 <= k < |c| ==> Linked(prev, next, c[k], Follow(c, k)))
  }

  /** One link of a ring. */
  lemma RingLink(prev: seq<nat>, next: seq<nat>, c: seq<nat>, k: nat)
    requires Ring(prev, next, c) && k < |c|
    ensures Distinct(c) && |prev| == |next| && c[k] < |next| && Linked(prev, next, c[k], Follow(c, k))
  {
  }

  lemma FollowInRing(c: seq<nat>, j: nat, k: nat)
    requires Distinct(c) && j < |c| && k < |c|
    ensures Follow(c, j) in c && (j != k ==> c[j] != c[k] && Follow(c, j) != Follow(c, k))
  {
  }

  lemma InsertFollow(c: seq<nat>, k: nat, e: nat, i: nat)
    requires k < |c| && i <= |c|
    ensures var d := InsertAt(c, k + 1, e);
      && |d| == |c| + 1
      && d[i] == (if i <= k then c[i] else if i == k + 1 then e else c[i - 1])
      && Follow(d, i) == (if i < k then Follow(c, i) else if i == k then e else Follow(c, i - 1))
  {
  }

  lemma InsertLength(c: seq<nat>, k: nat, e: nat)
    requires k <= |c|
    ensures |InsertAt(c, k, e)| == |c| + 1
  {
  }

  lemma InsertDistinct(c: seq<nat>, k: nat, e: nat)
    requires k <= |c| && Distinct(c) && e !in c
    ensures Distinct(InsertAt(c, k, e))
  {
    InsertMembers(c, k, e);
  }

  lemma RingInsert(prev: seq<nat>, next: seq<nat>, c: seq<nat>, k: nat, e: nat)
    requires Ring(prev, next, c) && k < |c| && e !in c && e < |next|
    ensures Ring(prev[Follow(c, k) := e][e := c[k]], next[c[k] := e][e := Follow(c, k)], InsertAt(c, k + 1, e))
  {
    hide Distinct, InsertAt;
    var f := Follow(c, k);
    var d := InsertAt(c, k + 1, e);
    InsertLength(c, k + 1, e);
    InsertDistinct(c, k + 1, e);
    FollowInRing(c, k, k);
    var prev', next' := prev[f := e][e := c[k]], next[c[k] := e][e := f];
    forall i | 0 <= i < |d| ensures d[i] < |next'| && Linked(prev', next', d[i], Follow(d, i)) {
      InsertFollow(c, k, e, i);
      if i < k || i > k + 1 {
        var j := if i < k then i else i - 1;
        FollowInRing(c, j, k);
        assert Linked(prev, next, c[j], Follow(c, j));
      }
    }
  }

  lemma TailWithout(c: seq<nat>, k: nat)
    requires 0 < k < |c|
    ensures Without(c, k)[1..] == Without(c[1..], k - 1)
  {
  }

  lemma TailInsert(c: seq<nat>, e: nat)
    requires |c| > 0
    ensures InsertAt(c, 1, e)[1..] == [e] + c[1..]
  {
  }

  lemma WithoutFollow(c: seq<nat>, k: nat, i: nat)
    requires 0 < k < |c| && i < |c| - 1
    ensures var d: seq<nat> := Without(c, k);
      && |d| == |c| - 1
      && d[i] == c[if i < k then i else i + 1]
      && Follow(d, i) == (if i < k - 1 then Follow(c, i) else if i == k - 1 then Follow(c, k) else Follow(c, i + 1))
  {
  }

  lemma WithoutDistinct(c: seq<nat>, k: nat)
    requires k < |c| && Distinct(c)
    ensures Distinct(Without(c, k))
  {
  }

  lemma RingRemove(prev: seq<nat>, next: seq<nat>, c: seq<nat>, k: nat)
    requires Ring(prev, next, c) && 0 < k < |c|
    ensures prev[c[k]] == c[k - 1] && next[c[k]] == Follow(c, k)
    ensures Ring(prev[Follow(c, k) := c[k - 1]], next[c[k - 1] := Follow(c, k)], Without(c, k))
  {
    hide Distinct, Without, Linked, Follow;
    Neighbours(prev, next, c, k);
    WithoutDistinct(c, k);
    WithoutAt(c, k);
    var d: seq<nat> := Without(c, k);
    var prev', next' := prev[Follow(c, k) := c[k - 1]], next[c[k - 1] := Follow(c, k)];
    forall i: nat | i < |d| ensures d[i] < |next'| && Linked(prev', next', d[i], Follow(d, i)) {
      RemovedLink(prev, next, c, k, i);
    }
  }

  lemma Neighbours(prev: seq<nat>, next: seq<nat>, c: seq<nat>, k: nat)
    requires Ring(prev, next, c) && 0 < k < |c|
    ensures c[k] < |next| == |prev| && prev[c[k]] == c[k - 1] < |next| && next[c[k]] == Follow(c, k) < |prev|
  {
    hide Ring, Distinct;
    RingLink(prev, next, c, k - 1);
    RingLink(prev, next, c, k);
  }

  lemma RemovedLink(prev: seq<nat>, next: seq<nat>, c: seq<nat>, k: nat, i: nat)
    requires Ring(prev, next, c) && 0 < k < |c| && i < |c| - 1
    ensures c[k - 1] < |next| && Follow(c, k) < |prev|
    ensures var d: seq<nat>, f: nat := Without(c, k), Follow(c, k);
      |d| == |c| - 1 && d[i] < |next| && Linked(prev[f := c[k - 1]], next[c[k - 1] := f], d[i], Follow(d, i))
  {
    hide Ring, Distinct, Without;
    RingLink(prev, next, c, k - 1);
    RingLink(prev, next, c, k);
    WithoutFollow(c, k, i);
    var j := if i < k then i else i + 1;
    RingLink(prev, next, c, j);
    FollowInRing(c, j, k);
    FollowInRing(c, j, k - 1);
  }

  // ------------------------------------------------------------------ page descriptors

  ghost predicate InRange(heads: seq<nat>, n: nat) { forall i :: 0 <= i < |heads| ==> heads[i] < n }

  ghost function BlocksOf(pages: seq<Page>, heads: seq<nat>): (l: seq<Block>)
    requires InRange(heads, |pages|)
    ensures |l| == |heads|
    ensures forall i :: 0 <= i < |heads| ==> l[i] == Block(heads[i], pages[heads[i]].property)
  {
    seq(|heads|, i requires 0 <= i < |heads| => Block(heads[i], pages[heads[i]].property))
  }

  /** The descriptors agree with the list of block heads. A reserved page is not managed yet, and its
      other bits mean nothing. */
  ghost predicate Described(pages: seq<Page>, heads: seq<nat>) {
    && InRange(heads, |pages|)
    && var l := BlocksOf(pages, heads);
       && Disjoint(l)
       && (forall i :: 0 <= i < |l| ==> l[i].End() <= |pages|)
       && (forall q :: 0 <= q < |pages| && Covered(l, q) ==> !pages[q].reserved && pages[q].ref == 0)
       && (forall q :: 0 <= q < |pages| && !pages[q].reserved ==> (pages[q].head <==> q in heads))
  }

  /** A listed page is the first page of its own block and lies in no other one. */
  lemma HeadsApart(pages: seq<Page>, heads: seq<nat>, i: nat, q: nat)
    requires Described(pages, heads) && i < |heads|
    requires heads[i] <= q < heads[i] + pages[heads[i]].property
    ensures q < |pages| && !pages[q].reserved && pages[q].ref == 0
    ensures q in heads ==> q == heads[i]
  {
    var l := BlocksOf(pages, heads);
    assert l[i] in l && l[i].Has(q);
    if q in heads {
      var j :| 0 <= j < |heads| && heads[j] == q;
      var lo, hi := if i < j then i else j, if i < j then j else i;
      var x, y := l[lo], l[hi];
    }
  }

  /** The descriptors after block `i` gave up its first `n` pages. */
  ghost function Carved(pages: seq<Page>, b: nat, n: nat): seq<Page>
    requires b < |pages| && n > 0 && b + pages[b].property <= |pages| && pages[b].property >= n
  {
    var size := pages[b].property;
    (if size > n then pages[b + n := pages[b + n].(property := size - n, head := true)] else pages)
      [b := pages[b].(head := false)]
  }

  ghost function CarvedHeads(pages: seq<Page>, heads: seq<nat>, i: nat, n: nat): seq<nat>
    requires i < |heads| && heads[i] < |pages|
  {
    (if pages[heads[i]].property > n then [heads[i] + n] else []) + Without(heads, i)
  }

  lemma BlocksWithout(pages: seq<Page>, heads: seq<nat>, i: nat)
    requires InRange(heads, |pages|) && i < |heads|
    ensures InRange(Without(heads, i), |pages|)
    ensures BlocksOf(pages, Without(heads, i)) == Without(BlocksOf(pages, heads), i)
  {
  }

  /** The list of blocks depends only on the sizes stored at its heads. */
  lemma BlocksAgree(pages: seq<Page>, t: seq<Page>, heads: seq<nat>)
    requires InRange(heads, |pages|) && |t| == |pages|
    requires forall q :: q in heads ==> t[q].property == pages[q].property
    ensures BlocksOf(t, heads) == BlocksOf(pages, heads)
  {
    assert forall i :: 0 <= i < |heads| ==> heads[i] in heads;
  }

  lemma BlocksCons(pages: seq<Page>, h: nat, heads: seq<nat>)
    requires InRange(heads, |pages|) && h < |pages|
    ensures InRange([h] + heads, |pages|)
    ensures BlocksOf(pages, [h] + heads) == [Block(h, pages[h].property)] + BlocksOf(pages, heads)
  {
  }

  lemma CarvedBlocks(pages: seq<Page>, heads: seq<nat>, i: nat, n: nat)
    requires Described(pages, heads) && Distinct(heads) && i < |heads| && 0 < n <= pages[heads[i]].property
    requires heads[i] + pages[heads[i]].property <= |pages|
    ensures InRange(CarvedHeads(pages, heads, i, n), |pages|)
    ensures BlocksOf(Carved(pages, heads[i], n), CarvedHeads(pages, heads, i, n)) == Carve(BlocksOf(pages, heads), i, n)
  {
    hide Disjoint, Covered, BlocksOf, Without, Distinct;
    var b := heads[i];
    var t := Carved(pages, b, n);
    var h := Without(heads, i);
    BlocksWithout(pages, heads, i);
    if pages[b].property > n { HeadsApart(pages, heads, i, b + n); }
    forall q: nat | q in h ensures t[q].property == pages[q].property {
      WithoutMembers(heads, i, q);
    }
    BlocksAgree(pages, t, h);
    if pages[b].property > n { BlocksCons(t, b + n, h); }
  }

  lemma WithoutMembers(heads: seq<nat>, i: nat, q: nat)
    requires Distinct(heads) && i < |heads|
    ensures q in Without(heads, i) <==> q in heads && q != heads[i]
  {
    assert heads == heads[..i] + [heads[i]] + heads[i + 1..];
    assert q in Without(heads, i) <==> q in heads[..i] || q in heads[i + 1..];
  }

  lemma CarvedDescribed(pages: seq<Page>, heads: seq<nat>, i: nat, n: nat)
    requires Described(pages, heads) && Distinct(heads) && i < |heads| && 0 < n <= pages[heads[i]].property
    requires heads[i] + pages[heads[i]].property <= |pages|
    ensures var t := Carved(pages, heads[i], n);
      Described(t, CarvedHeads(pages, heads, i, n)) && SameUse(pages, t) && Usable(t, heads[i], n)
  {
    hide Disjoint, BlocksOf, Carve, Covered, CarvedHeads, Distinct;
    var l := BlocksOf(pages, heads);
    var b := heads[i];
    var t, h := Carved(pages, b, n), CarvedHeads(pages, heads, i, n);
    CarvedBlocks(pages, heads, i, n);
    CarveDisjoint(l, i, n);
    forall k | 0 <= k < |Carve(l, i, n)| ensures Carve(l, i, n)[k].End() <= |pages| {
      CarveIn(l, i, n, Carve(l, i, n)[k]);
    }
    forall q | 0 <= q < |pages| && Covered(Carve(l, i, n), q) ensures !t[q].reserved && t[q].ref == 0 {
      CarveCovers(l, i, n, q);
    }
    forall q: nat | q < |pages| ensures q in h <==> (q in heads && q != b) || (q == b + n && pages[b].property > n) {
      CarvedHeadsMembers(pages, heads, i, n, q);
    }
    if pages[b].property > n { HeadsApart(pages, heads, i, b + n); }
    forall q | b <= q < b + n ensures !t[q].reserved && !t[q].head && t[q].ref == 0 {
      HeadsApart(pages, heads, i, q);
    }
  }

  lemma CarvedHeadsMembers(pages: seq<Page>, heads: seq<nat>, i: nat, n: nat, q: nat)
    requires InRange(heads, |pages|) && Distinct(heads) && i < |heads|
    ensures q in CarvedHeads(pages, heads, i, n) <==>
      (q in heads && q != heads[i]) || (q == heads[i] + n && pages[heads[i]].property > n)
  {
    WithoutMembers(heads, i, q);
  }

  /** No reference count and no reserved bit differs. */
  ghost predicate SameUse(a: seq<Page>, b: seq<Page>) {
    |a| == |b| && forall q :: 0 <= q < |a| ==> a[q].ref == b[q].ref && a[q].reserved == b[q].reserved
  }

  lemma SameUseRefl(a: seq<Page>)
    ensures SameUse(a, a)
  {
  }

  lemma SameUseTrans(a: seq<Page>, b: seq<Page>, c: seq<Page>)
    requires SameUse(a, b) && SameUse(b, c)
    ensures SameUse(a, c)
  {
  }

  /** `n` pages from `b` on, ready for a client: managed, unreferenced, and no block's head. */
  ghost predicate Usable(pages: seq<Page>, b: nat, n: nat) {
    && b + n <= |pages|
    && forall q :: b <= q < b + n ==> !pages[q].reserved && !pages[q].head && pages[q].ref == 0
  }

  /** Exactly the listed pages and `base` carry the head mark. */
  ghost predicate HeadsMarked(pages: seq<Page>, heads: seq<nat>, base: nat) {
    forall q :: 0 <= q < |pages| && !pages[q].reserved ==> (pages[q].head <==> q in heads || q == base)
  }

  /** Taking out entry `i` and changing no size stored at another listed head. */
  lemma TakeOut(pages: seq<Page>, t: seq<Page>, heads: seq<nat>, i: nat)
    requires InRange(heads, |pages|) && Distinct(heads) && i < |heads| && |t| == |pages|
    requires forall q :: q in heads && q != heads[i] ==> t[q].property == pages[q].property
    ensures InRange(Without(heads, i), |pages|)
    ensures BlocksOf(t, Without(heads, i)) == Without(BlocksOf(pages, heads), i)
    ensures forall q :: q in Without(heads, i) <==> q in heads && q != heads[i]
  {
    BlocksWithout(pages, heads, i);
    forall q: nat ensures q in Without(heads, i) <==> q in heads && q != heads[i] {
      WithoutMembers(heads, i, q);
    }
    BlocksAgree(pages, t, Without(heads, i));
  }

  /** Two blocks joined: `keep` stays a head and gets both sizes, `lose` is a head no more. */
  ghost function Joined(pages: seq<Page>, keep: nat, lose: nat): seq<Page>
    requires keep < |pages| && lose < |pages| && keep != lose
  {
    pages[keep := pages[keep].(property := pages[keep].property + pages[lose].property)]
         [lose := pages[lose].(head := false)]
  }

  lemma JoinedMarks(pages: seq<Page>, heads: seq<nat>, i: nat, base: nat, keep: nat)
    requires InRange(heads, |pages|) && Distinct(heads) && i < |heads| && base < |pages| && base !in heads
    requires HeadsMarked(pages, heads, base) && keep in {base, heads[i]}
    ensures var t := Joined(pages, keep, if keep == base then heads[i] else base);
      && InRange(Without(heads, i), |pages|)
      && HeadsMarked(t, Without(heads, i), keep) && SameUse(pages, t)
      && BlocksOf(t, Without(heads, i)) == Without(BlocksOf(pages, heads), i)
  {
    TakeOut(pages, Joined(pages, keep, if keep == base then heads[i] else base), heads, i);
    assert heads[i] in heads;
  }

  lemma RingTail(prev: seq<nat>, next: seq<nat>, c: seq<nat>, i: nat)
    requires Ring(prev, next, c) && i + 1 < |c|
    ensures Distinct(c) && Distinct(c[1..]) && Without(c, i + 1)[1..] == Without(c[1..], i) && c[1..][i] == c[i + 1]
    ensures forall q :: q in c[1..] ==> q in c
  {
    TailWithout(c, i + 1);
  }

  /** Inserting entry `base` after position `k` of the ring inserts its block at position `k`. */
  lemma SettledBlocks(pages: seq<Page>, ring: seq<nat>, k: nat, base: nat)
    requires k < |ring| && InRange(ring[1..], |pages|) && base < |pages|
    ensures var heads := InsertAt(ring, k + 1, base)[1..];
      && InRange(heads, |pages|)
      && BlocksOf(pages, heads) == InsertAt(BlocksOf(pages, ring[1..]), k, Block(base, pages[base].property))
      && forall q :: q in heads <==> q == base || q in ring[1..]
  {
    assert InsertAt(ring, k + 1, base)[1..] == InsertAt(ring[1..], k, base);
    InsertMembers(ring[1..], k, base);
  }

  /** Reference counts and reserved bits after pages were cleared for the free list. */
  ghost predicate Released(a: seq<Page>, b: seq<Page>, base: nat, n: nat) {
    |a| == |b| && forall q :: 0 <= q < |a| ==>
      if base <= q < base + n then b[q].ref == 0 && !b[q].reserved
      else b[q].ref == a[q].ref && b[q].reserved == a[q].reserved
  }

  ghost function Cleared(pages: seq<Page>, base: nat, n: nat): seq<Page> {
    seq(|pages|, q requires 0 <= q < |pages| =>
      if base <= q < base + n then pages[q].(ref := 0, reserved := false, head := false) else pages[q])
  }

  ghost function Marked(pages: seq<Page>, base: nat, n: nat): seq<Page>
    requires base < |pages|
  {
    var t := Cleared(pages, base, n);
    t[base := t[base].(property := n, head := true)]
  }

  lemma MarkedForJoin(pages: seq<Page>, heads: seq<nat>, base: nat, n: nat)
    requires Described(pages, heads) && n > 0 && base + n <= |pages|
    requires forall q :: base <= q < base + n ==> !pages[q].reserved && !pages[q].head
    requires Joinable(BlocksOf(pages, heads), Block(base, n))
    ensures var t := Marked(pages, base, n);
      && base !in heads && |t| == |pages|
      && HeadsMarked(t, heads, base) && Released(pages, t, base, n)
      && BlocksOf(t, heads) == BlocksOf(pages, heads)
      && t[base].property == n
  {
    BlocksAgree(pages, Marked(pages, base, n), heads);
  }

  /** The descriptors after a free: `l1` and `base` are what the joining pass left, `h2` the final list. */
  lemma FreedDescribed(pages: seq<Page>, t: seq<Page>, h0: seq<nat>, h1: seq<nat>, h2: seq<nat>, base0: nat, n: nat,
      base: nat)
    requires Described(pages, h0) && n > 0 && base0 + n <= |pages| && Joinable(BlocksOf(pages, h0), Block(base0, n))
    requires SameUse(Marked(pages, base0, n), t) && Released(pages, Marked(pages, base0, n), base0, n)
    requires HeadsMarked(t, h1, base) && InRange(h2, |t|) && forall q :: q in h2 <==> q == base || q in h1
    requires BlocksOf(t, h2) == Free(BlocksOf(pages, h0), Block(base0, n))
    ensures Described(t, h2) && Released(pages, t, base0, n)
    ensures Total(BlocksOf(t, h2)) == Total(BlocksOf(pages, h0)) + n
  {
    var l, b := BlocksOf(pages, h0), Block(base0, n);
    var f := Free(l, b);
    FreeKeeps(l, b);
    forall q: nat
      ensures Covered(f, q) <==> Covered(l, q) || b.Has(q)
      ensures Covered(l, q) ==> q < |pages|
    {
      FreeCovers(l, b, q);
    }
    forall i | 0 <= i < |f| ensures f[i].End() <= |t| {
      var last: nat := f[i].End() - 1;
      assert f[i] in f && f[i].Has(last);
      assert Covered(f, last);
    }
  }

  function MappedPage(base: nat, n: nat, q: nat): Page {
    Page(0, false, q == base, if q == base then n else 0)
  }

  ghost function Mapped(pages: seq<Page>, base: nat, n: nat): seq<Page> {
    seq(|pages|, q requires 0 <= q < |pages| => if base <= q < base + n then MappedPage(base, n, q) else pages[q])
  }

  /** Reserved pages lie in no free block. */
  lemma ReservedApart(pages: seq<Page>, heads: seq<nat>, base: nat, n: nat)
    requires Described(pages, heads) && n > 0 && base + n <= |pages|
    requires forall q :: base <= q < base + n ==> pages[q].reserved
    ensures Joinable(BlocksOf(pages, heads), Block(base, n))
    ensures forall i :: 0 <= i < |heads| ==> heads[i] < base || base + n <= heads[i]
  {
    var l, b := BlocksOf(pages, heads), Block(base, n);
    forall i | 0 <= i < |l| ensures Apart(b, l[i]) && !b.Has(l[i].base) {
      forall p: nat | b.Has(p) ensures !l[i].Has(p) {
        CoveredBy(l, i, p);
      }
      ApartByPages(b, l[i]);
    }
  }

  lemma MappedBlocks(pages: seq<Page>, heads: seq<nat>, base: nat, n: nat)
    requires InRange(heads, |pages|) && n > 0 && base + n <= |pages|
    requires forall i :: 0 <= i < |heads| ==> heads[i] < base || base + n <= heads[i]
    ensures InRange(heads + [base], |pages|)
    ensures BlocksOf(Mapped(pages, base, n), heads + [base]) == BlocksOf(pages, heads) + [Block(base, n)]
  {
  }

  /** So a region of them can be listed. */
  lemma MappedDescribed(pages: seq<Page>, heads: seq<nat>, base: nat, n: nat)
    requires Described(pages, heads) && n > 0 && base + n <= |pages|
    requires forall q :: base <= q < base + n ==> pages[q].reserved
    ensures var l, b, t := BlocksOf(pages, heads), Block(base, n), Mapped(pages, base, n);
      && base !in heads && Joinable(l, b)
      && InRange(heads + [base], |t|) && BlocksOf(t, heads + [base]) == l + [b]
      && Described(t, heads + [base]) && Released(pages, t, base, n) && Total(l + [b]) == Total(l) + n
  {
    hide Total, Joinable, BlocksOf, Disjoint, Coalesced, Covered;
    var l, b, t := BlocksOf(pages, heads), Block(base, n), Mapped(pages, base, n);
    ReservedApart(pages, heads, base, n);
    AppendKeeps(l, b);
    MappedBlocks(pages, heads, base, n);
    forall q: nat ensures Covered(l + [b], q) <==> Covered(l, q) || b.Has(q) {
      AppendCovers(l, b, q);
    }
  }

  class FreeArea {
    const npage: nat
    const page: array<Page>
    const prev: array<nat>
    const next: array<nat>
    var nrFree: nat
    ghost var ring: seq<nat>

    ghost predicate Shape()
      reads this, prev, next
    {
      && page.Length == npage && prev.Length == npage + 1 && next.Length == npage + 1 && prev != next
      && Ring(prev[..], next[..], ring) && |ring| > 0 && ring[0] == npage && InRange(ring[1..], npage)
    }

    ghost predicate Valid()
      reads this, page, prev, next
    {
      && Shape()
      && Described(page[..], ring[1..])
      && nrFree == Total(Blocks())
    }

    /** The free blocks in list order. */
    ghost function Blocks(): seq<Block>
      reads this, page, prev, next
      requires Shape()
    {
      BlocksOf(page[..], ring[1..])
    }

    constructor (pages: seq<Page>)
      requires forall q :: 0 <= q < |pages| ==> pages[q].reserved
      ensures Valid() && Blocks() == [] && page[..] == pages && npage == |pages|
      ensures fresh(page) && fresh(prev) && fresh(next)
    {
      var n := |pages|;
      npage := n;
      page := new Page[n](i requires 0 <= i < n => pages[i]);
      var p := new nat[n + 1];
      var x := new nat[n + 1];
      p[n], x[n] := n, n;
      prev, next := p, x;
      nrFree := 0;
      ring := [n];
    }

    /** __list_add: `elm` goes between the entries at positions `k` and `k + 1` of the ring. */
    method ListAdd(elm: nat, prv: nat, nxt: nat, ghost k: nat)
      requires Shape() && k < |ring| && prv == ring[k] && nxt == Follow(ring, k) && elm < npage && elm !in ring
      modifies `ring, prev, next
      ensures Shape() && ring == InsertAt(old(ring), k + 1, elm)
    {
      RingInsert(prev[..], next[..], ring, k, elm);
      FollowInRing(ring, k, k);
      ghost var was: seq<nat>, was': seq<nat> := prev[..], next[..];
      prev[nxt] := elm;
      next[prv] := elm;
      next[elm] := nxt;
      prev[elm] := prv;
      assert prev[..] == was[nxt := elm][elm := prv];
      assert next[..] == was'[prv := elm][elm := nxt];
      ring := InsertAt(ring, k + 1, elm);
    }

    /** __list_del: the entry keeps its own links, so a walk standing on it can go on. */
    method ListDel(elm: nat, ghost k: nat)
      requires Shape() && 0 < k < |ring| && elm == ring[k]
      modifies `ring, prev, next
      ensures Shape() && ring == Without(old(ring), k)
      ensures next[elm] == old(next[elm]) == Follow(old(ring), k)
    {
      RingRemove(prev[..], next[..], ring, k);
      var prv, nxt := prev[elm], next[elm];
      ghost var was: seq<nat>, was': seq<nat> := prev[..], next[..];
      next[prv] := nxt;
      prev[nxt] := prv;
      assert prev[..] == was[nxt := prv];
      assert next[..] == was'[prv := nxt];
      ring := Without(ring, k);
    }

    /** The walk of default_alloc_pages: the first listed block of at least `n` pages. */
    method FindFit(n: nat) returns (r: Option<nat>, ghost i: nat)
      requires Valid()
      ensures i == Fit(Blocks(), n)
      ensures r == if Fit(Blocks(), n) < |Blocks()| then Some(ring[Fit(Blocks(), n) + 1]) else None
    {
      hide Ring, Fit, Disjoint, Described;
      r := None;
      var le: nat := npage;
      i := 0;
      while next[le] != npage
        invariant 0 <= i < |ring| && le == ring[i]
        invariant forall j :: 0 <= j < i ==> Blocks()[j].size < n
        decreases |ring| - i
      {
        RingLink(prev[..], next[..], ring, i);
        le := next[le];
        if page[le].property >= n {
          AllocIsFirstFit(Blocks(), n, i);
          return Some(le), i;
        }
        i := i + 1;
      }
      RingLink(prev[..], next[..], ring, i);
      AllocIsFirstFit(Blocks(), n, i);
    }

    lemma Facts()
      requires Valid()
      ensures |ring| > 0 && Distinct(ring) && Distinct(ring[1..]) && Disjoint(Blocks()) && SameUse(page[..], page[..])
      ensures forall i :: 0 <= i < |Blocks()| ==> Blocks()[i].base < Blocks()[i].End() <= npage && ring[i + 1] != npage
    {
    }

    /** Cutting `n` pages off the front of block `b`, the entry at position `i + 1` of the ring. */
    method Cut(b: nat, n: nat, ghost i: nat)
      requires Shape() && i + 1 < |ring| && ring[i + 1] == b < npage && 0 < n <= page[b].property
      requires b + page[b].property <= npage
      requires forall q :: b < q < b + page[b].property ==> q !in ring
      modifies `ring, page, prev, next
      ensures Shape()
      ensures ring[1..] == CarvedHeads(old(page[..]), old(ring[1..]), i, n)
      ensures page[..] == Carved(old(page[..]), b, n)
    {
      hide Ring;
      ghost var was := page[..];
      RingLink(prev[..], next[..], ring, i + 1);
      TailWithout(ring, i + 1);
      WithoutMembers(ring, i + 1, b + n);
      ListDel(b, i + 1);
      if page[b].property > n {
        var p := b + n;
        assert p !in old(ring);
        page[p] := page[p].(property := page[b].property - n);
        page[p] := page[p].(head := true);
        assert page[..] == was[p := was[p].(property := was[b].property - n, head := true)];
        TailInsert(ring, p);
        RingLink(prev[..], next[..], ring, 0);
        ListAdd(p, npage, next[npage], 0);
      }
      ghost var grown := page[..];
      page[b] := page[b].(head := false);
      assert page[..] == grown[b := grown[b].(head := false)];
    }

    /** The bookkeeping after a fit was found. */
    method Grant(b: nat, n: nat, ghost i: nat)
      requires Valid() && 0 < n && i < |Blocks()| && ring[i + 1] == b && n <= Blocks()[i].size
      modifies this, page, prev, next
      ensures Valid() && Blocks() == Carve(old(Blocks()), i, n)
      ensures SameUse(old(page[..]), page[..]) && Usable(page[..], b, n)
    {
      hide Ring, Described, SameUse, Usable, Carved, CarvedHeads, Carve, BlocksOf, Disjoint, Distinct, Coalesced, Total;
      Facts();
      ghost var was, heads: seq<nat> := page[..], ring[1..];
      CarvedDescribed(was, heads, i, n);
      CarvedBlocks(was, heads, i, n);
      CarveKeeps(Blocks(), i, n);
      forall q | b < q < b + page[b].property ensures q !in ring {
        HeadsApart(was, heads, i, q);
      }
      Cut(b, n, i);
      nrFree := nrFree - n;
    }

    /** default_alloc_pages: first fit in list order. */
    method AllocPages(n: nat) returns (r: Option<nat>)
      requires Valid() && n > 0
      modifies this, page, prev, next
      ensures Valid() && (r, Blocks()) == Alloc(old(Blocks()), n)
      ensures SameUse(old(page[..]), page[..]) && (r.Some? ==> Usable(page[..], r.value, n))
    {
      hide Ring, Described;
      if n > nrFree {
        BigRequestFails(Blocks(), n);
        return None;
      }
      ghost var i;
      r, i := FindFit(n);
      if r.Some? { Grant(r.value, n, i); }
    }

    /** The block `p`, which starts where the growing block at `base` ends, joins it. */
    method JoinRight(base: nat, p: nat, ghost i: nat)
      requires Shape() && base < npage && base !in ring && i + 1 < |ring| && p == ring[i + 1]
      requires HeadsMarked(page[..], ring[1..], base)
      modifies `ring, page, prev, next
      ensures Shape() && base !in ring && ring == Without(old(ring), i + 1)
      ensures next[p] == Follow(old(ring), i + 1)
      ensures HeadsMarked(page[..], ring[1..], base) && SameUse(old(page[..]), page[..])
      ensures Blocks() == Without(old(Blocks()), i)
      ensures page[base].property == old(page[base].property + page[p].property)
    {
      hide Ring, HeadsMarked, SameUse, BlocksOf, Without, Distinct;
      ghost var was := page[..];
      RingTail(prev[..], next[..], ring, i);
      JoinedMarks(was, ring[1..], i, base, base);
      WithoutMembers(ring, i + 1, base);
      page[base] := page[base].(property := page[base].property + page[p].property);
      page[p] := page[p].(head := false);
      assert page[..] == Joined(was, base, p);
      ListDel(p, i + 1);
    }

    /** The block `p`, which ends where the growing block at `base` starts, takes it over. */
    method JoinLeft(base: nat, p: nat, ghost i: nat)
      requires Shape() && base < npage && base !in ring && i + 1 < |ring| && p == ring[i + 1]
      requires HeadsMarked(page[..], ring[1..], base)
      modifies `ring, page, prev, next
      ensures Shape() && p !in ring && ring == Without(old(ring), i + 1)
      ensures next[p] == Follow(old(ring), i + 1)
      ensures HeadsMarked(page[..], ring[1..], p) && SameUse(old(page[..]), page[..])
      ensures Blocks() == Without(old(Blocks()), i)
      ensures page[p].property == old(page[p].property + page[base].property)
    {
      hide Ring, HeadsMarked, SameUse, BlocksOf, Without, Distinct;
      ghost var was := page[..];
      RingTail(prev[..], next[..], ring, i);
      JoinedMarks(was, ring[1..], i, base, p);
      WithoutMembers(ring, i + 1, p);
      page[p] := page[p].(property := page[p].property + page[base].property);
      page[base] := page[base].(head := false);
      assert page[..] == Joined(was, p, base);
      ListDel(p, i + 1);
    }

    /** First pass of default_free_pages over the list: take out and join every block that touches the
        growing block; a taken-out entry still leads to its successor. */
    method Absorb(base0: nat) returns (base: nat)
      requires Shape() && base0 < npage && base0 !in ring
      requires HeadsMarked(page[..], ring[1..], base0)
      modifies `ring, page, prev, next
      ensures Shape() && base < npage && base !in ring
      ensures HeadsMarked(page[..], ring[1..], base) && SameUse(old(page[..]), page[..])
      ensures (Block(base, page[base].property), Blocks())
        == Join(old(Blocks()), Block(base0, old(page[base0].property)))
    {
      hide Ring, Distinct, BlocksOf, Join, JoinFrom, HeadsMarked, SameUse;
      base := base0;
      var le: nat := npage;
      ghost var i := 0;
      SameUseRefl(page[..]);
      RingLink(prev[..], next[..], ring, 0);
      JoinFromStart(Blocks(), Block(base, page[base].property));
      while next[le] != npage
        invariant Shape() && base < npage && base !in ring
        invariant 0 <= i < |ring| && le <= npage && next[le] == Follow(ring, i)
        invariant HeadsMarked(page[..], ring[1..], base) && SameUse(old(page[..]), page[..])
        invariant JoinFrom(Blocks(), i, Block(base, page[base].property))
               == Join(old(Blocks()), Block(base0, old(page[base0].property)))
        decreases |ring| - i
      {
        ghost var pages, l := page[..], Blocks();
        le := next[le];
        if base + page[base].property == le {
          JoinTake(l, i, Block(base, page[base].property), Block(base, page[base].property + page[le].property));
          JoinRight(base, le, i);
          SameUseTrans(old(page[..]), pages, page[..]);
        } else if le + page[le].property == base {
          JoinTake(l, i, Block(base, page[base].property), Block(le, page[le].property + page[base].property));
          JoinLeft(base, le, i);
          base := le;
          SameUseTrans(old(page[..]), pages, page[..]);
        } else {
          JoinKeep(l, i, Block(base, page[base].property));
          RingLink(prev[..], next[..], ring, i + 1);
          i := i + 1;
        }
      }
      JoinFromEnd(Blocks(), Block(base, page[base].property));
    }

    /** The second walk of default_free_pages: the first entry lying after the block at `base`. */
    method FindPlace(base: nat) returns (le: nat, ghost i: nat)
      requires Shape() && base < npage
      ensures i == Place(Blocks(), Block(base, page[base].property)) && le == Follow(ring, i)
      ensures le <= npage && prev[le] == ring[i]
    {
      hide Ring, Distinct, BlocksOf;
      RingLink(prev[..], next[..], ring, 0);
      le := next[npage];
      i := 0;
      while le != npage
        invariant 0 <= i < |ring| && le == Follow(ring, i) && le <= npage
        invariant forall j :: 0 <= j < i ==> base + page[base].property > Blocks()[j].base
        decreases |ring| - i
      {
        if base + page[base].property <= le { break; }
        RingLink(prev[..], next[..], ring, i);
        RingLink(prev[..], next[..], ring, i + 1);
        le := next[le];
        i := i + 1;
      }
      RingLink(prev[..], next[..], ring, i);
    }

    /** The first loop of default_free_pages. */
    method Clear(base: nat, n: nat)
      requires page.Length == npage && base + n <= npage
      requires forall q :: base <= q < base + n ==> !page[q].reserved && !page[q].head
      modifies page
      ensures page[..] == Cleared(old(page[..]), base, n)
    {
      var p := base;
      while p != base + n
        invariant base <= p <= base + n
        invariant forall q :: 0 <= q < npage ==>
          page[q] == if base <= q < p then old(page[q]).(ref := 0, reserved := false, head := false) else old(page[q])
      {
        page[p] := page[p].(reserved := false, head := false);
        page[p] := page[p].(ref := 0);
        p := p + 1;
      }
    }

    /** default_free_pages: join the pages with every block they touch and list the result. */
    method FreePages(base0: nat, n: nat)
      requires Valid() && n > 0 && base0 + n <= npage
      requires forall q :: base0 <= q < base0 + n ==> !page[q].reserved && !page[q].head
      requires Joinable(Blocks(), Block(base0, n))
      modifies this, page, prev, next
      ensures Valid() && Blocks() == Free(old(Blocks()), Block(base0, n))
      ensures Released(old(page[..]), page[..], base0, n)
    {
      hide Ring, Distinct, Described, HeadsMarked, SameUse, Released, BlocksOf, Joinable, Join, Place, Total;
      ghost var was, l, heads: seq<nat> := page[..], Blocks(), ring[1..];
      MarkedForJoin(was, heads, base0, n);
      Clear(base0, n);
      page[base0] := page[base0].(property := n);
      page[base0] := page[base0].(head := true);
      assert page[..] == Marked(was, base0, n);
      var base := Absorb(base0);
      var le;
      ghost var i;
      le, i := FindPlace(base);
      nrFree := nrFree + n;
      SettledBlocks(page[..], ring, i, base);
      FreedDescribed(was, page[..], heads, ring[1..], InsertAt(ring, i + 1, base)[1..], base0, n, base);
      ListAdd(base, prev[le], le, i);
    }

    /** default_init_memmap: a region of reserved pages becomes one free block at the end of the list. */
    method InitMemmap(base: nat, n: nat)
      requires Valid() && n > 0 && base + n <= npage
      requires forall q :: base <= q < base + n ==> page[q].reserved
      modifies this, page, prev, next
      ensures Valid() && Blocks() == old(Blocks()) + [Block(base, n)]
      ensures Released(old(page[..]), page[..], base, n)
      ensures old(Joinable(Blocks(), Block(base, n)))
    {
      hide Ring, Distinct, Described, Released, BlocksOf, Joinable, Total;
      ghost var was, heads: seq<nat> := page[..], ring[1..];
      MappedDescribed(was, heads, base, n);
      Initialise(base, n);
      SettledBlocks(page[..], ring, |ring| - 1, base);
      assert InsertAt(ring, |ring|, base)[1..] == heads + [base];
      RingLink(prev[..], next[..], ring, |ring| - 1);
      ListAdd(base, prev[npage], npage, |ring| - 1);
      nrFree := nrFree + n;
    }

    method Initialise(base: nat, n: nat)
      requires page.Length == npage && n > 0 && base + n <= npage
      requires forall q :: base <= q < base + n ==> page[q].reserved
      modifies page
      ensures page[..] == Mapped(old(page[..]), base, n)
    {
      var p := base;
      while p != base + n
        invariant base <= p <= base + n
        invariant forall q :: 0 <= q < npage ==>
          page[q] == if base <= q < p then MappedPage(base, n, q) else old(page[q])
      {
        page[p] := page[p].(reserved := false, head := false);
        page[p] := page[p].(ref := 0);
        if p == base {
          page[p] := page[p].(property := n);
          page[p] := page[p].(head := true);
        } else {
          page[p] := page[p].(property := 0);
        }
        p := p + 1;
      }
    }
  }
}
