/** A doubly linked list threaded through the slots of an array, and a binary min-heap on the same slots. */
module HeapLinks {
  import opened Basics

  datatype Student = Student(flag: int, id: int, name: string, pre: int, next: int)

  /** What a student record holds apart from its links. */
  datatype Entry = Entry(id: int, name: string)

  function EntryOf(s: Student): Entry { Entry(s.id, s.name) }

  // ------------------------------------------------------------------ the list

  /** `ord` names distinct slots of `a`. */
  ghost predicate Slots(n: nat, ord: seq<nat>) {
    && (forall k :: 0 <= k < |ord| ==> ord[k] < n)
    && (forall j, k :: 0 <= j < k < |ord| ==> ord[j] != ord[k])
  }

  function Before(ord: seq<nat>, k: nat): int
    requires k < |ord|
  {
    if k == 0 then -1 else ord[k - 1]
  }

  function After(ord: seq<nat>, k: nat): int
    requires k < |ord|
  {
    if k + 1 < |ord| then ord[k + 1] else -1
  }

  /** The nodes at `ord` are linked in that order, both ways. */
  ghost predicate Links(a: seq<Student>, ord: seq<nat>) {
    && Slots(|a|, ord)
    && (forall k :: 0 <= k < |ord| ==> a[ord[k]].pre == Before(ord, k) && a[ord[k]].next == After(ord, k))
  }

  /** The entries in list order. */
  ghost function Listed(a: seq<Student>, ord: seq<nat>): (r: seq<Entry>)
    requires Slots(|a|, ord)
    ensures |r| == |ord| && forall k :: 0 <= k < |ord| ==> r[k] == EntryOf(a[ord[k]])
  {
    seq(|ord|, k requires 0 <= k < |ord| => EntryOf(a[ord[k]]))
  }

  // ------------------------------------------------------------------ exchanging two slots

  function SetPre(a: seq<Student>, i: int, v: int): seq<Student>
    requires 0 <= i < |a|
  {
    a[i := a[i].(pre := v)]
  }

  function SetNext(a: seq<Student>, i: int, v: int): seq<Student>
    requires 0 <= i < |a|
  {
    a[i := a[i].(next := v)]
  }

  predicate LinkIndex(i: int, n: nat) { -1 <= i < n }

  /** Slot `i`, if there is one and it is not `other`, gets the successor `v`. */
  function RelinkNext(a: seq<Student>, i: int, other: int, v: int): (r: seq<Student>)
    requires LinkIndex(i, |a|)
    ensures |r| == |a|
    ensures forall m :: 0 <= m < |a| ==> r[m] == if m == i && i != other then a[m].(next := v) else a[m]
  {
    if i != -1 && i != other then SetNext(a, i, v) else a
  }

  function RelinkPre(a: seq<Student>, i: int, other: int, v: int): (r: seq<Student>)
    requires LinkIndex(i, |a|)
    ensures |r| == |a|
    ensures forall m :: 0 <= m < |a| ==> r[m] == if m == i && i != other then a[m].(pre := v) else a[m]
  {
    if i != -1 && i != other then SetPre(a, i, v) else a
  }

  /** swapHeapNode, assignment by assignment. */
  function SwapNodes(a: seq<Student>, p: nat, c: nat): (b: seq<Student>)
    requires p < |a| && c < |a| && p != c
    requires LinkIndex(a[p].pre, |a|) && LinkIndex(a[p].next, |a|) && LinkIndex(a[c].pre, |a|)
        && LinkIndex(a[c].next, |a|)
    ensures |b| == |a|
  {
    var b := a[p := a[c]][c := a[p]];
    var b := RelinkNext(b, a[p].pre, c, c);
    var b := RelinkPre(b, a[p].next, c, c);
    var b := RelinkNext(b, a[c].pre, p, p);
    var b := RelinkPre(b, a[c].next, p, p);
    var b := if a[p].pre == c then SetPre(SetNext(b, p, c), c, p) else b;
    if a[p].next == c then SetNext(SetPre(b, p, c), c, p) else b
  }

  /** The exchange of `p` and `c` as a renaming of slot indices. */
  function Renamed(i: int, p: nat, c: nat): int { if i == p then c else if i == c then p else i }

  function RenamedAll(ord: seq<nat>, p: nat, c: nat): (r: seq<nat>)
    ensures |r| == |ord| && forall k :: 0 <= k < |ord| ==> r[k] == Renamed(ord[k], p, c)
  {
    seq(|ord|, k requires 0 <= k < |ord| => if ord[k] == p then c else if ord[k] == c then p else ord[k])
  }

  ghost predicate Indices(a: seq<Student>, i: nat) {
    i < |a| && LinkIndex(a[i].pre, |a|) && LinkIndex(a[i].next, |a|)
  }

  /** Slots `i` and `j` agree on whether they are neighbours. */
  ghost predicate Agree(a: seq<Student>, i: nat, j: nat)
    requires i < |a| && j < |a|
  {
    (a[i].next == j <==> a[j].pre == i) && (a[j].next == i <==> a[i].pre == j)
  }

  lemma SwapOther(a: seq<Student>, p: nat, c: nat, j: nat)
    requires Indices(a, p) && Indices(a, c) && p != c && j < |a| && j != p && j != c
    requires Agree(a, j, p) && Agree(a, j, c)
    ensures var b := SwapNodes(a, p, c);
      EntryOf(b[j]) == EntryOf(a[j]) && b[j].pre == Renamed(a[j].pre, p, c) && b[j].next == Renamed(a[j].next, p, c)
  {
    hide RelinkNext, RelinkPre;
  }

  lemma SwapSame(a: seq<Student>, p: nat, c: nat)
    requires Indices(a, p) && Indices(a, c) && p != c
    requires Agree(a, p, c) && a[p].pre != p && a[p].next != p && a[c].pre != c && a[c].next != c
    requires !(a[p].pre == c && a[p].next == c)
    ensures var b := SwapNodes(a, p, c);
      && EntryOf(b[c]) == EntryOf(a[p]) && b[c].pre == Renamed(a[p].pre, p, c) && b[c].next == Renamed(a[p].next, p, c)
      && EntryOf(b[p]) == EntryOf(a[c]) && b[p].pre == Renamed(a[c].pre, p, c) && b[p].next == Renamed(a[c].next, p, c)
  {
  }

  /** Neighbours in a linked order. */
  lemma LinkedAgree(a: seq<Student>, ord: seq<nat>, j: nat, k: nat)
    requires Links(a, ord) && j < |ord| && k < |ord|
    ensures Indices(a, ord[j]) && Indices(a, ord[k])
    ensures j != k ==> ord[j] != ord[k] && Agree(a, ord[j], ord[k])
    ensures a[ord[j]].pre != ord[j] && a[ord[j]].next != ord[j]
    ensures !(a[ord[j]].pre == ord[k] && a[ord[j]].next == ord[k])
  {
  }

  /** Exchanging two linked slots renames them everywhere: each node goes with its neighbours' new names. */
  lemma SwapRenames(a: seq<Student>, ord: seq<nat>, kp: nat, kc: nat, k: nat)
    requires Links(a, ord) && kp < |ord| && kc < |ord| && kp != kc && k < |ord|
    ensures Indices(a, ord[kp]) && Indices(a, ord[kc]) && ord[kp] != ord[kc]
    ensures var p, c := ord[kp], ord[kc];
      var b, i := SwapNodes(a, p, c), Renamed(ord[k], p, c);
      && 0 <= i < |b| && EntryOf(b[i]) == EntryOf(a[ord[k]])
      && b[i].pre == Renamed(a[ord[k]].pre, p, c)
      && b[i].next == Renamed(a[ord[k]].next, p, c)
  {
    hide Links, SwapNodes;
    LinkedAgree(a, ord, kp, kc);
    LinkedAgree(a, ord, kc, kp);
    LinkedAgree(a, ord, k, kp);
    LinkedAgree(a, ord, k, kc);
    if k == kp || k == kc {
      SwapSame(a, ord[kp], ord[kc]);
    } else {
      SwapOther(a, ord[kp], ord[kc], ord[k]);
    }
  }

  lemma RenamedSlots(n: nat, ord: seq<nat>, p: nat, c: nat)
    requires Slots(n, ord) && p < n && c < n
    ensures Slots(n, RenamedAll(ord, p, c))
  {
  }

  /** One node of the exchanged list. */
  lemma SwapNode(a: seq<Student>, ord: seq<nat>, kp: nat, kc: nat, k: nat)
    requires Links(a, ord) && kp < |ord| && kc < |ord| && kp != kc && k < |ord|
    ensures Indices(a, ord[kp]) && Indices(a, ord[kc]) && ord[kp] != ord[kc]
    ensures var b, r := SwapNodes(a, ord[kp], ord[kc]), RenamedAll(ord, ord[kp], ord[kc]);
      && r[k] < |b| && EntryOf(b[r[k]]) == EntryOf(a[ord[k]])
      && b[r[k]].pre == Before(r, k) && b[r[k]].next == After(r, k)
  {
    hide SwapNodes, EntryOf;
    SwapRenames(a, ord, kp, kc, k);
    assert a[ord[k]].pre == Before(ord, k) && a[ord[k]].next == After(ord, k);
  }

  /** swapHeapNode keeps the list: same entries in the same order, links mutually inverse. */
  lemma SwapKeepsList(a: seq<Student>, ord: seq<nat>, kp: nat, kc: nat)
    requires Links(a, ord) && kp < |ord| && kc < |ord| && kp != kc
    ensures Indices(a, ord[kp]) && Indices(a, ord[kc]) && ord[kp] != ord[kc]
    ensures var b, r := SwapNodes(a, ord[kp], ord[kc]), RenamedAll(ord, ord[kp], ord[kc]);
      Links(b, r) && Listed(b, r) == Listed(a, ord)
  {
    hide SwapNodes, EntryOf, Slots, Before, After;
    SwapNode(a, ord, kp, kc, kp);
    var p, c := ord[kp], ord[kc];
    var b, r := SwapNodes(a, p, c), RenamedAll(ord, p, c);
    RenamedSlots(|a|, ord, p, c);
    SlotsBound(|b|, r);
    forall k | 0 <= k < |ord|
      ensures b[r[k]].pre == Before(r, k) && b[r[k]].next == After(r, k) && EntryOf(b[r[k]]) == EntryOf(a[ord[k]])
    {
      SwapNode(a, ord, kp, kc, k);
    }
    assert Listed(b, r) == Listed(a, ord);
  }

  lemma SlotsBound(n: nat, ord: seq<nat>)
    requires Slots(n, ord)
    ensures forall k :: 0 <= k < |ord| ==> ord[k] < n
  {
  }

  /** `ord` runs through all of the first `n` slots. */
  ghost predicate Full(ord: seq<nat>, n: nat) {
    |ord| == n && Slots(n, ord) && forall i: nat :: i < n ==> i in ord
  }

  lemma RenamedFull(ord: seq<nat>, n: nat, p: nat, c: nat)
    requires Full(ord, n) && p < n && c < n
    ensures Full(RenamedAll(ord, p, c), n)
  {
    var r := RenamedAll(ord, p, c);
    RenamedSlots(n, ord, p, c);
    forall i: nat | i < n ensures i in r {
      var j: nat := Renamed(i, p, c);
      assert j in ord;
      var k :| 0 <= k < |ord| && ord[k] == j;
      assert r[k] == i;
    }
  }

  ghost function Entries(a: seq<Student>, n: nat): (r: seq<Entry>)
    requires n <= |a|
    ensures |r| == n && forall i :: 0 <= i < n ==> r[i] == EntryOf(a[i])
  {
    seq(n, i requires 0 <= i < n => EntryOf(a[i]))
  }

  function Exchanged<T>(s: seq<T>, p: nat, c: nat): seq<T>
    requires p < |s| && c < |s|
  {
    s[p := s[c]][c := s[p]]
  }

  /** ... and exchanges the two entries in the array. */
  lemma SwapEntries(a: seq<Student>, ord: seq<nat>, n: nat, kp: nat, kc: nat)
    requires Links(a, ord) && Full(ord, n) && n <= |a| && kp < |ord| && kc < |ord| && kp != kc
    ensures Indices(a, ord[kp]) && Indices(a, ord[kc]) && ord[kp] != ord[kc]
    ensures Entries(SwapNodes(a, ord[kp], ord[kc]), n) == Exchanged(Entries(a, n), ord[kp], ord[kc])
  {
    hide SwapNodes, Links, EntryOf;
    SwapRenames(a, ord, kp, kc, kp);
    var p, c := ord[kp], ord[kc];
    var b := SwapNodes(a, p, c);
    forall i: nat | i < n ensures EntryOf(b[i]) == Exchanged(Entries(a, n), p, c)[i] {
      var j: nat := Renamed(i, p, c);
      assert j in ord;
      var k: nat :| k < |ord| && ord[k] == j;
      SwapRenames(a, ord, kp, kc, k);
    }
  }

  // ------------------------------------------------------------------ adding and taking out nodes

  lemma LinkAt(a: seq<Student>, ord: seq<nat>, k: nat, i: nat)
    requires Links(a, ord) && k < |ord| && i < |ord|
    ensures Indices(a, ord[k]) && Indices(a, ord[i]) && (ord[k] == ord[i] <==> k == i)
    ensures a[ord[k]].pre == Before(ord, k) && a[ord[k]].next == After(ord, k)
    ensures a[ord[i]].pre == Before(ord, i) && a[ord[i]].next == After(ord, i)
  {
  }

  /** The slot of the list's first node. */
  function First(ord: seq<nat>): int { if ord == [] then -1 else ord[0] }

  /** The array after the new record `x` in slot `e` was linked in front of the list. */
  function Fronted(a: seq<Student>, head: int, e: nat, x: Student): (t: seq<Student>)
    requires LinkIndex(head, |a|) && e < |a|
    ensures |t| == |a|
  {
    RelinkPre(a, head, -1, e)[e := x]
  }

  lemma FrontNode(a: seq<Student>, ord: seq<nat>, e: nat, x: Student, k: nat)
    requires Links(a, ord) && e < |a| && e !in ord && k < |ord|
    ensures LinkIndex(First(ord), |a|)
    ensures var t := Fronted(a, First(ord), e, x);
      && t[ord[k]].pre == (if k == 0 then e else ord[k - 1]) && t[ord[k]].next == After(ord, k)
      && EntryOf(t[ord[k]]) == EntryOf(a[ord[k]])
  {
    hide RelinkPre;
    LinkAt(a, ord, 0, k);
    assert ord[k] in ord;
  }

  lemma FrontSlots(n: nat, ord: seq<nat>, e: nat)
    requires Slots(n, ord) && e < n && e !in ord
    ensures Slots(n, [e] + ord)
  {
    var r := [e] + ord;
    forall j, k | 0 <= j < k < |r| ensures r[j] != r[k] { assert r[k] == ord[k - 1] && ord[k - 1] in ord; }
  }

  /** A new node in front of the list, as both insertListAtHead and pushHeap link it. */
  lemma LinkFront(a: seq<Student>, ord: seq<nat>, e: nat, x: Student)
    requires Links(a, ord) && e < |a| && e !in ord && x.pre == -1 && x.next == First(ord)
    ensures LinkIndex(First(ord), |a|)
    ensures var t := Fronted(a, First(ord), e, x);
      Links(t, [e] + ord) && Listed(t, [e] + ord) == [EntryOf(x)] + Listed(a, ord)
  {
    hide EntryOf, Slots, Fronted, Before, After, Indices;
    FrontSlots(|a|, ord, e);
    if ord != [] { FrontNode(a, ord, e, x, 0); }
    var t := Fronted(a, First(ord), e, x);
    SlotsBound(|a|, ord);
    FrontSelf(a, First(ord), e, x);
    var r: seq<nat> := [e] + ord;
    forall k | 0 <= k < |r|
      ensures r[k] < |a| && t[r[k]].pre == Before(r, k) && t[r[k]].next == After(r, k)
      ensures EntryOf(t[r[k]]) == if k == 0 then EntryOf(x) else EntryOf(a[ord[k - 1]])
    {
      if k > 0 {
        FrontNode(a, ord, e, x, k - 1);
      }
      FrontNeighbours(ord, e, k);
    }
  }

  lemma FrontNeighbours(ord: seq<nat>, e: nat, k: nat)
    requires k <= |ord|
    ensures var r := [e] + ord;
      && Before(r, k) == (if k == 0 then -1 else if k == 1 then e else ord[k - 2])
      && After(r, k) == (if k == 0 then First(ord) else After(ord, k - 1))
  {
  }

  lemma FrontSelf(a: seq<Student>, head: int, e: nat, x: Student)
    requires LinkIndex(head, |a|) && e < |a|
    ensures Fronted(a, head, e, x)[e] == x
    ensures forall i :: 0 <= i < |a| && i != e ==> EntryOf(Fronted(a, head, e, x)[i]) == EntryOf(a[i])
  {
  }

  /** What popHeap leaves of the array when it takes slot `i` out of the list. */
  function Unlinked(a: seq<Student>, i: nat): (t: seq<Student>)
    requires Indices(a, i)
    ensures |t| == |a|
  {
    RelinkPre(RelinkNext(a, a[i].pre, -1, a[i].next), a[i].next, -1, a[i].pre)
  }

  lemma UnlinkNode(a: seq<Student>, ord: seq<nat>, k: nat, j: nat)
    requires Links(a, ord) && k < |ord| && j < |ord| - 1
    ensures Indices(a, ord[k])
    ensures var t, r: seq<nat> := Unlinked(a, ord[k]), Without(ord, k);
      r[j] < |a| && t[r[j]].pre == Before(r, j) && t[r[j]].next == After(r, j) && EntryOf(t[r[j]]) == EntryOf(a[r[j]])
  {
    hide RelinkPre, RelinkNext, Links;
    WithoutAt(ord, k);
    var i := if j < k then j else j + 1;
    LinkAt(a, ord, k, i);
    if k > 0 { LinkAt(a, ord, k - 1, i); }
    if k + 1 < |ord| { LinkAt(a, ord, k + 1, i); }
  }

  lemma WithoutSlots(n: nat, ord: seq<nat>, k: nat)
    requires Slots(n, ord) && k < |ord|
    ensures Slots(n, Without(ord, k))
  {
  }

  /** Taking the node at position `k` out of the list. */
  lemma Unlink(a: seq<Student>, ord: seq<nat>, k: nat)
    requires Links(a, ord) && k < |ord|
    ensures Indices(a, ord[k])
    ensures var t := Unlinked(a, ord[k]);
      Links(t, Without(ord, k)) && Listed(t, Without(ord, k)) == Without(Listed(a, ord), k)
  {
    hide Unlinked, EntryOf, Slots, Before, After, Without;
    LinkedAgree(a, ord, k, k);
    var t := Unlinked(a, ord[k]);
    var r: seq<nat> := Without(ord, k);
    WithoutAt(ord, k);
    WithoutAt(Listed(a, ord), k);
    WithoutSlots(|a|, ord, k);
    SlotsBound(|t|, r);
    forall j | 0 <= j < |r|
      ensures t[r[j]].pre == Before(r, j) && t[r[j]].next == After(r, j) && EntryOf(t[r[j]]) == EntryOf(a[r[j]])
    {
      UnlinkNode(a, ord, k, j);
    }
  }

  lemma UnlinkEntries(a: seq<Student>, i: nat, n: nat)
    requires Indices(a, i) && n <= |a|
    ensures Entries(Unlinked(a, i), n) == Entries(a, n)
  {
    hide RelinkPre, RelinkNext;
  }

  // ------------------------------------------------------------------ the list and the array hold the same

  ghost function Pick<T>(f: seq<T>, ord: seq<nat>): (r: seq<T>)
    requires Slots(|f|, ord)
    ensures |r| == |ord| && forall k :: 0 <= k < |ord| ==> r[k] == f[ord[k]]
  {
    seq(|ord|, k requires 0 <= k < |ord| => f[ord[k]])
  }

  lemma TakeOutMultiset<T>(s: seq<T>, k: nat)
    requires k < |s|
    ensures multiset(s) == multiset(Without(s, k)) + multiset{s[k]}
  {
    assert s == s[..k] + [s[k]] + s[k + 1..];
  }

  lemma WithoutFull(ord: seq<nat>, k: nat, n: nat)
    requires Full(ord, n + 1) && k < |ord| && ord[k] == n
    ensures Full(Without(ord, k), n)
  {
    var r: seq<nat> := Without(ord, k);
    forall i: nat | i < n ensures i in r {
      assert i in ord;
      var j :| 0 <= j < |ord| && ord[j] == i;
      assert r[if j < k then j else j - 1] == i;
    }
  }

  lemma {:induction false} FullMultiset<T>(f: seq<T>, ord: seq<nat>)
    requires Full(ord, |f|)
    ensures |ord| == |f| && multiset(Pick(f, ord)) == multiset(f)
    decreases |f|
  {
    FullParts(ord, |f|);
    if f != [] {
      hide Full, Without;
      var n := |f| - 1;
      var k := FullIndex(ord, |f|, n);
      var r: seq<nat> := Without(ord, k);
      WithoutFull(ord, k, n);
      FullMultiset(f[..n], r);
      PickWithout(f, ord, k);
      TakeOutMultiset(Pick(f, ord), k);
      assert f == f[..n] + [f[n]];
    }
  }

  lemma FullParts(ord: seq<nat>, n: nat)
    requires Full(ord, n)
    ensures |ord| == n && Slots(n, ord)
  {
  }

  lemma FullIndex(ord: seq<nat>, n: nat, i: nat) returns (k: nat)
    requires Full(ord, n) && i < n
    ensures k < |ord| && ord[k] == i && Slots(n, ord)
  {
    assert i in ord;
    k :| k < |ord| && ord[k] == i;
  }

  lemma PickWithout<T>(f: seq<T>, ord: seq<nat>, k: nat)
    requires f != [] && Slots(|f|, ord) && k < |ord| && ord[k] == |f| - 1
    ensures Slots(|f| - 1, Without(ord, k))
    ensures Pick(f[..|f| - 1], Without(ord, k)) == Without(Pick(f, ord), k)
  {
  }

  /** The linked list and the heap's part of the array hold the same entries. */
  lemma ListIsArray(a: seq<Student>, ord: seq<nat>, n: nat)
    requires Links(a, ord) && Full(ord, n) && n <= |a|
    ensures |ord| == n && multiset(Listed(a, ord)) == multiset(Entries(a, n))
  {
    FullMultiset(Entries(a, n), ord);
    assert Listed(a, ord) == Pick(Entries(a, n), ord);
  }

  // ------------------------------------------------------------------ the heap order

  function Parent(k: nat): nat
    requires k > 0
  {
    (k - 1) / 2
  }

  ghost predicate IsHeap(ids: seq<int>) {
    forall k :: 0 < k < |ids| ==> ids[Parent(k)] <= ids[k]
  }

  /** Heap order below the nodes from `lo` on. */
  ghost predicate HeapFrom(ids: seq<int>, lo: nat) {
    forall k :: 0 < k < |ids| && Parent(k) >= lo ==> ids[Parent(k)] <= ids[k]
  }

  /** The same, but node `h` may be too large for its children. */
  ghost predicate Sinking(ids: seq<int>, lo: nat, h: nat) {
    && lo <= h < |ids|
    && (forall k :: 0 < k < |ids| && Parent(k) >= lo && Parent(k) != h ==> ids[Parent(k)] <= ids[k])
    && (forall k :: 0 < k < |ids| && Parent(k) == h && h > 0 && Parent(h) >= lo ==> ids[Parent(h)] <= ids[k])
  }

  /** `c` is the smaller child of `h`. */
  predicate SmallerChild(ids: seq<int>, h: nat, c: nat) {
    && c < |ids| && (c == 2 * h + 1 || c == 2 * h + 2)
    && (2 * h + 1 < |ids| ==> ids[c] <= ids[2 * h + 1])
    && (2 * h + 2 < |ids| ==> ids[c] <= ids[2 * h + 2])
  }

  lemma SinkStep(ids: seq<int>, lo: nat, h: nat, c: nat)
    requires Sinking(ids, lo, h) && SmallerChild(ids, h, c) && ids[c] < ids[h]
    ensures Sinking(Exchanged(ids, h, c), lo, c)
  {
    var t := Exchanged(ids, h, c);
    forall k | 0 < k < |t| && Parent(k) >= lo && Parent(k) != c ensures t[Parent(k)] <= t[k] {
      assert Parent(k) == h ==> k == 2 * h + 1 || k == 2 * h + 2;
    }
  }

  lemma SinkDone(ids: seq<int>, lo: nat, h: nat)
    requires Sinking(ids, lo, h)
    requires 2 * h + 1 >= |ids| || exists c: nat :: SmallerChild(ids, h, c) && ids[h] <= ids[c]
    ensures HeapFrom(ids, lo)
  {
    forall k | 0 < k < |ids| && Parent(k) >= lo ensures ids[Parent(k)] <= ids[k] {
      assert Parent(k) == h ==> k == 2 * h + 1 || k == 2 * h + 2;
    }
  }

  /** Node `c` may be too small for its parent. */
  ghost predicate Rising(ids: seq<int>, c: nat) {
    && c < |ids|
    && (forall k :: 0 < k < |ids| && k != c ==> ids[Parent(k)] <= ids[k])
    && (forall k :: 0 < k < |ids| && Parent(k) == c && c > 0 ==> ids[Parent(c)] <= ids[k])
  }

  lemma RiseStep(ids: seq<int>, c: nat)
    requires Rising(ids, c) && c > 0 && ids[c] < ids[Parent(c)]
    ensures Rising(Exchanged(ids, Parent(c), c), Parent(c))
  {
  }

  lemma RiseDone(ids: seq<int>, c: nat)
    requires Rising(ids, c) && (c == 0 || ids[Parent(c)] <= ids[c])
    ensures IsHeap(ids)
  {
  }

  /** The root of a heap has the least id. */
  lemma {:induction false} RootIsLeast(ids: seq<int>, k: nat)
    requires IsHeap(ids) && k < |ids|
    ensures ids[0] <= ids[k]
    decreases k
  {
    if k > 0 { RootIsLeast(ids, Parent(k)); }
  }

  // ------------------------------------------------------------------ where the entries go

  ghost function IdsOf(es: seq<Entry>): (r: seq<int>)
    ensures |r| == |es| && forall i :: 0 <= i < |es| ==> r[i] == es[i].id
  {
    seq(|es|, i requires 0 <= i < |es| => es[i].id)
  }

  lemma ExchangedIds(es: seq<Entry>, p: nat, c: nat)
    requires p < |es| && c < |es|
    ensures IdsOf(Exchanged(es, p, c)) == Exchanged(IdsOf(es), p, c)
  {
  }

  /** The smaller child of `h`, the left one of two with the same id. */
  function Child(es: seq<Entry>, h: nat): (c: nat)
    requires 2 * h + 1 < |es|
    ensures SmallerChild(IdsOf(es), h, c) && (c == 2 * h + 2 ==> es[c].id < es[2 * h + 1].id)
  {
    if 2 * h + 2 < |es| && es[2 * h + 1].id > es[2 * h + 2].id then 2 * h + 2 else 2 * h + 1
  }

  /** The entry of slot `h` changes places with its smaller child as long as that is smaller. */
  ghost function Sunk(es: seq<Entry>, h: nat): (r: seq<Entry>)
    requires h < |es|
    ensures |r| == |es|
    decreases |es| - h
  {
    if 2 * h + 1 >= |es| || es[Child(es, h)].id >= es[h].id then es
    else Sunk(Exchanged(es, h, Child(es, h)), Child(es, h))
  }

  /** The entry of slot `c` changes places with its parent as long as that is larger. */
  ghost function Risen(es: seq<Entry>, c: nat): (r: seq<Entry>)
    requires c < |es|
    ensures |r| == |es|
    decreases c
  {
    if c == 0 || es[c].id >= es[Parent(c)].id then es else Risen(Exchanged(es, Parent(c), c), Parent(c))
  }

  /** The entries of slots `k - 1` down to 0 sink, one after another. */
  ghost function Heapified(es: seq<Entry>, k: nat): (r: seq<Entry>)
    requires k <= |es|
    ensures |r| == |es|
    decreases k
  {
    if k == 0 then es else Heapified(Sunk(es, k - 1), k - 1)
  }

  /** One round of the loop. */
  lemma SunkOn(es: seq<Entry>, h: nat)
    requires h < |es|
    ensures Sunk(es, h) ==
      if 2 * h + 1 < |es| && es[Child(es, h)].id < es[h].id then Sunk(Exchanged(es, h, Child(es, h)), Child(es, h))
      else es
  {
  }

  lemma {:induction false} SunkHeap(es: seq<Entry>, lo: nat, h: nat)
    requires Sinking(IdsOf(es), lo, h)
    ensures HeapFrom(IdsOf(Sunk(es, h)), lo)
    decreases |es| - h
  {
    hide Sinking, HeapFrom, IdsOf, Child;
    var n := |IdsOf(es)|;
    SinkingSlot(IdsOf(es), lo, h);
    if 2 * h + 1 >= |es| || es[Child(es, h)].id >= es[h].id {
      SinkDone(IdsOf(es), lo, h);
    } else {
      ExchangedIds(es, h, Child(es, h));
      SinkStep(IdsOf(es), lo, h, Child(es, h));
      SunkHeap(Exchanged(es, h, Child(es, h)), lo, Child(es, h));
    }
  }

  lemma SinkingSlot(ids: seq<int>, lo: nat, h: nat)
    requires Sinking(ids, lo, h)
    ensures lo <= h < |ids|
  {
  }

  lemma {:induction false} RisenHeap(es: seq<Entry>, c: nat)
    requires Rising(IdsOf(es), c)
    ensures IsHeap(IdsOf(Risen(es, c)))
    decreases c
  {
    hide IsHeap, IdsOf;
    if c == 0 || es[c].id >= es[Parent(c)].id {
      RiseDone(IdsOf(es), c);
    } else {
      ExchangedIds(es, Parent(c), c);
      RiseStep(IdsOf(es), c);
      RisenHeap(Exchanged(es, Parent(c), c), Parent(c));
    }
  }

  lemma StartsSinking(ids: seq<int>, k: nat)
    requires HeapFrom(ids, k + 1) && k < |ids|
    ensures Sinking(ids, k, k)
  {
  }

  lemma {:induction false} HeapifiedHeap(es: seq<Entry>, k: nat)
    requires k <= |es| && HeapFrom(IdsOf(es), k)
    ensures IsHeap(IdsOf(Heapified(es, k)))
    decreases k
  {
    hide HeapFrom, Sinking, IsHeap, Sunk;
    if k == 0 {
      HeapFromRoot(IdsOf(es));
    } else {
      StartsSinking(IdsOf(es), k - 1);
      SunkHeap(es, k - 1, k - 1);
      HeapifiedHeap(Sunk(es, k - 1), k - 1);
    }
  }

  lemma HeapFromRoot(ids: seq<int>)
    requires HeapFrom(ids, 0)
    ensures IsHeap(ids)
  {
  }

  /** What stands in the lower half has no child. */
  lemma LeavesOnly(ids: seq<int>, k: nat)
    requires k >= |ids| / 2
    ensures HeapFrom(ids, k)
  {
  }

  // ------------------------------------------------------------------ paths

  /** Slot `k` lies in the subtree of slot `cur`. */
  predicate Below(cur: nat, k: nat)
    decreases k
  {
    k == cur || (k > 0 && Below(cur, Parent(k)))
  }

  lemma {:induction false} AllBelowRoot(k: nat)
    ensures Below(0, k)
  {
    if k > 0 { AllBelowRoot(Parent(k)); }
  }

  /** The child of `cur` whose subtree holds `k`. */
  lemma {:induction false} Towards(cur: nat, k: nat) returns (c: nat)
    requires Below(cur, k) && k != cur
    ensures (c == 2 * cur + 1 || c == 2 * cur + 2) && c <= k && Below(c, k)
    decreases k
  {
    if Parent(k) == cur { c := k; } else { c := Towards(cur, Parent(k)); }
  }

  lemma {:induction false} BelowChild(cur: nat, c: nat, k: nat)
    requires (c == 2 * cur + 1 || c == 2 * cur + 2) && Below(c, k)
    ensures Below(cur, k)
    decreases k
  {
    if k != c { BelowChild(cur, c, Parent(k)); }
  }

  /** Slot `r` is slot `k`, or comes before it in a walk that visits a node, its left and then its right subtree. */
  ghost predicate FirstInPreorder(r: nat, k: nat) {
    Below(r, k) || exists a: nat :: Below(2 * a + 1, r) && Below(2 * a + 2, k)
  }

  /** Of two slots only one comes first. */
  lemma PreorderOnce(r: nat, k: nat)
    requires FirstInPreorder(r, k) && FirstInPreorder(k, r)
    ensures r == k
  {
    if Below(r, k) {
      BelowUp(r, k);
      if Below(k, r) {
        BelowUp(k, r);
      } else {
        var a: nat :| Below(2 * a + 1, k) && Below(2 * a + 2, r);
        BelowTrans(2 * a + 2, r, k);
        Siblings(a, k);
      }
    } else {
      var a: nat :| Below(2 * a + 1, r) && Below(2 * a + 2, k);
      if Below(k, r) {
        BelowTrans(2 * a + 2, k, r);
        Siblings(a, r);
      } else {
        var b: nat :| Below(2 * b + 1, k) && Below(2 * b + 2, r);
        TwoBranches(a, b, r, k);
      }
    }
  }

  lemma {:induction false} BelowUp(cur: nat, k: nat)
    requires Below(cur, k)
    ensures cur <= k
    decreases k
  {
    if k != cur { BelowUp(cur, Parent(k)); }
  }

  lemma {:induction false} BelowTrans(a: nat, b: nat, k: nat)
    requires Below(a, b) && Below(b, k)
    ensures Below(a, k)
    decreases k
  {
    if k != b { BelowTrans(a, b, Parent(k)); }
  }

  /** Of two slots above the same one, one is above the other. */
  lemma {:induction false} BelowChain(a: nat, b: nat, k: nat)
    requires Below(a, k) && Below(b, k)
    ensures Below(a, b) || Below(b, a)
    decreases k
  {
    if k != a && k != b { BelowChain(a, b, Parent(k)); }
  }

  lemma Siblings(a: nat, k: nat)
    requires Below(2 * a + 1, k)
    ensures !Below(2 * a + 2, k)
  {
    if Below(2 * a + 2, k) {
      BelowChain(2 * a + 1, 2 * a + 2, k);
      NotBelow(2 * a + 1, 2 * a + 2);
    }
  }

  lemma NotBelow(a: nat, b: nat)
    requires a < b && Parent(b) < a
    ensures !Below(a, b) && !Below(b, a)
  {
    if Below(a, b) { BelowUp(a, Parent(b)); }
    if Below(b, a) { BelowUp(b, a); }
  }

  lemma AboveChild(x: nat, b: nat, c: nat, k: nat)
    requires Below(x, k) && Below(c, k) && x <= 2 * b && (c == 2 * b + 1 || c == 2 * b + 2)
    ensures Below(x, b)
  {
    BelowChain(x, c, k);
    if Below(c, x) { BelowUp(c, x); }
    assert Parent(c) == b;
  }

  /** Two slots part in one place only. */
  lemma TwoBranches(a: nat, b: nat, r: nat, k: nat)
    requires Below(2 * a + 1, r) && Below(2 * a + 2, k)
    ensures !(Below(2 * b + 1, k) && Below(2 * b + 2, r))
  {
    hide Below;
    if Below(2 * b + 1, k) && Below(2 * b + 2, r) {
      if a == b {
        Siblings(a, r);
      } else if a < b {
        AboveChild(2 * a + 1, b, 2 * b + 2, r);
        AboveChild(2 * a + 2, b, 2 * b + 1, k);
        Siblings(a, b);
      } else {
        AboveChild(2 * b + 2, a, 2 * a + 1, r);
        AboveChild(2 * b + 1, a, 2 * a + 2, k);
        Siblings(b, a);
      }
    }
  }

  /** Slot `k` is on the way from slot `top` down to slot `low`. */
  ghost predicate OnPath(top: nat, low: nat, k: nat) { Below(top, k) && Below(k, low) }

  /** What was in slot `c` is now in slot `p` above it: what it passed was larger and moved one down, what it
      stopped at is not, and nothing else moved. */
  ghost predicate RoseTo(es: seq<Entry>, r: seq<Entry>, c: nat, p: nat) {
    && p <= c < |es| == |r| && Below(p, c) && r[p] == es[c]
    && (p > 0 ==> es[Parent(p)].id <= es[c].id)
    && forall k: nat :: k < |es| && k != p ==>
         if OnPath(p, c, k) then k > 0 && r[k] == es[Parent(k)] && es[Parent(k)].id > es[c].id else r[k] == es[k]
  }

  lemma {:induction false} RisenPath(es: seq<Entry>, c: nat) returns (p: nat)
    requires c < |es|
    ensures RoseTo(es, Risen(es, c), c, p)
    decreases c
  {
    hide Below;
    if c == 0 || es[c].id >= es[Parent(c)].id {
      p := c;
      forall k: nat ensures OnPath(c, c, k) <==> k == c { PathEnds(c, k); }
      BelowSelf(c);
    } else {
      var up := Parent(c);
      var t := Exchanged(es, up, c);
      p := RisenPath(t, up);
      var r := Risen(es, c);
      LongerPath(p, c, c);
      forall k: nat | k < |es| && k != p
        ensures if OnPath(p, c, k) then k > 0 && r[k] == es[Parent(k)] && es[Parent(k)].id > es[c].id else r[k] == es[k]
      {
        LongerPath(p, c, k);
        if OnPath(p, up, k) {
          BelowUp(k, up);
        } else if k == c && OnPath(p, up, c) {
          BelowUp(c, up);
        }
        if k == up { BelowSelf(up); }
      }
    }
  }

  lemma BelowSelf(k: nat)
    ensures Below(k, k)
  {
  }

  lemma PathEnds(c: nat, k: nat)
    ensures OnPath(c, c, k) <==> k == c
  {
    if OnPath(c, c, k) {
      BelowUp(c, k);
      BelowUp(k, c);
    }
  }

  /** One slot further down. */
  lemma LongerPath(p: nat, c: nat, k: nat)
    requires c > 0 && Below(p, Parent(c))
    ensures OnPath(p, c, k) <==> k == c || OnPath(p, Parent(c), k)
  {
  }

  /** What was in slot `h` is now in slot `q` below it: on every slot of the way stands what was its smaller child,
      the left one of two with the same id, and was smaller; the children of `q` are not; nothing else moved. */
  ghost predicate SankTo(es: seq<Entry>, r: seq<Entry>, h: nat, q: nat) {
    && h <= q < |es| == |r| && Below(h, q) && r[q] == es[h]
    && (2 * q + 1 < |es| ==> es[Child(es, q)].id >= es[h].id)
    && forall k: nat :: k < |es| && k != q ==>
         if OnPath(h, q, k)
         then 2 * k + 1 < |es| && Below(Child(es, k), q) && r[k] == es[Child(es, k)] && es[Child(es, k)].id < es[h].id
         else r[k] == es[k]
  }

  lemma {:induction false} SunkPath(es: seq<Entry>, h: nat) returns (q: nat)
    requires h < |es|
    ensures SankTo(es, Sunk(es, h), h, q)
    decreases |es| - h
  {
    hide Below, IdsOf;
    if 2 * h + 1 >= |es| || es[Child(es, h)].id >= es[h].id {
      q := h;
      forall k: nat ensures OnPath(h, h, k) <==> k == h { PathEnds(h, k); }
      BelowSelf(h);
    } else {
      var c := Child(es, h);
      var t := Exchanged(es, h, c);
      q := SunkPath(t, c);
      var r := Sunk(es, h);
      UpperPath(h, c, q, h);
      ChildSame(es, h, c, q);
      forall k: nat | k < |es| && k != q
        ensures if OnPath(h, q, k)
                then 2 * k + 1 < |es| && Below(Child(es, k), q) && r[k] == es[Child(es, k)]
                  && es[Child(es, k)].id < es[h].id
                else r[k] == es[k]
      {
        UpperPath(h, c, q, k);
        if OnPath(c, q, k) {
          BelowUp(c, k);
          ChildSame(es, h, c, k);
        } else if k == h && OnPath(c, q, h) {
          BelowUp(c, h);
        }
        if k == c { BelowSelf(c); }
      }
    }
  }

  lemma ChildSame(es: seq<Entry>, h: nat, c: nat, k: nat)
    requires h < c <= k < |es|
    ensures var t := Exchanged(es, h, c);
      2 * k + 1 < |es| ==> Child(t, k) == Child(es, k) && t[Child(t, k)] == es[Child(es, k)]
  {
  }

  /** One slot further up. */
  lemma UpperPath(h: nat, c: nat, q: nat, k: nat)
    requires (c == 2 * h + 1 || c == 2 * h + 2) && Below(c, q)
    ensures Below(h, q) && (OnPath(h, q, k) <==> k == h || OnPath(c, q, k))
  {
    BelowChild(h, c, q);
    if OnPath(h, q, k) && k != h {
      BelowUp(h, k);
      BelowChain(c, k, q);
      if Below(k, c) && k != c { BelowUp(k, Parent(c)); }
    }
    if OnPath(c, q, k) { BelowChild(h, c, k); }
  }
}
