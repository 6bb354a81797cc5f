/** Disk-arm scheduling (HDD_scheduling.c: SSTF, SCAN and LOOK) over an array of request counts, one per cylinder. */
module DiskArm {

  function Abs(x: int): nat { if x >= 0 then x else -x }

  function Last(h: int, stops: seq<int>): int { if stops == [] then h else stops[|stops| - 1] }

  /** How far the head moves from `h` through the stops. */
  function Travel(h: int, stops: seq<int>): nat {
    if stops == [] then 0 else
    Travel(h, stops[..|stops| - 1]) + Abs(stops[|stops| - 1] - Last(h, stops[..|stops| - 1]))
  }

  function Least(s: seq<int>): (m: int)
    requires s != []
    ensures m in s && forall i :: 0 <= i < |s| ==> m <= s[i]
  {
    if |s| == 1 then s[0] else
    var m := Least(s[1..]);
    if s[0] < m then s[0] else m
  }

  function Greatest(s: seq<int>): (m: int)
    requires s != []
    ensures m in s && forall i :: 0 <= i < |s| ==> s[i] <= m
  {
    if |s| == 1 then s[0] else
    var m := Greatest(s[1..]);
    if s[0] > m then s[0] else m
  }

  /** The array counts the pending requests. */
  ghost predicate Counts(cylinders: seq<int>, pending: multiset<int>) {
    && (forall c :: 0 <= c < |cylinders| ==> cylinders[c] == pending[c])
    && forall c :: c in pending ==> 0 <= c < |cylinders|
  }

  predicate InRange(reqs: seq<int>, n: nat) { forall i :: 0 <= i < |reqs| ==> 0 <= reqs[i] < n }

  method SetCylinders(cylinders: array<int>, reqs: seq<int>)
    requires InRange(reqs, cylinders.Length)
    modifies cylinders
    ensures Counts(cylinders[..], multiset(reqs))
  {
    for k := 0 to cylinders.Length
      invariant forall c :: 0 <= c < k ==> cylinders[c] == 0
    {
      cylinders[k] := 0;
    }
    assert reqs[..0] == [];
    for i := 0 to |reqs|
      invariant Counts(cylinders[..], multiset(reqs[..i]))
    {
      assert reqs[..i + 1] == reqs[..i] + [reqs[i]];
      cylinders[reqs[i]] := cylinders[reqs[i]] + 1;
    }
    assert reqs[..|reqs|] == reqs;
  }

  /** Take one request of cylinder `c`. */
  method Serve(cylinders: array<int>, c: int, ghost pending: multiset<int>)
    requires Counts(cylinders[..], pending) && c in pending
    modifies cylinders
    ensures Counts(cylinders[..], pending - multiset{c})
  {
    cylinders[c] := cylinders[c] - 1;
  }

  // ------------------------------------------------------------------ shortest seek first

  /** A pending cylinder none is nearer than; of two as near, the lower. */
  ghost predicate Nearest(c: int, head: int, pending: multiset<int>) {
    c in pending && forall d :: d in pending ==>
      Abs(c - head) < Abs(d - head) || (Abs(c - head) == Abs(d - head) && c <= d)
  }

  method FindNearest(cylinders: array<int>, head: int, ghost pending: multiset<int>) returns (c: int)
    requires Counts(cylinders[..], pending) && 0 <= head < cylinders.Length
    ensures if pending == multiset{} then c == -1 else Nearest(c, head, pending)
  {
    var down, up := head, head;
    while down >= 0 || up < cylinders.Length
      invariant -1 <= down <= head <= up <= cylinders.Length
      invariant down >= 0 && up < cylinders.Length ==> head - down == up - head
      invariant down < 0 || head - down <= up - head || up == cylinders.Length
      invariant up == cylinders.Length || up - head <= head - down || down < 0
      invariant forall d :: down < d < up ==> d !in pending
      decreases down + 1 + cylinders.Length - up
    {
      if down >= 0 {
        if cylinders[down] > 0 { return down; }
        down := down - 1;
      }
      if up < cylinders.Length {
        if cylinders[up] > 0 { return up; }
        up := up + 1;
      }
    }
    assert forall d :: d !in pending;
    return -1;
  }

  /** Every service went to a nearest request among those then pending. */
  ghost predicate Greedy(h: int, served: seq<int>, reqs: multiset<int>) {
    forall i {:trigger served[i]} :: 0 <= i < |served| ==>
        Nearest(served[i], Last(h, served[..i]), reqs - multiset(served[..i]))
  }

  method Sstf(cylinders: array<int>, reqs: seq<int>, h: int) returns (served: seq<int>, total: int)
    requires InRange(reqs, cylinders.Length) && 0 <= h < cylinders.Length
    modifies cylinders
    ensures multiset(served) == multiset(reqs) && Greedy(h, served, multiset(reqs)) && total == Travel(h, served)
  {
    hide Greedy, Travel, Last, Nearest, Counts;
    SetCylinders(cylinders, reqs);
    var head := h;
    served, total := [], 0;
    NoneServed(h, multiset(reqs));
    for i := 0 to |reqs|
      invariant |served| == i && multiset(served) <= multiset(reqs) && Greedy(h, served, multiset(reqs))
      invariant Counts(cylinders[..], multiset(reqs) - multiset(served))
      invariant head == Last(h, served) && 0 <= head < cylinders.Length && total == Travel(h, served)
    {
      ghost var pending := multiset(reqs) - multiset(served);
      assert |pending| == |reqs| - i;
      var c := FindNearest(cylinders, head, pending);
      OneServed(h, served, c, multiset(reqs), cylinders[..]);
      Serve(cylinders, c, pending);
      total := total + Abs(head - c);
      served, head := served + [c], c;
    }
    assert |multiset(reqs) - multiset(served)| == 0;
  }

  lemma NoneServed(h: int, reqs: multiset<int>)
    ensures Greedy(h, [], reqs) && Last(h, []) == h && Travel(h, []) == 0 && reqs - multiset([]) == reqs
  {
  }

  lemma OneServed(h: int, served: seq<int>, c: int, reqs: multiset<int>, cylinders: seq<int>)
    requires Greedy(h, served, reqs) && multiset(served) <= reqs && Counts(cylinders, reqs - multiset(served))
    requires Nearest(c, Last(h, served), reqs - multiset(served))
    ensures c in reqs - multiset(served) && 0 <= c < |cylinders| && multiset(served + [c]) <= reqs
    ensures reqs - multiset(served + [c]) == reqs - multiset(served) - multiset{c}
    ensures Greedy(h, served + [c], reqs) && Last(h, served + [c]) == c
    ensures Travel(h, served + [c]) == Travel(h, served) + Abs(Last(h, served) - c)
  {
    hide Nearest;
    var longer := served + [c];
    assert longer[..|served|] == served;
    forall k | 0 <= k < |longer|
      ensures Nearest(longer[k], Last(h, longer[..k]), reqs - multiset(longer[..k]))
    {
      if k < |served| { assert longer[..k] == served[..k] && longer[k] == served[k]; }
    }
    assert c in reqs - multiset(served) by { InPending(c, Last(h, served), reqs - multiset(served)); }
  }

  lemma InPending(c: int, head: int, pending: multiset<int>)
    requires Nearest(c, head, pending)
    ensures c in pending
  {
  }

  // ------------------------------------------------------------------ sweeps

  /** Direction 0 is towards cylinder 0, any other towards the last one. */
  predicate NotAfter(dir: int, a: int, b: int) { if dir == 0 then a >= b else a <= b }

  predicate OneWay(dir: int, s: seq<int>) { forall i, j :: 0 <= i < j < |s| ==> NotAfter(dir, s[i], s[j]) }

  predicate Between(dir: int, from: int, c: int, lo: int, hi: int) { lo <= c <= hi && NotAfter(dir, from, c) }

  /** What a sweep leaves behind: every request from `from` to the bound is served, in the order they lie. */
  ghost predicate Swept(dir: int, from: int, lo: int, hi: int, pending: multiset<int>, batch: seq<int>) {
    && multiset(batch) <= pending && OneWay(dir, batch)
    && (forall i :: 0 <= i < |batch| ==> Between(dir, from, batch[i], lo, hi))
    && forall c :: Between(dir, from, c, lo, hi) ==> c !in pending - multiset(batch)
  }

  /** The sweep so far, with the head about to visit `head`. */
  ghost predicate Sweeping(dir: int, from: int, head: int, lo: int, hi: int, pending: multiset<int>, batch: seq<int>) {
    && multiset(batch) <= pending && OneWay(dir, batch)
    && (forall i :: 0 <= i < |batch| ==> Between(dir, from, batch[i], lo, hi) && NotAfter(dir, batch[i], head))
    && forall c :: Between(dir, from, c, lo, hi) && NotAfter(dir, c, head) && c != head ==>
         c !in pending - multiset(batch)
  }

  lemma ServedHere(dir: int, from: int, head: int, lo: int, hi: int, pending: multiset<int>, batch: seq<int>,
      previous: int)
    requires Sweeping(dir, from, head, lo, hi, pending, batch) && head in pending - multiset(batch)
        && Between(dir, from, head, lo, hi)
    ensures Sweeping(dir, from, head, lo, hi, pending, batch + [head])
    ensures pending - multiset(batch + [head]) == pending - multiset(batch) - multiset{head}
    ensures Travel(previous, batch + [head]) == Travel(previous, batch) + Abs(head - Last(previous, batch))
    ensures Last(previous, batch + [head]) == head
  {
    var longer := batch + [head];
    assert longer[..|batch|] == batch;
    assert forall i :: 0 <= i < |batch| ==> longer[i] == batch[i];
  }

  /** Move from `from` in one direction to the bound, serving every request on the way. */
  method Sweep(cylinders: array<int>, lo: int, hi: int, dir: int, from: int, previous: int,
      ghost pending: multiset<int>)
    returns (head: int, batch: seq<int>, pre: int, moved: int)
    requires Counts(cylinders[..], pending) && 0 <= lo <= from <= hi < cylinders.Length
    modifies cylinders
    ensures Counts(cylinders[..], pending - multiset(batch)) && Swept(dir, from, lo, hi, pending, batch)
    ensures moved == Travel(previous, batch) && pre == Last(previous, batch)
    ensures head == if dir == 0 then lo - 1 else hi + 1
  {
    hide Counts, Travel, Last, Sweeping, Swept;
    head, batch, pre, moved := from, [], previous, 0;
    SweepStarts(dir, from, lo, hi, pending, previous);
    while lo <= head <= hi
      invariant lo - 1 <= head <= hi + 1 && NotAfter(dir, from, head)
      invariant Counts(cylinders[..], pending - multiset(batch))
      invariant Sweeping(dir, from, head, lo, hi, pending, batch)
      invariant moved == Travel(previous, batch) && pre == Last(previous, batch)
      decreases if dir == 0 then head - lo + 1 else hi + 1 - head
    {
      while cylinders[head] > 0
        invariant Counts(cylinders[..], pending - multiset(batch))
        invariant Sweeping(dir, from, head, lo, hi, pending, batch)
        invariant moved == Travel(previous, batch) && pre == Last(previous, batch)
        decreases cylinders[head]
      {
        Pending(cylinders[..], pending - multiset(batch), head);
        ServedHere(dir, from, head, lo, hi, pending, batch, previous);
        moved := moved + Abs(head - pre);
        pre := head;
        Serve(cylinders, head, pending - multiset(batch));
        batch := batch + [head];
      }
      Pending(cylinders[..], pending - multiset(batch), head);
      NextCylinder(dir, from, head, lo, hi, pending, batch);
      head := if dir == 0 then head - 1 else head + 1;
    }
    SweepEnds(dir, from, head, lo, hi, pending, batch);
  }

  lemma Pending(cylinders: seq<int>, pending: multiset<int>, c: int)
    requires Counts(cylinders, pending) && 0 <= c < |cylinders|
    ensures c in pending <==> cylinders[c] > 0
    ensures c in pending ==> (pending - multiset{c})[c] == cylinders[c] - 1
  {
  }

  lemma SweepStarts(dir: int, from: int, lo: int, hi: int, pending: multiset<int>, previous: int)
    ensures Sweeping(dir, from, from, lo, hi, pending, []) && Travel(previous, []) == 0
        && Last(previous, []) == previous
    ensures pending - multiset([]) == pending
  {
  }

  lemma NextCylinder(dir: int, from: int, head: int, lo: int, hi: int, pending: multiset<int>, batch: seq<int>)
    requires Sweeping(dir, from, head, lo, hi, pending, batch) && head !in pending - multiset(batch)
    ensures Sweeping(dir, from, if dir == 0 then head - 1 else head + 1, lo, hi, pending, batch)
  {
  }

  lemma SweepEnds(dir: int, from: int, head: int, lo: int, hi: int, pending: multiset<int>, batch: seq<int>)
    requires Sweeping(dir, from, head, lo, hi, pending, batch) && head == (if dir == 0 then lo - 1 else hi + 1)
    ensures Swept(dir, from, lo, hi, pending, batch)
  {
  }
}
