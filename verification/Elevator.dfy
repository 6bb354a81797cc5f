/** SCAN and LOOK (HDD_scheduling.c): there and back, with exact totals. */
module Elevator {
  import opened DiskArm

  /** When the elevator comes by: first what lies ahead, nearest first, then the rest from the far end back. */
  function Rank(c: int, h: int, dir: int, n: int): int {
    if dir == 0 then if c <= h then h - c else c
    else if c >= h then c - h else n - 1 - c
  }

  ghost predicate ByRank(served: seq<int>, h: int, dir: int, n: int) {
    forall i, j :: 0 <= i < j < |served| ==> Rank(served[i], h, dir, n) <= Rank(served[j], h, dir, n)
  }

  function End(dir: int, n: int): int { if dir == 0 then 0 else n - 1 }

  function Turned(dir: int): int { if dir == 0 then 1 else 0 }

  /** The outermost request ahead of the first turn, and of the way back. */
  function Near(reqs: seq<int>, dir: int): int
    requires reqs != []
  {
    if dir == 0 then Least(reqs) else Greatest(reqs)
  }

  function Far(reqs: seq<int>, dir: int): int
    requires reqs != []
  {
    if dir == 0 then Greatest(reqs) else Least(reqs)
  }

  /** Some request lies behind the head. */
  predicate Behind(reqs: seq<int>, h: int, dir: int)
    requires reqs != []
  {
    if dir == 0 then Greatest(reqs) > h else Least(reqs) < h
  }

  /** SCAN: to the end, and back to the farthest request behind the head, if there is one. */
  function ScanTotal(reqs: seq<int>, h: int, dir: int, n: int): int
    requires reqs != []
  {
    Abs(h - End(dir, n)) + if Behind(reqs, h, dir) then Abs(Far(reqs, dir) - End(dir, n)) else 0
  }

  /** LOOK: to the outermost request, and back likewise. */
  function LookTravel(reqs: seq<int>, h: int, dir: int): int
    requires reqs != []
  {
    Abs(h - Near(reqs, dir)) + if Behind(reqs, h, dir) then Greatest(reqs) - Least(reqs) else 0
  }

  lemma {:induction false} TravelOneWay(h: int, s: seq<int>, dir: int)
    requires OneWay(dir, s) && (s == [] || NotAfter(dir, h, s[0]))
    ensures Travel(h, s) == Abs(Last(h, s) - h) && NotAfter(dir, h, Last(h, s))
    decreases |s|
  {
    if |s| > 1 {
      TravelOneWay(h, s[..|s| - 1], dir);
    } else if |s| == 1 {
      assert s[..0] == [];
    }
  }

  lemma {:induction false} TravelJoin(h: int, a: seq<int>, b: seq<int>)
    ensures Travel(h, a + b) == Travel(h, a) + Travel(Last(h, a), b)
    ensures Last(h, a + b) == Last(Last(h, a), b)
    decreases |b|
  {
    if b == [] {
      assert a + b == a;
    } else {
      TravelJoin(h, a, b[..|b| - 1]);
      assert (a + b)[..|a + b| - 1] == a + b[..|b| - 1];
    }
  }

  lemma MembersOf(reqs: seq<int>)
    requires reqs != []
    ensures Least(reqs) in multiset(reqs) && Greatest(reqs) in multiset(reqs)
    ensures forall c :: c in multiset(reqs) ==> Least(reqs) <= c <= Greatest(reqs)
  {
    forall c | c in multiset(reqs)
      ensures Least(reqs) <= c <= Greatest(reqs)
    {
      assert c in reqs;
    }
  }

  /** The two sweeps together serve everything. */
  ghost predicate ThereAndBack(reqs: seq<int>, from: int, turn: int, dir: int, lo: int, hi: int, there: seq<int>,
      back: seq<int>) {
    && Swept(dir, from, lo, hi, multiset(reqs), there)
    && Swept(Turned(dir), turn, lo, hi, multiset(reqs) - multiset(there), back)
    && turn == (if dir == 0 then lo else hi)
    && forall c :: c in multiset(reqs) ==> lo <= c <= hi
  }

  lemma ServesAll(reqs: seq<int>, from: int, turn: int, dir: int, lo: int, hi: int, there: seq<int>, back: seq<int>)
    requires ThereAndBack(reqs, from, turn, dir, lo, hi, there, back)
    ensures multiset(there + back) == multiset(reqs)
  {
    var left := multiset(reqs) - multiset(there) - multiset(back);
    forall c
      ensures c !in left
    {
      if c in left {
        assert c in multiset(reqs);
        assert Between(Turned(dir), turn, c, lo, hi);
        assert false;
      }
    }
    assert left == multiset{};
    assert multiset(there + back) == multiset(there) + multiset(back);
  }

  /** On the way back nothing is met that lay ahead. */
  lemma BackIsBehind(reqs: seq<int>, from: int, turn: int, dir: int, lo: int, hi: int, there: seq<int>,
      back: seq<int>, i: nat)
    requires ThereAndBack(reqs, from, turn, dir, lo, hi, there, back) && i < |back|
    ensures lo <= back[i] <= hi && !NotAfter(dir, from, back[i]) && back[i] in multiset(reqs)
  {
    assert back[i] in multiset(back);
    assert back[i] in multiset(reqs) - multiset(there);
    assert !Between(dir, from, back[i], lo, hi);
  }

  lemma InOrder(reqs: seq<int>, h: int, from: int, turn: int, dir: int, lo: int, hi: int, there: seq<int>,
      back: seq<int>, n: int)
    requires ThereAndBack(reqs, from, turn, dir, lo, hi, there, back) && 0 <= lo <= hi < n && 0 <= h < n
    requires from == (if h < lo then lo else if h > hi then hi else h)
    ensures ByRank(there + back, h, dir, n)
  {
    var served := there + back;
    forall i, j | 0 <= i < j < |served|
      ensures Rank(served[i], h, dir, n) <= Rank(served[j], h, dir, n)
    {
      if i >= |there| { BackIsBehind(reqs, from, turn, dir, lo, hi, there, back, i - |there|); }
      if j >= |there| { BackIsBehind(reqs, from, turn, dir, lo, hi, there, back, j - |there|); }
    }
  }

  lemma LastOf(dir: int, h: int, s: seq<int>, c: int)
    requires OneWay(dir, s) && c in multiset(s)
    ensures s != [] && NotAfter(dir, c, Last(h, s)) && Last(h, s) in multiset(s)
  {
    assert c in s;
    assert s[|s| - 1] in s;
  }

  /** If the turning point is requested, the way there ends on it. */
  lemma ThereEnds(reqs: seq<int>, h: int, from: int, turn: int, dir: int, lo: int, hi: int, there: seq<int>,
      back: seq<int>)
    requires ThereAndBack(reqs, from, turn, dir, lo, hi, there, back) && lo <= from <= hi && turn in multiset(reqs)
    ensures there != [] && Last(h, there) == turn
  {
    assert Between(dir, from, turn, lo, hi);
    assert turn in multiset(there);
    LastOf(dir, h, there, turn);
    assert Last(h, there) in multiset(reqs);
  }

  /** The way back ends on the farthest request behind, if there is one. */
  lemma BackEnds(reqs: seq<int>, from: int, turn: int, dir: int, lo: int, hi: int, there: seq<int>, back: seq<int>)
    requires reqs != [] && ThereAndBack(reqs, from, turn, dir, lo, hi, there, back)
    ensures if Behind(reqs, from, dir) then back != [] && Last(turn, back) == Far(reqs, dir) else back == []
  {
    MembersOf(reqs);
    var far := Far(reqs, dir);
    if Behind(reqs, from, dir) {
      assert far !in multiset(there) by { NotAhead(dir, from, lo, hi, multiset(reqs), there, far); }
      assert Between(Turned(dir), turn, far, lo, hi);
      assert far in multiset(back);
      LastOf(Turned(dir), turn, back, far);
      assert Last(turn, back) in multiset(reqs);
    } else if back != [] {
      BackIsBehind(reqs, from, turn, dir, lo, hi, there, back, 0);
    }
  }

  lemma NotAhead(dir: int, from: int, lo: int, hi: int, pending: multiset<int>, batch: seq<int>, c: int)
    requires Swept(dir, from, lo, hi, pending, batch) && !NotAfter(dir, from, c)
    ensures c !in multiset(batch)
  {
  }

  lemma BackTravel(reqs: seq<int>, from: int, turn: int, dir: int, lo: int, hi: int, there: seq<int>, back: seq<int>)
    requires reqs != [] && ThereAndBack(reqs, from, turn, dir, lo, hi, there, back)
    ensures Travel(turn, back) == if Behind(reqs, from, dir) then Abs(Far(reqs, dir) - turn) else 0
  {
    hide Far, Behind, Travel;
    BackEnds(reqs, from, turn, dir, lo, hi, there, back);
    if back != [] {
      BackIsBehind(reqs, from, turn, dir, lo, hi, there, back, 0);
    }
    TravelOneWay(turn, back, Turned(dir));
    assert back == [] ==> Last(turn, back) == turn;
  }

  /** Ahead of the head, on the way to the bound. */
  lemma ThereTravel(dir: int, h: int, turn: int, lo: int, hi: int, pending: multiset<int>, there: seq<int>)
    requires Swept(dir, h, lo, hi, pending, there) && lo <= h <= hi && turn == (if dir == 0 then lo else hi)
    ensures Travel(h, there) + Abs(turn - Last(h, there)) == Abs(h - turn)
  {
    TravelOneWay(h, there, dir);
    assert there != [] ==> lo <= Last(h, there) <= hi;
  }

  lemma ScanTotalIs(reqs: seq<int>, h: int, dir: int, n: int, there: seq<int>, back: seq<int>)
    requires reqs != [] && 0 <= h < n && ThereAndBack(reqs, h, End(dir, n), dir, 0, n - 1, there, back)
    ensures Travel(h, there) + Abs(End(dir, n) - Last(h, there)) + Travel(End(dir, n), back)
      == ScanTotal(reqs, h, dir, n)
  {
    ThereTravel(dir, h, End(dir, n), 0, n - 1, multiset(reqs), there);
    BackTravel(reqs, h, End(dir, n), dir, 0, n - 1, there, back);
  }

  /** Sweeping on a single cylinder. */
  lemma AllSame(dir: int, from: int, lo: int, hi: int, pending: multiset<int>, there: seq<int>, h: int)
    requires Swept(dir, from, lo, hi, pending, there) && from == (if dir == 0 then lo else hi) && there != []
    ensures Travel(h, there) == Abs(from - h)
  {
    assert forall i :: 0 <= i < |there| ==> there[i] == from;
    assert OneWay(0, there) && OneWay(1, there);
    TravelOneWay(h, there, if h >= from then 0 else 1);
  }

  lemma LookTravelIs(reqs: seq<int>, h: int, from: int, dir: int, there: seq<int>, back: seq<int>)
    requires reqs != []
    requires from == if h < Least(reqs) then Least(reqs) else if h > Greatest(reqs) then Greatest(reqs) else h
    requires ThereAndBack(reqs, from, Near(reqs, dir), dir, Least(reqs), Greatest(reqs), there, back)
    ensures Travel(h, there + back) == LookTravel(reqs, h, dir)
    ensures Last(h, there) == Near(reqs, dir)
  {
    hide Travel, Least, Greatest;
    MembersOf(reqs);
    var turn, lo, hi := Near(reqs, dir), Least(reqs), Greatest(reqs);
    ThereEnds(reqs, h, from, turn, dir, lo, hi, there, back);
    BackTravel(reqs, from, turn, dir, lo, hi, there, back);
    TravelJoin(h, there, back);
    if from == turn {
      AllSame(dir, from, lo, hi, multiset(reqs), there, h);
    } else {
      TravelOneWay(h, there, dir);
    }
  }

  // ------------------------------------------------------------------ the two algorithms

  /** SCAN: every request once, in the elevator's order, with the exact total. */
  method Scan(cylinders: array<int>, reqs: seq<int>, h: int, dir: int) returns (served: seq<int>, total: int)
    requires reqs != [] && InRange(reqs, cylinders.Length) && 0 <= h < cylinders.Length
    modifies cylinders
    ensures multiset(served) == multiset(reqs) && ByRank(served, h, dir, cylinders.Length)
    ensures total == ScanTotal(reqs, h, dir, cylinders.Length)
    ensures ThroughEnd(h, served, End(dir, cylinders.Length), total)
  {
    hide Counts, Swept, Travel, Last, ByRank, ScanTotal;
    var n := cylinders.Length;
    SetCylinders(cylinders, reqs);
    var head, there, pre, moved := Sweep(cylinders, 0, n - 1, dir, h, h, multiset(reqs));
    total := moved;
    if head == -1 { head := head + 1; }
    if head == n { head := head - 1; }
    if pre != head {
      total := total + Abs(head - pre);
      pre := head;
    }
    var back;
    head, back, pre, moved := Sweep(cylinders, 0, n - 1, Turned(dir), head, pre, multiset(reqs) - multiset(there));
    total, served := total + moved, there + back;
    WithinEnds(reqs, n);
    ServesAll(reqs, h, End(dir, n), dir, 0, n - 1, there, back);
    InOrder(reqs, h, h, End(dir, n), dir, 0, n - 1, there, back, n);
    ScanTotalIs(reqs, h, dir, n, there, back);
    TravelThrough(h, there, End(dir, n), back);
  }

  /** The distance travelled through the stops, turning at `end` on the way. */
  ghost predicate ThroughEnd(h: int, served: seq<int>, end: int, total: int) {
    exists k :: 0 <= k <= |served| && total == Travel(h, served[..k] + [end] + served[k..])
  }

  lemma TravelThrough(h: int, there: seq<int>, end: int, back: seq<int>)
    ensures ThroughEnd(h, there + back, end, Travel(h, there) + Abs(end - Last(h, there)) + Travel(end, back))
  {
    TravelJoin(h, there, [end]);
    TravelJoin(h, there + [end], back);
    assert [end][..0] == [] && Travel(Last(h, there), [end]) == Abs(end - Last(h, there));
    var k, served := |there|, there + back;
    assert served[..k] == there && served[k..] == back;
  }

  lemma WithinEnds(reqs: seq<int>, n: nat)
    requires InRange(reqs, n)
    ensures forall c :: c in multiset(reqs) ==> 0 <= c <= n - 1
  {
    forall c | c in multiset(reqs)
      ensures 0 <= c <= n - 1
    {
      assert c in reqs;
    }
  }

  /** The least and the greatest request. */
  method Extremes(reqs: seq<int>) returns (min: int, max: int)
    requires reqs != []
    ensures min == Least(reqs) && max == Greatest(reqs)
  {
    min, max := reqs[0], reqs[0];
    for i := 0 to |reqs|
      invariant min in reqs && max in reqs && forall k :: 0 <= k < i ==> min <= reqs[k] <= max
    {
      if min > reqs[i] { min := reqs[i]; }
      if max < reqs[i] { max := reqs[i]; }
    }
  }

  /** LOOK: the same order as SCAN. The printed total is the distance travelled, except that for a head above every
      request the whole span of the requests is added to it. */
  method Look(cylinders: array<int>, reqs: seq<int>, h: int, dir: int) returns (served: seq<int>, total: int)
    requires reqs != [] && InRange(reqs, cylinders.Length) && 0 <= h < cylinders.Length
    modifies cylinders
    ensures multiset(served) == multiset(reqs) && ByRank(served, h, dir, cylinders.Length)
    ensures Travel(h, served) == LookTravel(reqs, h, dir)
    ensures total == Travel(h, served) + if h > Greatest(reqs) then Greatest(reqs) - Least(reqs) else 0
  {
    hide Counts, Swept, Travel, Last, ByRank, LookTravel, Least, Greatest;
    SetCylinders(cylinders, reqs);
    var pre := h;
    total := 0;
    var min, max := Extremes(reqs);
    MembersOf(reqs);
    WithinEnds(reqs, cylinders.Length);
    var head := h;
    if head < min {
      head := min;
      total := total + (min - head);
    } else if head > max {
      head := max;
      total := total + (max - min);
    }
    ghost var from := head;
    var there, back, moved;
    head, there, pre, moved := Sweep(cylinders, min, max, dir, head, pre, multiset(reqs));
    total := total + moved;
    if head == min - 1 { head := min; }
    if head == max + 1 { head := max; }
    ghost var turn := head;
    head, back, pre, moved := Sweep(cylinders, min, max, Turned(dir), head, pre, multiset(reqs) - multiset(there));
    total, served := total + moved, there + back;
    ServesAll(reqs, from, turn, dir, min, max, there, back);
    InOrder(reqs, h, from, turn, dir, min, max, there, back, cylinders.Length);
    LookTravelIs(reqs, h, from, dir, there, back);
    TravelJoin(h, there, back);
  }

  lemma LastRanks(s: seq<int>, c: int, h: int, dir: int, n: int)
    requires s != [] && ByRank(s, h, dir, n) && c in multiset(s)
    ensures Rank(c, h, dir, n) <= Rank(s[|s| - 1], h, dir, n) && s[|s| - 1] in multiset(s)
    ensures ByRank(s[..|s| - 1], h, dir, n) && multiset(s[..|s| - 1]) == multiset(s) - multiset{s[|s| - 1]}
  {
    hide Rank;
    assert c in s;
    assert s == s[..|s| - 1] + [s[|s| - 1]];
  }

  lemma RanksDiffer(a: int, b: int, h: int, dir: int, n: int)
    requires 0 <= a < n && 0 <= b < n && 0 <= h < n && Rank(a, h, dir, n) == Rank(b, h, dir, n)
    ensures a == b
  {
  }

  lemma LastsAgree(s: seq<int>, t: seq<int>, h: int, dir: int, n: nat)
    requires multiset(s) == multiset(t) && ByRank(s, h, dir, n) && ByRank(t, h, dir, n) && 0 <= h < n
    requires s != [] && t != [] && InRange(s, n)
    ensures s[|s| - 1] == t[|t| - 1] && s[|s| - 1] in multiset(s)
    ensures ByRank(s[..|s| - 1], h, dir, n) && ByRank(t[..|t| - 1], h, dir, n)
    ensures multiset(s[..|s| - 1]) == multiset(t[..|t| - 1])
    ensures InRange(s[..|s| - 1], n)
  {
    hide Rank, ByRank;
    var a, b := s[|s| - 1], t[|t| - 1];
    assert a in multiset(s) && b in multiset(t);
    assert b in s;
    LastRanks(s, b, h, dir, n);
    LastRanks(t, a, h, dir, n);
    RanksDiffer(a, b, h, dir, n);
  }

  lemma SameLength(s: seq<int>, t: seq<int>)
    requires multiset(s) == multiset(t)
    ensures |s| == |t|
  {
    assert |multiset(s)| == |s| && |multiset(t)| == |t|;
  }

  /** The elevator's order is one order: what SCAN and LOOK serve, they serve alike. */
  lemma {:induction false} SameOrder(s: seq<int>, t: seq<int>, h: int, dir: int, n: nat)
    requires multiset(s) == multiset(t) && ByRank(s, h, dir, n) && ByRank(t, h, dir, n) && 0 <= h < n
    requires InRange(s, n)
    ensures s == t
    decreases |s|
  {
    hide Rank, ByRank;
    SameLength(s, t);
    if s != [] {
      LastsAgree(s, t, h, dir, n);
      SameOrder(s[..|s| - 1], t[..|t| - 1], h, dir, n);
      assert s == s[..|s| - 1] + [s[|s| - 1]] && t == t[..|t| - 1] + [t[|t| - 1]];
    }
  }

  /** LOOK's printed total is never above SCAN's when the head does not start above every request. When it does: towards
      0, exactly if the span of the requests is at most the lowest of them; away from 0, exactly if the span and twice
      the head's position are at most twice the last cylinder. */
  lemma LookWithinScan(reqs: seq<int>, h: int, dir: int, n: nat)
    requires reqs != [] && InRange(reqs, n) && 0 <= h < n
    ensures h <= Greatest(reqs) ==> LookTravel(reqs, h, dir) <= ScanTotal(reqs, h, dir, n)
    ensures h > Greatest(reqs) && dir == 0 ==>
      (LookTravel(reqs, h, dir) + Greatest(reqs) - Least(reqs) <= ScanTotal(reqs, h, dir, n) <==>
          Greatest(reqs) - Least(reqs) <= Least(reqs))
    ensures h > Greatest(reqs) && dir != 0 ==>
      (LookTravel(reqs, h, dir) + Greatest(reqs) - Least(reqs) <= ScanTotal(reqs, h, dir, n) <==>
          2 * h + Greatest(reqs) - Least(reqs) <= 2 * (n - 1))
  {
    MembersOf(reqs);
    WithinEnds(reqs, n);
  }
}
