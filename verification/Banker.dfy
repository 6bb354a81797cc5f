/** The banker's algorithm: the greedy safety check against the existence of a safe order, and what every
    run of resource requests keeps. */
module Banker {
  import opened Basics
  import opened Matrices

  type Vec = seq<int>

  datatype State = State(available: Vec, need: seq<Vec>, allocation: seq<Vec>)

  /** `n` processes and `m` resource types. */
  predicate Sized(s: State, n: nat, m: nat) {
    && |s.available| == m && |s.need| == n && |s.allocation| == n
    && (forall j :: 0 <= j < n ==> |s.need[j]| == m)
    && (forall j :: 0 <= j < n ==> |s.allocation[j]| == m)
  }

  ghost predicate Leq(a: Vec, b: Vec) {
    |a| == |b| && forall k :: 0 <= k < |a| ==> a[k] <= b[k]
  }

  function Plus(a: Vec, b: Vec): (r: Vec)
    requires |a| == |b|
    ensures |r| == |a| && forall k :: 0 <= k < |a| ==> r[k] == a[k] + b[k]
  {
    seq(|a|, k requires 0 <= k < |a| => a[k] + b[k])
  }

  function Minus(a: Vec, b: Vec): (r: Vec)
    requires |a| == |b|
    ensures |r| == |a| && forall k :: 0 <= k < |a| ==> r[k] == a[k] - b[k]
  {
    seq(|a|, k requires 0 <= k < |a| => a[k] - b[k])
  }

  /** The state as if the request were granted. */
  function Pretend(s: State, i: nat, request: Vec): (t: State)
    requires i < |s.need| == |s.allocation|
    requires |request| == |s.available| == |s.need[i]| == |s.allocation[i]|
  {
    State(Minus(s.available, request),
          s.need[i := Minus(s.need[i], request)],
          s.allocation[i := Plus(s.allocation[i], request)])
  }

  // ------------------------------------------------------------------ safe orders

  predicate InRange(order: seq<nat>, n: nat) { forall a :: 0 <= a < |order| ==> order[a] < n }

  /** What the processes of `order` give back of resource `k`. */
  function Returned(s: State, order: seq<nat>, k: nat): int
    requires InRange(order, |s.allocation|) && forall x :: 0 <= x < |s.allocation| ==> k < |s.allocation[x]|
  {
    if order == [] then 0
    else Returned(s, order[..|order| - 1], k) + s.allocation[order[|order| - 1]][k]
  }

  ghost predicate Distinct(order: seq<nat>, n: nat) {
    && InRange(order, n)
    && forall a, b :: 0 <= a < b < |order| ==> order[a] != order[b]
  }

  /** Process `j` can finish once the processes of `order` have. */
  ghost predicate CanFinish(s: State, order: seq<nat>, j: nat)
    requires j < |s.need| && Sized(s, |s.need|, |s.available|)
    requires InRange(order, |s.need|)
  {
    forall k :: 0 <= k < |s.available| ==> s.need[j][k] <= s.available[k] + Returned(s, order, k)
  }

  /** The processes of `order` can finish one after another. */
  ghost predicate Feasible(s: State, order: seq<nat>)
    requires Sized(s, |s.need|, |s.available|) && Distinct(order, |s.need|)
  {
    forall a :: 0 <= a < |order| ==> CanFinish(s, order[..a], order[a])
  }

  /** An order in which every process can finish. */
  ghost predicate SafeOrder(s: State, order: seq<nat>)
    requires Sized(s, |s.need|, |s.available|)
  {
    |order| == |s.need| && Distinct(order, |s.need|) && Feasible(s, order)
  }

  ghost predicate Safe(s: State)
    requires Sized(s, |s.need|, |s.available|)
  {
    exists order: seq<nat> :: SafeOrder(s, order)
  }

  ghost predicate NonNegative(v: seq<Vec>) {
    forall j, k :: 0 <= j < |v| && 0 <= k < |v[j]| ==> v[j][k] >= 0
  }

  // ------------------------------------------------------------------ the greedy choice loses nothing

  lemma WithoutDistinct(order: seq<nat>, a: nat, n: nat)
    requires Distinct(order, n) && a < |order|
    ensures Distinct(Without(order, a), n)
  {
  }

  lemma PrefixDistinct(order: seq<nat>, a: nat, n: nat)
    requires Distinct(order, n) && a <= |order|
    ensures Distinct(order[..a], n)
  {
  }

  lemma {:induction false} ReturnedWithout(s: State, order: seq<nat>, a: nat, k: nat)
    requires Sized(s, |s.need|, |s.available|) && k < |s.available| && a < |order| && Distinct(order, |s.need|)
    ensures Distinct(Without(order, a), |s.need|)
    ensures Returned(s, order, k) == Returned(s, Without(order, a), k) + s.allocation[order[a]][k]
    decreases |order|
  {
    var last := |order| - 1;
    var w := Without(order, a);
    WithoutDistinct(order, a, |s.need|);
    if a == last {
      assert w == order[..last];
    } else {
      PrefixDistinct(order, last, |s.need|);
      ReturnedWithout(s, order[..last], a, k);
      assert w == Without(order[..last], a) + [order[last]];
    }
  }

  /** What the processes of `order` hold is not negative. */
  ghost predicate NonNegativeOf(s: State, order: seq<nat>)
    requires InRange(order, |s.allocation|)
  {
    forall b :: 0 <= b < |order| ==> NonNegative([s.allocation[order[b]]])
  }

  lemma {:induction false} ReturnedNonNegative(s: State, order: seq<nat>, k: nat)
    requires Sized(s, |s.need|, |s.available|) && k < |s.available|
    requires InRange(order, |s.need|) && NonNegativeOf(s, order)
    ensures Returned(s, order, k) >= 0
    decreases |order|
  {
    if order != [] {
      var last := |order| - 1;
      assert NonNegative([s.allocation[order[last]]]) && [s.allocation[order[last]]][0] == s.allocation[order[last]];
      assert forall b :: 0 <= b < last ==> order[..last][b] == order[b];
      ReturnedNonNegative(s, order[..last], k);
    }
  }

  ghost predicate AllIn(few: seq<nat>, many: seq<nat>) { forall b :: 0 <= b < |few| ==> few[b] in many }

  /** Taking one common element out of both. */
  lemma AllInWithout(few: seq<nat>, many: seq<nat>, n: nat) returns (a: nat)
    requires few != [] && AllIn(few, many) && Distinct(few, n)
    ensures a < |many| && many[a] == few[|few| - 1]
    ensures AllIn(few[..|few| - 1], Without(many, a))
  {
    var last := |few| - 1;
    assert few[last] in many;
    a :| a < |many| && many[a] == few[last];
    forall b | 0 <= b < last ensures few[b] in Without(many, a) {
      assert few[b] in many;
      var c :| 0 <= c < |many| && many[c] == few[b];
      assert Without(many, a)[if c < a then c else c - 1] == few[b];
    }
  }

  lemma NonNegativeWithout(s: State, order: seq<nat>, a: nat)
    requires InRange(order, |s.allocation|) && NonNegativeOf(s, order) && a < |order|
    ensures InRange(Without(order, a), |s.allocation|) && NonNegativeOf(s, Without(order, a))
    ensures forall k :: 0 <= k < |s.allocation[order[a]]| ==> s.allocation[order[a]][k] >= 0
  {
    WithoutAt(order, a);
    assert NonNegative([s.allocation[order[a]]]) && [s.allocation[order[a]]][0] == s.allocation[order[a]];
  }

  /** More finished processes have returned more, if what they held is not negative. */
  lemma {:induction false} ReturnedMore(s: State, few: seq<nat>, many: seq<nat>, k: nat)
    requires Sized(s, |s.need|, |s.available|) && k < |s.available|
    requires Distinct(few, |s.need|) && Distinct(many, |s.need|) && AllIn(few, many) && NonNegativeOf(s, many)
    ensures Returned(s, few, k) <= Returned(s, many, k)
    decreases |few|
  {
    if few == [] {
      ReturnedNonNegative(s, many, k);
    } else {
      hide NonNegativeOf, AllIn;
      var last := |few| - 1;
      var a := AllInWithout(few, many, |s.need|);
      NonNegativeWithout(s, many, a);
      ReturnedWithout(s, many, a, k);
      PrefixDistinct(few, last, |s.need|);
      ReturnedMore(s, few[..last], Without(many, a), k);
    }
  }

  /** As long as some order finishes everybody, an unfinished process can finish whatever was chosen so far, if the
      chosen ones held nothing negative. */
  lemma SomeoneCanFinish(s: State, done: seq<nat>, order: seq<nat>) returns (j: nat)
    requires Sized(s, |s.need|, |s.available|)
    requires SafeOrder(s, order) && Distinct(done, |s.need|) && |done| < |s.need| && NonNegativeOf(s, done)
    ensures j < |s.need| && j !in done && CanFinish(s, done, j)
  {
    var a := FirstMissing(order, done, |s.need|);
    j := order[a];
    assert CanFinish(s, order[..a], j);
    forall k | 0 <= k < |s.available| ensures Returned(s, order[..a], k) <= Returned(s, done, k) {
      ReturnedMore(s, order[..a], done, k);
    }
  }

  lemma FirstMissing(order: seq<nat>, done: seq<nat>, n: nat) returns (a: nat)
    requires |order| == n && Distinct(order, n) && Distinct(done, n) && |done| < n
    ensures a < n && order[a] !in done && forall b :: 0 <= b < a ==> order[b] in done
  {
    a := 0;
    while a < n && order[a] in done
      invariant a <= n && forall b :: 0 <= b < a ==> order[b] in done
    {
      a := a + 1;
    }
    if a == n { TooMany(order, done, n); }
  }

  lemma {:induction false} TooMany(order: seq<nat>, done: seq<nat>, n: nat)
    requires Distinct(order, n) && AllIn(order, done)
    ensures |order| <= |done|
    decreases |order|
  {
    if order != [] {
      var a := AllInWithout(order, done, n);
      PrefixDistinct(order, |order| - 1, n);
      TooMany(order[..|order| - 1], Without(done, a), n);
    }
  }

  // ------------------------------------------------------------------ what the check decides

  /** The first process from `from` on that is not done and can finish, or the number of processes. */
  ghost function NextFrom(s: State, done: seq<nat>, from: nat): (j: nat)
    requires Sized(s, |s.need|, |s.available|) && InRange(done, |s.need|) && from <= |s.need|
    ensures from <= j <= |s.need| && (j < |s.need| ==> j !in done && CanFinish(s, done, j))
    ensures forall x: nat :: from <= x < j ==> x in done || !CanFinish(s, done, x)
    decreases |s.need| - from
  {
    if from == |s.need| || (from !in done && CanFinish(s, done, from)) then from else NextFrom(s, done, from + 1)
  }

  /** The processes chosen one after another, after those of `done`, until none can finish. */
  ghost function Chosen(s: State, done: seq<nat>): (order: seq<nat>)
    requires Sized(s, |s.need|, |s.available|) && Distinct(done, |s.need|) && |done| <= |s.need|
    ensures Distinct(order, |s.need|) && |order| <= |s.need|
    decreases |s.need| - |done|
  {
    var j := NextFrom(s, done, 0);
    if |done| == |s.need| || j == |s.need| then done else Chosen(s, done + [j])
  }

  /** The check passes: the choice never gets stuck. */
  ghost predicate Accepts(s: State)
    requires Sized(s, |s.need|, |s.available|)
  {
    |Chosen(s, [])| == |s.need|
  }

  lemma {:induction false} ChosenFeasible(s: State, done: seq<nat>)
    requires Sized(s, |s.need|, |s.available|) && Distinct(done, |s.need|) && |done| <= |s.need| && Feasible(s, done)
    ensures Feasible(s, Chosen(s, done))
    decreases |s.need| - |done|
  {
    hide Feasible, CanFinish;
    var j := NextFrom(s, done, 0);
    if |done| < |s.need| && j < |s.need| {
      ExtendOrder(s, done, j);
      ChosenFeasible(s, done + [j]);
    }
  }

  /** Every choice was of the first process that was not done and could finish. */
  ghost predicate LeastFirst(s: State, order: seq<nat>)
    requires Sized(s, |s.need|, |s.available|) && Distinct(order, |s.need|)
  {
    forall a, x: nat :: 0 <= a < |order| && x < order[a] ==> x in order[..a] || !CanFinish(s, order[..a], x)
  }

  /** The choice is the one order that takes the first process each time until none is left that can finish. */
  lemma ChosenIff(s: State, order: seq<nat>)
    requires Sized(s, |s.need|, |s.available|)
    ensures order == Chosen(s, []) <==> (Distinct(order, |s.need|) && Feasible(s, order) && LeastFirst(s, order) &&
      forall x: nat :: x < |s.need| ==> x in order || !CanFinish(s, order, x))
  {
    hide Chosen, NextFrom, CanFinish;
    assert Distinct([], |s.need|) && Feasible(s, []) && LeastFirst(s, []);
    ChosenLeast(s, []);
    if Distinct(order, |s.need|) && Feasible(s, order) && LeastFirst(s, order) &&
      forall x: nat :: x < |s.need| ==> x in order || !CanFinish(s, order, x)
    {
      OnlyChoice(s, order, 0);
      assert order[..0] == [];
    }
  }

  lemma {:induction false} ChosenLeast(s: State, done: seq<nat>)
    requires Sized(s, |s.need|, |s.available|) && Distinct(done, |s.need|) && |done| <= |s.need|
    requires Feasible(s, done) && LeastFirst(s, done)
    ensures Feasible(s, Chosen(s, done)) && LeastFirst(s, Chosen(s, done))
    ensures forall x: nat :: x < |s.need| ==> x in Chosen(s, done) || !CanFinish(s, Chosen(s, done), x)
    decreases |s.need| - |done|
  {
    hide CanFinish;
    ChosenFeasible(s, done);
    var j := NextFrom(s, done, 0);
    if |done| == |s.need| {
      AllChosen(done, |s.need|);
    } else if j < |s.need| {
      LeastNext(s, done, j);
      ExtendOrder(s, done, j);
      ChosenLeast(s, done + [j]);
    }
  }

  lemma LeastNext(s: State, done: seq<nat>, j: nat)
    requires Sized(s, |s.need|, |s.available|) && Distinct(done, |s.need|) && LeastFirst(s, done)
    requires j < |s.need| && Distinct(done + [j], |s.need|)
    requires forall x: nat :: x < j ==> x in done || !CanFinish(s, done, x)
    ensures LeastFirst(s, done + [j])
  {
    hide CanFinish;
    var t := done + [j];
    assert t[..|done|] == done && forall a :: 0 <= a < |done| ==> t[..a] == done[..a] && t[a] == done[a];
  }

  lemma NotMore(order: seq<nat>, n: nat)
    requires Distinct(order, n)
    ensures |order| <= n
  {
    var all: seq<nat> := seq(n, i => i);
    forall b | 0 <= b < |order| ensures order[b] in all { assert all[order[b]] == order[b]; }
    TooMany(order, all, n);
  }

  lemma AllChosen(done: seq<nat>, n: nat)
    requires Distinct(done, n) && |done| == n
    ensures forall x: nat :: x < n ==> x in done
  {
    forall x: nat | x < n ensures x in done {
      if x !in done { NotMore(done + [x], n); }
    }
  }

  lemma {:induction false} OnlyChoice(s: State, order: seq<nat>, a: nat)
    requires Sized(s, |s.need|, |s.available|) && a <= |order| && Distinct(order, |s.need|)
    requires Feasible(s, order) && LeastFirst(s, order)
    requires forall x: nat :: x < |s.need| ==> x in order || !CanFinish(s, order, x)
    ensures Distinct(order[..a], |s.need|) && a <= |s.need| && Chosen(s, order[..a]) == order
    decreases |order| - a
  {
    hide CanFinish;
    PrefixDistinct(order, a, |s.need|);
    assert |order| <= |s.need| by { NotMore(order, |s.need|); }
    if a == |order| {
      assert order[..a] == order;
      if a < |s.need| { ChosenNext(s, order, |s.need|); }
    } else {
      OnlyChoice(s, order, a + 1);
      assert order[..a + 1] == order[..a] + [order[a]];
      ChosenNext(s, order[..a], order[a]);
    }
  }

  /** What passes is safe, whatever the signs, and the choice is a safe order. */
  lemma AcceptedIsSafe(s: State)
    requires Sized(s, |s.need|, |s.available|) && Accepts(s)
    ensures SafeOrder(s, Chosen(s, [])) && Safe(s)
  {
    ChosenFeasible(s, []);
    FullOrder(s, Chosen(s, []));
  }

  /** Whatever was chosen so far, somebody else can finish. */
  ghost predicate NeverStuck(s: State)
    requires Sized(s, |s.need|, |s.available|)
  {
    forall done: seq<nat> :: Distinct(done, |s.need|) && |done| < |s.need| ==>
      exists j: nat :: j < |s.need| && j !in done && CanFinish(s, done, j)
  }

  lemma {:induction false} ChosenFull(s: State, done: seq<nat>)
    requires Sized(s, |s.need|, |s.available|) && Distinct(done, |s.need|) && |done| <= |s.need| && NeverStuck(s)
    ensures |Chosen(s, done)| == |s.need|
    decreases |s.need| - |done|
  {
    hide CanFinish;
    if |done| < |s.need| { ChosenFull(s, done + [NextFrom(s, done, 0)]); }
  }

  /** With allocations that are not negative, exactly the safe states pass. */
  lemma AcceptsIffSafe(s: State)
    requires Sized(s, |s.need|, |s.available|) && NonNegative(s.allocation)
    ensures Accepts(s) <==> Safe(s)
  {
    hide CanFinish, Accepts, SafeOrder;
    if Accepts(s) { AcceptedIsSafe(s); }
    if order: seq<nat> :| SafeOrder(s, order) {
      forall done: seq<nat> | Distinct(done, |s.need|) && |done| < |s.need|
        ensures exists j: nat :: j < |s.need| && j !in done && CanFinish(s, done, j)
      {
        var j := SomeoneCanFinish(s, done, order);
      }
      FullAccepts(s);
    }
  }

  lemma FullAccepts(s: State)
    requires Sized(s, |s.need|, |s.available|) && NeverStuck(s)
    ensures Accepts(s)
  {
    ChosenFull(s, []);
  }

  /** Only the process that asks returns something else than it would have. */
  lemma {:induction false} PretendReturned(s: State, i: nat, request: Vec, done: seq<nat>, k: nat)
    requires Sized(s, |s.need|, |s.available|) && i < |s.need| && |request| == |s.available| && k < |request|
    requires Distinct(done, |s.need|)
    ensures Returned(Pretend(s, i, request), done, k) == Returned(s, done, k) + if i in done then request[k] else 0
    decreases |done|
  {
    if done != [] {
      var last := |done| - 1;
      PrefixDistinct(done, last, |s.need|);
      PretendReturned(s, i, request, done[..last], k);
      assert done == done[..last] + [done[last]];
    }
  }

  /** A request of any signs, from a safe state with no negative allocation: once the process that asks is done, the
      work vector is that of the old state; before, only allocations of the old state were returned. */
  lemma PretendNeverStuck(s: State, i: nat, request: Vec)
    requires Sized(s, |s.need|, |s.available|) && i < |s.need| && |request| == |s.available|
    requires Safe(s) && NonNegative(s.allocation) && Safe(Pretend(s, i, request))
    ensures NeverStuck(Pretend(s, i, request))
  {
    hide SafeOrder, NonNegative;
    var t := Pretend(s, i, request);
    var before: seq<nat> :| SafeOrder(s, before);
    var after: seq<nat> :| SafeOrder(t, after);
    forall done: seq<nat> | Distinct(done, |t.need|) && |done| < |t.need|
      ensures exists j: nat :: j < |t.need| && j !in done && CanFinish(t, done, j)
    {
      HeldBefore(s, i, request, done);
      if i in done {
        var j := SomeoneCanFinish(s, done, before);
        forall k | 0 <= k < |request|
          ensures t.available[k] + Returned(t, done, k) == s.available[k] + Returned(s, done, k)
        {
          PretendReturned(s, i, request, done, k);
        }
        assert CanFinish(t, done, j);
      } else {
        var j := SomeoneCanFinish(t, done, after);
      }
    }
  }

  lemma HeldBefore(s: State, i: nat, request: Vec, done: seq<nat>)
    requires Sized(s, |s.need|, |s.available|) && i < |s.need| && |request| == |s.available|
    requires NonNegative(s.allocation) && Distinct(done, |s.need|)
    ensures NonNegativeOf(s, done) && (i !in done ==> NonNegativeOf(Pretend(s, i, request), done))
  {
  }

  /** From a safe state with no negative allocation, exactly the requests to safe states pass, whatever their signs. */
  lemma AcceptsFromSafe(s: State, i: nat, request: Vec)
    requires Sized(s, |s.need|, |s.available|) && i < |s.need| && |request| == |s.available|
    requires Safe(s) && NonNegative(s.allocation)
    ensures Sized(Pretend(s, i, request), |s.need|, |s.available|)
    ensures Accepts(Pretend(s, i, request)) <==> Safe(Pretend(s, i, request))
  {
    hide Accepts, Safe, NeverStuck, Pretend;
    PretendedSized(s, i, request);
    if Accepts(Pretend(s, i, request)) { AcceptedIsSafe(Pretend(s, i, request)); }
    if Safe(Pretend(s, i, request)) {
      PretendNeverStuck(s, i, request);
      FullAccepts(Pretend(s, i, request));
    }
  }

  lemma ChosenNext(s: State, done: seq<nat>, j: nat)
    requires Sized(s, |s.need|, |s.available|) && Distinct(done, |s.need|) && |done| < |s.need| && j <= |s.need|
    requires j < |s.need| ==> j !in done && CanFinish(s, done, j)
    requires forall x: nat :: x < j ==> x in done || !CanFinish(s, done, x)
    ensures j < |s.need| ==> Distinct(done + [j], |s.need|)
    ensures Chosen(s, done) == if j < |s.need| then Chosen(s, done + [j]) else done
  {
    hide CanFinish;
    assert NextFrom(s, done, 0) == j;
  }

  // ------------------------------------------------------------------ the program's arrays

  class Bank {
    const n: nat
    const m: nat
    const available: array<int>
    const work: array<int>
    const need: array2<int>
    const allocation: array2<int>

    ghost predicate Valid() {
      && available.Length == m && work.Length == m && available != work
      && need.Length0 == n && need.Length1 == m && allocation.Length0 == n && allocation.Length1 == m
      && need != allocation
    }

    ghost function Now(): (s: State)
      requires Valid()
      reads available, need, allocation
      ensures Sized(s, n, m)
    {
      State(available[..], Rows(need), Rows(allocation))
    }

    /** The start of main: needs and available resources from claims, allocations and totals. */
    constructor (claim: seq<Vec>, alloc: seq<Vec>, resource: Vec)
      requires |alloc| == |claim|
      requires forall j :: 0 <= j < |claim| ==> |claim[j]| == |resource| && |alloc[j]| == |resource|
      ensures Valid() && n == |claim| && m == |resource| && Now().allocation == alloc
      ensures Conserves(Now(), claim, resource)
    {
      hide Conserves;
      n, m := |claim|, |resource|;
      var av := new int[|resource|];
      var al := new int[|claim|, |resource|]((j, k) requires 0 <= j < |claim| && 0 <= k < |resource| => alloc[j][k]);
      var ne := new int[|claim|, |resource|](
        (j, k) requires 0 <= j < |claim| && 0 <= k < |resource| => claim[j][k] - alloc[j][k]);
      forall k | 0 <= k < |resource| { av[k] := resource[k]; }
      Deduct(av, al);
      available := av;
      work := new int[|resource|];
      allocation, need := al, ne;
      new;
      assert forall j :: 0 <= j < n ==> Rows(allocation)[j] == alloc[j];
      StartConserves(Now(), claim, alloc, resource);
    }

    /** Lines 164-166 */
    static method Deduct(av: array<int>, al: array2<int>)
      requires av.Length == al.Length1
      modifies av
      ensures forall k :: 0 <= k < av.Length ==> av[k] == old(av[k]) - ColumnSum(Rows(al), k)
    {
      var j := 0;
      while j < al.Length0
        invariant 0 <= j <= al.Length0
        invariant forall k :: 0 <= k < av.Length ==> av[k] == old(av[k]) - ColumnSum(Rows(al)[..j], k)
      {
        label Row:
        var k := 0;
        while k < al.Length1
          invariant 0 <= k <= al.Length1
          invariant forall l :: 0 <= l < av.Length ==> av[l] == old@Row(av[l]) - if l < k then al[j, l] else 0
        {
          av[k] := av[k] - al[j, k];
          k := k + 1;
        }
        assert Rows(al)[..j + 1][..j] == Rows(al)[..j];
        j := j + 1;
      }
      assert Rows(al)[..al.Length0] == Rows(al);
    }

    /** Lines 60-72: process `j` fits, with the need it would have if the request were granted. */
    method NeedFits(j: nat, i: nat, request: Vec) returns (fits: bool)
      requires Valid() && j < n && i < n && |request| == m
      ensures fits <==> Leq(Pretend(Now(), i, request).need[j], work[..])
    {
      var k := 0;
      while k < m
        invariant 0 <= k <= m
        invariant forall l :: 0 <= l < k ==> Pretend(Now(), i, request).need[j][l] <= work[l]
      {
        var wanted := if j == i then need[i, k] - request[k] else need[j, k];
        if wanted > work[k] { break; }
        k := k + 1;
      }
      fits := k == m;
    }

    /** Lines 79-89: process `j` gives back what it would hold. */
    method Release(j: nat, i: nat, request: Vec)
      requires Valid() && j < n && i < n && |request| == m
      modifies work
      ensures work[..] == Plus(old(work[..]), Pretend(Now(), i, request).allocation[j])
    {
      var l := 0;
      while l < m
        invariant 0 <= l <= m
        invariant forall k :: 0 <= k < m ==>
          work[k] == old(work[k]) + if k < l then Pretend(Now(), i, request).allocation[j][k] else 0
      {
        work[l] := work[l] + if j == i then allocation[i, l] + request[l] else allocation[j, l];
        l := l + 1;
      }
    }

    /** safecheck, for every state and request: the greedy choice, and whether it got through. */
    method SafeCheck(i: nat, request: Vec) returns (ok: bool, safeSeq: seq<nat>)
      requires Valid() && i < n && |request| == m && work[..] == Minus(available[..], request)
      modifies work
      ensures Now() == old(Now())
      ensures safeSeq == Chosen(Pretend(Now(), i, request), []) && (ok <==> Accepts(Pretend(Now(), i, request)))
      ensures ok ==> SafeOrder(Pretend(Now(), i, request), safeSeq) && Safe(Pretend(Now(), i, request))
      ensures NonNegative(Pretend(Now(), i, request).allocation) ==> (ok <==> Safe(Pretend(Now(), i, request)))
      ensures Safe(Now()) && NonNegative(Now().allocation) ==> (ok <==> Safe(Pretend(Now(), i, request)))
    {
      hide Distinct, Feasible, CanFinish, NonNegative, Leq, Pretend, Safe, SafeOrder;
      PretendedSized(Now(), i, request);
      ghost var t := Pretend(Now(), i, request);
      StartOrder(t);
      PretendedAvailable(Now(), i, request);
      var finish := seq(n, _ => false);
      safeSeq := [];
      while |safeSeq| < n
        invariant |safeSeq| <= n && Distinct(safeSeq, n) && Feasible(t, safeSeq)
        invariant |finish| == n && Marks(finish, safeSeq)
        invariant work[..] == WorkAfter(t, safeSeq) && Chosen(t, []) == Chosen(t, safeSeq)
        decreases n - |safeSeq|
      {
        var j := FindProcess(finish, i, request);
        FoundIsNext(t, safeSeq, finish, j);
        if j == n {
          Decided(Now(), i, request);
          return false, safeSeq;
        }
        ExtendOrder(t, safeSeq, j);
        safeSeq := safeSeq + [j];
        finish := finish[j := true];
        Release(j, i, request);
      }
      Decided(Now(), i, request);
      ok := true;
    }

    /** resource_request: a granted request becomes the new state, a refused one leaves the old one. */
    method ResourceRequest(i: nat, request: Vec) returns (ok: bool)
      requires Valid() && i < n && |request| == m
      modifies available, work, need, allocation
      ensures ok <==> Granted(old(Now()), i, request)
      ensures Now() == Turn(old(Now()), Request(i, request))
      ensures Now() == if ok then Pretend(old(Now()), i, request) else old(Now())
      ensures ok ==> Safe(Now())
      ensures NonNegative(Pretend(old(Now()), i, request).allocation) ==> (ok <==> Grantable(old(Now()), i, request))
      ensures Safe(old(Now())) && NonNegative(old(Now()).allocation) ==> (ok <==> Grantable(old(Now()), i, request))
    {
      hide NonNegative, Safe, SafeOrder, Pretend, Accepts, Grantable, Granted;
      GrantableIs(Now(), i, request);
      ok := WithinNeed(i, request);
      if !ok { return; }
      ok := WithinAvailable(request);
      if !ok { return; }
      var k := 0;
      while k < m
        invariant 0 <= k <= m && forall l :: 0 <= l < k ==> work[l] == available[l] - request[l]
        modifies work
      {
        work[k] := available[k] - request[k];
        k := k + 1;
      }
      assert work[..] == Minus(available[..], request);
      var order;
      ok, order := SafeCheck(i, request);
      if ok { Commit(i, request); }
    }

    /** Lines 121-126 */
    method WithinNeed(i: nat, request: Vec) returns (ok: bool)
      requires Valid() && i < n && |request| == m
      ensures ok <==> Leq(request, Now().need[i])
    {
      var k := 0;
      while k < m
        invariant 0 <= k <= m && forall l :: 0 <= l < k ==> request[l] <= need[i, l]
      {
        if request[k] > need[i, k] { return false; }
        k := k + 1;
      }
      ok := true;
    }

    /** Lines 128-133 */
    method WithinAvailable(request: Vec) returns (ok: bool)
      requires Valid() && |request| == m
      ensures ok <==> Leq(request, Now().available)
    {
      var k := 0;
      while k < m
        invariant 0 <= k <= m && forall l :: 0 <= l < k ==> request[l] <= available[l]
      {
        if request[k] > available[k] { return false; }
        k := k + 1;
      }
      ok := true;
    }

    /** Lines 141-147 */
    method Commit(i: nat, request: Vec)
      requires Valid() && i < n && |request| == m
      modifies available, need, allocation
      ensures Now() == Pretend(old(Now()), i, request)
    {
      var k := 0;
      while k < m
        invariant 0 <= k <= m
        invariant forall l :: 0 <= l < m ==> available[l] == old(available[l]) - if l < k then request[l] else 0
        invariant forall j, l :: 0 <= j < n && 0 <= l < m ==>
          need[j, l] == old(need[j, l]) - if j == i && l < k then request[l] else 0
        invariant forall j, l :: 0 <= j < n && 0 <= l < m ==>
          allocation[j, l] == old(allocation[j, l]) + if j == i && l < k then request[l] else 0
      {
        available[k] := available[k] - request[k];
        need[i, k] := need[i, k] - request[k];
        allocation[i, k] := allocation[i, k] + request[k];
        k := k + 1;
      }
      SameState(Now(), Pretend(old(Now()), i, request), n, m);
    }

    /** Lines 58-95: the first unfinished process whose need fits, or `n`. */
    method FindProcess(finish: seq<bool>, i: nat, request: Vec) returns (j: nat)
      requires Valid() && i < n && |request| == m && |finish| == n
      ensures j <= n
      ensures j < n ==> !finish[j] && Leq(Pretend(Now(), i, request).need[j], work[..])
      ensures forall x: nat :: x < j && !finish[x] ==> !Leq(Pretend(Now(), i, request).need[x], work[..])
    {
      hide Leq, Pretend;
      PretendedSized(Now(), i, request);
      j := 0;
      while j < n
        invariant j <= n
        invariant forall x: nat :: x < j && !finish[x] ==> !Leq(Pretend(Now(), i, request).need[x], work[..])
      {
        if !finish[j] {
          var fits := NeedFits(j, i, request);
          if fits { break; }
        }
        j := j + 1;
      }
    }
  }

  /** What the program means by a request that can be granted. */
  ghost predicate Grantable(s: State, i: nat, request: Vec)
    requires Sized(s, |s.need|, |s.available|) && i < |s.need| && |request| == |s.available|
  {
    Leq(request, s.need[i]) && Leq(request, s.available) && Safe(Pretend(s, i, request))
  }

  /** What the program grants. */
  ghost predicate Granted(s: State, i: nat, request: Vec)
    requires Sized(s, |s.need|, |s.available|) && i < |s.need| && |request| == |s.available|
  {
    Leq(request, s.need[i]) && Leq(request, s.available) && Accepts(Pretend(s, i, request))
  }

  lemma GrantableIs(s: State, i: nat, request: Vec)
    requires Sized(s, |s.need|, |s.available|) && i < |s.need| && |request| == |s.available|
    ensures Sized(Pretend(s, i, request), |s.need|, |s.available|)
    ensures Grantable(s, i, request) <==>
      Leq(request, s.need[i]) && Leq(request, s.available) && Safe(Pretend(s, i, request))
    ensures Granted(s, i, request) <==>
      Leq(request, s.need[i]) && Leq(request, s.available) && Accepts(Pretend(s, i, request))
  {
  }

  lemma SameState(s: State, t: State, n: nat, m: nat)
    requires Sized(s, n, m) && Sized(t, n, m)
    requires forall k :: 0 <= k < m ==> s.available[k] == t.available[k]
    requires forall j, k :: 0 <= j < n && 0 <= k < m ==> s.need[j][k] == t.need[j][k]
    requires forall j, k :: 0 <= j < n && 0 <= k < m ==> s.allocation[j][k] == t.allocation[j][k]
    ensures s == t
  {
    assert forall j :: 0 <= j < n ==> s.need[j] == t.need[j];
    assert forall j :: 0 <= j < n ==> s.allocation[j] == t.allocation[j];
  }

  lemma PretendedSized(s: State, i: nat, request: Vec)
    requires Sized(s, |s.need|, |s.available|) && i < |s.need| && |request| == |s.available|
    ensures Sized(Pretend(s, i, request), |s.need|, |s.available|)
  {
  }

  lemma PretendedAvailable(s: State, i: nat, request: Vec)
    requires Sized(s, |s.need|, |s.available|) && i < |s.need| && |request| == |s.available|
    ensures Pretend(s, i, request).available == Minus(s.available, request)
  {
  }

  /** finish[] marks exactly the processes chosen so far. */
  ghost predicate Marks(finish: seq<bool>, done: seq<nat>) {
    forall x: nat :: x < |finish| ==> (finish[x] <==> x in done)
  }

  /** work[] after the processes of `order` have finished. */
  ghost function WorkAfter(s: State, order: seq<nat>): (w: Vec)
    requires Sized(s, |s.need|, |s.available|) && Distinct(order, |s.need|)
    ensures |w| == |s.available| && forall k :: 0 <= k < |w| ==> w[k] == s.available[k] + Returned(s, order, k)
  {
    seq(|s.available|, k requires 0 <= k < |s.available| => s.available[k] + Returned(s, order, k))
  }

  lemma StartOrder(s: State)
    requires Sized(s, |s.need|, |s.available|)
    ensures Distinct([], |s.need|) && Feasible(s, []) && WorkAfter(s, []) == s.available
  {
  }

  lemma FitsIffCanFinish(s: State, order: seq<nat>, j: nat)
    requires Sized(s, |s.need|, |s.available|) && Distinct(order, |s.need|) && j < |s.need|
    ensures Leq(s.need[j], WorkAfter(s, order)) <==> CanFinish(s, order, j)
  {
  }

  lemma ExtendOrder(s: State, order: seq<nat>, j: nat)
    requires Sized(s, |s.need|, |s.available|) && Distinct(order, |s.need|) && Feasible(s, order)
    requires j < |s.need| && j !in order && CanFinish(s, order, j)
    ensures Distinct(order + [j], |s.need|) && Feasible(s, order + [j])
    ensures WorkAfter(s, order + [j]) == Plus(WorkAfter(s, order), s.allocation[j])
  {
    hide CanFinish;
    var t := order + [j];
    assert t[..|order|] == order;
    forall a | 0 <= a < |t| ensures CanFinish(s, t[..a], t[a]) {
      if a < |order| { assert t[..a] == order[..a]; }
    }
  }

  lemma FullOrder(s: State, order: seq<nat>)
    requires Sized(s, |s.need|, |s.available|) && Distinct(order, |s.need|) && Feasible(s, order) && |order| == |s.need|
    ensures SafeOrder(s, order) && Safe(s)
  {
    assert SafeOrder(s, order);
  }

  /** The process found by the scan of the work vector is the next one of the choice. */
  lemma FoundIsNext(s: State, done: seq<nat>, finish: seq<bool>, j: nat)
    requires Sized(s, |s.need|, |s.available|) && Distinct(done, |s.need|) && |done| < |s.need|
    requires |finish| == |s.need| && Marks(finish, done) && j <= |s.need|
    requires j < |s.need| ==> !finish[j] && Leq(s.need[j], WorkAfter(s, done))
    requires forall x: nat :: x < j && !finish[x] ==> !Leq(s.need[x], WorkAfter(s, done))
    ensures j < |s.need| ==> j !in done && CanFinish(s, done, j) && Distinct(done + [j], |s.need|)
    ensures Chosen(s, done) == if j < |s.need| then Chosen(s, done + [j]) else done
  {
    hide CanFinish, Leq, WorkAfter;
    forall x: nat | x < |s.need|
      ensures Leq(s.need[x], WorkAfter(s, done)) <==> CanFinish(s, done, x)
    {
      FitsIffCanFinish(s, done, x);
    }
    ChosenNext(s, done, j);
  }

  /** What the decision means, by the signs of the allocations. */
  lemma Decided(s: State, i: nat, request: Vec)
    requires Sized(s, |s.need|, |s.available|) && i < |s.need| && |request| == |s.available|
    ensures var t := Pretend(s, i, request);
      && Sized(t, |s.need|, |s.available|)
      && (Accepts(t) <==> |Chosen(t, [])| == |s.need|)
      && (Accepts(t) ==> SafeOrder(t, Chosen(t, [])) && Safe(t))
      && (NonNegative(t.allocation) || (Safe(s) && NonNegative(s.allocation)) ==> (Accepts(t) <==> Safe(t)))
  {
    PretendedSized(s, i, request);
    var t := Pretend(s, i, request);
    assert |t.need| == |s.need| && |t.available| == |s.available|;
    if Accepts(t) { AcceptedIsSafe(t); }
    if NonNegative(t.allocation) { AcceptsIffSafe(t); }
    if Safe(s) && NonNegative(s.allocation) { AcceptsFromSafe(s, i, request); }
  }

  // ------------------------------------------------------------------ runs

  datatype Request = Request(process: nat, amounts: Vec)

  /** One turn of the program's main loop. */
  ghost function Turn(s: State, r: Request): (t: State)
    requires Sized(s, |s.need|, |s.available|) && r.process < |s.need| && |r.amounts| == |s.available|
    ensures Sized(t, |s.need|, |s.available|) && |t.need| == |s.need| && |t.available| == |s.available|
  {
    PretendedSized(s, r.process, r.amounts);
    if Granted(s, r.process, r.amounts) then Pretend(s, r.process, r.amounts) else s
  }

  ghost predicate Fits(rs: seq<Request>, n: nat, m: nat) {
    forall i :: 0 <= i < |rs| ==> rs[i].process < n && |rs[i].amounts| == m
  }

  ghost function Turns(s: State, rs: seq<Request>): (t: State)
    requires Sized(s, |s.need|, |s.available|) && Fits(rs, |s.need|, |s.available|)
    ensures Sized(t, |s.need|, |s.available|) && |t.need| == |s.need| && |t.available| == |s.available|
    decreases |rs|
  {
    if rs == [] then s else Turns(Turn(s, rs[0]), rs[1..])
  }

  /** What process `j` was granted of resource `k` over a run. */
  ghost function GrantedSum(s: State, rs: seq<Request>, j: nat, k: nat): int
    requires Sized(s, |s.need|, |s.available|) && Fits(rs, |s.need|, |s.available|) && k < |s.available|
    decreases |rs|
  {
    if rs == [] then 0 else
    (if rs[0].process == j && Granted(s, j, rs[0].amounts) then rs[0].amounts[k] else 0)
      + GrantedSum(Turn(s, rs[0]), rs[1..], j, k)
  }

  /** Over every run each process holds what it held at first and what it was granted since. */
  lemma {:induction false} HeldIsGranted(s: State, rs: seq<Request>, j: nat, k: nat)
    requires Sized(s, |s.need|, |s.available|) && Fits(rs, |s.need|, |s.available|)
    requires j < |s.need| && k < |s.available|
    ensures Turns(s, rs).allocation[j][k] == s.allocation[j][k] + GrantedSum(s, rs, j, k)
    decreases |rs|
  {
    if rs != [] { HeldIsGranted(Turn(s, rs[0]), rs[1..], j, k); }
  }

  function ColumnSum(v: seq<Vec>, k: nat): int
    requires forall j :: 0 <= j < |v| ==> k < |v[j]|
  {
    if v == [] then 0 else ColumnSum(v[..|v| - 1], k) + v[|v| - 1][k]
  }

  /** Nothing is lost: allocation and need make up the claim, available and allocations the resources. */
  ghost predicate Conserves(s: State, claim: seq<Vec>, resource: Vec)
    requires Sized(s, |s.need|, |s.available|)
  {
    && |claim| == |s.need| && (forall j :: 0 <= j < |claim| ==> |claim[j]| == |s.available|)
         && |resource| == |s.available|
    && (forall j, k :: 0 <= j < |claim| && 0 <= k < |resource| ==> s.allocation[j][k] + s.need[j][k] == claim[j][k])
    && (forall k :: 0 <= k < |resource| ==> s.available[k] + ColumnSum(s.allocation, k) == resource[k])
  }

  ghost predicate AllNonNegative(s: State) {
    NonNegative([s.available]) && NonNegative(s.need) && NonNegative(s.allocation)
  }

  lemma {:induction false} ColumnSumUpdate(v: seq<Vec>, i: nat, row: Vec, k: nat)
    requires i < |v| && k < |row| && forall j :: 0 <= j < |v| ==> k < |v[j]|
    ensures ColumnSum(v[i := row], k) == ColumnSum(v, k) - v[i][k] + row[k]
    decreases |v|
  {
    var last := |v| - 1;
    if i == last {
      assert v[i := row][..last] == v[..last];
    } else {
      assert v[i := row][..last] == v[..last][i := row];
      ColumnSumUpdate(v[..last], i, row, k);
    }
  }

  lemma StartConserves(s: State, claim: seq<Vec>, alloc: seq<Vec>, resource: Vec)
    requires Sized(s, |claim|, |resource|) && s.allocation == alloc && forall j :: 0 <= j < |claim| ==>
        |claim[j]| == |resource|
    requires forall j, k :: 0 <= j < |claim| && 0 <= k < |resource| ==> s.need[j][k] == claim[j][k] - alloc[j][k]
    requires forall k :: 0 <= k < |resource| ==> s.available[k] == resource[k] - ColumnSum(alloc, k)
    ensures Conserves(s, claim, resource)
  {
  }

  /** Conservation holds for every request, whatever its signs. */
  lemma TurnConserves(s: State, r: Request, claim: seq<Vec>, resource: Vec)
    requires Sized(s, |s.need|, |s.available|) && r.process < |s.need| && |r.amounts| == |s.available|
    requires Conserves(s, claim, resource)
    ensures Conserves(Turn(s, r), claim, resource)
  {
    var i := r.process;
    forall k | 0 <= k < |resource|
      ensures Turn(s, r).available[k] + ColumnSum(Turn(s, r).allocation, k) == resource[k]
    {
      ColumnSumUpdate(s.allocation, i, Plus(s.allocation[i], r.amounts), k);
    }
  }

  /** A granted request keeps every quantity non-negative exactly when it takes no allocation below zero. */
  lemma GrantKeepsSignsIff(s: State, i: nat, request: Vec)
    requires Sized(s, |s.need|, |s.available|) && i < |s.need| && |request| == |s.available|
    requires AllNonNegative(s) && Grantable(s, i, request)
    ensures AllNonNegative(Pretend(s, i, request)) <==> forall k :: 0 <= k < |request| ==>
        request[k] >= -s.allocation[i][k]
  {
    var t := Pretend(s, i, request);
    if NonNegative(t.allocation) {
      forall k | 0 <= k < |request| ensures request[k] >= -s.allocation[i][k] {
        assert t.allocation[i][k] >= 0;
      }
    }
    assert forall j, k :: 0 <= j < |s.need| && 0 <= k < |request| && j != i ==> t.need[j][k] == s.need[j][k] >= 0;
    assert forall k :: 0 <= k < |request| ==> [s.available][0][k] >= 0;
  }

  /** Taking more back than is held is granted and does so: a process without need or allocation "requests" -1. */
  lemma NegativeRequestIsGranted()
    ensures var s := State([0], [[0]], [[0]]);
      Sized(s, 1, 1) && AllNonNegative(s) && Safe(s) && Granted(s, 0, [-1])
          && !AllNonNegative(Turn(s, Request(0, [-1])))
  {
    var s := State([0], [[0]], [[0]]);
    var t := Pretend(s, 0, [-1]);
    assert t.available[0] == 1 && t.need[0][0] == 1 && t.allocation[0][0] == -1;
    var order: seq<nat> := [0];
    assert order[..0] == [];
    assert SafeOrder(t, order) && SafeOrder(s, order);
    AcceptsFromSafe(s, 0, [-1]);
  }

  /** From a safe state, every run of non-negative requests conserves, stays non-negative and stays safe. */
  lemma {:induction false} RunKeeps(s: State, rs: seq<Request>, claim: seq<Vec>, resource: Vec)
    requires Sized(s, |s.need|, |s.available|) && Fits(rs, |s.need|, |s.available|)
    requires Conserves(s, claim, resource) && AllNonNegative(s) && Safe(s)
    requires forall i, k :: 0 <= i < |rs| && 0 <= k < |rs[i].amounts| ==> rs[i].amounts[k] >= 0
    ensures Conserves(Turns(s, rs), claim, resource) && AllNonNegative(Turns(s, rs)) && Safe(Turns(s, rs))
    decreases |rs|
  {
    if rs != [] {
      var r := rs[0];
      TurnConserves(s, r, claim, resource);
      if Granted(s, r.process, r.amounts) {
        AcceptedIsSafe(Pretend(s, r.process, r.amounts));
        GrantKeepsSignsIff(s, r.process, r.amounts);
      }
      RunKeeps(Turn(s, r), rs[1..], claim, resource);
    }
  }

  // ------------------------------------------------------------------ where the greedy choice misses

  /** Three processes that may want 0, 2 and 2 of a resource of 2. */
  ghost predicate Start(s: State) { s == State([2], [[0], [2], [2]], [[0], [0], [0]]) }

  /** What is left and what the last process may still take, after the second took 1 and the first "took" -1. */
  ghost predicate Skewed(s: State) { s == State([2], [[1], [1], [2]], [[-1], [1], [0]]) }

  lemma TurnOf(s: State, r: Request, t: State)
    requires Sized(s, |s.need|, |s.available|) && r.process < |s.need| && |r.amounts| == |s.available|
    requires Granted(s, r.process, r.amounts) && t == Pretend(s, r.process, r.amounts)
    ensures Turn(s, r) == t
  {
  }

  /** With nothing negative anywhere, an order that works lets a request through. */
  lemma GrantedByOrder(s: State, i: nat, request: Vec, order: seq<nat>)
    requires Sized(s, |s.need|, |s.available|) && i < |s.need| && |request| == |s.available|
    requires Safe(s) && NonNegative(s.allocation) && Leq(request, s.need[i]) && Leq(request, s.available)
    requires Sized(Pretend(s, i, request), |s.need|, |s.available|) && SafeOrder(Pretend(s, i, request), order)
    ensures Granted(s, i, request) && Safe(Pretend(s, i, request))
  {
    FullOrder(Pretend(s, i, request), order);
    AcceptsFromSafe(s, i, request);
  }

  /** An order of three in a state of one resource. */
  lemma ThreeInOrder(s: State, a: nat, b: nat, c: nat, order: seq<nat>)
    requires Sized(s, 3, 1) && order == [a, b, c] && a < 3 && b < 3 && c < 3 && a != b && a != c && b != c
    requires s.need[a][0] <= s.available[0]
    requires s.need[b][0] <= s.available[0] + s.allocation[a][0]
    requires s.need[c][0] <= s.available[0] + s.allocation[a][0] + s.allocation[b][0]
    ensures SafeOrder(s, order)
  {
    assert order[..0] == [] && order[..1][..0] == [] && order[..2][..1] == order[..1];
    assert order[..1][0] == a && order[..2][1] == b;
    assert Returned(s, order[..1], 0) == s.allocation[a][0];
    assert Returned(s, order[..2], 0) == s.allocation[a][0] + s.allocation[b][0];
    assert CanFinish(s, order[..0], order[0]) && CanFinish(s, order[..1], order[1])
        && CanFinish(s, order[..2], order[2]);
  }

  lemma PretendUnit(s: State, i: nat, q: int)
    requires Sized(s, |s.need|, 1) && i < |s.need|
    ensures Pretend(s, i, [q]) == State([s.available[0] - q], s.need[i := [s.need[i][0] - q]],
              s.allocation[i := [s.allocation[i][0] + q]])
  {
    assert Minus(s.available, [q]) == [s.available[0] - q];
    assert Minus(s.need[i], [q]) == [s.need[i][0] - q];
    assert Plus(s.allocation[i], [q]) == [s.allocation[i][0] + q];
  }

  lemma FirstTurn(s: State) returns (t: State)
    requires Start(s)
    ensures Sized(s, 3, 1) && Safe(s) && AllNonNegative(s) && Granted(s, 1, [1]) && t == Turn(s, Request(1, [1]))
    ensures t == State([1], [[0], [1], [2]], [[0], [1], [0]]) && Safe(t)
  {
    hide Accepts, Safe, SafeOrder;
    t := Pretend(s, 1, [1]);
    PretendUnit(s, 1, 1);
    assert t.available == [1] && t.need == [[0], [1], [2]] && t.allocation == [[0], [1], [0]];
    ThreeInOrder(s, 0, 1, 2, [0, 1, 2]);
    FullOrder(s, [0, 1, 2]);
    ThreeInOrder(t, 0, 1, 2, [0, 1, 2]);
    GrantedByOrder(s, 1, [1], [0, 1, 2]);
    TurnOf(s, Request(1, [1]), t);
  }

  lemma SecondTurn(s: State) returns (t: State)
    requires s == State([1], [[0], [1], [2]], [[0], [1], [0]]) && Safe(s)
    ensures Sized(s, 3, 1) && Granted(s, 0, [-1]) && t == Turn(s, Request(0, [-1])) && Skewed(t)
  {
    hide Accepts, Safe, SafeOrder;
    t := Pretend(s, 0, [-1]);
    PretendUnit(s, 0, -1);
    assert t.available == [2] && t.need == [[1], [1], [2]] && t.allocation == [[-1], [1], [0]];
    ThreeInOrder(t, 0, 1, 2, [0, 1, 2]);
    GrantedByOrder(s, 0, [-1], [0, 1, 2]);
    TurnOf(s, Request(0, [-1]), t);
  }

  lemma StuckAfterFirst(t: State, none: seq<nat>, first: seq<nat>)
    requires t == State([1], [[1], [1], [1]], [[-1], [1], [1]]) && none == [] && first == [0]
    ensures Sized(t, 3, 1) && Chosen(t, none) == first
  {
    hide Chosen, NextFrom;
    assert Returned(t, none, 0) == 0;
    ChosenNext(t, none, 0);
    assert none + [0] == first && first[..0] == none;
    assert Returned(t, first, 0) == -1;
    ChosenNext(t, first, 3);
  }

  lemma LastRefused(s: State)
    requires Skewed(s)
    ensures Sized(s, 3, 1) && Grantable(s, 2, [1]) && !Granted(s, 2, [1]) && Turn(s, Request(2, [1])) == s
  {
    hide Chosen, SafeOrder;
    var t := Pretend(s, 2, [1]);
    PretendUnit(s, 2, 1);
    assert t.available == [1] && t.need == [[1], [1], [1]] && t.allocation == [[-1], [1], [1]];
    ThreeInOrder(t, 1, 0, 2, [1, 0, 2]);
    FullOrder(t, [1, 0, 2]);
    StuckAfterFirst(t, [], [0]);
  }

  /** The check is not complete on every run: with claims of 0, 2 and 2 on a resource of 2, nothing allocated,
      the second process asks for 1 and the first for -1, and both are granted. The last process then asks for 1,
      within its need and what is available, and the state to come is safe; it is refused, as the choice starts with
      the process whose allocation is negative. */
  lemma GreedyMissesOrder(s: State)
    requires Start(s)
    ensures Sized(s, 3, 1) && AllNonNegative(s) && Safe(s) && Conserves(s, [[0], [2], [2]], [2])
    ensures var t := Turns(s, [Request(1, [1]), Request(0, [-1])]);
      && Sized(t, 3, 1) && Grantable(t, 2, [1]) && !Granted(t, 2, [1])
  {
    hide Accepts, Safe, Granted, Grantable, Turn;
    var middle := FirstTurn(s);
    var t := SecondTurn(middle);
    LastRefused(t);
    var rs := [Request(1, [1]), Request(0, [-1])];
    assert rs[1..][1..] == [] && rs[1..][0] == rs[1];
    assert Turns(s, rs) == Turns(middle, rs[1..]) == Turns(t, rs[1..][1..]) == t;
    assert ColumnSum(s.allocation, 0) == 0 by { ZeroColumn(s.allocation); }
  }

  lemma {:induction false} ZeroColumn(v: seq<Vec>)
    requires forall j :: 0 <= j < |v| ==> v[j] == [0]
    ensures ColumnSum(v, 0) == 0
    decreases |v|
  {
    if v != [] { ZeroColumn(v[..|v| - 1]); }
  }
}
