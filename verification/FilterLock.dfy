/** The N-thread Peterson filter lock, one shared read or write per step.
    A schedule is a sequence of thread numbers; every interleaving is a schedule. */
module FilterLock {

  /** Where a thread is: the next shared access it will perform. */
  datatype PC =
    | WriteLevel(lev: nat)            // level[i] = lev
    | WriteWaiting(lev: nat)          // waiting[lev] = i
    | TestWaiting(lev: nat)           // while (waiting[lev] == i)
    | ReadLevel(lev: nat, k: nat)     // level[k] >= lev && k != i
    | ReadWaiting(lev: nat, k: nat)   // waiting[lev] != i, "check again"
    | IncRead | IncWrite(c: int)      // counter++
    | TestCounter                     // counter > 1
    | DecRead | DecWrite(c: int)      // counter--
    | Leave                           // level[i] = -1
    | Done

  /** `waiting` has one cell per room; `pc` holds the threads' private state. */
  datatype State = State(level: seq<int>, waiting: seq<int>, counter: int, killed: bool, pc: seq<PC>)

  predicate InRoom(p: PC) { p.TestWaiting? || p.ReadLevel? || p.ReadWaiting? }

  predicate InCritical(p: PC) {
    p.IncRead? || p.IncWrite? || p.TestCounter? || p.DecRead? || p.DecWrite? || p.Leave?
  }

  predicate PcOk(p: PC, n: nat) {
    && ((p.WriteLevel? || p.WriteWaiting? || InRoom(p)) ==> p.lev < n - 1)
    && ((p.ReadLevel? || p.ReadWaiting?) ==> p.k < n)
  }

  predicate WellFormed(s: State) {
    && |s.level| == |s.pc|
    && |s.waiting| == (if |s.pc| == 0 then 0 else |s.pc| - 1)
    && forall i :: 0 <= i < |s.pc| ==> PcOk(s.pc[i], |s.pc|)
  }

  /** The next stop of a thread that has left every room below `lev`. */
  function EnterRoom(n: nat, lev: nat): PC {
    if lev < n - 1 then WriteLevel(lev) else IncRead
  }

  function Init(n: nat): State {
    State(seq(n, _ => -1), seq(if n == 0 then 0 else n - 1, _ => -1), 0, false, seq(n, _ => EnterRoom(n, 0)))
  }

  /** Where thread `i` goes after its next shared access. */
  function NextPc(s: State, i: nat): (p: PC)
    requires WellFormed(s) && i < |s.pc|
    ensures PcOk(p, |s.pc|)
  {
    var n := |s.pc|;
    match s.pc[i]
    case WriteLevel(lev) => WriteWaiting(lev)
    case WriteWaiting(lev) => TestWaiting(lev)
    case TestWaiting(lev) => if s.waiting[lev] == i then ReadLevel(lev, 0) else EnterRoom(n, lev + 1)
    case ReadLevel(lev, k) => if s.level[k] >= lev && k != i then TestWaiting(lev) else ReadWaiting(lev, k)
    case ReadWaiting(lev, k) =>
      if s.waiting[lev] != i then TestWaiting(lev)
      else if k + 1 < n then ReadLevel(lev, k + 1)
      else EnterRoom(n, lev + 1)
    case IncRead => IncWrite(s.counter)
    case IncWrite(_) => TestCounter
    case TestCounter => if s.counter > 1 then TestCounter else DecRead
    case DecRead => DecWrite(s.counter)
    case DecWrite(_) => Leave
    case Leave => Done
    case Done => Done
  }

  /** Thread `i` performs its next shared access; a finished thread or a killed process stands still. */
  function Next(s: State, i: nat): (t: State)
    requires WellFormed(s) && i < |s.pc|
    ensures WellFormed(t) && |t.pc| == |s.pc|
  {
    if s.killed then s else
    var p := s.pc[i];
    State(if p.WriteLevel? then s.level[i := p.lev] else if p.Leave? then s.level[i := -1] else s.level,
          if p.WriteWaiting? then s.waiting[p.lev := i] else s.waiting,
          if p.IncWrite? then p.c + 1 else if p.DecWrite? then p.c - 1 else s.counter,
          p.TestCounter? && s.counter > 1,
          s.pc[i := NextPc(s, i)])
  }

  ghost predicate Schedule(sched: seq<nat>, n: nat) {
    forall m :: 0 <= m < |sched| ==> sched[m] < n
  }

  ghost function Run(s: State, sched: seq<nat>): (t: State)
    requires WellFormed(s) && Schedule(sched, |s.pc|)
    ensures WellFormed(t) && |t.pc| == |s.pc|
    decreases |sched|
  {
    if sched == [] then s else Run(Next(s, sched[0]), sched[1..])
  }

  // ------------------------------------------------------------------ the invariant

  /** A live thread that has left the wait loop of room `r`. */
  predicate Passed(p: PC, r: nat) {
    match p
    case WriteLevel(lev) => lev > r
    case WriteWaiting(lev) => lev > r
    case TestWaiting(lev) => lev > r
    case ReadLevel(lev, _) => lev > r
    case ReadWaiting(lev, _) => lev > r
    case Done => false
    case _ => true
  }

  /** A live thread that has written `waiting[r]`. */
  predicate Written(p: PC, r: nat) { Passed(p, r) || (InRoom(p) && p.lev == r) }

  /** What a half-finished scan knows: room `r` no longer holds the scanner back because of thread `j`. */
  predicate Cleared(p: PC, r: nat, j: nat) {
    || Passed(p, r)
    || (p.ReadLevel? && p.lev == r && j < p.k)
    || (p.ReadWaiting? && p.lev == r && j <= p.k)
  }

  /** The value `level[i]` has while thread i is at `p`. */
  function LevelAt(p: PC, n: nat): int {
    match p
    case WriteLevel(lev) => lev - 1
    case WriteWaiting(lev) => lev
    case TestWaiting(lev) => lev
    case ReadLevel(lev, _) => lev
    case ReadWaiting(lev, _) => lev
    case Done => -1
    case _ => n - 2
  }

  ghost predicate LevelsMatch(s: State)
    requires WellFormed(s)
  {
    forall i :: 0 <= i < |s.pc| ==> s.level[i] == LevelAt(s.pc[i], |s.pc|)
  }

  ghost predicate ScansHold(s: State)
    requires WellFormed(s)
  {
    forall i, j, r | 0 <= i < |s.pc| && 0 <= j < |s.pc| && i != j && 0 <= r < |s.waiting| ::
      Cleared(s.pc[i], r, j) && Written(s.pc[j], r) ==> s.waiting[r] != i
  }

  ghost predicate WaiterIsWriter(s: State)
    requires WellFormed(s)
  {
    forall j, r | 0 <= j < |s.pc| && 0 <= r < |s.waiting| && Written(s.pc[j], r) ::
      0 <= s.waiting[r] < |s.pc| && Written(s.pc[s.waiting[r]], r)
  }

  /** The counter as the thread inside the critical section sees it. */
  predicate CounterAt(p: PC, counter: int) {
    match p
    case IncRead => counter == 0
    case IncWrite(c) => counter == 0 && c == 0
    case TestCounter => counter == 1
    case DecRead => counter == 1
    case DecWrite(c) => counter == 1 && c == 1
    case Leave => counter == 0
    case _ => true
  }

  ghost predicate CounterHolds(s: State) {
    && !s.killed
    && (forall i :: 0 <= i < |s.pc| ==> CounterAt(s.pc[i], s.counter))
    && ((forall i :: 0 <= i < |s.pc| ==> !InCritical(s.pc[i])) ==> s.counter == 0)
  }

  ghost predicate LockInv(s: State) {
    WellFormed(s) && LevelsMatch(s) && ScansHold(s) && WaiterIsWriter(s)
  }

  ghost predicate Inv(s: State) {
    LockInv(s) && CounterHolds(s)
  }

  ghost function PassedSet(s: State, r: nat): set<nat> {
    set i: nat | i < |s.pc| && Passed(s.pc[i], r)
  }

  // ------------------------------------------------------------------ counting

  lemma SubsetSize<T>(a: set<T>, b: set<T>)
    requires a <= b
    ensures |a| <= |b|
  {
    assert b == a + (b - a);
  }

  ghost function Threads(n: nat): (t: set<nat>)
    ensures |t| == n && forall i: nat :: i in t <==> i < n
  {
    if n == 0 then {} else Threads(n - 1) + {n - 1}
  }

  /** If two live threads are past room `r`, the thread named by `waiting[r]` is still held in it. */
  lemma SomeoneWaits(s: State, r: nat, i: nat, j: nat)
    requires LockInv(s) && r < |s.waiting|
    requires i < |s.pc| && j < |s.pc| && i != j && Passed(s.pc[i], r) && Passed(s.pc[j], r)
    ensures 0 <= s.waiting[r] < |s.pc|
    ensures InRoom(s.pc[s.waiting[r]]) && s.pc[s.waiting[r]].lev == r
  {
    var w := s.waiting[r];
    assert Written(s.pc[i], r) && Written(s.pc[j], r) && Written(s.pc[w], r);
    assert forall other :: other in {i, j} && other != w ==> !Cleared(s.pc[w], r, other);
  }

  /** At most `n-1-r` live threads are past room `r`. */
  lemma {:induction false} RoomBound(s: State, r: nat)
    requires LockInv(s) && r < |s.waiting|
    ensures |PassedSet(s, r)| <= |s.pc| - 1 - r
  {
    hide LevelsMatch, ScansHold, WaiterIsWriter;
    var n := |s.pc|;
    var passed := PassedSet(s, r);
    var before: set<nat> := if r == 0 then Threads(n) else PassedSet(s, r - 1);
    assert |before| <= n - r by {
      if r > 0 { RoomBound(s, r - 1); }
    }
    assert passed <= before;
    if i :| i in passed {
      if passed == {i} {
      } else {
        assert passed == {i} + (passed - {i});
        var j :| j in passed - {i};
        SomeoneWaits(s, r, i, j);
        var w: nat := s.waiting[r];
        assert w in before && w !in passed;
        SubsetSize(passed, before - {w});
      }
    }
  }

  lemma CriticalIsAlone(s: State, i: nat, j: nat)
    requires LockInv(s) && i < |s.pc| && j < |s.pc| && InCritical(s.pc[i]) && InCritical(s.pc[j])
    ensures i == j
  {
    var n := |s.pc|;
    if n > 1 {
      RoomBound(s, n - 2);
      SubsetSize({i, j}, PassedSet(s, n - 2));
      assert i != j ==> |{i, j}| == 2;
    }
  }

  // ------------------------------------------------------------------ every step keeps the invariant

  lemma InitInv(n: nat)
    ensures Inv(Init(n))
  {
    var s := Init(n);
    assert n > 0 ==> InCritical(s.pc[0]) || s.pc[0].WriteLevel?;
    assert n > 1 ==> forall i, r: nat :: 0 <= i < n ==> !Written(s.pc[i], r);
  }

  lemma StepLevels(s: State, i: nat)
    requires Inv(s) && i < |s.pc|
    ensures LevelsMatch(Next(s, i))
  {
  }

  lemma StepScans(s: State, i: nat)
    requires Inv(s) && i < |s.pc|
    ensures ScansHold(Next(s, i))
  {
    var t := Next(s, i);
    forall a, b, r | 0 <= a < |t.pc| && 0 <= b < |t.pc| && a != b && 0 <= r < |t.waiting| &&
      Cleared(t.pc[a], r, b) && Written(t.pc[b], r)
      ensures t.waiting[r] != a
    {
      if Cleared(s.pc[a], r, b) && Written(s.pc[b], r) {
      } else if a == i {
        assert Written(s.pc[b], r);
      } else {
        assert Cleared(s.pc[a], r, b);
      }
    }
  }

  lemma StepWaiter(s: State, i: nat)
    requires Inv(s) && i < |s.pc|
    ensures WaiterIsWriter(Next(s, i))
  {
    var t := Next(s, i);
    forall j, r | 0 <= j < |t.pc| && 0 <= r < |t.waiting| && Written(t.pc[j], r)
      ensures 0 <= t.waiting[r] < |t.pc| && Written(t.pc[t.waiting[r]], r)
    {
      if s.pc[i] != WriteWaiting(r) {
        assert Written(s.pc[j], r);
        assert s.pc[i].Leave? ==> Cleared(s.pc[i], r, j);
      }
    }
  }

  lemma StepCounter(s: State, i: nat)
    requires Inv(s) && i < |s.pc| && LockInv(Next(s, i))
    ensures CounterHolds(Next(s, i))
  {
    var t := Next(s, i);
    assert CounterAt(s.pc[i], s.counter);
    forall j | 0 <= j < |s.pc| && j != i
      ensures t.pc[j] == s.pc[j] && CounterAt(s.pc[j], s.counter)
      ensures InCritical(s.pc[j]) ==> !InCritical(s.pc[i]) && !InCritical(t.pc[i])
    {
      if InCritical(s.pc[j]) && InCritical(s.pc[i]) { CriticalIsAlone(s, i, j); }
      if InCritical(s.pc[j]) && InCritical(t.pc[i]) { CriticalIsAlone(t, i, j); }
    }
    assert InCritical(t.pc[i]) || InCritical(s.pc[i]) || t.counter == s.counter;
  }

  lemma StepInv(s: State, i: nat)
    requires Inv(s) && i < |s.pc|
    ensures Inv(Next(s, i))
  {
    StepLevels(s, i);
    StepScans(s, i);
    StepWaiter(s, i);
    StepCounter(s, i);
  }

  lemma {:induction false} RunInv(s: State, sched: seq<nat>)
    requires Inv(s) && Schedule(sched, |s.pc|)
    ensures Inv(Run(s, sched))
    decreases |sched|
  {
    if sched != [] {
      StepInv(s, sched[0]);
      RunInv(Next(s, sched[0]), sched[1..]);
    }
  }

  /** In every reachable state: the room bounds, mutual exclusion, a counter of 0 or 1, and no kill. */
  lemma MutualExclusion(n: nat, sched: seq<nat>)
    requires Schedule(sched, n)
    ensures var s := Run(Init(n), sched);
      && (forall r: nat | r < n - 1 :: |PassedSet(s, r)| <= n - 1 - r)
      && (forall i, j | 0 <= i < n && 0 <= j < n && InCritical(s.pc[i]) && InCritical(s.pc[j]) :: i == j)
      && 0 <= s.counter <= 1
      && !s.killed
  {
    var s := Run(Init(n), sched);
    InitInv(n);
    RunInv(Init(n), sched);
    forall r: nat | r < n - 1 ensures |PassedSet(s, r)| <= n - 1 - r {
      RoomBound(s, r);
    }
    forall i: nat, j: nat | i < n && j < n && InCritical(s.pc[i]) && InCritical(s.pc[j]) ensures i == j {
      CriticalIsAlone(s, i, j);
    }
    if i :| 0 <= i < n && InCritical(s.pc[i]) {
      assert CounterAt(s.pc[i], s.counter);
    }
  }

  // ------------------------------------------------------------------ progress

  /** Stages a thread still has to go; the points of one wait loop are one stage. */
  function StagesLeft(p: PC, n: nat): (m: nat)
    requires PcOk(p, n)
    ensures m == 0 <==> p.Done?
  {
    match p
    case WriteLevel(lev) => 6 + 3 * (n - 1 - lev)
    case WriteWaiting(lev) => 5 + 3 * (n - 1 - lev)
    case TestWaiting(lev) => 4 + 3 * (n - 1 - lev)
    case ReadLevel(lev, _) => 4 + 3 * (n - 1 - lev)
    case ReadWaiting(lev, _) => 4 + 3 * (n - 1 - lev)
    case IncRead => 6
    case IncWrite(_) => 5
    case TestCounter => 4
    case DecRead => 3
    case DecWrite(_) => 2
    case Leave => 1
    case Done => 0
  }

  ghost function TotalLeft(pc: seq<PC>, n: nat): nat
    requires forall i :: 0 <= i < |pc| ==> PcOk(pc[i], n)
  {
    if pc == [] then 0 else TotalLeft(pc[..|pc| - 1], n) + StagesLeft(pc[|pc| - 1], n)
  }

  ghost predicate AllDone(s: State) {
    forall i :: 0 <= i < |s.pc| ==> s.pc[i].Done?
  }

  lemma {:induction false} TotalDrops(a: seq<PC>, b: seq<PC>, i: nat, n: nat)
    requires i < |a| == |b|
    requires forall j :: 0 <= j < |a| ==> PcOk(a[j], n) && PcOk(b[j], n)
    requires forall j :: 0 <= j < |a| && j != i ==> a[j] == b[j]
    requires StagesLeft(b[i], n) < StagesLeft(a[i], n)
    ensures TotalLeft(b, n) < TotalLeft(a, n)
  {
    var m := |a| - 1;
    if i == m {
      assert a[..m] == b[..m];
    } else {
      TotalDrops(a[..m], b[..m], i, n);
    }
  }

  lemma {:induction false} RunAppend(s: State, a: seq<nat>, b: seq<nat>)
    requires WellFormed(s) && Schedule(a, |s.pc|) && Schedule(b, |s.pc|)
    ensures Run(s, a + b) == Run(Run(s, a), b)
    decreases |a|
  {
    if a == [] {
      assert a + b == b;
    } else {
      assert (a + b)[0] == a[0] && (a + b)[1..] == a[1..] + b;
      RunAppend(Next(s, a[0]), a[1..], b);
    }
  }

  /** Thread `i` stands in room `r` and nothing in the room keeps it there: it was displaced,
      or every other thread is below the room. */
  ghost predicate FreeToPass(s: State, i: nat, r: nat) {
    && Inv(s) && i < |s.pc| && InRoom(s.pc[i]) && s.pc[i].lev == r
    && (s.waiting[r] != i || forall j :: 0 <= j < |s.pc| && j != i ==> s.level[j] < r)
  }

  /** Accesses a thread that is free to pass still makes inside the wait loop. */
  ghost function AccessesLeft(s: State, i: nat): (m: nat)
    requires WellFormed(s) && i < |s.pc| && InRoom(s.pc[i])
  {
    match s.pc[i]
    case TestWaiting(r) => if s.waiting[r] == i then 2 * |s.pc| + 1 else 1
    case ReadWaiting(r, k) => if s.waiting[r] == i then 2 * (|s.pc| - k) - 1 else 2
    case ReadLevel(r, k) => if s.waiting[r] == i then 2 * (|s.pc| - k) else 3
  }

  /** One access of a free thread: it leaves the room, or is still free and has fewer accesses left. */
  lemma SoloStep(s: State, i: nat, r: nat)
    requires FreeToPass(s, i, r)
    ensures var u := Next(s, i);
      && (forall j :: 0 <= j < |s.pc| && j != i ==> u.pc[j] == s.pc[j])
      && (if InRoom(u.pc[i])
          then u.level == s.level && u.waiting == s.waiting && u.pc[i].lev == r
            && AccessesLeft(u, i) < AccessesLeft(s, i) && StagesLeft(u.pc[i], |s.pc|) == StagesLeft(s.pc[i], |s.pc|)
          else Passed(u.pc[i], r) && StagesLeft(u.pc[i], |s.pc|) < StagesLeft(s.pc[i], |s.pc|))
  {
    assert s.waiting[r] == i ==> !(s.pc[i].ReadLevel? && s.level[s.pc[i].k] >= r && s.pc[i].k != i);
  }

  /** Running a free thread on its own, and no other, takes it out of the room. */
  lemma {:induction false} SoloPass(s: State, i: nat, r: nat) returns (sched: seq<nat>)
    requires FreeToPass(s, i, r)
    ensures Advances(s, sched) && Passed(Run(s, sched).pc[i], r)
    ensures forall a :: 0 <= a < |sched| ==> sched[a] == i
    decreases AccessesLeft(s, i)
  {
    hide LevelsMatch, ScansHold, WaiterIsWriter, CounterHolds, Passed, StagesLeft, TotalLeft, Run;
    var u := Next(s, i);
    StepInv(s, i);
    SoloStep(s, i, r);
    if InRoom(u.pc[i]) {
      var rest := SoloPass(u, i, r);
      SameTotal(s.pc, u.pc, i, |s.pc|);
      sched := [i] + rest;
      RunFirst(s, i, rest);
    } else {
      sched := OneStep(s, i);
    }
  }

  lemma RunFirst(s: State, i: nat, rest: seq<nat>)
    requires WellFormed(s) && i < |s.pc| && Schedule(rest, |s.pc|)
    ensures Schedule([i] + rest, |s.pc|) && Run(s, [i] + rest) == Run(Next(s, i), rest)
  {
    assert ([i] + rest)[1..] == rest;
  }

  /** The schedule `sched` completes some stage. */
  ghost predicate Advances(s: State, sched: seq<nat>)
    requires Inv(s)
  {
    && Schedule(sched, |s.pc|)
    && var t := Run(s, sched);
       Inv(t) && TotalLeft(t.pc, |t.pc|) < TotalLeft(s.pc, |s.pc|)
  }

  lemma OneStep(s: State, i: nat) returns (sched: seq<nat>)
    requires Inv(s) && i < |s.pc| && StagesLeft(NextPc(s, i), |s.pc|) < StagesLeft(s.pc[i], |s.pc|)
    ensures Advances(s, sched) && sched == [i] && Run(s, sched) == Next(s, i)
  {
    StepInv(s, i);
    TotalDrops(s.pc, Next(s, i).pc, i, |s.pc|);
    sched := [i];
    assert Run(s, sched) == Run(Next(s, i), sched[1..]);
  }

  lemma {:induction false} SameTotal(a: seq<PC>, b: seq<PC>, i: nat, n: nat)
    requires i < |a| == |b|
    requires forall j :: 0 <= j < |a| ==> PcOk(a[j], n) && PcOk(b[j], n)
    requires forall j :: 0 <= j < |a| && j != i ==> a[j] == b[j]
    requires StagesLeft(b[i], n) == StagesLeft(a[i], n)
    ensures TotalLeft(b, n) == TotalLeft(a, n)
  {
    var m := |a| - 1;
    if i == m {
      assert a[..m] == b[..m];
    } else {
      SameTotal(a[..m], b[..m], i, n);
    }
  }

  /** A live thread that no live thread is above. */
  lemma {:induction false} Foremost(s: State, m: nat) returns (i: nat)
    requires LockInv(s) && m <= |s.pc|
    requires exists j :: 0 <= j < m && !s.pc[j].Done?
    ensures i < m && !s.pc[i].Done?
    ensures forall j :: 0 <= j < m && !s.pc[j].Done? ==> s.level[j] <= s.level[i]
  {
    if exists j :: 0 <= j < m - 1 && !s.pc[j].Done? {
      i := Foremost(s, m - 1);
      if !s.pc[m - 1].Done? && s.level[m - 1] > s.level[i] { i := m - 1; }
    } else {
      i := m - 1;
    }
  }

  /** While a thread is live, some thread can complete its current stage. */
  lemma SomeoneAdvances(s: State) returns (sched: seq<nat>)
    requires Inv(s) && !AllDone(s)
    ensures Advances(s, sched)
  {
    if i: nat :| i < |s.pc| && !s.pc[i].Done? && !InRoom(s.pc[i]) {
      assert CounterAt(s.pc[i], s.counter);
      sched := OneStep(s, i);
    } else {
      var i, r := FreeThread(s);
      sched := SoloPass(s, i, r);
    }
  }

  /** When every live thread is in a wait loop, or has no level yet, one in a loop is free to pass. */
  lemma FreeThread(s: State) returns (i: nat, r: nat)
    requires Inv(s) && exists j :: 0 <= j < |s.pc| && InRoom(s.pc[j])
    requires forall j :: 0 <= j < |s.pc| ==> s.pc[j].Done? || InRoom(s.pc[j]) || s.level[j] == -1
    ensures FreeToPass(s, i, r)
  {
    i := Foremost(s, |s.pc|);
    r := s.pc[i].lev;
    if j: nat :| j < |s.pc| && j != i && s.level[j] == r && s.waiting[r] == i {
      i := j;
    }
  }

  lemma {:induction false} Finish(s: State) returns (sched: seq<nat>)
    requires Inv(s)
    ensures Schedule(sched, |s.pc|)
    ensures Inv(Run(s, sched)) && AllDone(Run(s, sched))
    decreases TotalLeft(s.pc, |s.pc|)
  {
    if AllDone(s) {
      sched := [];
    } else {
      var a := SomeoneAdvances(s);
      var b := Finish(Run(s, a));
      RunAppend(s, a, b);
      sched := a + b;
    }
  }

  /** From every reachable state some continuation lets every thread through and out. */
  lemma NeverStuck(n: nat, sched: seq<nat>)
    requires Schedule(sched, n)
    ensures exists rest: seq<nat> ::
      Schedule(rest, n) && Schedule(sched + rest, n) && AllDone(Run(Init(n), sched + rest))
  {
    InitInv(n);
    RunInv(Init(n), sched);
    var rest := Finish(Run(Init(n), sched));
    RunAppend(Init(n), sched, rest);
  }
}
