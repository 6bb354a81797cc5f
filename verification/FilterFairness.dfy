/** Every fair continuation of the filter lock finishes every thread that has started. A thread that never starts is
    one that no schedule names. */
module FilterFairness {
  import opened Basics
  import opened FilterLock

  /** What one access does to the stages left: it completes a stage, or it moves within a wait loop, or the thread
      is done. */
  lemma StepDown(s: State, j: nat)
    requires Inv(s) && j < |s.pc|
    ensures var u, n := Next(s, j), |s.pc|;
      && Inv(u) && (forall i :: 0 <= i < n && i != j ==> u.pc[i] == s.pc[i])
      && TotalLeft(u.pc, n) <= TotalLeft(s.pc, n)
      && (TotalLeft(u.pc, n) == TotalLeft(s.pc, n) ==>
            u.level == s.level && u.waiting == s.waiting && (s.pc[j].Done? || (InRoom(s.pc[j]) && InRoom(u.pc[j]))))
  {
    hide TotalLeft, LevelsMatch, ScansHold, WaiterIsWriter;
    var u, n := Next(s, j), |s.pc|;
    StepInv(s, j);
    assert CounterAt(s.pc[j], s.counter);
    if StagesLeft(u.pc[j], n) == StagesLeft(s.pc[j], n) {
      SameTotal(s.pc, u.pc, j, n);
    } else {
      TotalDrops(s.pc, u.pc, j, n);
    }
  }

  lemma {:induction false} RunDown(s: State, sched: seq<nat>)
    requires Inv(s) && Schedule(sched, |s.pc|)
    ensures var t := Run(s, sched); Inv(t) && TotalLeft(t.pc, |s.pc|) <= TotalLeft(s.pc, |s.pc|)
    decreases |sched|
  {
    hide LevelsMatch, ScansHold, WaiterIsWriter, CounterHolds, TotalLeft, Next;
    if sched != [] {
      StepDown(s, sched[0]);
      RunDown(Next(s, sched[0]), sched[1..]);
    }
  }

  /** The schedule completes some stage. */
  ghost predicate Drops(s: State, sched: seq<nat>)
    requires Inv(s) && Schedule(sched, |s.pc|)
  {
    RunDown(s, sched);
    TotalLeft(Run(s, sched).pc, |s.pc|) < TotalLeft(s.pc, |s.pc|)
  }

  /** It does so as soon as its first access does. */
  lemma DropsFirst(s: State, sched: seq<nat>)
    requires Inv(s) && Schedule(sched, |s.pc|) && sched != []
    requires TotalLeft(Next(s, sched[0]).pc, |s.pc|) < TotalLeft(s.pc, |s.pc|)
    ensures Drops(s, sched)
  {
    hide LevelsMatch, ScansHold, WaiterIsWriter, CounterHolds, TotalLeft, Next;
    StepDown(s, sched[0]);
    RunDown(Next(s, sched[0]), sched[1..]);
  }

  lemma DropsLater(s: State, sched: seq<nat>)
    requires Inv(s) && Schedule(sched, |s.pc|) && sched != []
    requires Inv(Next(s, sched[0])) && Drops(Next(s, sched[0]), sched[1..])
    ensures Drops(s, sched)
  {
    hide LevelsMatch, ScansHold, WaiterIsWriter, CounterHolds, TotalLeft, Next;
    StepDown(s, sched[0]);
  }

  /** A live thread outside the wait loops completes a stage when it is next scheduled. */
  lemma {:induction false} OutsideDrops(s: State, sched: seq<nat>, i: nat)
    requires Inv(s) && Schedule(sched, |s.pc|) && i in sched && i < |s.pc| && !s.pc[i].Done? && !InRoom(s.pc[i])
    ensures Drops(s, sched)
    decreases |sched|
  {
    hide LevelsMatch, ScansHold, WaiterIsWriter, CounterHolds, TotalLeft, Next, Drops;
    var j := sched[0];
    StepDown(s, j);
    if TotalLeft(Next(s, j).pc, |s.pc|) < TotalLeft(s.pc, |s.pc|) {
      DropsFirst(s, sched);
    } else {
      assert j != i && i in sched[1..];
      OutsideDrops(Next(s, j), sched[1..], i);
      DropsLater(s, sched);
    }
  }

  /** How often a schedule names thread `i`. */
  function Times(i: nat, sched: seq<nat>): nat {
    if sched == [] then 0 else (if sched[0] == i then 1 else 0) + Times(i, sched[1..])
  }

  lemma {:induction false} TimesIn(i: nat, sched: seq<nat>)
    requires Times(i, sched) > 0
    ensures i in sched
    decreases |sched|
  {
    if sched[0] != i { TimesIn(i, sched[1..]); }
  }

  lemma {:induction false} TimesAppend(i: nat, a: seq<nat>, b: seq<nat>)
    ensures Times(i, a + b) == Times(i, a) + Times(i, b)
    decreases |a|
  {
    if a == [] {
      assert a + b == b;
    } else {
      assert (a + b)[1..] == a[1..] + b;
      TimesAppend(i, a[1..], b);
    }
  }

  lemma {:induction false} TimesSome(i: nat, sched: seq<nat>)
    requires i in sched
    ensures Times(i, sched) > 0
    decreases |sched|
  {
    if sched[0] != i { TimesSome(i, sched[1..]); }
  }

  /** A free thread that is scheduled often enough gets out of its loop, unless another completes a stage first. */
  lemma {:induction false} FreeDrops(s: State, sched: seq<nat>, i: nat, r: nat)
    requires FreeToPass(s, i, r) && Schedule(sched, |s.pc|) && Times(i, sched) >= AccessesLeft(s, i)
    ensures Drops(s, sched)
    decreases |sched|
  {
    hide TotalLeft, Drops, LevelsMatch, ScansHold, WaiterIsWriter, CounterHolds, StagesLeft, Next;
    assert AccessesLeft(s, i) > 0;
    var j := sched[0];
    var u := Next(s, j);
    StepDown(s, j);
    if TotalLeft(u.pc, |s.pc|) < TotalLeft(s.pc, |s.pc|) {
      DropsFirst(s, sched);
    } else {
      if j == i { SoloStep(s, i, r); }
      FreeDrops(u, sched[1..], i, r);
      DropsLater(s, sched);
    }
  }

  // ------------------------------------------------------------------ rounds

  /** Only started threads are scheduled. */
  ghost predicate Uses(sched: seq<nat>, started: set<nat>) { forall a :: 0 <= a < |sched| ==> sched[a] in started }

  /** Every round names every started thread, as often and in whatever order, and no other. */
  ghost predicate Fair(rounds: seq<seq<nat>>, started: set<nat>) {
    forall k :: 0 <= k < |rounds| ==> Uses(rounds[k], started) && forall i :: i in started ==> i in rounds[k]
  }

  lemma {:induction false} FlatUses(rounds: seq<seq<nat>>, started: set<nat>)
    requires Fair(rounds, started)
    ensures Uses(Flat(rounds), started)
    ensures forall i :: i in started ==> Times(i, Flat(rounds)) >= |rounds|
    decreases |rounds|
  {
    if rounds != [] {
      FlatUses(rounds[1..], started);
      forall i | i in started
        ensures Times(i, Flat(rounds)) >= |rounds|
      {
        TimesAppend(i, rounds[0], Flat(rounds[1..]));
        TimesSome(i, rounds[0]);
      }
    }
  }

  /** The threads that have not started are where they were. */
  ghost predicate Idle(s: State, started: set<nat>) {
    forall i: nat :: i < |s.pc| && i !in started ==> s.pc[i] == EnterRoom(|s.pc|, 0)
  }

  lemma {:induction false} IdleStays(s: State, sched: seq<nat>, started: set<nat>)
    requires WellFormed(s) && Schedule(sched, |s.pc|) && Uses(sched, started) && Idle(s, started)
    ensures Idle(Run(s, sched), started)
    decreases |sched|
  {
    if sched != [] { IdleStays(Next(s, sched[0]), sched[1..], started); }
  }

  ghost predicate StartedDone(s: State, started: set<nat>) {
    forall i: nat :: i in started && i < |s.pc| ==> s.pc[i].Done?
  }

  lemma {:induction false} DoneStays(s: State, sched: seq<nat>, started: set<nat>)
    requires WellFormed(s) && Schedule(sched, |s.pc|) && StartedDone(s, started)
    ensures StartedDone(Run(s, sched), started)
    decreases |sched|
  {
    if sched != [] { DoneStays(Next(s, sched[0]), sched[1..], started); }
  }

  /** Enough turns for everybody complete some stage. */
  lemma RoundsDrop(s: State, sched: seq<nat>, started: set<nat>)
    requires Inv(s) && Schedule(sched, |s.pc|) && Idle(s, started) && !StartedDone(s, started)
    requires forall i :: i in started ==> Times(i, sched) >= 2 * |s.pc| + 1
    ensures Drops(s, sched)
  {
    hide Drops, ScansHold, WaiterIsWriter, CounterHolds, Times;
    if i: nat :| i in started && i < |s.pc| && !s.pc[i].Done? && !InRoom(s.pc[i]) {
      TimesIn(i, sched);
      OutsideDrops(s, sched, i);
    } else {
      var i, r := FreeThread(s);
      FreeDrops(s, sched, i, r);
    }
  }

  /** A fair continuation of so many rounds. */
  lemma {:induction false} FairFinishes(s: State, rounds: seq<seq<nat>>, started: set<nat>)
    requires Inv(s) && Idle(s, started) && Fair(rounds, started) && forall i :: i in started ==> i < |s.pc|
    requires |rounds| >= TotalLeft(s.pc, |s.pc|) * (2 * |s.pc| + 1)
    ensures Schedule(Flat(rounds), |s.pc|) && StartedDone(Run(s, Flat(rounds)), started)
    decreases TotalLeft(s.pc, |s.pc|)
  {
    hide LevelsMatch, ScansHold, WaiterIsWriter, CounterHolds, Idle, StartedDone, TotalLeft, Times, Flat, Run;
    FlatUses(rounds, started);
    AllStarted(Flat(rounds), started, |s.pc|);
    if StartedDone(s, started) {
      DoneStays(s, Flat(rounds), started);
    } else {
      var turns: nat := 2 * |s.pc| + 1;
      SomeLeft(s, started);
      Enough(TotalLeft(s.pc, |s.pc|), turns, |rounds|);
      var now, later := rounds[..turns], rounds[turns..];
      FlatUses(now, started);
      AllStarted(Flat(now), started, |s.pc|);
      RoundsDrop(s, Flat(now), started);
      RunDown(s, Flat(now));
      IdleStays(s, Flat(now), started);
      var t := Run(s, Flat(now));
      Fewer(TotalLeft(s.pc, |s.pc|), TotalLeft(t.pc, |s.pc|), turns, |rounds|);
      FairFinishes(t, later, started);
      assert rounds == now + later;
      FlatUses(later, started);
      AllStarted(Flat(later), started, |s.pc|);
      FlatAppend(now, later);
      RunAppend(s, Flat(now), Flat(later));
    }
  }

  lemma SomeLeft(s: State, started: set<nat>)
    requires Inv(s) && !StartedDone(s, started)
    ensures TotalLeft(s.pc, |s.pc|) > 0
  {
    var i: nat :| i in started && i < |s.pc| && !s.pc[i].Done?;
    LeftOf(s.pc, i, |s.pc|);
  }

  lemma {:induction false} LeftOf(pc: seq<PC>, i: nat, n: nat)
    requires i < |pc| && forall j :: 0 <= j < |pc| ==> PcOk(pc[j], n)
    ensures TotalLeft(pc, n) >= StagesLeft(pc[i], n)
  {
    hide StagesLeft, PcOk;
    if i < |pc| - 1 { LeftOf(pc[..|pc| - 1], i, n); }
  }

  lemma Enough(left: nat, turns: nat, rounds: nat)
    requires left > 0 && rounds >= left * turns
    ensures rounds >= turns
  {
    assert left * turns == (left - 1) * turns + turns;
  }

  lemma Fewer(left: nat, less: nat, turns: nat, rounds: nat)
    requires less < left && rounds >= left * turns
    ensures rounds - turns >= less * turns
  {
    assert left * turns == (left - 1 - less) * turns + less * turns + turns;
  }

  lemma InitIdle(n: nat, started: set<nat>)
    ensures WellFormed(Init(n)) && |Init(n).pc| == n && Idle(Init(n), started)
  {
  }

  lemma AllStarted(sched: seq<nat>, started: set<nat>, n: nat)
    requires Uses(sched, started) && forall i :: i in started ==> i < n
    ensures Schedule(sched, n)
  {
  }

  /** After any schedule of the started threads, every continuation made of enough rounds, each naming every started
      thread, finishes all of them: nobody is starved, and threads that never start hold nobody up. */
  lemma EveryFairRunFinishes(n: nat, started: set<nat>, sched: seq<nat>, rounds: seq<seq<nat>>)
    requires (forall i :: i in started ==> i < n) && Uses(sched, started) && Schedule(sched, n) && Fair(rounds, started)
    requires |rounds| >= TotalLeft(Run(Init(n), sched).pc, n) * (2 * n + 1)
    ensures Schedule(sched + Flat(rounds), n) && StartedDone(Run(Init(n), sched + Flat(rounds)), started)
  {
    hide Idle, StartedDone, TotalLeft, Flat, Fair, Uses, Inv, WellFormed, Run;
    InitInv(n);
    InitIdle(n, started);
    RunInv(Init(n), sched);
    FlatUses(rounds, started);
    AllStarted(Flat(rounds), started, n);
    IdleStays(Init(n), sched, started);
    FairFinishes(Run(Init(n), sched), rounds, started);
    RunAppend(Init(n), sched, Flat(rounds));
  }
}
