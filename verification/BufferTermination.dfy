/** Every schedule of the bounded buffer makes a bounded number of moves, so every fair run comes to its end: everybody
    has returned, or producers wait on a full buffer that nobody will empty. */
module BufferTermination {
  import opened Basics
  import opened BoundedBuffer
  import opened BufferSchedules

  // ------------------------------------------------------------------ the work left

  /** Moves a thread may still make before it has made or consumed another item, or returned. */
  function Weight(cf: Config, m: Memory, pc: Pc): nat {
    match pc
    case PTest => if m.items == cf.max then 1 else 8
    case PSlot => 7
    case PEnter => 6
    case PCheck => 5
    case PCount => 4
    case PMove => 14
    case PWrite => 13
    case PSign => 12
    case PFlag => 11
    case PPost => 10
    case PReturn => 3
    case PLeave => if m.items == cf.max then 2 else 9
    case PDone => 0
    case CTest => if m.consumed == cf.max then 3 else 12
    case CItems(c) => if c == cf.max then 2 else 11
    case CFlag(_, _) => if m.endFlag then 1 else 10
    case CStock => 9
    case CEnter => 8
    case CCheck => 7
    case CMove => 6
    case CTake => 5
    case CCount => 4
    case CPost => 14
    case CReturn => 5
    case CLeave => if m.consumed == cf.max then 4 else 13
    case CDone(_, _) => 0
  }

  function Load(cf: Config, m: Memory, ts: seq<Pc>): nat {
    if ts == [] then 0 else Load(cf, m, ts[..|ts| - 1]) + Weight(cf, m, ts[|ts| - 1])
  }

  /** What is still to be made, consumed and posted. */
  function Due(cf: Config, m: Memory): nat
    requires m.consumed <= m.items <= cf.max
  {
    11 * (cf.max - m.items) + 11 * (cf.max - m.consumed) + if m.extra + 1 < cf.cons then cf.cons - 1 - m.extra else 0
  }

  ghost function Work(cf: Config, s: State): nat
    requires Inv(cf, s)
  {
    CountsBound(cf, s);
    Due(cf, s.memory) + Load(cf, s.memory, s.threads)
  }

  lemma {:induction false} LoadPut(cf: Config, m: Memory, ts: seq<Pc>, i: nat, pc: Pc)
    requires i < |ts|
    ensures Load(cf, m, ts[i := pc]) == Load(cf, m, ts) - Weight(cf, m, ts[i]) + Weight(cf, m, pc)
    decreases |ts|
  {
    hide Weight;
    var last := |ts| - 1;
    if i < last {
      LoadPut(cf, m, ts[..last], i, pc);
      assert ts[i := pc][..last] == ts[..last][i := pc];
    } else {
      assert ts[i := pc][..last] == ts[..last];
    }
  }

  /** What only ever becomes true. */
  ghost predicate Later(cf: Config, m: Memory, r: Memory) {
    (m.items == cf.max ==> r.items == cf.max) && (m.consumed == cf.max ==> r.consumed == cf.max)
        && (m.endFlag ==> r.endFlag)
  }

  lemma {:induction false} LoadFalls(cf: Config, m: Memory, r: Memory, ts: seq<Pc>)
    requires Later(cf, m, r)
    ensures Load(cf, r, ts) <= Load(cf, m, ts)
    decreases |ts|
  {
    if ts != [] {
      LoadFalls(cf, m, r, ts[..|ts| - 1]);
      WeightFalls(cf, m, r, ts[|ts| - 1]);
    }
  }

  lemma WeightFalls(cf: Config, m: Memory, r: Memory, pc: Pc)
    requires Later(cf, m, r)
    ensures Weight(cf, r, pc) <= Weight(cf, m, pc)
  {
  }

  // ------------------------------------------------------------------ every move does some of it

  /** Thread `i`, or the main thread, can change something. */
  ghost predicate CanMove(cf: Config, s: State, i: nat) {
    if i < |s.threads| then !s.threads[i].PDone? && !s.threads[i].CDone? && !Blocked(s.memory, s.threads[i])
    else MainReady(cf, s)
  }

  /** One access on the counters, and on the weight of the thread that makes it. */
  lemma AccessWorks(cf: Config, m: Memory, pc: Pc, i: nat)
    requires Framed(cf, m) && Local(cf, m, pc, i) && !Blocked(m, pc) && !pc.PDone? && !pc.CDone?
    requires m.consumed <= m.items <= cf.max && (m.consumed == cf.max ==> m.endFlag)
        && (m.endFlag ==> m.items == cf.max)
    ensures var r := Effect(cf, m, pc, i);
      && Later(cf, m, r) && r.consumed <= r.items <= cf.max && r.extra == m.extra
      && Due(cf, r) + Weight(cf, r, NextPc(cf, m, pc)) < Due(cf, m) + Weight(cf, m, pc)
  {
  }

  lemma MoveWorks(cf: Config, s: State, i: nat)
    requires Inv(cf, s) && CanMove(cf, s, i)
    ensures Inv(cf, Next(cf, s, i)) && Work(cf, Next(cf, s, i)) < Work(cf, s)
  {
    hide Tally, Buffered, Counts, Effect, NextPc, Weight, Due, Blocked;
    StepKeeps(cf, s, i);
    CountsBound(cf, s);
    var t := Next(cf, s, i);
    CountsBound(cf, t);
    if i < |s.threads| {
      if s.memory.consumed == cf.max { EndSeen(cf, s); }
      assert Local(cf, s.memory, s.threads[i], i);
      AccessWorks(cf, s.memory, s.threads[i], i);
      LoadFalls(cf, s.memory, t.memory, s.threads);
      LoadPut(cf, t.memory, s.threads, i, t.threads[i]);
      WeightFalls(cf, s.memory, t.memory, s.threads[i]);
      LoadShare(cf, s.memory, t.memory, s.threads, i);
    } else {
      PostWorks(cf, s.memory);
      LoadFalls(cf, s.memory, t.memory, s.threads);
    }
  }

  /** The other threads' weights alone fall too. */
  lemma {:induction false} LoadShare(cf: Config, m: Memory, r: Memory, ts: seq<Pc>, i: nat)
    requires Later(cf, m, r) && i < |ts|
    ensures Load(cf, r, ts) - Weight(cf, r, ts[i]) <= Load(cf, m, ts) - Weight(cf, m, ts[i])
    decreases |ts|
  {
    hide Weight, Later;
    var last := |ts| - 1;
    if i < last {
      LoadShare(cf, m, r, ts[..last], i);
      WeightFalls(cf, m, r, ts[last]);
    } else {
      LoadFalls(cf, m, r, ts[..last]);
    }
  }

  lemma PostWorks(cf: Config, m: Memory)
    requires m.consumed <= m.items <= cf.max && m.extra + 1 < cf.cons
    ensures var r := m.(stock := m.stock + 1, extra := m.extra + 1); Due(cf, r) < Due(cf, m) && Later(cf, m, r)
  {
  }

  lemma NoMove(cf: Config, s: State, i: nat)
    requires Framed(cf, s.memory) && !CanMove(cf, s, i)
    ensures Next(cf, s, i) == s
  {
    if i < |s.threads| { assert s.threads[i := s.threads[i]] == s.threads; }
  }

  // ------------------------------------------------------------------ how many moves a schedule can make

  /** The moves of a schedule: its steps that change something. */
  ghost function Moves(cf: Config, slots: seq<Item>, schedule: seq<nat>): nat
    requires |slots| == cf.size > 0
    decreases |schedule|
  {
    if schedule == [] then 0 else
    var last := |schedule| - 1;
    Moves(cf, slots, schedule[..last]) + if CanMove(cf, Run(cf, slots, schedule[..last]), schedule[last]) then 1 else 0
  }

  lemma {:induction false} LoadStart(cf: Config, m: Memory, ts: seq<Pc>, k: nat)
    requires m.items == m.consumed == 0 < cf.max && k <= |ts| == cf.pro + cf.cons
    requires forall i :: 0 <= i < |ts| ==> ts[i] == if i < cf.pro then PTest else CTest
    ensures Load(cf, m, ts[..k]) == if k <= cf.pro then 8 * k else 8 * cf.pro + 12 * (k - cf.pro)
    decreases k
  {
    if k > 0 {
      LoadStart(cf, m, ts, k - 1);
      assert ts[..k][..k - 1] == ts[..k - 1];
    }
  }

  lemma StartWork(cf: Config, slots: seq<Item>)
    requires Sensible(cf) && |slots| == cf.size
    ensures Inv(cf, Init(cf, slots)) && Work(cf, Init(cf, slots)) == 22 * cf.max + 8 * cf.pro + 13 * cf.cons - 1
  {
    hide Inv;
    InitHolds(cf, slots);
    var s := Init(cf, slots);
    LoadStart(cf, s.memory, s.threads, |s.threads|);
    assert s.threads[..|s.threads|] == s.threads;
  }

  /** No schedule, fair or not, makes more moves than this. */
  lemma {:induction false} MovesBounded(cf: Config, slots: seq<Item>, schedule: seq<nat>)
    requires Sensible(cf) && |slots| == cf.size
    ensures Inv(cf, Run(cf, slots, schedule))
    ensures Moves(cf, slots, schedule) + Work(cf, Run(cf, slots, schedule))
      <= 22 * cf.max + 8 * cf.pro + 13 * cf.cons - 1
    decreases |schedule|
  {
    hide Inv, Work, CanMove, Next;
    if schedule == [] {
      StartWork(cf, slots);
    } else {
      var last := |schedule| - 1;
      MovesBounded(cf, slots, schedule[..last]);
      var s := Run(cf, slots, schedule[..last]);
      Frames(cf, s);
      if CanMove(cf, s, schedule[last]) {
        MoveWorks(cf, s, schedule[last]);
      } else {
        NoMove(cf, s, schedule[last]);
      }
    }
  }

  lemma Frames(cf: Config, s: State)
    requires Inv(cf, s)
    ensures Framed(cf, s.memory)
  {
  }

  // ------------------------------------------------------------------ fair runs

  /** Nobody can move. */
  ghost predicate AtRest(cf: Config, s: State) { forall i: nat :: !CanMove(cf, s, i) }

  /** A state at rest is the end of the run or the one way of being stuck. */
  lemma AtRestIff(cf: Config, s: State)
    ensures AtRest(cf, s) <==> Over(cf, s) || Stuck(cf, s)
  {
    hide Blocked, ProducersDone;
    if AtRest(cf, s) {
      assert !CanMove(cf, s, |s.threads|);
      forall i: nat | i < |s.threads|
        ensures s.threads[i].PDone? || s.threads[i].CDone? || Blocked(s.memory, s.threads[i])
      {
        assert !CanMove(cf, s, i);
      }
    }
  }

  lemma {:induction false} RoundWorks(cf: Config, slots: seq<Item>, schedule: seq<nat>, round: seq<nat>, i: nat)
    requires Sensible(cf) && |slots| == cf.size && i in round && CanMove(cf, Run(cf, slots, schedule), i)
    ensures Inv(cf, Run(cf, slots, schedule)) && Inv(cf, Run(cf, slots, schedule + round))
    ensures Work(cf, Run(cf, slots, schedule + round)) < Work(cf, Run(cf, slots, schedule))
    decreases |round|
  {
    hide Inv, Work, CanMove, Next, Run;
    var s := Run(cf, slots, schedule);
    RunKeeps(cf, slots, schedule);
    Frames(cf, s);
    var j := round[0];
    RunMore(cf, slots, schedule, j);
    assert schedule + round == schedule + [j] + round[1..];
    if CanMove(cf, s, j) {
      MoveWorks(cf, s, j);
      WorkFalls(cf, slots, schedule + [j], round[1..]);
    } else {
      NoMove(cf, s, j);
      RoundWorks(cf, slots, schedule + [j], round[1..], i);
    }
  }

  lemma {:induction false} WorkFalls(cf: Config, slots: seq<Item>, schedule: seq<nat>, more: seq<nat>)
    requires Sensible(cf) && |slots| == cf.size
    ensures Inv(cf, Run(cf, slots, schedule)) && Inv(cf, Run(cf, slots, schedule + more))
    ensures Work(cf, Run(cf, slots, schedule + more)) <= Work(cf, Run(cf, slots, schedule))
    decreases |more|
  {
    hide Inv, Work, CanMove, Next, Run;
    var s := Run(cf, slots, schedule);
    RunKeeps(cf, slots, schedule);
    Frames(cf, s);
    if more == [] {
      assert schedule + more == schedule;
    } else {
      RunMore(cf, slots, schedule, more[0]);
      assert schedule + more == schedule + [more[0]] + more[1..];
      WorkFalls(cf, slots, schedule + [more[0]], more[1..]);
      if CanMove(cf, s, more[0]) { MoveWorks(cf, s, more[0]); } else { NoMove(cf, s, more[0]); }
    }
  }

  lemma {:induction false} RestStays(cf: Config, slots: seq<Item>, schedule: seq<nat>, more: seq<nat>)
    requires |slots| == cf.size > 0 && AtRest(cf, Run(cf, slots, schedule))
    ensures Run(cf, slots, schedule + more) == Run(cf, slots, schedule)
    decreases |more|
  {
    hide CanMove, Next, Run;
    if more == [] {
      assert schedule + more == schedule;
    } else {
      RunMore(cf, slots, schedule, more[0]);
      assert schedule + more == schedule + [more[0]] + more[1..];
      NoMove(cf, Run(cf, slots, schedule), more[0]);
      RestStays(cf, slots, schedule + [more[0]], more[1..]);
    }
  }

  /** Every round names every thread and the main thread, as often and in whatever order. */
  ghost predicate FairRounds(cf: Config, rounds: seq<seq<nat>>) {
    forall k, i: nat :: 0 <= k < |rounds| && i <= cf.pro + cf.cons ==> i in rounds[k]
  }

  lemma {:induction false} FairRests(cf: Config, slots: seq<Item>, schedule: seq<nat>, rounds: seq<seq<nat>>)
    requires Sensible(cf) && |slots| == cf.size && FairRounds(cf, rounds) && Inv(cf, Run(cf, slots, schedule))
    requires |rounds| >= Work(cf, Run(cf, slots, schedule))
    ensures AtRest(cf, Run(cf, slots, schedule + Flat(rounds)))
    decreases |rounds|
  {
    hide Inv, Work, CanMove, Run;
    var s := Run(cf, slots, schedule);
    if AtRest(cf, s) {
      RestStays(cf, slots, schedule, Flat(rounds));
    } else {
      var i: nat :| CanMove(cf, s, i);
      var j := Named(cf, s, i);
      MoveWorks(cf, s, j);
      RoundWorks(cf, slots, schedule, rounds[0], j);
      FairRests(cf, slots, schedule + rounds[0], rounds[1..]);
      assert schedule + Flat(rounds) == schedule + rounds[0] + Flat(rounds[1..]);
    }
  }

  /** All numbers past the threads stand for the main thread. */
  lemma Named(cf: Config, s: State, i: nat) returns (j: nat)
    requires Inv(cf, s) && CanMove(cf, s, i)
    ensures CanMove(cf, s, j) && j <= cf.pro + cf.cons
  {
    j := if i < |s.threads| then i else |s.threads|;
  }

  /** After any schedule, so many rounds, each naming every thread, bring the run to rest: everybody has returned, or
      the system is stuck; and everybody has returned if there is one producer or more slots than items. */
  lemma EveryFairRunEnds(cf: Config, slots: seq<Item>, schedule: seq<nat>, rounds: seq<seq<nat>>)
    requires Sensible(cf) && |slots| == cf.size && FairRounds(cf, rounds)
    requires |rounds| >= 22 * cf.max + 8 * cf.pro + 13 * cf.cons - 1
    ensures var s := Run(cf, slots, schedule + Flat(rounds));
      (Over(cf, s) || Stuck(cf, s)) && (cf.pro == 1 || cf.size > cf.max ==> Over(cf, s))
  {
    hide Inv, Work, Run, Over, Stuck, AtRest;
    MovesBounded(cf, slots, schedule);
    FairRests(cf, slots, schedule, rounds);
    var whole := schedule + Flat(rounds);
    AtRestIff(cf, Run(cf, slots, whole));
    if Stuck(cf, Run(cf, slots, whole)) { StuckNeeds(cf, slots, whole); }
  }
}
