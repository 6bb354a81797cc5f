/** Which configurations of the bounded buffer can get stuck, and how many items can be left in it: schedules built
    for every configuration, against what every schedule keeps. */
module BufferSchedules {
  import opened Cyclic
  import opened BoundedBuffer

  // ------------------------------------------------------------------ one thread at a time

  /** Memory and place of thread `i` after `k` of its own steps. */
  ghost function Solo(cf: Config, m: Memory, pc: Pc, i: nat, k: nat): (r: (Memory, Pc))
    requires Framed(cf, m)
    ensures Framed(cf, r.0)
    decreases k
  {
    if k == 0 || Blocked(m, pc) then (m, pc) else Solo(cf, Effect(cf, m, pc, i), NextPc(cf, m, pc), i, k - 1)
  }

  lemma RunMore(cf: Config, slots: seq<Item>, schedule: seq<nat>, i: nat)
    requires |slots| == cf.size > 0
    ensures Run(cf, slots, schedule + [i]) == Next(cf, Run(cf, slots, schedule), i)
  {
    assert (schedule + [i])[..|schedule|] == schedule;
  }

  lemma {:induction false} SoloRun(cf: Config, slots: seq<Item>, schedule: seq<nat>, i: nat, k: nat)
      returns (longer: seq<nat>)
    requires |slots| == cf.size > 0 && i < |Run(cf, slots, schedule).threads|
    ensures var s := Run(cf, slots, schedule);
      var (m, pc) := Solo(cf, s.memory, s.threads[i], i, k);
      Run(cf, slots, longer) == State(m, s.threads[i := pc])
    decreases k
  {
    hide Run, Effect, NextPc, Blocked;
    var s := Run(cf, slots, schedule);
    if k == 0 || Blocked(s.memory, s.threads[i]) {
      longer := schedule;
      assert s.threads[i := s.threads[i]] == s.threads;
    } else {
      RunMore(cf, slots, schedule, i);
      longer := SoloRun(cf, slots, schedule + [i], i, k - 1);
    }
  }

  /** Threads `a` to `b` at `q`, the others where they were. */
  function Fill(ts: seq<Pc>, a: nat, b: nat, q: Pc): (r: seq<Pc>)
    ensures |r| == |ts| && forall i :: 0 <= i < |ts| ==> r[i] == if a <= i < b then q else ts[i]
  {
    seq(|ts|, i requires 0 <= i < |ts| => if a <= i < b then q else ts[i])
  }

  /** Steps that only read, taken by one thread after another. */
  lemma {:induction false} FillRun(cf: Config, slots: seq<Item>, schedule: seq<nat>, a: nat, b: nat, k: nat, p: Pc,
      q: Pc)
    returns (longer: seq<nat>)
    requires |slots| == cf.size > 0 && a <= b <= |Run(cf, slots, schedule).threads|
    requires forall i: nat :: a <= i < b ==> Run(cf, slots, schedule).threads[i] == p
    requires forall i: nat :: Solo(cf, Run(cf, slots, schedule).memory, p, i, k) == (Run(cf, slots, schedule).memory, q)
    ensures var s := Run(cf, slots, schedule); Run(cf, slots, longer) == State(s.memory, Fill(s.threads, a, b, q))
    decreases b - a
  {
    hide Run, Solo;
    var s := Run(cf, slots, schedule);
    if a == b {
      longer := schedule;
      assert Fill(s.threads, a, b, q) == s.threads;
    } else {
      var next := SoloRun(cf, slots, schedule, a, k);
      longer := FillRun(cf, slots, next, a + 1, b, k, p, q);
      assert Fill(s.threads[a := q], a + 1, b, q) == Fill(s.threads, a, b, q);
    }
  }

  // ------------------------------------------------------------------ whole turns

  /** The counters of the shared memory. */
  datatype Gauge = Gauge(items: nat, consumed: nat, endFlag: bool, mutex: nat, stock: nat, empty: nat, extra: nat)

  function GaugeOf(m: Memory): Gauge { Gauge(m.items, m.consumed, m.endFlag, m.mutex, m.stock, m.empty, m.extra) }

  lemma SoloStep(cf: Config, m: Memory, pc: Pc, i: nat, k: nat)
    requires Framed(cf, m) && !Blocked(m, pc) && k > 0
    ensures Solo(cf, m, pc, i, k) == Solo(cf, Effect(cf, m, pc, i), NextPc(cf, m, pc), i, k - 1)
  {
  }

  /** A producer's way in. */
  lemma ProducerEnters(cf: Config, m: Memory, i: nat) returns (r: Memory)
    requires Framed(cf, m) && m.mutex == 1 && m.empty > 0 && m.items < cf.max
    ensures Framed(cf, r) && GaugeOf(r) == GaugeOf(m).(empty := m.empty - 1, mutex := 0)
    ensures Solo(cf, m, PTest, i, 11) == Solo(cf, r, PCount, i, 7)
  {
    hide Solo;
    var m1 := Effect(cf, m, PSlot, i);
    r := Effect(cf, m1, PEnter, i);
    SoloStep(cf, m, PTest, i, 11);
    SoloStep(cf, m, PSlot, i, 10);
    SoloStep(cf, m1, PEnter, i, 9);
    SoloStep(cf, r, PCheck, i, 8);
  }

  /** Its item counted and written. */
  lemma ProducerWrites(cf: Config, m: Memory, i: nat) returns (r: Memory)
    requires Framed(cf, m)
    ensures Framed(cf, r) && GaugeOf(r) == GaugeOf(m).(items := m.items + 1)
    ensures Solo(cf, m, PCount, i, 7) == Solo(cf, r, PFlag, i, 3)
  {
    hide Solo, Wrap;
    var m1 := Effect(cf, m, PCount, i);
    var m2 := Effect(cf, m1, PMove, i);
    var m3 := Effect(cf, m2, PWrite, i);
    r := Effect(cf, m3, PSign, i);
    SoloStep(cf, m, PCount, i, 7);
    SoloStep(cf, m1, PMove, i, 6);
    SoloStep(cf, m2, PWrite, i, 5);
    SoloStep(cf, m3, PSign, i, 4);
  }

  /** Its way out. */
  lemma ProducerLeaves(cf: Config, m: Memory, i: nat) returns (r: Memory)
    requires Framed(cf, m)
    ensures GaugeOf(r) == GaugeOf(m).(stock := m.stock + 1, mutex := m.mutex + 1,
      endFlag := m.endFlag || m.items == cf.max)
    ensures Solo(cf, m, PFlag, i, 3) == (r, PTest)
  {
    hide Solo;
    var m1 := Effect(cf, m, PFlag, i);
    var m2 := Effect(cf, m1, PPost, i);
    r := Effect(cf, m2, PLeave, i);
    SoloStep(cf, m, PFlag, i, 3);
    SoloStep(cf, m1, PPost, i, 2);
    SoloStep(cf, m2, PLeave, i, 1);
    SoloNone(cf, r, PTest, i);
  }

  lemma SoloNone(cf: Config, m: Memory, pc: Pc, i: nat)
    requires Framed(cf, m)
    ensures Solo(cf, m, pc, i, 0) == (m, pc)
  {
  }

  /** With nobody in the way, a producer's turn makes an item. */
  lemma ProducerTurn(cf: Config, m: Memory, i: nat)
    requires Framed(cf, m) && m.mutex == 1 && m.empty > 0 && m.items < cf.max
    ensures var (r, pc) := Solo(cf, m, PTest, i, 11);
      && pc == PTest
      && GaugeOf(r) == GaugeOf(m).(items := m.items + 1, stock := m.stock + 1, empty := m.empty - 1,
                                   endFlag := m.endFlag || m.items + 1 == cf.max)
  {
    hide Solo, Effect, NextPc;
    var inside := ProducerEnters(cf, m, i);
    var written := ProducerWrites(cf, inside, i);
    var r := ProducerLeaves(cf, written, i);
  }

  /** A consumer's way in. */
  lemma ConsumerEnters(cf: Config, m: Memory, i: nat) returns (r: Memory)
    requires Framed(cf, m) && m.mutex == 1 && m.stock > 0 && m.consumed < m.items
    ensures Framed(cf, r) && GaugeOf(r) == GaugeOf(m).(stock := m.stock - 1, mutex := 0)
    ensures Solo(cf, m, CTest, i, 10) == Solo(cf, r, CMove, i, 5)
  {
    hide Solo;
    var m1 := Effect(cf, m, CStock, i);
    r := Effect(cf, m1, CEnter, i);
    SoloStep(cf, m, CTest, i, 10);
    SoloStep(cf, m, CItems(m.consumed), i, 9);
    SoloStep(cf, m, CStock, i, 8);
    SoloStep(cf, m1, CEnter, i, 7);
    SoloStep(cf, r, CCheck, i, 6);
  }

  /** Its item taken and counted, and its way out. */
  lemma ConsumerTakes(cf: Config, m: Memory, i: nat) returns (r: Memory)
    requires Framed(cf, m)
    ensures GaugeOf(r) == GaugeOf(m).(consumed := m.consumed + 1, empty := m.empty + 1, mutex := m.mutex + 1)
    ensures Solo(cf, m, CMove, i, 5) == (r, CTest)
  {
    hide Solo, Wrap;
    var m1 := Effect(cf, m, CMove, i);
    var m2 := Effect(cf, m1, CTake, i);
    var m3 := Effect(cf, m2, CCount, i);
    var m4 := Effect(cf, m3, CPost, i);
    r := Effect(cf, m4, CLeave, i);
    SoloStep(cf, m, CMove, i, 5);
    SoloStep(cf, m1, CTake, i, 4);
    SoloStep(cf, m2, CCount, i, 3);
    SoloStep(cf, m3, CPost, i, 2);
    SoloStep(cf, m4, CLeave, i, 1);
    SoloNone(cf, r, CTest, i);
  }

  /** With nobody in the way, a consumer's turn takes an item. */
  lemma ConsumerTurn(cf: Config, m: Memory, i: nat)
    requires Framed(cf, m) && m.mutex == 1 && m.stock > 0 && m.consumed < m.items
    ensures var (r, pc) := Solo(cf, m, CTest, i, 10);
      && pc == CTest
      && GaugeOf(r) == GaugeOf(m).(consumed := m.consumed + 1, stock := m.stock - 1, empty := m.empty + 1)
  {
    hide Solo, Effect, NextPc;
    var inside := ConsumerEnters(cf, m, i);
    var r := ConsumerTakes(cf, inside, i);
  }

  /** The first producer makes `n` more items. */
  lemma {:induction false} Produce(cf: Config, slots: seq<Item>, schedule: seq<nat>, n: nat) returns (longer: seq<nat>)
    requires |slots| == cf.size > 0
    requires var s := Run(cf, slots, schedule);
      && s.threads != [] && s.threads[0] == PTest && s.memory.mutex == 1
      && n <= s.memory.empty && s.memory.items + n <= cf.max
    ensures var s, t := Run(cf, slots, schedule), Run(cf, slots, longer);
      && t.threads == s.threads
      && GaugeOf(t.memory) == GaugeOf(s.memory).(items := s.memory.items + n, stock := s.memory.stock + n,
           empty := s.memory.empty - n, endFlag := s.memory.endFlag || (n > 0 && s.memory.items + n == cf.max))
    decreases n
  {
    hide Run, Solo;
    var s := Run(cf, slots, schedule);
    if n == 0 {
      longer := schedule;
    } else {
      ProducerTurn(cf, s.memory, 0);
      var next := SoloRun(cf, slots, schedule, 0, 11);
      assert s.threads[0 := PTest] == s.threads;
      longer := Produce(cf, slots, next, n - 1);
    }
  }

  /** Items made and taken one by one, short of the last. */
  lemma {:induction false} Rounds(cf: Config, slots: seq<Item>, k: nat) returns (schedule: seq<nat>)
    requires Sensible(cf) && |slots| == cf.size && k < cf.max
    ensures var s := Run(cf, slots, schedule);
      s.threads == Init(cf, slots).threads && GaugeOf(s.memory) == Gauge(k, k, false, 1, 0, cf.size, 0)
    decreases k
  {
    if k == 0 {
      schedule := [];
    } else {
      hide Run, Solo;
      var before := Rounds(cf, slots, k - 1);
      var made := Produce(cf, slots, before, 1);
      var s := Run(cf, slots, made);
      ConsumerTurn(cf, s.memory, cf.pro);
      schedule := SoloRun(cf, slots, made, cf.pro, 10);
      assert s.threads[cf.pro := CTest] == s.threads;
    }
  }

  // ------------------------------------------------------------------ the end of a run

  /** With equal counts a consumer's test comes to the end flag, two steps later. */
  lemma ReadsEqual(cf: Config, m: Memory, i: nat)
    requires Framed(cf, m) && m.consumed == m.items
    ensures Solo(cf, m, CTest, i, 2) == (m, CFlag(m.consumed, m.items))
    ensures m.endFlag ==> Solo(cf, m, CTest, i, 3) == (m, CDone(m.consumed, m.items))
  {
    hide Solo;
    var c := m.consumed;
    SoloStep(cf, m, CTest, i, 2);
    SoloStep(cf, m, CItems(c), i, 1);
    SoloNone(cf, m, CFlag(c, c), i);
    SoloStep(cf, m, CTest, i, 3);
    SoloStep(cf, m, CItems(c), i, 2);
    SoloStep(cf, m, CFlag(c, c), i, 1);
    SoloNone(cf, m, CDone(c, c), i);
  }

  lemma OneRead(cf: Config, m: Memory, pc: Pc, i: nat)
    requires Framed(cf, m) && (pc.PTest? || pc.CFlag?)
    ensures Solo(cf, m, pc, i, 1) == (m, NextPc(cf, m, pc))
  {
    SoloStep(cf, m, pc, i, 1);
  }

  /** Every thread at `producer` or `consumer`. */
  ghost predicate Lined(cf: Config, ts: seq<Pc>, producer: Pc, consumer: Pc) {
    |ts| == cf.pro + cf.cons && forall i :: 0 <= i < |ts| ==> ts[i] == if i < cf.pro then producer else consumer
  }

  /** `k` items made and taken, and every consumer has read both counts at `k`. */
  lemma AllReadEqual(cf: Config, slots: seq<Item>, k: nat) returns (schedule: seq<nat>)
    requires Sensible(cf) && |slots| == cf.size && k < cf.max
    ensures var s := Run(cf, slots, schedule);
      Lined(cf, s.threads, PTest, CFlag(k, k)) && GaugeOf(s.memory) == Gauge(k, k, false, 1, 0, cf.size, 0)
  {
    hide Run, Solo;
    var before := Rounds(cf, slots, k);
    var s := Run(cf, slots, before);
    forall i: nat ensures Solo(cf, s.memory, CTest, i, 2) == (s.memory, CFlag(k, k)) { ReadsEqual(cf, s.memory, i); }
    schedule := FillRun(cf, slots, before, cf.pro, cf.pro + cf.cons, 2, CTest, CFlag(k, k));
  }

  /** After all items are made, threads that come to test leave. */
  lemma AllLeave(cf: Config, slots: seq<Item>, schedule: seq<nat>, a: nat, b: nat, p: Pc) returns (longer: seq<nat>)
    requires |slots| == cf.size > 0 && a <= b <= |Run(cf, slots, schedule).threads|
    requires var s := Run(cf, slots, schedule);
      s.memory.items == cf.max && s.memory.endFlag && forall i: nat :: a <= i < b ==> s.threads[i] == p
    requires p.PTest? || p.CFlag?
    ensures var s := Run(cf, slots, schedule);
      Run(cf, slots, longer) == State(s.memory, Fill(s.threads, a, b, if p.PTest? then PDone else CDone(p.c, p.n)))
  {
    hide Run, Solo;
    var m := Run(cf, slots, schedule).memory;
    var q := if p.PTest? then PDone else CDone(p.c, p.n);
    forall i: nat ensures Solo(cf, m, p, i, 1) == (m, q) { OneRead(cf, m, p, i); }
    longer := FillRun(cf, slots, schedule, a, b, 1, p, q);
  }

  /** The main thread's posts. */
  lemma {:induction false} MainPosts(cf: Config, slots: seq<Item>, schedule: seq<nat>) returns (longer: seq<nat>)
    requires Sensible(cf) && |slots| == cf.size && ProducersDone(cf, Run(cf, slots, schedule).threads)
    ensures var s, t := Run(cf, slots, schedule), Run(cf, slots, longer);
      t.threads == s.threads && !MainReady(cf, t) && t.memory.items == s.memory.items
          && t.memory.consumed == s.memory.consumed
    decreases cf.cons - Run(cf, slots, schedule).memory.extra
  {
    hide Run, ProducersDone;
    var s := Run(cf, slots, schedule);
    if MainReady(cf, s) {
      RunMore(cf, slots, schedule, |s.threads|);
      longer := MainPosts(cf, slots, schedule + [|s.threads|]);
    } else {
      longer := schedule;
    }
  }

  /** Everybody has returned, and the main thread has made its posts. */
  ghost predicate Over(cf: Config, s: State) { Finished(cf, s) && !MainReady(cf, s) }

  // ------------------------------------------------------------------ getting stuck

  /** The second producer passes its test, the first fills the buffer to the last item, everybody else leaves. */
  lemma StuckScene(cf: Config, slots: seq<Item>) returns (schedule: seq<nat>)
    requires Sensible(cf) && |slots| == cf.size && cf.pro >= 2 && cf.size <= cf.max
    ensures Stuck(cf, Run(cf, slots, schedule))
  {
    hide Run, Solo;
    var k: nat := cf.max - cf.size;
    schedule := AllReadEqual(cf, slots, k);
    OneRead(cf, Run(cf, slots, schedule).memory, PTest, 1);
    schedule := SoloRun(cf, slots, schedule, 1, 1);
    schedule := Produce(cf, slots, schedule, cf.size);
    schedule := AllLeave(cf, slots, schedule, cf.pro, cf.pro + cf.cons, CFlag(k, k));
    schedule := AllLeave(cf, slots, schedule, 0, 1, PTest);
    schedule := AllLeave(cf, slots, schedule, 2, cf.pro, PTest);
    assert Run(cf, slots, schedule).threads[1] == PSlot;
  }

  /** Some schedule gets the system stuck exactly when there are two producers and no fewer items than slots. */
  lemma StuckReachableIff(cf: Config, slots: seq<Item>)
    requires Sensible(cf) && |slots| == cf.size
    ensures (exists schedule: seq<nat> :: Stuck(cf, Run(cf, slots, schedule))) <==> cf.pro >= 2 && cf.size <= cf.max
  {
    hide Run, Stuck;
    if schedule: seq<nat> :| Stuck(cf, Run(cf, slots, schedule)) { StuckNeeds(cf, slots, schedule); }
    if cf.pro >= 2 && cf.size <= cf.max { var schedule := StuckScene(cf, slots); }
  }

  lemma StuckNeeds(cf: Config, slots: seq<Item>, schedule: seq<nat>)
    requires Sensible(cf) && |slots| == cf.size && Stuck(cf, Run(cf, slots, schedule))
    ensures cf.pro >= 2 && cf.size <= cf.max
  {
    hide Run, Stuck, Tally, Buffered, Counts;
    var s := Run(cf, slots, schedule);
    RunKeeps(cf, slots, schedule);
    StuckIff(cf, slots, schedule);
    var i: nat :| i < |s.threads| && s.threads[i].PSlot?;
    assert Local(cf, s.memory, s.threads[i], i) && Local(cf, s.memory, s.threads[cf.pro], cf.pro);
    CountsBound(cf, s);
  }

  lemma CountsBound(cf: Config, s: State)
    requires Inv(cf, s)
    ensures s.memory.consumed <= s.memory.items <= cf.max && s.memory.items - s.memory.consumed <= cf.size
    ensures s.memory.endFlag ==> s.memory.items == cf.max
  {
    hide Tally, Buffered;
  }

  // ------------------------------------------------------------------ leaving items behind

  /** The run is over and `left` of the items have not been consumed. */
  ghost predicate EndsWith(cf: Config, s: State, left: nat) { Over(cf, s) && s.memory.consumed + left == cf.max }

  /** The consumers stop reading short of the last `left` items, which are then made. */
  lemma LeftScene(cf: Config, slots: seq<Item>, left: nat) returns (schedule: seq<nat>)
    requires Sensible(cf) && |slots| == cf.size && 0 < left <= cf.size && left <= cf.max
    ensures EndsWith(cf, Run(cf, slots, schedule), left)
  {
    hide Run, Solo;
    var k: nat := cf.max - left;
    schedule := AllReadEqual(cf, slots, k);
    schedule := Produce(cf, slots, schedule, left);
    schedule := AllLeave(cf, slots, schedule, cf.pro, cf.pro + cf.cons, CFlag(k, k));
    schedule := AllLeave(cf, slots, schedule, 0, cf.pro, PTest);
    schedule := MainPosts(cf, slots, schedule);
  }

  /** Or nothing is left. */
  lemma CleanScene(cf: Config, slots: seq<Item>) returns (schedule: seq<nat>)
    requires Sensible(cf) && |slots| == cf.size
    ensures EndsWith(cf, Run(cf, slots, schedule), 0)
  {
    hide Run, Solo;
    schedule := Rounds(cf, slots, cf.max - 1);
    schedule := Produce(cf, slots, schedule, 1);
    ConsumerTurn(cf, Run(cf, slots, schedule).memory, cf.pro);
    ghost var ts := Run(cf, slots, schedule).threads;
    schedule := SoloRun(cf, slots, schedule, cf.pro, 10);
    assert ts[cf.pro := CTest] == ts;
    var m := Run(cf, slots, schedule).memory;
    forall i: nat ensures Solo(cf, m, CTest, i, 3) == (m, CDone(cf.max, cf.max)) { ReadsEqual(cf, m, i); }
    schedule := FillRun(cf, slots, schedule, cf.pro, cf.pro + cf.cons, 3, CTest, CDone(cf.max, cf.max));
    schedule := AllLeave(cf, slots, schedule, 0, cf.pro, PTest);
    schedule := MainPosts(cf, slots, schedule);
  }

  /** In every configuration a run can end with `left` items still in the buffer exactly when that many fit in it and
      that many are made: with one item left behind as soon as there is a buffer and an item. */
  lemma LeftBehindIff(cf: Config, slots: seq<Item>, left: nat)
    requires Sensible(cf) && |slots| == cf.size
    ensures (exists schedule: seq<nat> :: EndsWith(cf, Run(cf, slots, schedule), left)) <==>
      left <= cf.size && left <= cf.max
  {
    hide Run, EndsWith;
    if schedule: seq<nat> :| EndsWith(cf, Run(cf, slots, schedule), left) { LeftFits(cf, slots, schedule, left); }
    if left <= cf.size && left <= cf.max {
      var schedule;
      if left == 0 { schedule := CleanScene(cf, slots); } else { schedule := LeftScene(cf, slots, left); }
    }
  }

  lemma LeftFits(cf: Config, slots: seq<Item>, schedule: seq<nat>, left: nat)
    requires Sensible(cf) && |slots| == cf.size && EndsWith(cf, Run(cf, slots, schedule), left)
    ensures left <= cf.size && left <= cf.max
  {
    hide Run, Tally, Buffered, Counts;
    var s := Run(cf, slots, schedule);
    RunKeeps(cf, slots, schedule);
    CountsBound(cf, s);
    assert s.threads[0].PDone? && Local(cf, s.memory, s.threads[0], 0);
  }

  /** So in every configuration a run can leave an item behind. */
  lemma ItemLeftBehind(cf: Config, slots: seq<Item>)
    requires Sensible(cf) && |slots| == cf.size
    ensures exists schedule: seq<nat> ::
      Over(cf, Run(cf, slots, schedule)) && Run(cf, slots, schedule).memory.consumed < cf.max
  {
    hide Run, Over;
    LeftBehindIff(cf, slots, 1);
    var schedule: seq<nat> :| EndsWith(cf, Run(cf, slots, schedule), 1);
    assert Over(cf, Run(cf, slots, schedule)) && Run(cf, slots, schedule).memory.consumed < cf.max;
  }
}
