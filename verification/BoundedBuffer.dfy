/** Producers and consumers on a bounded buffer guarded by three semaphores (alg.18-6, 18-7 and 18-8).
    One semaphore operation, or one access to a shared variable or slot, per step; every interleaving is a
    schedule of thread numbers: producers first, then consumers, then the producers' main thread. */
module BoundedBuffer {
  import opened Cyclic

  datatype Config = Config(size: nat, max: nat, pro: nat, cons: nat)

  /** The console reads four positive numbers. */
  predicate Sensible(cf: Config) { cf.size > 0 && cf.max > 0 && cf.pro > 0 && cf.cons > 0 }

  datatype Item = Item(no: nat, maker: nat)

  /** The next shared access of a thread; `c` and `n` are the counts a consumer's loop test has read. */
  datatype Pc =
    | PTest | PSlot | PEnter | PCheck | PCount | PMove | PWrite | PSign | PFlag | PPost | PReturn | PLeave | PDone
    | CTest | CItems(c: nat) | CFlag(c: nat, n: nat) | CStock | CEnter | CCheck | CMove | CTake | CCount | CPost
    | CReturn | CLeave | CDone(c: nat, n: nat)

  predicate Producing(pc: Pc) {
    pc.PTest? || pc.PSlot? || pc.PEnter? || pc.PCheck? || pc.PCount? || pc.PMove? || pc.PWrite? || pc.PSign?
    || pc.PFlag? || pc.PPost? || pc.PReturn? || pc.PLeave? || pc.PDone?
  }

  /** The shared memory, and the items made and taken so far. `extra` counts the posts of the main thread. */
  datatype Memory = Memory(
    slots: seq<Item>, items: nat, consumed: nat, enqueue: nat, dequeue: nat, endFlag: bool,
    mutex: nat, stock: nat, empty: nat, extra: nat, made: seq<Item>, taken: seq<Item>)

  datatype State = State(memory: Memory, threads: seq<Pc>)

  ghost predicate Shape(cf: Config, s: State) {
    && Sensible(cf) && Framed(cf, s.memory) && |s.threads| == cf.pro + cf.cons
    && forall i :: 0 <= i < |s.threads| ==> (Producing(s.threads[i]) <==> i < cf.pro)
  }

  predicate Framed(cf: Config, m: Memory) { |m.slots| == cf.size > 0 && m.enqueue < cf.size && m.dequeue < cf.size }

  function Init(cf: Config, slots: seq<Item>): State {
    State(Memory(slots, 0, 0, 0, 0, false, 1, 0, cf.size, 0, [], []),
        seq(cf.pro + cf.cons, i => if i < cf.pro then PTest else CTest))
  }

  /** A wait on a semaphore at zero. */
  predicate Blocked(m: Memory, pc: Pc) {
    (pc.PSlot? && m.empty == 0) || (pc.CStock? && m.stock == 0) || ((pc.PEnter? || pc.CEnter?) && m.mutex == 0)
  }

  /** Where a thread that is not blocked goes. */
  function NextPc(cf: Config, m: Memory, pc: Pc): (next: Pc)
    ensures Producing(next) <==> Producing(pc)
  {
    match pc
    case PTest => if m.items < cf.max then PSlot else PDone
    case PSlot => PEnter
    case PEnter => PCheck
    case PCheck => if m.items < cf.max then PCount else PReturn
    case PCount => PMove
    case PMove => PWrite
    case PWrite => PSign
    case PSign => PFlag
    case PFlag => PPost
    case PPost => PLeave
    case PReturn => PLeave
    case PLeave => PTest
    case PDone => PDone
    case CTest => CItems(m.consumed)
    case CItems(c) => if c < m.items then CStock else CFlag(c, m.items)
    case CFlag(c, n) => if m.endFlag then CDone(c, n) else CStock
    case CStock => CEnter
    case CEnter => CCheck
    case CCheck => if m.consumed < m.items then CMove else CReturn
    case CMove => CTake
    case CTake => CCount
    case CCount => CPost
    case CPost => CLeave
    case CReturn => CLeave
    case CLeave => CTest
    case CDone(c, n) => CDone(c, n)
  }

  /** What the access of thread `i` at `pc` does to the memory. */
  function Effect(cf: Config, m: Memory, pc: Pc, i: nat): (r: Memory)
    requires Framed(cf, m) && !Blocked(m, pc)
    ensures Framed(cf, r)
  {
    match pc
    case PSlot => m.(empty := m.empty - 1)
    case PCount => m.(items := m.items + 1, made := m.made + [Item(m.items + 1, i)])
    case PMove => m.(enqueue := Wrap(m.enqueue + 1, cf.size))
    case PWrite => m.(slots := m.slots[m.enqueue := m.slots[m.enqueue].(no := m.items)])
    case PSign => m.(slots := m.slots[m.enqueue := m.slots[m.enqueue].(maker := i)])
    case PFlag => m.(endFlag := m.endFlag || m.items == cf.max)
    case PPost => m.(stock := m.stock + 1)
    case PReturn => m.(empty := m.empty + 1)
    case CStock => m.(stock := m.stock - 1)
    case CMove => m.(dequeue := Wrap(m.dequeue + 1, cf.size))
    case CTake => m.(taken := m.taken + [m.slots[m.dequeue]])
    case CCount => m.(consumed := m.consumed + 1)
    case CPost => m.(empty := m.empty + 1)
    case CReturn => m.(stock := m.stock + 1)
    case PEnter => m.(mutex := m.mutex - 1)
    case CEnter => m.(mutex := m.mutex - 1)
    case PLeave => m.(mutex := m.mutex + 1)
    case CLeave => m.(mutex := m.mutex + 1)
    case _ => m
  }

  ghost predicate ProducersDone(cf: Config, threads: seq<Pc>) {
    forall i :: 0 <= i < |threads| && i < cf.pro ==> threads[i].PDone?
  }

  /** The producers' main thread joins them all, then posts `stock` once for every consumer but one. */
  ghost predicate MainReady(cf: Config, s: State) { ProducersDone(cf, s.threads) && s.memory.extra + 1 < cf.cons }

  /** One step of a thread, or of the main thread; a blocked thread stays where it is. */
  ghost function Next(cf: Config, s: State, i: nat): (t: State)
    requires Framed(cf, s.memory)
    ensures Framed(cf, t.memory)
  {
    var m := s.memory;
    if i < |s.threads| then
      if Blocked(m, s.threads[i]) then s
      else State(Effect(cf, m, s.threads[i], i), s.threads[i := NextPc(cf, m, s.threads[i])])
    else if MainReady(cf, s) then s.(memory := m.(stock := m.stock + 1, extra := m.extra + 1))
    else s
  }

  // ------------------------------------------------------------------ counting threads

  datatype Kind = Mutex | Slot | Stock | Unposted | Unmoved | Unwritten | Unflagged | Ahead | Uncounted

  /** Mutex: holds the mutex. Slot, Stock: holds a token of that semaphore. Unposted to Unflagged: has counted an
      item it has not yet posted, moved `enqueue` for, written, or checked the end flag for. Ahead, Uncounted: has
      moved `dequeue`, has taken, but not yet counted the item. */
  predicate In(k: Kind, pc: Pc) {
    match k
    case Mutex => pc.PCheck? || pc.PCount? || pc.PMove? || pc.PWrite? || pc.PSign? || pc.PFlag? || pc.PPost?
      || pc.PReturn? || pc.PLeave? || pc.CCheck? || pc.CMove? || pc.CTake? || pc.CCount? || pc.CPost?
      || pc.CReturn? || pc.CLeave?
    case Slot => pc.PEnter? || pc.PCheck? || pc.PCount? || pc.PReturn? || pc.CPost?
    case Stock => pc.CEnter? || pc.CCheck? || pc.CMove? || pc.CTake? || pc.CCount? || pc.CReturn?
    case Unposted => pc.PMove? || pc.PWrite? || pc.PSign? || pc.PFlag? || pc.PPost?
    case Unmoved => pc.PMove?
    case Unwritten => pc.PMove? || pc.PWrite? || pc.PSign?
    case Unflagged => pc.PMove? || pc.PWrite? || pc.PSign? || pc.PFlag?
    case Ahead => pc.CTake? || pc.CCount?
    case Uncounted => pc.CCount?
  }

  function One(k: Kind, pc: Pc): nat { if In(k, pc) then 1 else 0 }

  function Tally(k: Kind, ts: seq<Pc>): nat {
    if ts == [] then 0 else Tally(k, ts[..|ts| - 1]) + One(k, ts[|ts| - 1])
  }

  lemma {:induction false} TallyPut(k: Kind, ts: seq<Pc>, i: nat, pc: Pc)
    requires i < |ts|
    ensures Tally(k, ts[i := pc]) == Tally(k, ts) - One(k, ts[i]) + One(k, pc)
    ensures One(k, ts[i]) <= Tally(k, ts)
    decreases |ts|
  {
    hide In;
    var m := |ts| - 1;
    if i < m {
      TallyPut(k, ts[..m], i, pc);
      assert ts[i := pc][..m] == ts[..m][i := pc];
    } else {
      assert ts[i := pc][..m] == ts[..m];
    }
  }

  lemma {:induction false} TallyNone(k: Kind, ts: seq<Pc>)
    ensures Tally(k, ts) == 0 <==> forall i :: 0 <= i < |ts| ==> !In(k, ts[i])
    decreases |ts|
  {
    hide In;
    if ts != [] {
      var m := |ts| - 1;
      TallyNone(k, ts[..m]);
      assert forall i :: 0 <= i < m ==> ts[..m][i] == ts[i];
    }
  }

  /** With one thread in the mutex, it alone decides every count that is taken inside. */
  lemma Alone(k: Kind, ts: seq<Pc>, i: nat)
    requires i < |ts| && In(Mutex, ts[i]) && Tally(Mutex, ts) <= 1
    requires k != Slot && k != Stock
    ensures Tally(k, ts) == One(k, ts[i])
    ensures forall j :: 0 <= j < |ts| && j != i ==> !In(Mutex, ts[j])
  {
    var rest := ts[i := PTest];
    TallyPut(Mutex, ts, i, PTest);
    TallyNone(Mutex, rest);
    assert forall j :: 0 <= j < |ts| && j != i ==> rest[j] == ts[j];
    assert forall j :: 0 <= j < |rest| ==> !In(Mutex, rest[j]);
    TallyPut(k, ts, i, PTest);
    TallyNone(k, rest);
  }

  // ------------------------------------------------------------------ the invariant

  /** The mutex is free or held once; an empty slot is in `empty`, in a thread's hands, or holds an item; a stock
      token is in `stock`, in a thread's hands, or still to be posted, one for every item and every extra post. */
  predicate Tokens(cf: Config, m: Memory, inside: nat, slot: nat, stock: nat, unposted: nat) {
    && m.mutex + inside == 1
    && m.consumed <= m.items <= cf.max
    && m.empty + slot + (m.items - m.consumed) == cf.size
    && m.stock + stock + unposted == m.items - m.consumed + m.extra
  }

  /** Item k + 1 is in its slot from when it is written until it is counted as consumed, and items are taken in the
      order they were made. */
  ghost predicate Buffered(cf: Config, m: Memory, unmoved: nat, unwritten: nat, ahead: nat, uncounted: nat)
    requires Framed(cf, m)
  {
    && |m.made| == m.items
    && (forall k {:trigger m.made[k]} :: 0 <= k < m.items ==> m.made[k].no == k + 1 && m.made[k].maker < cf.pro)
    && unmoved <= m.items && m.enqueue == Wrap(m.items - unmoved, cf.size)
    && m.dequeue == Wrap(m.consumed + ahead, cf.size)
    && (forall k: nat {:trigger m.made[k]} :: m.consumed <= k < m.items - unwritten ==>
         m.slots[Wrap(k + 1, cf.size)] == m.made[k])
    && m.consumed + uncounted <= m.items
    && m.taken == m.made[..m.consumed + uncounted]
  }

  predicate Flagged(cf: Config, m: Memory, unflagged: nat) {
    && (m.endFlag ==> m.items == cf.max)
    && (m.items == cf.max && unflagged == 0 ==> m.endFlag)
    && (m.extra > 0 ==> m.extra < cf.cons && m.items == cf.max)
  }

  /** What thread `i` knows where it stands. */
  predicate Local(cf: Config, m: Memory, pc: Pc, i: nat)
    requires Framed(cf, m)
  {
    match pc
    case PSlot => cf.pro == 1 ==> m.items < cf.max
    case PEnter => cf.pro == 1 ==> m.items < cf.max
    case PCheck => cf.pro == 1 ==> m.items < cf.max
    case PCount => m.items < cf.max
    case PMove => m.consumed < m.items == |m.made| && m.made[m.items - 1].maker == i
    case PWrite => m.consumed < m.items == |m.made| && m.made[m.items - 1].maker == i
    case PSign => m.consumed < m.items == |m.made| && m.made[m.items - 1].maker == i
        && m.slots[Wrap(m.items, cf.size)].no == m.items
    case PFlag => m.consumed < m.items
    case PReturn => m.items == cf.max
    case PDone => m.items == cf.max
    case CItems(c) => c <= m.consumed && (cf.cons == 1 ==> c == m.consumed)
    case CFlag(c, n) => n <= c <= m.consumed && n <= m.items
    case CDone(c, n) => n <= c <= m.consumed && n <= m.items && m.endFlag
    case CStock => cf.cons == 1 ==> m.consumed < cf.max
    case CMove => m.consumed < m.items
    case CTake => m.consumed < m.items
    case CCount => m.consumed < m.items
    case CReturn => m.consumed == cf.max
    case _ => true
  }

  ghost predicate Counts(cf: Config, m: Memory, ts: seq<Pc>)
    requires Framed(cf, m)
  {
    && Tokens(cf, m, Tally(Mutex, ts), Tally(Slot, ts), Tally(Stock, ts), Tally(Unposted, ts))
    && Buffered(cf, m, Tally(Unmoved, ts), Tally(Unwritten, ts), Tally(Ahead, ts), Tally(Uncounted, ts))
    && Flagged(cf, m, Tally(Unflagged, ts))
  }

  ghost predicate Inv(cf: Config, s: State) {
    && Shape(cf, s)
    && Counts(cf, s.memory, s.threads)
    && forall i :: 0 <= i < |s.threads| ==> Local(cf, s.memory, s.threads[i], i)
  }

  function After(k: Kind, count: nat, pc: Pc, next: Pc): nat
    requires One(k, pc) <= count
  {
    count - One(k, pc) + One(k, next)
  }

  lemma TokensStep(cf: Config, m: Memory, pc: Pc, i: nat, inside: nat, slot: nat, stock: nat, unposted: nat)
    requires Framed(cf, m) && Tokens(cf, m, inside, slot, stock, unposted) && Local(cf, m, pc, i) && !Blocked(m, pc)
    requires One(Mutex, pc) <= inside && One(Slot, pc) <= slot && One(Stock, pc) <= stock
        && One(Unposted, pc) <= unposted
    ensures var next := NextPc(cf, m, pc);
      Tokens(cf, Effect(cf, m, pc, i), After(Mutex, inside, pc, next), After(Slot, slot, pc, next),
          After(Stock, stock, pc, next), After(Unposted, unposted, pc, next))
  {
    hide Wrap;
  }

  lemma OwnStep(cf: Config, m: Memory, pc: Pc, i: nat)
    requires Framed(cf, m) && Local(cf, m, pc, i) && !Blocked(m, pc) && m.consumed <= m.items <= cf.max
        && |m.made| == m.items
    requires pc.PMove? ==> m.items > 0 && m.enqueue == Wrap(m.items - 1, cf.size)
    requires pc.PWrite? || pc.PSign? ==> m.enqueue == Wrap(m.items, cf.size)
    requires pc.CFlag? && !m.endFlag ==> m.consumed < cf.max
    requires pc.CCheck? && m.consumed == m.items ==> m.items == cf.max
    ensures Local(cf, Effect(cf, m, pc, i), NextPc(cf, m, pc), i)
  {
  }

  /** A step of thread `i` leaves what another thread `j` knows true. */
  lemma OthersStep(cf: Config, m: Memory, pc: Pc, i: nat, other: Pc, j: nat)
    requires Framed(cf, m) && Local(cf, m, pc, i) && Local(cf, m, other, j) && !Blocked(m, pc)
    requires !In(Mutex, pc) || !In(Mutex, other)
    requires m.consumed <= m.items <= cf.max && |m.made| == m.items
    requires cf.cons == 1 && !Producing(pc) ==> Producing(other)
    requires cf.pro == 1 && Producing(pc) ==> !Producing(other)
    ensures Local(cf, Effect(cf, m, pc, i), other, j)
  {
  }

  // ------------------------------------------------------------------ the circular buffer

  lemma ItemCounted(cf: Config, m: Memory, i: nat)
    requires Framed(cf, m) && Buffered(cf, m, 0, 0, 0, 0) && i < cf.pro
    ensures Buffered(cf, Effect(cf, m, PCount, i), 1, 1, 0, 0)
  {
  }

  lemma EnqueueMoved(cf: Config, m: Memory, i: nat)
    requires Framed(cf, m) && Buffered(cf, m, 1, 1, 0, 0)
    ensures Buffered(cf, Effect(cf, m, PMove, i), 0, 1, 0, 0)
  {
    WrapNext(m.items - 1, cf.size);
  }

  lemma ItemApart(cf: Config, m: Memory)
    requires Framed(cf, m) && m.consumed < m.items <= m.consumed + cf.size
    ensures forall k: nat {:trigger Wrap(k + 1, cf.size)} :: m.consumed <= k < m.items - 1 ==>
        Wrap(k + 1, cf.size) != Wrap(m.items, cf.size)
  {
    forall k: nat {:trigger Wrap(k + 1, cf.size)} | m.consumed <= k < m.items - 1
      ensures Wrap(k + 1, cf.size) != Wrap(m.items, cf.size)
    {
      WrapApart(k + 1, m.items, cf.size);
    }
  }

  lemma NumberWritten(cf: Config, m: Memory, i: nat)
    requires Framed(cf, m) && Buffered(cf, m, 0, 1, 0, 0) && Local(cf, m, PWrite, i) && m.items <= m.consumed + cf.size
    ensures Buffered(cf, Effect(cf, m, PWrite, i), 0, 1, 0, 0)
  {
    hide Wrap;
    ItemApart(cf, m);
  }

  lemma MakerWritten(cf: Config, m: Memory, i: nat)
    requires Framed(cf, m) && Buffered(cf, m, 0, 1, 0, 0) && Local(cf, m, PSign, i) && m.items <= m.consumed + cf.size
    ensures Buffered(cf, Effect(cf, m, PSign, i), 0, 0, 0, 0)
  {
    hide Wrap;
    ItemApart(cf, m);
  }

  lemma DequeueMoved(cf: Config, m: Memory, i: nat)
    requires Framed(cf, m) && Buffered(cf, m, 0, 0, 0, 0)
    ensures Buffered(cf, Effect(cf, m, CMove, i), 0, 0, 1, 0)
  {
    WrapNext(m.consumed, cf.size);
  }

  lemma ItemTaken(cf: Config, m: Memory, i: nat)
    requires Framed(cf, m) && Buffered(cf, m, 0, 0, 1, 0) && Local(cf, m, CTake, i)
    ensures Buffered(cf, Effect(cf, m, CTake, i), 0, 0, 1, 1)
  {
    hide Wrap;
    assert m.slots[m.dequeue] == m.made[m.consumed];
    assert m.made[..m.consumed + 1] == m.made[..m.consumed] + [m.made[m.consumed]];
  }

  lemma ItemGone(cf: Config, m: Memory, i: nat)
    requires Framed(cf, m) && Buffered(cf, m, 0, 0, 1, 1)
    ensures Buffered(cf, Effect(cf, m, CCount, i), 0, 0, 0, 0)
  {
  }

  /** Steps that touch no item. */
  predicate Idle(pc: Pc) {
    !(pc.PCount? || pc.PMove? || pc.PWrite? || pc.PSign? || pc.CMove? || pc.CTake? || pc.CCount?)
  }

  lemma IdleStep(cf: Config, m: Memory, pc: Pc, i: nat, unmoved: nat, unwritten: nat, ahead: nat, uncounted: nat)
    requires Framed(cf, m) && !Blocked(m, pc) && Idle(pc) && Buffered(cf, m, unmoved, unwritten, ahead, uncounted)
    ensures Buffered(cf, Effect(cf, m, pc, i), unmoved, unwritten, ahead, uncounted)
  {
  }

  lemma IdleCounts(cf: Config, m: Memory, pc: Pc)
    requires Idle(pc)
    ensures var next := NextPc(cf, m, pc);
      One(Unmoved, pc) == One(Unmoved, next) == 0 && One(Unwritten, pc) == One(Unwritten, next) == 0
      && One(Ahead, pc) == One(Ahead, next) == 0 && One(Uncounted, pc) == One(Uncounted, next) == 0
  {
  }

  lemma BufferedStep(cf: Config, m: Memory, pc: Pc, i: nat, unmoved: nat, unwritten: nat, ahead: nat, uncounted: nat)
    requires Framed(cf, m) && Buffered(cf, m, unmoved, unwritten, ahead, uncounted) && Local(cf, m, pc, i)
        && !Blocked(m, pc)
    requires In(Mutex, pc) ==>
      unmoved == One(Unmoved, pc) && unwritten == One(Unwritten, pc)
      && ahead == One(Ahead, pc) && uncounted == One(Uncounted, pc)
    requires m.consumed <= m.items <= m.consumed + cf.size
    requires i < cf.pro || !Producing(pc)
    requires One(Unmoved, pc) <= unmoved && One(Unwritten, pc) <= unwritten && One(Ahead, pc) <= ahead
        && One(Uncounted, pc) <= uncounted
    ensures var next := NextPc(cf, m, pc);
      Buffered(cf, Effect(cf, m, pc, i), After(Unmoved, unmoved, pc, next), After(Unwritten, unwritten, pc, next),
          After(Ahead, ahead, pc, next), After(Uncounted, uncounted, pc, next))
  {
    hide Buffered, Local, Effect;
    if Idle(pc) {
      IdleCounts(cf, m, pc);
      IdleStep(cf, m, pc, i, unmoved, unwritten, ahead, uncounted);
    } else {
      ActiveStep(cf, m, pc, i);
    }
  }

  lemma ActiveStep(cf: Config, m: Memory, pc: Pc, i: nat)
    requires Framed(cf, m) && Local(cf, m, pc, i) && !Idle(pc) && (i < cf.pro || !Producing(pc))
    requires Buffered(cf, m, One(Unmoved, pc), One(Unwritten, pc), One(Ahead, pc), One(Uncounted, pc))
    requires m.consumed <= m.items <= m.consumed + cf.size
    ensures var next := NextPc(cf, m, pc);
      Buffered(cf, Effect(cf, m, pc, i), One(Unmoved, next), One(Unwritten, next), One(Ahead, next),
          One(Uncounted, next))
  {
    hide Buffered, Local, Effect;
    if pc.PCount? { ItemCounted(cf, m, i); }
    else if pc.PMove? { EnqueueMoved(cf, m, i); }
    else if pc.PWrite? { NumberWritten(cf, m, i); }
    else if pc.PSign? { MakerWritten(cf, m, i); }
    else if pc.CMove? { DequeueMoved(cf, m, i); }
    else if pc.CTake? { ItemTaken(cf, m, i); }
    else { ItemGone(cf, m, i); }
  }

  // ------------------------------------------------------------------ every step keeps the invariant

  lemma FlaggedStep(cf: Config, m: Memory, pc: Pc, i: nat, unflagged: nat)
    requires Framed(cf, m) && Flagged(cf, m, unflagged) && Local(cf, m, pc, i) && !Blocked(m, pc)
    requires m.items <= cf.max && One(Unflagged, pc) <= unflagged && (In(Mutex, pc) ==> unflagged == One(Unflagged, pc))
    ensures Flagged(cf, Effect(cf, m, pc, i), After(Unflagged, unflagged, pc, NextPc(cf, m, pc)))
  {
  }

  /** All items consumed: the end flag is up. */
  lemma EndSeen(cf: Config, s: State)
    requires Inv(cf, s) && s.memory.consumed == cf.max
    ensures s.memory.endFlag
  {
    hide Buffered;
    TallyNone(Unflagged, s.threads);
    assert forall i :: 0 <= i < |s.threads| ==> Local(cf, s.memory, s.threads[i], i);
    assert forall i :: 0 <= i < |s.threads| ==> !In(Unflagged, s.threads[i]);
  }

  lemma InsideCounts(ts: seq<Pc>, i: nat)
    requires i < |ts| && In(Mutex, ts[i]) && Tally(Mutex, ts) <= 1
    ensures Tally(Unmoved, ts) == One(Unmoved, ts[i]) && Tally(Unwritten, ts) == One(Unwritten, ts[i])
    ensures Tally(Ahead, ts) == One(Ahead, ts[i]) && Tally(Uncounted, ts) == One(Uncounted, ts[i])
    ensures Tally(Unflagged, ts) == One(Unflagged, ts[i])
    ensures forall j :: 0 <= j < |ts| && j != i ==> !In(Mutex, ts[j])
  {
    hide In, Tally, One;
    Alone(Unmoved, ts, i);
    Alone(Unwritten, ts, i);
    Alone(Ahead, ts, i);
    Alone(Uncounted, ts, i);
    Alone(Unflagged, ts, i);
  }

  lemma CountsStep(cf: Config, m: Memory, ts: seq<Pc>, i: nat)
    requires Framed(cf, m) && Counts(cf, m, ts) && i < |ts| && !Blocked(m, ts[i]) && Local(cf, m, ts[i], i)
    requires i < cf.pro || !Producing(ts[i])
    ensures Counts(cf, Effect(cf, m, ts[i], i), ts[i := NextPc(cf, m, ts[i])])
  {
    hide In, Tally, One, NextPc, Effect, Buffered, Flagged, Local;
    var pc, next := ts[i], NextPc(cf, m, ts[i]);
    if In(Mutex, pc) { InsideCounts(ts, i); }
    TallyPut(Mutex, ts, i, next);
    TallyPut(Slot, ts, i, next);
    TallyPut(Stock, ts, i, next);
    TallyPut(Unposted, ts, i, next);
    TallyPut(Unmoved, ts, i, next);
    TallyPut(Unwritten, ts, i, next);
    TallyPut(Unflagged, ts, i, next);
    TallyPut(Ahead, ts, i, next);
    TallyPut(Uncounted, ts, i, next);
    TokensStep(cf, m, pc, i, Tally(Mutex, ts), Tally(Slot, ts), Tally(Stock, ts), Tally(Unposted, ts));
    BufferedStep(cf, m, pc, i, Tally(Unmoved, ts), Tally(Unwritten, ts), Tally(Ahead, ts), Tally(Uncounted, ts));
    FlaggedStep(cf, m, pc, i, Tally(Unflagged, ts));
  }

  lemma LocalsStep(cf: Config, s: State, i: nat, j: nat)
    requires Inv(cf, s) && i < |s.threads| && j < |s.threads| && !Blocked(s.memory, s.threads[i])
    ensures Local(cf, Effect(cf, s.memory, s.threads[i], i),
        if j == i then NextPc(cf, s.memory, s.threads[i]) else s.threads[j], j)
  {
    hide In, Tally, Effect, NextPc, Local;
    var m, pc := s.memory, s.threads[i];
    if In(Mutex, pc) { InsideCounts(s.threads, i); }
    if j == i {
      if m.consumed == cf.max { EndSeen(cf, s); }
      KnowsPlace(cf, m, s.threads, i);
      EmptyHandedLate(cf, s, i);
      OwnStep(cf, m, pc, i);
    } else {
      OthersStep(cf, m, pc, i, s.threads[j], j);
    }
  }

  /** A consumer finds nothing only after the extra posts. */
  lemma EmptyHandedLate(cf: Config, s: State, i: nat)
    requires Inv(cf, s) && i < |s.threads|
    ensures s.threads[i].CCheck? && s.memory.consumed == s.memory.items ==>
      s.memory.extra > 0 && s.memory.items == cf.max
  {
    hide Tally, Buffered;
    TallyPut(Stock, s.threads, i, CTest);
  }

  lemma KnowsPlace(cf: Config, m: Memory, ts: seq<Pc>, i: nat)
    requires Framed(cf, m) && Counts(cf, m, ts) && i < |ts|
    ensures ts[i].PMove? ==> m.items > 0 && m.enqueue == Wrap(m.items - 1, cf.size)
    ensures ts[i].PWrite? || ts[i].PSign? ==> m.enqueue == Wrap(m.items, cf.size)
  {
    hide Tally, Wrap;
    if In(Mutex, ts[i]) { InsideCounts(ts, i); }
  }

  lemma MainKeeps(cf: Config, s: State)
    requires Inv(cf, s) && MainReady(cf, s)
    ensures Inv(cf, Next(cf, s, |s.threads|))
  {
    hide Tally, Wrap, In;
    var t := Next(cf, s, |s.threads|);
    assert s.threads[0].PDone? && Local(cf, s.memory, s.threads[0], 0);
    forall j | 0 <= j < |t.threads|
      ensures Local(cf, t.memory, t.threads[j], j)
    {
      assert Local(cf, s.memory, s.threads[j], j);
    }
  }

  lemma StepKeeps(cf: Config, s: State, i: nat)
    requires Inv(cf, s)
    ensures Inv(cf, Next(cf, s, i))
  {
    hide Tally, In, Counts, Effect, NextPc, Local;
    if i >= |s.threads| {
      if MainReady(cf, s) { MainKeeps(cf, s); }
    } else if !Blocked(s.memory, s.threads[i]) {
      CountsStep(cf, s.memory, s.threads, i);
      forall j: nat | j < |s.threads|
        ensures Local(cf, Next(cf, s, i).memory, Next(cf, s, i).threads[j], j)
      {
        LocalsStep(cf, s, i, j);
      }
    }
  }

  lemma InitHolds(cf: Config, slots: seq<Item>)
    requires Sensible(cf) && |slots| == cf.size
    ensures Inv(cf, Init(cf, slots))
  {
    var ts := Init(cf, slots).threads;
    TallyNone(Mutex, ts);
    TallyNone(Slot, ts);
    TallyNone(Stock, ts);
    TallyNone(Unposted, ts);
    TallyNone(Unmoved, ts);
    TallyNone(Unwritten, ts);
    TallyNone(Unflagged, ts);
    TallyNone(Ahead, ts);
    TallyNone(Uncounted, ts);
    WrapIs(0, 0, 0, cf.size);
  }

  /** The state after a schedule. */
  ghost function Run(cf: Config, slots: seq<Item>, schedule: seq<nat>): (s: State)
    requires |slots| == cf.size > 0
    ensures Framed(cf, s.memory)
    decreases |schedule|
  {
    if schedule == [] then Init(cf, slots)
    else Next(cf, Run(cf, slots, schedule[..|schedule| - 1]), schedule[|schedule| - 1])
  }

  lemma {:induction false} RunKeeps(cf: Config, slots: seq<Item>, schedule: seq<nat>)
    requires Sensible(cf) && |slots| == cf.size
    ensures Inv(cf, Run(cf, slots, schedule))
    decreases |schedule|
  {
    hide Inv, Next, Init;
    if schedule == [] {
      InitHolds(cf, slots);
    } else {
      RunKeeps(cf, slots, schedule[..|schedule| - 1]);
      StepKeeps(cf, Run(cf, slots, schedule[..|schedule| - 1]), schedule[|schedule| - 1]);
    }
  }

  // ------------------------------------------------------------------ what every interleaving keeps

  /** Items are numbered 1, 2, 3, ... in the order they are made, and taken in that order, each once, with the number
      and the producer they were made with. */
  lemma TakenInOrder(cf: Config, slots: seq<Item>, schedule: seq<nat>)
    requires Sensible(cf) && |slots| == cf.size
    ensures var m := Run(cf, slots, schedule).memory;
      m.taken <= m.made && |m.taken| <= |m.made| == m.items <= cf.max && m.consumed <= |m.taken| <= m.consumed + 1
      && forall k :: 0 <= k < |m.taken| ==> m.taken[k].no == k + 1 && m.taken[k].maker < cf.pro
  {
    hide Tally;
    RunKeeps(cf, slots, schedule);
    var s := Run(cf, slots, schedule);
    if i :| 0 <= i < |s.threads| && In(Uncounted, s.threads[i]) {
      InsideCounts(s.threads, i);
    } else {
      TallyNone(Uncounted, s.threads);
    }
    assert forall k :: 0 <= k < |s.memory.taken| ==> s.memory.taken[k] == s.memory.made[k];
  }

  /** At most `size` items are outstanding. Every item but the newest, until it is consumed, is in its own slot, number
      k + 1 in slot (k + 1) mod size, whatever the threads are doing; the newest is too unless it is being written. */
  lemma ItemsStayInSlots(cf: Config, slots: seq<Item>, schedule: seq<nat>, k: nat)
    requires Sensible(cf) && |slots| == cf.size
    ensures var s := Run(cf, slots, schedule);
      var m := s.memory;
      && |m.made| == m.items && m.items - m.consumed <= cf.size
      && (m.consumed <= k && k + 1 < m.items ==> m.slots[Wrap(k + 1, cf.size)] == m.made[k])
      && (m.consumed <= k < m.items && (forall i :: 0 <= i < |s.threads| ==> !In(Unwritten, s.threads[i])) ==>
            m.slots[Wrap(k + 1, cf.size)] == m.made[k])
  {
    hide Tally;
    RunKeeps(cf, slots, schedule);
    var s := Run(cf, slots, schedule);
    TallyNone(Unwritten, s.threads);
    if i :| 0 <= i < |s.threads| && In(Unwritten, s.threads[i]) {
      InsideCounts(s.threads, i);
    }
  }

  /** Until the main thread's extra posts, a consumer that got through both semaphores finds an item. */
  lemma NeverEmptyHanded(cf: Config, slots: seq<Item>, schedule: seq<nat>, i: nat)
    requires Sensible(cf) && |slots| == cf.size
    requires var s := Run(cf, slots, schedule); i < |s.threads| && s.threads[i].CCheck? && s.memory.extra == 0
    ensures var s := Run(cf, slots, schedule); s.memory.consumed < s.memory.items
  {
    hide Tally;
    RunKeeps(cf, slots, schedule);
    TallyPut(Stock, Run(cf, slots, schedule).threads, i, CTest);
  }

  /** A consumer leaves only after the end flag; if the item count it read last was the full one, all was consumed. */
  lemma LeavesWhenDrained(cf: Config, slots: seq<Item>, schedule: seq<nat>, i: nat)
    requires Sensible(cf) && |slots| == cf.size
    requires var s := Run(cf, slots, schedule); i < |s.threads| && s.threads[i].CDone?
    ensures var s := Run(cf, slots, schedule);
      s.memory.items == cf.max && (s.threads[i].n == cf.max ==> s.memory.consumed == cf.max)
  {
    hide Tally;
    RunKeeps(cf, slots, schedule);
    var s := Run(cf, slots, schedule);
    assert Local(cf, s.memory, s.threads[i], i);
  }

  ghost predicate Finished(cf: Config, s: State) {
    forall i :: 0 <= i < |s.threads| ==> s.threads[i].PDone? || s.threads[i].CDone?
  }

  /** Nobody can do anything, though some thread has not returned. */
  ghost predicate Stuck(cf: Config, s: State) {
    && !Finished(cf, s) && !MainReady(cf, s)
    && forall i :: 0 <= i < |s.threads| ==>
         s.threads[i].PDone? || s.threads[i].CDone? || Blocked(s.memory, s.threads[i])
  }

  /** Every thread has returned, but for producers waiting for an empty slot. */
  ghost predicate OnlyProducersWait(s: State) {
    && (forall i :: 0 <= i < |s.threads| ==> s.threads[i].PDone? || s.threads[i].CDone? || s.threads[i].PSlot?)
    && exists i :: 0 <= i < |s.threads| && s.threads[i].PSlot?
  }

  /** The system gets stuck in exactly one way: every consumer has left, and with the buffer full some producer waits
      for an empty slot, to learn that there is nothing left to make. */
  lemma StuckIff(cf: Config, slots: seq<Item>, schedule: seq<nat>)
    requires Sensible(cf) && |slots| == cf.size
    ensures var s := Run(cf, slots, schedule);
      Stuck(cf, s) <==> OnlyProducersWait(s) && s.memory.items - s.memory.consumed == cf.size
  {
    hide Tally, Buffered, Run;
    RunKeeps(cf, slots, schedule);
    var s := Run(cf, slots, schedule);
    if Stuck(cf, s) || OnlyProducersWait(s) { Quiet(cf, s); }
    if Stuck(cf, s) { NoConsumerWaits(cf, s); }
  }

  /** With no thread on its way anywhere, every token is in its semaphore. */
  lemma Quiet(cf: Config, s: State)
    requires Inv(cf, s) && (Stuck(cf, s) || OnlyProducersWait(s))
    ensures s.memory.empty + (s.memory.items - s.memory.consumed) == cf.size
    ensures s.memory.stock == s.memory.items - s.memory.consumed + s.memory.extra && s.memory.mutex == 1
  {
    hide Tally, Buffered, Flagged, Local;
    TallyNone(Mutex, s.threads);
    TallyNone(Slot, s.threads);
    TallyNone(Stock, s.threads);
    TallyNone(Unposted, s.threads);
  }

  lemma NoConsumerWaits(cf: Config, s: State)
    requires Inv(cf, s) && Stuck(cf, s)
    ensures OnlyProducersWait(s)
  {
    hide Tally, Buffered;
    Quiet(cf, s);
    forall i | 0 <= i < |s.threads|
      ensures !s.threads[i].CStock?
    {
      assert Local(cf, s.memory, s.threads[i], i) && Local(cf, s.memory, s.threads[0], 0);
    }
  }

  /** Some consumer is still to see, or has seen, that all is consumed. */
  ghost predicate SomeoneSees(cf: Config, s: State) {
    s.memory.consumed == cf.max ==> exists i :: 0 <= i < |s.threads| && WillSee(cf, s.threads[i])
  }

  predicate WillSee(cf: Config, pc: Pc) {
    pc.CPost? || pc.CLeave? || pc.CTest? || (pc.CItems? && pc.c == cf.max)
        || ((pc.CFlag? || pc.CDone?) && pc.n == cf.max)
  }

  lemma SightStep(cf: Config, s: State, i: nat)
    requires Inv(cf, s) && SomeoneSees(cf, s)
    ensures SomeoneSees(cf, Next(cf, s, i))
  {
    hide Tally, Buffered;
    var t := Next(cf, s, i);
    if s.memory.consumed == cf.max {
      EndSeen(cf, s);
      var j :| 0 <= j < |s.threads| && WillSee(cf, s.threads[j]);
      assert WillSee(cf, t.threads[j]);
    } else if i < |s.threads| {
      assert t.memory.consumed == cf.max ==> WillSee(cf, t.threads[i]);
    }
  }

  lemma {:induction false} RunSight(cf: Config, slots: seq<Item>, schedule: seq<nat>)
    requires Sensible(cf) && |slots| == cf.size
    ensures SomeoneSees(cf, Run(cf, slots, schedule))
    decreases |schedule|
  {
    hide Inv;
    if schedule != [] {
      RunKeeps(cf, slots, schedule[..|schedule| - 1]);
      RunSight(cf, slots, schedule[..|schedule| - 1]);
      SightStep(cf, Run(cf, slots, schedule[..|schedule| - 1]), schedule[|schedule| - 1]);
    }
  }

  /** When all have returned, every item has been consumed exactly if some consumer's last test read the full count. */
  lemma AllConsumedIff(cf: Config, slots: seq<Item>, schedule: seq<nat>)
    requires Sensible(cf) && |slots| == cf.size && Finished(cf, Run(cf, slots, schedule))
    ensures var s := Run(cf, slots, schedule);
      s.memory.consumed == cf.max <==>
        exists i :: 0 <= i < |s.threads| && s.threads[i].CDone? && s.threads[i].n == cf.max
  {
    hide Inv, Run;
    RunKeeps(cf, slots, schedule);
    var s := Run(cf, slots, schedule);
    RunSight(cf, slots, schedule);
    if i :| 0 <= i < |s.threads| && s.threads[i].CDone? && s.threads[i].n == cf.max {
      LeavesWhenDrained(cf, slots, schedule, i);
    }
  }
}
