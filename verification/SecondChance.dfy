/** Second-chance (clock) page replacement (page_replacement.c, Second_Chance). */
module SecondChance {
  import opened Basics
  import opened Cyclic
  import opened Frames
  import Fifo

  /** Pages and reference bits of the ring, in frame order, and the frame under the clock pointer. */
  datatype State = State(frames: seq<int>, bits: seq<int>, hand: nat)

  ghost predicate Valid(s: State, f: nat) { |s.frames| == |s.bits| == f && s.hand < f }

  function Init(f: nat): State { State(seq(f, _ => EMPTY), seq(f, _ => 0), 0) }

  /** The first frame holding `p`, or F. */
  function Find(frames: seq<int>, p: int): (k: nat)
    ensures k <= |frames| && (k < |frames| ==> frames[k] == p)
    ensures forall i :: 0 <= i < k ==> frames[i] != p
  {
    FindFrom(frames, p, 0)
  }

  function FindFrom(frames: seq<int>, p: int, from: nat): (k: nat)
    requires from <= |frames|
    ensures from <= k <= |frames| && (k < |frames| ==> frames[k] == p)
    ensures forall i :: from <= i < k ==> frames[i] != p
    decreases |frames| - from
  {
    if from == |frames| || frames[from] == p then from else FindFrom(frames, p, from + 1)
  }

  lemma FindIs(frames: seq<int>, p: int, k: nat)
    requires k < |frames| && frames[k] == p && forall i :: 0 <= i < k ==> frames[i] != p
    ensures k == Find(frames, p)
  {
  }

  /** How many frames the sweep passes over: up to the first zero bit from the hand, or all F if every bit is set. */
  function Passed(bits: seq<int>, hand: nat): (d: nat)
    requires hand < |bits|
    ensures d <= |bits| && (d < |bits| ==> bits[Ahead(hand, d, |bits|)] == 0)
    ensures forall e: nat :: e < d ==> bits[Ahead(hand, e, |bits|)] != 0
  {
    PassedFrom(bits, hand, 0)
  }

  function PassedFrom(bits: seq<int>, hand: nat, from: nat): (d: nat)
    requires hand < |bits| && from <= |bits|
    ensures from <= d <= |bits| && (d < |bits| ==> bits[Ahead(hand, d, |bits|)] == 0)
    ensures forall e: nat :: from <= e < d ==> bits[Ahead(hand, e, |bits|)] != 0
    decreases |bits| - from
  {
    if from == |bits| || bits[Ahead(hand, from, |bits|)] == 0 then from else PassedFrom(bits, hand, from + 1)
  }

  lemma PassedIs(bits: seq<int>, hand: nat, d: nat)
    requires hand < |bits| && d <= |bits| && (d < |bits| ==> bits[Ahead(hand, d, |bits|)] == 0)
    requires forall e: nat :: e < d ==> bits[Ahead(hand, e, |bits|)] != 0
    ensures d == Passed(bits, hand)
  {
    var k := Passed(bits, hand);
  }

  /** The bits after the sweep has cleared `d` of them. */
  function Cleared(bits: seq<int>, hand: nat, d: nat): (r: seq<int>)
    requires hand < |bits| && d <= |bits|
    ensures |r| == |bits|
    ensures forall e: nat {:trigger Ahead(hand, e, |bits|)} :: e < |bits| ==>
        r[Ahead(hand, e, |bits|)] == if e < d then 0 else bits[Ahead(hand, e, |bits|)]
  {
    if d == 0 then bits else Cleared(bits, hand, d - 1)[Ahead(hand, d - 1, |bits|) := 0]
  }

  lemma ClearedAt(bits: seq<int>, hand: nat, d: nat, e: nat)
    requires hand < |bits| && d <= |bits| && e < |bits|
    ensures Cleared(bits, hand, d)[Ahead(hand, e, |bits|)] == if e < d then 0 else bits[Ahead(hand, e, |bits|)]
  {
  }

  /** What the next look finds: the bit as it was, or after F looks, a cleared bit. */
  lemma LookedAt(bits: seq<int>, hand: nat, d: nat)
    requires hand < |bits| && d <= |bits|
    ensures Cleared(bits, hand, d)[Ahead(hand, d, |bits|)] == if d < |bits| then bits[Ahead(hand, d, |bits|)] else 0
  {
    hide Cleared;
    ClearedAt(bits, hand, d, if d < |bits| then d else 0);
    assert Ahead(hand, |bits|, |bits|) == Ahead(hand, 0, |bits|);
  }

  lemma Start(s: State, f: nat)
    requires Valid(s, f)
    ensures s == State(s.frames, Cleared(s.bits, s.hand, 0), Ahead(s.hand, 0, f))
  {
  }

  lemma NextLook(s: State, f: nat, d: nat)
    requires Valid(s, f) && d < f
    ensures Ahead(s.hand, d + 1, f) == Turn(Ahead(s.hand, d, f), f)
    ensures Cleared(s.bits, s.hand, d + 1) == Cleared(s.bits, s.hand, d)[Ahead(s.hand, d, f) := 0]
  {
  }

  /** The frame a fault replaces. */
  function Victim(s: State, f: nat): (v: nat)
    requires Valid(s, f)
    ensures v < f
  {
    Ahead(s.hand, Passed(s.bits, s.hand), f)
  }

  function Load(s: State, f: nat, p: int): State
    requires Valid(s, f)
  {
    var v := Victim(s, f);
    State(s.frames[v := p], Cleared(s.bits, s.hand, Passed(s.bits, s.hand))[v := 1], Turn(v, f))
  }

  function Step(s: State, f: nat, p: int): (State, bool)
    requires Valid(s, f)
  {
    var k := Find(s.frames, p);
    if k < f then (s.(bits := s.bits[k := 1]), false) else (Load(s, f, p), true)
  }

  ghost function After(f: nat, refs: seq<int>): (s: State)
    requires f > 0
    ensures Valid(s, f)
    decreases |refs|
  {
    if refs == [] then Init(f) else Step(After(f, refs[..|refs| - 1]), f, refs[|refs| - 1]).0
  }

  ghost predicate Faults(f: nat, refs: seq<int>, p: int)
    requires f > 0
  {
    p !in After(f, refs).frames
  }

  ghost function Trace(f: nat, refs: seq<int>): (t: seq<Shown>)
    requires f > 0
    ensures |t| == |refs|
    decreases |refs|
  {
    if refs == [] then [] else
    var m := |refs| - 1;
    Trace(f, refs[..m]) + [Shown(After(f, refs).frames, Faults(f, refs[..m], refs[m]))]
  }

  lemma NextReference(f: nat, refs: seq<int>, i: nat)
    requires f > 0 && i < |refs|
    ensures var s := After(f, refs[..i]);
      && (After(f, refs[..i + 1]), Faults(f, refs[..i], refs[i])) == Step(s, f, refs[i])
      && Trace(f, refs[..i + 1]) == Trace(f, refs[..i])
           + [Shown(After(f, refs[..i + 1]).frames, Faults(f, refs[..i], refs[i]))]
  {
    assert refs[..i + 1][..i] == refs[..i];
  }

  // ------------------------------------------------------------------ what the sweep does

  /** The victim is the first frame from the hand whose bit is zero; if every bit is set, the hand's own frame,
      although it may be the page just referenced. */
  lemma VictimIsFirstClear(s: State, f: nat)
    requires Valid(s, f)
    ensures (forall i :: 0 <= i < f ==> s.bits[i] != 0) ==> Victim(s, f) == s.hand
    ensures (exists i :: 0 <= i < f && s.bits[i] == 0) ==> s.bits[Victim(s, f)] == 0
    ensures forall e: nat {:trigger Ahead(s.hand, e, f)} :: e < f && s.bits[Ahead(s.hand, e, f)] == 0 ==>
        exists d: nat :: d <= e && Victim(s, f) == Ahead(s.hand, d, f)
  {
    var d := Passed(s.bits, s.hand);
    if i :| 0 <= i < f && s.bits[i] == 0 {
      var e := AheadOnto(s.hand, i, f);
    } else {
      assert d == f;
    }
  }

  /** A page whose bit is set loses its frame at the next fault exactly when the hand is on it and all bits are set. */
  lemma SetBitLosesIff(s: State, f: nat, k: nat)
    requires Valid(s, f) && k < f && s.bits[k] != 0
    ensures Victim(s, f) == k <==> s.hand == k && forall i :: 0 <= i < f ==> s.bits[i] != 0
  {
    VictimIsFirstClear(s, f);
  }

  /** The bits a fault leaves: cleared from the hand to the victim, set at the victim, as they were elsewhere. */
  lemma BitsAfterLoad(s: State, f: nat, p: int, e: nat)
    requires Valid(s, f) && e < f
    ensures var d, i := Passed(s.bits, s.hand), Ahead(s.hand, e, f);
      Load(s, f, p).bits[i] == if i == Victim(s, f) then 1 else if e < d then 0 else s.bits[i]
  {
  }

  /** Bits that are set. */
  function Set(bits: seq<int>): (n: nat)
    ensures n <= |bits|
  {
    if bits == [] then 0 else Set(bits[..|bits| - 1]) + if bits[|bits| - 1] != 0 then 1 else 0
  }

  lemma {:induction false} SetPut(bits: seq<int>, k: nat, b: int)
    requires k < |bits|
    ensures Set(bits[k := b]) == Set(bits) - (if bits[k] != 0 then 1 else 0) + (if b != 0 then 1 else 0)
    decreases |bits|
  {
    var m := |bits| - 1;
    if k < m {
      SetPut(bits[..m], k, b);
      assert bits[k := b][..m] == bits[..m][k := b];
    } else {
      assert bits[k := b][..m] == bits[..m];
    }
  }

  lemma {:induction false} ClearedSet(bits: seq<int>, hand: nat, d: nat)
    requires hand < |bits| && d <= Passed(bits, hand)
    ensures Set(Cleared(bits, hand, d)) == Set(bits) - d
    decreases d
  {
    if d > 0 {
      ClearedSet(bits, hand, d - 1);
      var i := Ahead(hand, d - 1, |bits|);
      assert Cleared(bits, hand, d - 1)[i] == bits[i];
      SetPut(Cleared(bits, hand, d - 1), i, 0);
    }
  }

  /** Frames swept over, in all, on the way to the victims. */
  ghost function Swept(f: nat, refs: seq<int>): nat
    requires f > 0
    decreases |refs|
  {
    if refs == [] then 0 else
    var m := |refs| - 1;
    var s := After(f, refs[..m]);
    Swept(f, refs[..m]) + if Faults(f, refs[..m], refs[m]) then Passed(s.bits, s.hand) else 0
  }

  /** Every chance given was earned by one reference: over a whole string the sweeps pass over at most as many
      frames as there were references, less the bits still set. */
  lemma {:induction false} SweepsAreEarned(f: nat, refs: seq<int>)
    requires f > 0
    ensures Swept(f, refs) + Set(After(f, refs).bits) <= |refs|
    decreases |refs|
  {
    if refs == [] {
      NoneSet(f);
    } else {
      var m := |refs| - 1;
      SweepsAreEarned(f, refs[..m]);
      var s := After(f, refs[..m]);
      var d, k := Passed(s.bits, s.hand), Find(s.frames, refs[m]);
      if k < f {
        SetPut(s.bits, k, 1);
      } else {
        ClearedSet(s.bits, s.hand, d);
        SetPut(Cleared(s.bits, s.hand, d), Victim(s, f), 1);
      }
    }
  }

  lemma {:induction false} NoneSet(f: nat)
    ensures Set(Init(f).bits) == 0
  {
    if f > 0 {
      NoneSet(f - 1);
      assert Init(f).bits[..f - 1] == Init(f - 1).bits;
    }
  }

  lemma {:induction false} NeverTwice(f: nat, refs: seq<int>)
    requires f > 0
    ensures NoDuplicates(After(f, refs).frames)
    decreases |refs|
  {
    if refs != [] {
      NeverTwice(f, refs[..|refs| - 1]);
      var s, p := After(f, refs[..|refs| - 1]), refs[|refs| - 1];
      if p !in s.frames { LoadNoDuplicates(s.frames, Victim(s, f), p); }
    }
  }

  // ------------------------------------------------------------------ the whole state, from the history

  /** A frame is passed over by the fault of reference `i` if the sweep clears its bit. */
  ghost predicate PassedOver(f: nat, refs: seq<int>, i: nat, k: nat)
    requires f > 0 && i < |refs| && k < f
  {
    var s := After(f, refs[..i]);
    Faults(f, refs[..i], refs[i]) && exists e: nat {:trigger Ahead(s.hand, e, f)} ::
      e < Passed(s.bits, s.hand) && Ahead(s.hand, e, f) == k
  }

  /** Reference `i` finds its page in frame `k`, or brings it in there. */
  ghost predicate Touched(f: nat, refs: seq<int>, i: nat, k: nat)
    requires f > 0 && i < |refs|
  {
    Find(After(f, refs[..i + 1]).frames, refs[i]) == k
  }

  /** Reference `i` is a fault that loads its page into frame `k`. */
  ghost predicate LoadedInto(f: nat, refs: seq<int>, i: nat, k: nat)
    requires f > 0 && i < |refs|
  {
    Faults(f, refs[..i], refs[i]) && Victim(After(f, refs[..i]), f) == k
  }

  /** Reference `i` touched frame `k` and the hand has not passed over it since. */
  ghost predicate TouchedLast(f: nat, refs: seq<int>, i: nat, k: nat)
    requires f > 0 && i < |refs| && k < f
  {
    Touched(f, refs, i, k) && forall j: nat :: i < j < |refs| ==> !PassedOver(f, refs, j, k)
  }

  lemma FindLoaded(frames: seq<int>, v: nat, p: int)
    requires v < |frames| && p !in frames
    ensures Find(frames[v := p], p) == v
  {
    FindIs(frames[v := p], p, v);
  }

  /** What the last reference does to the bit of frame `k`. */
  lemma LastReference(f: nat, refs: seq<int>, k: nat)
    requires f > 0 && refs != [] && k < f
    ensures var m := |refs| - 1; var b := After(f, refs[..m]).bits[k];
      After(f, refs).bits[k] == if Touched(f, refs, m, k) then 1 else if PassedOver(f, refs, m, k) then 0 else b
  {
    var m := |refs| - 1;
    var s, p := After(f, refs[..m]), refs[m];
    assert refs[..m + 1] == refs;
    if p !in s.frames {
      var e := AheadOnto(s.hand, k, f);
      BitsAfterLoad(s, f, p, e);
      FindLoaded(s.frames, Victim(s, f), p);
      forall e': nat | e' < Passed(s.bits, s.hand) && Ahead(s.hand, e', f) == k ensures e' == e {
      }
    }
  }

  lemma EarlierReference(f: nat, refs: seq<int>, i: nat, k: nat)
    requires f > 0 && i + 1 < |refs| && k < f
    ensures Touched(f, refs[..|refs| - 1], i, k) == Touched(f, refs, i, k)
    ensures PassedOver(f, refs[..|refs| - 1], i, k) == PassedOver(f, refs, i, k)
    ensures LoadedInto(f, refs[..|refs| - 1], i, k) == LoadedInto(f, refs, i, k)
  {
    assert refs[..|refs| - 1][..i] == refs[..i] && refs[..|refs| - 1][..i + 1] == refs[..i + 1];
  }

  /** A bit is 0 or 1, and 1 exactly when the frame's page was loaded or referenced since the hand last passed over. */
  lemma {:induction false} BitSetIff(f: nat, refs: seq<int>, k: nat)
    requires f > 0 && k < f
    ensures var b := After(f, refs).bits[k];
      (b == 0 || b == 1) && (b == 1 <==> exists i: nat :: i < |refs| && TouchedLast(f, refs, i, k))
    decreases |refs|
  {
    hide After, Touched, PassedOver;
    if refs == [] {
      EmptyFrames(f, k);
    } else {
      var m := |refs| - 1;
      BitSetIff(f, refs[..m], k);
      LastReference(f, refs, k);
      forall i: nat | i < m
        ensures TouchedLast(f, refs, i, k) <==> TouchedLast(f, refs[..m], i, k) && !PassedOver(f, refs, m, k)
      {
        EarlierTouch(f, refs, i, k);
      }
      if Touched(f, refs, m, k) { assert TouchedLast(f, refs, m, k); }
    }
  }

  lemma EmptyFrames(f: nat, k: nat)
    requires k < f
    ensures After(f, []).bits[k] == 0 && After(f, []).frames[k] == EMPTY && After(f, []).hand == 0
  {
  }

  lemma EarlierTouch(f: nat, refs: seq<int>, i: nat, k: nat)
    requires f > 0 && i + 1 < |refs| && k < f
    ensures TouchedLast(f, refs, i, k) <==>
      TouchedLast(f, refs[..|refs| - 1], i, k) && !PassedOver(f, refs, |refs| - 1, k)
  {
    hide Touched, PassedOver;
    var m := |refs| - 1;
    EarlierReference(f, refs, i, k);
    forall j: nat | i < j < m ensures PassedOver(f, refs, j, k) == PassedOver(f, refs[..m], j, k) {
      EarlierReference(f, refs, j, k);
    }
  }

  /** A frame holds the page last loaded into it, and none before that. */
  ghost predicate HoldsLoad(f: nat, refs: seq<int>, i: nat, k: nat)
    requires f > 0 && i < |refs|
  {
    LoadedInto(f, refs, i, k) && forall j: nat :: i < j < |refs| ==> !LoadedInto(f, refs, j, k)
  }

  lemma {:induction false} FrameHoldsLastLoad(f: nat, refs: seq<int>, k: nat)
    requires f > 0 && k < f
    ensures (forall i: nat :: i < |refs| ==> !LoadedInto(f, refs, i, k)) ==> After(f, refs).frames[k] == EMPTY
    ensures forall i: nat :: i < |refs| && HoldsLoad(f, refs, i, k) ==> After(f, refs).frames[k] == refs[i]
    decreases |refs|
  {
    hide After, LoadedInto;
    if refs == [] {
      EmptyFrames(f, k);
    } else {
      var m := |refs| - 1;
      FrameHoldsLastLoad(f, refs[..m], k);
      LastFrame(f, refs, k);
      forall i: nat | i < m ensures LoadedInto(f, refs, i, k) == LoadedInto(f, refs[..m], i, k) {
        EarlierReference(f, refs, i, k);
      }
      forall i: nat | i < m && HoldsLoad(f, refs, i, k) ensures HoldsLoad(f, refs[..m], i, k) {
      }
    }
  }

  lemma LastFrame(f: nat, refs: seq<int>, k: nat)
    requires f > 0 && refs != [] && k < f
    ensures var m := |refs| - 1;
      After(f, refs).frames[k] == if LoadedInto(f, refs, m, k) then refs[m] else After(f, refs[..m]).frames[k]
  {
  }

  /** Faults of the whole string. */
  ghost function FaultCount(f: nat, refs: seq<int>): nat
    requires f > 0
    decreases |refs|
  {
    if refs == [] then 0 else
    var m := |refs| - 1;
    FaultCount(f, refs[..m]) + if Faults(f, refs[..m], refs[m]) then 1 else 0
  }

  /** The hand has gone, at every fault, over the frames swept and one more; a hit does not move it. */
  lemma {:induction false} HandIs(f: nat, refs: seq<int>)
    requires f > 0
    ensures After(f, refs).hand == Wrap(Swept(f, refs) + FaultCount(f, refs), f)
    decreases |refs|
  {
    hide Wrap, Rem, Ahead, Turn, After, Faults, Passed;
    if refs == [] {
      WrapIs(0, 0, 0, f);
      EmptyFrames(f, 0);
    } else {
      var m := |refs| - 1;
      HandIs(f, refs[..m]);
      LastHand(f, refs);
      var s := After(f, refs[..m]);
      HandMoves(s.hand, Passed(s.bits, s.hand), f, Swept(f, refs[..m]) + FaultCount(f, refs[..m]));
    }
  }

  lemma LastHand(f: nat, refs: seq<int>)
    requires f > 0 && refs != []
    ensures var m := |refs| - 1; var s := After(f, refs[..m]);
      After(f, refs).hand ==
        if Faults(f, refs[..m], refs[m]) then Turn(Ahead(s.hand, Passed(s.bits, s.hand), f), f) else s.hand
  {
  }

  lemma HandMoves(hand: nat, d: nat, f: nat, gone: nat)
    requires hand < f && d <= f && hand == Wrap(gone, f)
    ensures Turn(Ahead(hand, d, f), f) == Wrap(gone + d + 1, f)
  {
    hide Rem, Quot, Wrap;
    QuotRem(gone, f);
    var q, i := Quot(gone, f), Turn(Ahead(hand, d, f), f);
    var rounds := if hand + d + 1 < f then 0 else if hand + d + 1 < 2 * f then 1 else 2;
    assert (q + rounds) * f == q * f + rounds * f;
    WrapIs(gone + d + 1, q + rounds, i, f);
  }

  // ------------------------------------------------------------------ against FIFO

  /** While nothing has been hit: the bits set are those of the frames behind the hand on its current round. */
  ghost predicate InStep(s: State, t: Fifo.State, f: nat) {
    && Valid(s, f) && s.frames == t.frames && s.hand == t.next
    && (forall i :: 0 <= i < s.hand ==> s.bits[i] != 0)
    && ((forall i :: s.hand <= i < f ==> s.bits[i] == 0) || (s.hand == 0 && forall i :: 0 <= i < f ==> s.bits[i] != 0))
  }

  lemma LoadInStep(s: State, t: Fifo.State, f: nat, p: int)
    requires InStep(s, t, f)
    ensures Victim(s, f) == s.hand
    ensures InStep(Load(s, f, p), Fifo.State(t.frames[t.next := p], Turn(t.next, f)), f)
  {
    var r := Load(s, f, p);
    VictimIsFirstClear(s, f);
    assert s.bits[s.hand] == 0 ==> Passed(s.bits, s.hand) == 0 by { assert Ahead(s.hand, 0, f) == s.hand; }
    forall i | 0 <= i < f
      ensures r.bits[i] == if i == s.hand then 1 else if s.bits[s.hand] == 0 then s.bits[i] else 0
    {
      var e := AheadOnto(s.hand, i, f);
      BitsAfterLoad(s, f, p, e);
    }
  }

  ghost predicate AllFault(trace: seq<Shown>) { forall i :: 0 <= i < |trace| ==> trace[i].fault }

  /** On a string without a hit under either algorithm, second chance is FIFO, frame for frame. */
  lemma {:induction false} WithoutHitsIsFifo(f: nat, refs: seq<int>)
    requires f > 0 && (AllFault(Trace(f, refs)) || AllFault(Fifo.Trace(f, refs)))
    ensures Trace(f, refs) == Fifo.Trace(f, refs) && InStep(After(f, refs), Fifo.After(f, refs), f)
    decreases |refs|
  {
    hide InStep, AllFault, Trace, Faults, After, Fifo.Trace, Fifo.After, Fifo.Faults, Step, Fifo.Step;
    if refs == [] {
      EmptyInStep(f);
    } else {
      var m := |refs| - 1;
      TraceGrows(f, refs);
      AllFaultLast(Trace(f, refs[..m]), Shown(After(f, refs).frames, Faults(f, refs[..m], refs[m])));
      AllFaultLast(Fifo.Trace(f, refs[..m]), Shown(Fifo.After(f, refs).frames, Fifo.Faults(f, refs[..m], refs[m])));
      WithoutHitsIsFifo(f, refs[..m]);
      BothLoad(f, refs[..m], refs[m]);
    }
  }

  lemma EmptyInStep(f: nat)
    requires f > 0
    ensures InStep(After(f, []), Fifo.After(f, []), f) && Trace(f, []) == Fifo.Trace(f, []) == []
  {
  }

  lemma AllFaultLast(trace: seq<Shown>, last: Shown)
    ensures AllFault(trace + [last]) <==> AllFault(trace) && last.fault
  {
    var longer := trace + [last];
    assert forall i :: 0 <= i < |trace| ==> longer[i] == trace[i];
    assert longer[|trace|] == last;
  }

  lemma TraceGrows(f: nat, refs: seq<int>)
    requires f > 0 && refs != []
    ensures var m := |refs| - 1; var (before, p) := (refs[..m], refs[m]);
      && Trace(f, refs) == Trace(f, before) + [Shown(After(f, refs).frames, Faults(f, before, p))]
      && Fifo.Trace(f, refs) == Fifo.Trace(f, before) + [Shown(Fifo.After(f, refs).frames, Fifo.Faults(f, before, p))]
      && After(f, refs) == Step(After(f, before), f, p).0
      && Fifo.After(f, refs) == Fifo.Step(Fifo.After(f, before), f, p).0
  {
  }

  lemma BothLoad(f: nat, refs: seq<int>, p: int)
    requires f > 0 && InStep(After(f, refs), Fifo.After(f, refs), f) && (Faults(f, refs, p) || Fifo.Faults(f, refs, p))
    ensures Faults(f, refs, p) && Fifo.Faults(f, refs, p)
    ensures InStep(Step(After(f, refs), f, p).0, Fifo.Step(Fifo.After(f, refs), f, p).0, f)
    ensures Step(After(f, refs), f, p).0.frames == Fifo.Step(Fifo.After(f, refs), f, p).0.frames
  {
    LoadInStep(After(f, refs), Fifo.After(f, refs), f, p);
  }
}
