/** First-in-first-out page replacement (page_replacement.c, FIFO). */
module Fifo {
  import opened Cyclic
  import opened Frames

  /** The frames, and the index of the next victim. */
  datatype State = State(frames: seq<int>, next: nat)

  ghost predicate Valid(s: State, f: nat) { |s.frames| == f && s.next < f }

  function Init(f: nat): State { State(seq(f, _ => EMPTY), 0) }

  function Step(s: State, f: nat, p: int): (State, bool)
    requires Valid(s, f)
  {
    if p in s.frames then (s, false) else (State(s.frames[s.next := p], Turn(s.next, f)), true)
  }

  ghost function After(f: nat, refs: seq<int>): (s: State)
    requires f > 0
    ensures Valid(s, f)
    decreases |refs|
  {
    if refs == [] then Init(f) else Step(After(f, refs[..|refs| - 1]), f, refs[|refs| - 1]).0
  }

  ghost predicate Faults(f: nat, refs: seq<int>, p: int)
    requires f > 0
  {
    p !in After(f, refs).frames
  }

  /** The printed frames and faults of the whole reference string. */
  ghost function Trace(f: nat, refs: seq<int>): (t: seq<Shown>)
    requires f > 0
    ensures |t| == |refs|
    decreases |refs|
  {
    if refs == [] then [] else
    var m := |refs| - 1;
    Trace(f, refs[..m]) + [Shown(After(f, refs).frames, Faults(f, refs[..m], refs[m]))]
  }

  lemma NextReference(f: nat, refs: seq<int>, i: nat)
    requires f > 0 && i < |refs|
    ensures var s := After(f, refs[..i]);
      && (After(f, refs[..i + 1]), Faults(f, refs[..i], refs[i])) == Step(s, f, refs[i])
      && Trace(f, refs[..i + 1]) == Trace(f, refs[..i])
           + [Shown(After(f, refs[..i + 1]).frames, Faults(f, refs[..i], refs[i]))]
  {
    assert refs[..i + 1][..i] == refs[..i];
  }

  /** The pages brought in, in order. */
  ghost function Loads(f: nat, refs: seq<int>): seq<int>
    requires f > 0
    decreases |refs|
  {
    if refs == [] then [] else
    var m := |refs| - 1;
    Loads(f, refs[..m]) + if Faults(f, refs[..m], refs[m]) then [refs[m]] else []
  }

  /** The frame `d + 1` places behind `next`, going round. */
  function Behind(next: nat, d: nat, f: nat): (i: nat)
    requires next < f && d < f
    ensures i < f
  {
    if d < next then next - 1 - d else next + f - 1 - d
  }

  /** The frames are the latest loads in order: the one d + 1 places behind the victim index holds the load
      made d loads before the latest, or is still empty. */
  ghost predicate LatestLoads(s: State, f: nat, loads: seq<int>) {
    Valid(s, f) &&
    forall d: nat :: d < f ==> s.frames[Behind(s.next, d, f)] == if d < |loads| then loads[|loads| - 1 - d] else EMPTY
  }

  lemma LoadKeepsOrder(s: State, f: nat, loads: seq<int>, p: int)
    requires LatestLoads(s, f, loads)
    ensures LatestLoads(State(s.frames[s.next := p], Turn(s.next, f)), f, loads + [p])
  {
    var t, later := State(s.frames[s.next := p], Turn(s.next, f)), loads + [p];
    forall d: nat | d < f
      ensures t.frames[Behind(t.next, d, f)] == if d < |later| then later[|later| - 1 - d] else EMPTY
    {
      if d > 0 { assert Behind(t.next, d, f) == Behind(s.next, d - 1, f) != s.next; }
    }
  }

  lemma {:induction false} FramesAreLatestLoads(f: nat, refs: seq<int>)
    requires f > 0
    ensures LatestLoads(After(f, refs), f, Loads(f, refs))
    decreases |refs|
  {
    if refs != [] {
      var m := |refs| - 1;
      FramesAreLatestLoads(f, refs[..m]);
      LoadKeepsOrder(After(f, refs[..m]), f, Loads(f, refs[..m]), refs[m]);
      assert Loads(f, refs[..m]) + [] == Loads(f, refs[..m]);
    }
  }

  /** The victim index goes round by one with every load. */
  lemma {:induction false} NextIs(f: nat, refs: seq<int>)
    requires f > 0
    ensures After(f, refs).next == Wrap(|Loads(f, refs)|, f)
    decreases |refs|
  {
    hide Wrap;
    if refs == [] {
      WrapIs(0, 0, 0, f);
    } else {
      var m := |refs| - 1;
      NextIs(f, refs[..m]);
      TurnWraps(After(f, refs[..m]).next, f);
      WrapNext(|Loads(f, refs[..m])|, f);
    }
  }

  /** A fault throws out the page loaded F loads ago; before F loads it takes an empty frame. */
  lemma VictimIsOldest(f: nat, refs: seq<int>)
    requires f > 0
    ensures var s, loads := After(f, refs), Loads(f, refs);
      s.frames[s.next] == if f <= |loads| then loads[|loads| - f] else EMPTY
  {
    FramesAreLatestLoads(f, refs);
    assert Behind(After(f, refs).next, f - 1, f) == After(f, refs).next;
  }

  lemma {:induction false} NeverTwice(f: nat, refs: seq<int>)
    requires f > 0
    ensures NoDuplicates(After(f, refs).frames)
    decreases |refs|
  {
    if refs != [] {
      NeverTwice(f, refs[..|refs| - 1]);
      var s, p := After(f, refs[..|refs| - 1]), refs[|refs| - 1];
      if p !in s.frames { LoadNoDuplicates(s.frames, s.next, p); }
    }
  }

  /** FIFO on a whole string, on its array. */
  method Run(refs: seq<int>, f: nat) returns (trace: seq<Shown>)
    requires f > 0
    ensures trace == Trace(f, refs)
  {
    var pageFrame := new int[f](_ => EMPTY);
    var replaceIndex: nat := 0;
    trace := [];
    var i := 0;
    while i < |refs|
      invariant 0 <= i <= |refs|
      invariant State(pageFrame[..], replaceIndex) == After(f, refs[..i])
      invariant trace == Trace(f, refs[..i])
    {
      NextReference(f, refs, i);
      var j := 0;
      while j < f
        invariant 0 <= j <= f && forall k :: 0 <= k < j ==> pageFrame[k] != refs[i]
        modifies {}
      {
        if pageFrame[j] == refs[i] { break; }
        j := j + 1;
      }
      if j == f {
        TurnWraps(replaceIndex, f);
        pageFrame[replaceIndex] := refs[i];
        replaceIndex := Wrap(replaceIndex + 1, f);
      }
      trace := trace + [Shown(pageFrame[..], j == f)];
      i := i + 1;
    }
    assert refs[..|refs|] == refs;
  }
}
