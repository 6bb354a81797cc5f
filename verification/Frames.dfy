/** Page frames, as every page-replacement algorithm prints them. */
module Frames {
  import opened Cyclic

  const EMPTY := -1

  /** What a program prints after a reference. */
  datatype Shown = Shown(frames: seq<int>, fault: bool)

  /** No page is in two frames. */
  ghost predicate NoDuplicates(frames: seq<int>) {
    forall i, j :: 0 <= i < j < |frames| && frames[i] != EMPTY ==> frames[i] != frames[j]
  }

  /** The frame after frame `i`, going round. */
  function Turn(i: nat, f: nat): (r: nat)
    requires i < f
    ensures r < f
  {
    if i + 1 == f then 0 else i + 1
  }

  lemma TurnWraps(i: nat, f: nat)
    requires i < f
    ensures Turn(i, f) == Wrap(i + 1, f)
  {
    if i + 1 == f { WrapIs(i + 1, 1, 0, f); } else { WrapIs(i + 1, 0, i + 1, f); }
  }

  /** The frame `d` places after `hand`, at most once round. */
  function Ahead(hand: nat, d: nat, f: nat): (i: nat)
    requires hand < f && d <= f
    ensures i < f
  {
    if hand + d < f then hand + d else hand + d - f
  }

  lemma AheadOnto(hand: nat, k: nat, f: nat) returns (d: nat)
    requires hand < f && k < f
    ensures d < f && Ahead(hand, d, f) == k
  {
    d := if hand <= k then k - hand else k + f - hand;
  }

  /** Bringing in a page that is in no frame. */
  lemma LoadNoDuplicates(frames: seq<int>, i: nat, p: int)
    requires NoDuplicates(frames) && i < |frames| && p !in frames
    ensures NoDuplicates(frames[i := p])
  {
  }
}
