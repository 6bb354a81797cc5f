/** Second chance on its circular queue of linked nodes (page_replacement.c, init_PageQueue and Second_Chance). */
module ClockQueue {
  import opened Frames
  import opened SecondChance

  class Node {
    var page: int
    const index: nat
    var bit: int
    var next: Node?

    constructor (page: int, index: nat)
      ensures this.page == page && this.index == index && bit == 0
    {
      this.page := page;
      this.index := index;
      bit := 0;
      next := null;
    }
  }

  class PageQueue {
    var head: Node
    var clockPointer: Node
    ghost var ring: seq<Node>
    ghost var hand: nat

    /** The nodes from the head are a circle, one for each frame, in frame order. */
    ghost predicate Valid()
      reads this, ring
    {
      && hand < |ring| && head == ring[0] && clockPointer == ring[hand]
      && (forall i, j :: 0 <= i < j < |ring| ==> ring[i] != ring[j])
      && (forall i :: 0 <= i < |ring| ==> ring[i].index == i && ring[i].next == ring[Turn(i, |ring|)])
    }

    ghost function Contents(): (s: State)
      reads this, ring
    {
      State(seq(|ring|, i requires 0 <= i < |ring| reads this, ring => ring[i].page),
            seq(|ring|, i requires 0 <= i < |ring| reads this, ring => ring[i].bit), hand)
    }

    lemma Shape()
      requires Valid()
      ensures SecondChance.Valid(Contents(), |ring|)
    {
    }

    constructor (f: nat)
      requires f > 0
      ensures Valid() && |ring| == f && Contents() == Init(f)
      ensures fresh(ring)
    {
      var first := new Node(EMPTY, 0);
      head := first;
      clockPointer := first;
      ring := [first];
      hand := 0;
      new;
      var cur := first;
      var i := 1;
      while i < f
        invariant 1 <= i <= f && |ring| == i && cur == ring[i - 1]
        invariant head == clockPointer == ring[0] && hand == 0
        invariant fresh(cur) && fresh(ring)
        invariant forall a, b :: 0 <= a < b < i ==> ring[a] != ring[b]
        invariant forall a :: 0 <= a < i ==> ring[a].index == a && ring[a].page == EMPTY && ring[a].bit == 0
        invariant forall a {:trigger Turn(a, f)} :: 0 <= a < i - 1 ==> ring[a].next == ring[Turn(a, f)]
      {
        var node := new Node(EMPTY, i);
        cur.next := node;
        cur := node;
        ring := ring + [node];
        i := i + 1;
      }
      cur.next := head;
      assert forall a :: 0 <= a < f ==> ring[a].next == ring[Turn(a, f)];
      assert Contents() == Init(f);
    }

    /** Follow the ring from the head to the node of `p`; on a hit its bit is set. */
    method Search(p: int, f: nat) returns (hit: bool)
      requires Valid() && |ring| == f
      modifies ring
      ensures Valid() && unchanged(this)
      ensures var s := old(Contents()); var k := Find(s.frames, p);
        hit == (k < f) && Contents() == if hit then s.(bits := s.bits[k := 1]) else s
    {
      ghost var s := Contents();
      var cur := head;
      var j: nat := 0;
      while j < f
        invariant j <= f && cur == ring[if j < f then j else 0]
        invariant forall i :: 0 <= i < j ==> s.frames[i] != p
        modifies {}
      {
        if cur.page == p { break; }
        cur := cur.next;
        j := j + 1;
      }
      assert s.frames[0] == head.page;
      hit := cur.page == p;
      if hit {
        FindIs(s.frames, p, j);
        cur.bit := 1;
      }
    }

    method Advance(f: nat)
      requires Valid() && |ring| == f
      modifies this`clockPointer, this`hand
      ensures Valid() && hand == Turn(old(hand), f)
    {
      clockPointer := clockPointer.next;
      hand := Turn(hand, f);
    }

    /** Give second chances from the clock pointer up to the first node whose bit is zero. */
    method Sweep(f: nat)
      requires Valid() && |ring| == f
      modifies this`clockPointer, this`hand, ring
      ensures Valid()
      ensures var s := old(Contents()); var d := Passed(s.bits, s.hand);
        Contents() == State(s.frames, Cleared(s.bits, s.hand, d), Ahead(s.hand, d, f))
    {
      hide Valid, Contents, Cleared, Passed, Ahead, Turn;
      ghost var s := Contents();
      ghost var d: nat := 0;
      Shape();
      Start(s, f);
      while Bit() != 0
        invariant Valid() && d <= f
        invariant Contents() == State(s.frames, Cleared(s.bits, s.hand, d), Ahead(s.hand, d, f))
        invariant forall e: nat {:trigger Ahead(s.hand, e, f)} :: e < d ==> s.bits[Ahead(s.hand, e, f)] != 0
        decreases f - d
      {
        LookedAt(s.bits, s.hand, d);
        NextLook(s, f, d);
        Pass(f);
        d := d + 1;
      }
      LookedAt(s.bits, s.hand, d);
      PassedIs(s.bits, s.hand, d);
    }

    /** The bit under the pointer. */
    function Bit(): (b: int)
      requires Valid()
      reads this, ring
      ensures hand < |ring| && b == Contents().bits[Contents().hand]
    {
      clockPointer.bit
    }

    /** One node passed over. */
    method Pass(f: nat)
      requires Valid() && |ring| == f
      modifies this`clockPointer, this`hand, ring
      ensures Valid()
      ensures var s := old(Contents()); Contents() == State(s.frames, s.bits[s.hand := 0], Turn(s.hand, f))
    {
      clockPointer.bit := 0;
      Advance(f);
    }

    /** A fault: sweep to the victim, put the page in its frame and node, and move the pointer on. */
    method Replace(p: int, pageFrame: array<int>)
      requires Valid() && pageFrame.Length == |ring| && pageFrame[..] == Contents().frames
      modifies this`clockPointer, this`hand, ring, pageFrame
      ensures Valid()
      ensures Contents() == Load(old(Contents()), pageFrame.Length, p) && pageFrame[..] == Contents().frames
    {
      Sweep(pageFrame.Length);
      pageFrame[clockPointer.index] := p;
      Take(p, pageFrame.Length);
    }

    /** The page goes into the node under the pointer. */
    method Take(p: int, f: nat)
      requires Valid() && |ring| == f
      modifies this`clockPointer, this`hand, ring
      ensures Valid()
      ensures var s := old(Contents());
        Contents() == State(s.frames[s.hand := p], s.bits[s.hand := 1], Turn(s.hand, f))
    {
      clockPointer.page := p;
      clockPointer.bit := 1;
      Advance(f);
    }
  }

  /** A reference. Ring and frame table hold the same pages afterwards. */
  method Reference(p: int, queue: PageQueue, pageFrame: array<int>) returns (fault: bool)
    requires queue.Valid() && pageFrame.Length == |queue.ring| && pageFrame[..] == queue.Contents().frames
    modifies queue`clockPointer, queue`hand, queue.ring, pageFrame
    ensures queue.Valid() && pageFrame[..] == queue.Contents().frames
    ensures (queue.Contents(), fault) == Step(old(queue.Contents()), pageFrame.Length, p)
  {
    var hit := queue.Search(p, pageFrame.Length);
    if !hit { queue.Replace(p, pageFrame); }
    fault := !hit;
  }

  /** Second_Chance on a whole string. */
  method Run(refs: seq<int>, f: nat) returns (trace: seq<Shown>)
    requires f > 0
    ensures trace == Trace(f, refs)
  {
    var pageFrame := new int[f](_ => EMPTY);
    var queue := new PageQueue(f);
    trace := [];
    var i := 0;
    while i < |refs|
      invariant 0 <= i <= |refs| && queue.Valid() && |queue.ring| == f
      invariant fresh(queue) && forall j :: 0 <= j < |queue.ring| ==> fresh(queue.ring[j])
      invariant queue.Contents() == After(f, refs[..i]) && pageFrame[..] == queue.Contents().frames
      invariant trace == Trace(f, refs[..i])
    {
      NextReference(f, refs, i);
      var fault := Reference(refs[i], queue, pageFrame);
      trace := trace + [Shown(pageFrame[..], fault)];
      i := i + 1;
    }
    assert refs[..|refs|] == refs;
  }
}
