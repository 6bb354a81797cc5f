/** LRU by a doubly linked stack of nodes, bottom first (page_replacement.c, LRU_stack). */
module LruStack {
  import opened Frames
  import opened Lru

  class PageNode {
    var page: int
    const index: nat
    var pre: PageNode?
    var next: PageNode?

    constructor (page: int, index: nat)
      ensures this.page == page && this.index == index && pre == null && next == null
    {
      this.page, this.index, pre, next := page, index, null, null;
    }
  }

  ghost predicate Apart(nodes: seq<PageNode>) {
    forall a, b :: 0 <= a < b < |nodes| ==> nodes[a] != nodes[b]
  }

  ghost function IndicesOf(nodes: seq<PageNode>): (r: seq<nat>)
    ensures |r| == |nodes| && forall k :: 0 <= k < |nodes| ==> r[k] == nodes[k].index
  {
    seq(|nodes|, k requires 0 <= k < |nodes| => nodes[k].index)
  }

  ghost function Pred(nodes: seq<PageNode>, k: int): PageNode?
    requires 0 <= k < |nodes|
  {
    if k == 0 then null else nodes[k - 1]
  }

  ghost function Succ(nodes: seq<PageNode>, k: int): PageNode?
    requires 0 <= k < |nodes|
  {
    if k + 1 == |nodes| then null else nodes[k + 1]
  }

  /** The neighbours in the order after node `k` went to the end. */
  lemma TouchLinks(nodes: seq<PageNode>, k: nat, a: nat)
    requires k + 1 < |nodes| && a < |nodes|
    ensures var t, n := Touch(nodes, k), |nodes|;
      && |t| == n
      && (a < k ==>
            t[a] == nodes[a] && Pred(t, a) == Pred(nodes, a)
            && Succ(t, a) == nodes[if a + 1 == k then k + 1 else a + 1])
      && (k <= a < n - 1 ==> t[a] == nodes[a + 1] && Pred(t, a) == if a == k then Pred(nodes, k) else nodes[a])
      && (k <= a < n - 1 ==> Succ(t, a) == nodes[if a == n - 2 then k else a + 2])
      && (a == n - 1 ==> t[a] == nodes[k] && Pred(t, a) == nodes[n - 1] && Succ(t, a) == null)
  {
  }

  lemma Same(nodes: seq<PageNode>, a: nat, b: nat)
    requires Apart(nodes) && a < |nodes| && b < |nodes|
    ensures nodes[a] == nodes[b] <==> a == b
  {
  }

  lemma TouchApart(nodes: seq<PageNode>, k: nat)
    requires k < |nodes| && Apart(nodes)
    ensures Apart(Touch(nodes, k))
  {
  }

  class PageStack {
    var head: PageNode?
    var tail: PageNode?
    ghost var nodes: seq<PageNode>

    ghost predicate Valid()
      reads this, nodes
    {
      && |nodes| > 0 && Apart(nodes) && head == nodes[0] && tail == nodes[|nodes| - 1]
      && (forall k {:trigger nodes[k].pre} :: 0 <= k < |nodes| ==> nodes[k].pre == Pred(nodes, k))
      && (forall k {:trigger nodes[k].next} :: 0 <= k < |nodes| ==> nodes[k].next == Succ(nodes, k))
    }

    /** The bottom has a successor exactly when there are two frames; the fault path goes through it. */
    lemma BottomHasNextIff()
      requires Valid()
      ensures head != null && (head.next == null <==> |nodes| == 1)
    {
      assert head.next == nodes[0].next == Succ(nodes, 0);
    }

    /** init_PageStack */
    constructor (f: nat)
      requires f > 0
      ensures Valid() && |nodes| == f && fresh(nodes)
      ensures forall k :: 0 <= k < f ==> nodes[k].page == EMPTY && nodes[k].index == k
    {
      var first := new PageNode(EMPTY, 0);
      var cur := first;
      ghost var made := [first];
      var i := 1;
      while i < f
        invariant 1 <= i <= f && |made| == i && Apart(made) && fresh(made) && made[0] == first && cur == made[i - 1]
        invariant forall k :: 0 <= k < i ==> made[k].page == EMPTY && made[k].index == k
        invariant forall k {:trigger made[k].pre} :: 0 <= k < i ==> made[k].pre == Pred(made, k)
        invariant forall k {:trigger made[k].next} :: 0 <= k < i ==> made[k].next == Succ(made, k)
      {
        var node := new PageNode(EMPTY, i);
        cur.next := node;
        node.pre := cur;
        cur := node;
        made := made + [node];
        i := i + 1;
      }
      head, tail, nodes := first, cur, made;
    }

    /** Lines 193-198: the neighbours of `cur` are linked to each other; `cur` keeps its own links. */
    method Bridge(cur: PageNode, ghost k: nat)
      requires Valid() && k + 1 < |nodes| && nodes[k] == cur
      modifies nodes
      ensures forall b {:trigger nodes[b].pre} :: 0 <= b < |nodes| ==>
        nodes[b].pre == if b == k + 1 then Pred(nodes, k) else Pred(nodes, b)
      ensures forall b {:trigger nodes[b].next} :: 0 <= b < |nodes| ==>
        nodes[b].next == if b + 1 == k then nodes[k + 1] else Succ(nodes, b)
      ensures forall b :: 0 <= b < |nodes| ==> nodes[b].page == old(nodes[b].page)
    {
      hide Apart;
      if cur.pre != null { cur.pre.next := cur.next; }
      if cur.next != null { cur.next.pre := cur.pre; }
      forall b {:trigger nodes[b].pre} | 0 <= b < |nodes|
        ensures nodes[b].pre == if b == k + 1 then Pred(nodes, k) else Pred(nodes, b)
      {
        Same(nodes, b, k + 1);
      }
      forall b {:trigger nodes[b].next} | 0 <= b < |nodes|
        ensures nodes[b].next == if b + 1 == k then nodes[k + 1] else Succ(nodes, b)
      {
        if k > 0 { Same(nodes, b, k - 1); }
      }
    }

    /** Lines 191-205, link by link: only the neighbours of `cur`, `cur` itself and the top are relinked. */
    method Relink(cur: PageNode, ghost k: nat)
      requires Valid() && k + 1 < |nodes| && nodes[k] == cur
      modifies `head, `tail, nodes
      ensures head == nodes[if k == 0 then 1 else 0] && tail == cur
      ensures forall b {:trigger nodes[b].pre} :: 0 <= b < |nodes| ==>
        nodes[b].pre == if b == k then nodes[|nodes| - 1] else if b == k + 1 then Pred(nodes, k) else Pred(nodes, b)
      ensures forall b {:trigger nodes[b].next} :: 0 <= b < |nodes| ==>
        nodes[b].next == if b == k then null else if b + 1 == k then nodes[k + 1]
                         else if b == |nodes| - 1 then cur else Succ(nodes, b)
      ensures forall b :: 0 <= b < |nodes| ==> nodes[b].page == old(nodes[b].page)
    {
      hide Apart;
      ghost var last := |nodes| - 1;
      Same(nodes, 0, k);
      Same(nodes, k, last);
      Bridge(cur, k);
      tail.next := cur;
      cur.pre := tail;
      if cur == head { head := cur.next; }
      cur.next := null;
      tail := cur;
      forall b {:trigger nodes[b].pre} | 0 <= b < |nodes|
        ensures nodes[b].pre == if b == k then nodes[last] else if b == k + 1 then Pred(nodes, k) else Pred(nodes, b)
      {
        Same(nodes, b, k);
      }
      forall b {:trigger nodes[b].next} | 0 <= b < |nodes|
        ensures nodes[b].next == if b == k then null else if b + 1 == k then nodes[k + 1]
                                 else if b == last then cur else Succ(nodes, b)
      {
        Same(nodes, b, k);
        Same(nodes, b, last);
      }
    }

    /** A node that is not the top goes to the top. */
    method MoveToTop(cur: PageNode, ghost k: nat)
      requires Valid() && k + 1 < |nodes| && nodes[k] == cur
      modifies this, nodes
      ensures Valid() && nodes == Touch(old(nodes), k)
      ensures forall a :: 0 <= a < |old(nodes)| ==> old(nodes)[a].page == old(nodes[a].page)
    {
      hide Touch, Apart;
      ghost var was := nodes;
      TouchApart(nodes, k);
      TouchLinks(nodes, k, 0);
      TouchLinks(nodes, k, |nodes| - 1);
      Relink(cur, k);
      nodes := Touch(nodes, k);
      forall a {:trigger nodes[a].pre} | 0 <= a < |nodes|
        ensures nodes[a].pre == Pred(nodes, a)
      {
        TouchLinks(was, k, a);
      }
      forall a {:trigger nodes[a].next} | 0 <= a < |nodes|
        ensures nodes[a].next == Succ(nodes, a)
      {
        TouchLinks(was, k, a);
      }
    }

    /** Lines 218-227: the bottom node takes the new page and goes to the top. */
    method ReuseBottom(page: int) returns (old_head: PageNode)
      requires Valid() && |nodes| > 1
      modifies this, nodes
      ensures Valid() && nodes == Touch(old(nodes), 0) && old_head == old(nodes)[0]
      ensures forall a :: 0 <= a < |old(nodes)| ==> old(nodes)[a].page == if a == 0 then page else old(nodes[a].page)
    {
      hide Touch, Apart;
      Same(nodes, 0, 1);
      Same(nodes, 0, |nodes| - 1);
      Same(nodes, 1, |nodes| - 1);
      TouchApart(nodes, 0);
      TouchLinks(nodes, 0, 0);
      TouchLinks(nodes, 0, |nodes| - 1);
      ghost var was := nodes;
      old_head := head;
      head := head.next;
      head.pre := null;
      old_head.page := page;
      tail.next := old_head;
      old_head.pre := tail;
      old_head.next := null;
      tail := old_head;
      nodes := Touch(nodes, 0);
      forall a {:trigger nodes[a].pre} | 0 <= a < |nodes| ensures nodes[a].pre == Pred(nodes, a) {
        TouchLinks(was, 0, a);
        var b := if a + 1 < |was| then a + 1 else 0;
        Same(was, b, 0);
        Same(was, b, 1);
        Same(was, b, |was| - 1);
      }
      forall a {:trigger nodes[a].next} | 0 <= a < |nodes| ensures nodes[a].next == Succ(nodes, a) {
        TouchLinks(was, 0, a);
        var b := if a + 1 < |was| then a + 1 else 0;
        Same(was, b, 0);
        Same(was, b, 1);
        Same(was, b, |was| - 1);
      }
    }

    /** The nodes' pages are those of the frames they stand for. */
    ghost predicate Mirrors(frames: seq<int>)
      reads this, nodes
    {
      && |frames| == |nodes| && Permutation(IndicesOf(nodes), |nodes|)
      && forall k :: 0 <= k < |nodes| ==> nodes[k].page == frames[IndicesOf(nodes)[k]]
    }

    /** The search of lines 186-213: the lowest node holding `page`, if any. */
    method Search(page: int) returns (cur: PageNode?, ghost k: nat)
      requires Valid()
      ensures k <= |nodes| && cur == (if k < |nodes| then nodes[k] else null)
      ensures k < |nodes| ==> nodes[k].page == page
      ensures forall a :: 0 <= a < k ==> nodes[a].page != page
    {
      hide Apart;
      cur := head;
      k := 0;
      while cur != null
        invariant k <= |nodes| && cur == (if k < |nodes| then nodes[k] else null)
        invariant forall a :: 0 <= a < k ==> nodes[a].page != page
        decreases |nodes| - k
      {
        if cur.page == page { break; }
        cur := cur.next;
        k := k + 1;
      }
    }

    /** Lines 190-211: the page was found in node `k`. */
    method Hit(cur: PageNode, ghost k: nat, ghost frames: seq<int>)
      requires Valid() && Mirrors(frames) && k < |nodes| && nodes[k] == cur
      modifies this, nodes
      ensures Valid() && Mirrors(frames) && nodes == Touch(old(nodes), k)
    {
      hide Apart, Touch, Permutation, Pred, Succ;
      ghost var was := nodes;
      IndicesOfTouch(nodes, k);
      TouchPermutation(IndicesOf(nodes), |nodes|, k);
      TouchedAt(nodes, k);
      if cur != tail {
        MoveToTop(cur, k);
      } else {
        TouchLast(was, k, cur);
      }
    }

    /** Lines 216-232: the page was not found. */
    method Miss(page: int, pageFrame: array<int>)
      requires Valid() && |nodes| > 1 && Mirrors(pageFrame[..])
      modifies this, nodes, pageFrame
      ensures Valid() && Mirrors(pageFrame[..]) && nodes == Touch(old(nodes), 0)
      ensures pageFrame[..] == old(pageFrame[..])[IndicesOf(old(nodes))[0] := page]
    {
      hide Apart, Touch, Permutation;
      ghost var was, order := nodes, IndicesOf(nodes);
      IndicesOfTouch(nodes, 0);
      TouchPermutation(order, |nodes|, 0);
      TouchedAt(nodes, 0);
      var bottom := ReuseBottom(page);
      InRangeAt(order, |order|, 0);
      pageFrame[bottom.index] := page;
      forall k | 0 <= k < |nodes| ensures nodes[k].page == pageFrame[..][IndicesOf(nodes)[k]] {
        var j := if k + 1 < |was| then k + 1 else 0;
        assert nodes[k] == was[j] && IndicesOf(nodes)[k] == order[j];
        InRangeAt(order, |order|, j);
      }
    }

    /** One turn of the loop of LRU_stack. */
    method Reference(page: int, pageFrame: array<int>) returns (fault: bool)
      requires Valid() && |nodes| > 1 && Mirrors(pageFrame[..])
      modifies this, nodes, pageFrame
      ensures Valid() && Mirrors(pageFrame[..]) && |nodes| == |old(nodes)|
      ensures forall k :: 0 <= k < |nodes| ==> nodes[k] in old(nodes)
      ensures (State(pageFrame[..], IndicesOf(nodes)), fault)
           == Step(State(old(pageFrame[..]), IndicesOf(old(nodes))), |old(nodes)|, page)
    {
      hide Apart, Touch, Permutation;
      ghost var s := State(pageFrame[..], IndicesOf(nodes));
      var cur, k := Search(page);
      FindIs(s, |nodes|, page, k);
      fault := cur == null;
      if cur != null {
        IndicesOfTouch(nodes, k);
        Hit(cur, k, pageFrame[..]);
      } else {
        IndicesOfTouch(nodes, 0);
        Miss(page, pageFrame);
      }
    }
  }

  lemma TouchedAt(nodes: seq<PageNode>, k: nat)
    requires k < |nodes|
    ensures |Touch(nodes, k)| == |nodes|
    ensures forall a :: 0 <= a < |nodes| ==>
        Touch(nodes, k)[a] == nodes[if a < k then a else if a + 1 < |nodes| then a + 1 else k]
  {
  }

  lemma InRangeAt(order: seq<nat>, f: nat, j: nat)
    requires Permutation(order, f) && j < f
    ensures order[0] < f && order[j] < f && (order[j] == order[0] <==> j == 0)
  {
  }

  lemma IndicesOfTouch(nodes: seq<PageNode>, k: nat)
    requires k < |nodes|
    ensures IndicesOf(Touch(nodes, k)) == Touch(IndicesOf(nodes), k)
    ensures |Touch(nodes, k)| == |nodes| && forall a :: 0 <= a < |nodes| ==> Touch(nodes, k)[a] in nodes
  {
  }

  lemma TouchLast(nodes: seq<PageNode>, k: nat, cur: PageNode)
    requires Apart(nodes) && k < |nodes| && nodes[k] == cur == nodes[|nodes| - 1]
    ensures Touch(nodes, k) == nodes
  {
  }

  /** LRU_stack on a reference string; with a single frame the fault path of the source follows a null pointer. */
  method Run(refs: seq<int>, f: nat) returns (trace: seq<Shown>)
    requires f > 1
    ensures trace == Trace(f, refs)
  {
    hide Step, Apart, Permutation;
    var pageFrame := new int[f](_ => EMPTY);
    var stack := new PageStack(f);
    trace := [];
    Started(stack.nodes, pageFrame[..], f);
    var i := 0;
    while i < |refs|
      invariant 0 <= i <= |refs|
      invariant stack.Valid() && stack.Mirrors(pageFrame[..]) && |stack.nodes| == f
      invariant forall k :: 0 <= k < |stack.nodes| ==> fresh(stack.nodes[k])
      invariant State(pageFrame[..], IndicesOf(stack.nodes)) == After(f, refs[..i])
      invariant trace == Trace(f, refs[..i])
    {
      NextReference(f, refs, i);
      ghost var before := stack.nodes;
      var fault := stack.Reference(refs[i], pageFrame);
      assert forall n :: n in before ==> fresh(n);
      trace := trace + [Shown(pageFrame[..], fault)];
      i := i + 1;
    }
    assert refs[..|refs|] == refs;
  }

  lemma Started(nodes: seq<PageNode>, frames: seq<int>, f: nat)
    requires |nodes| == f > 0 && forall k :: 0 <= k < f ==> nodes[k].index == k
    requires |frames| == f && forall k :: 0 <= k < f ==> frames[k] == EMPTY
    ensures State(frames, IndicesOf(nodes)) == After(f, []) && Permutation(IndicesOf(nodes), f)
    ensures forall k :: 0 <= k < f ==> frames[IndicesOf(nodes)[k]] == EMPTY
  {
    InitValid(f);
    assert IndicesOf(nodes) == Init(f).order && frames == Init(f).frames;
  }
}
