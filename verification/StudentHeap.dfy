/** The shared structure of SLList_MinHeap.c, updated in place: one array of student records that is a
    min-heap on ids and carries a doubly linked list, newest entry first, plus a stack of unused slots. */
module StudentHeap {
  import opened Basics
  import opened HeapLinks

  class MinHeap {
    const list: array<Student>
    const index: array<int>
    var top: int
    var headIndex: int
    var size: nat
    ghost var ord: seq<nat>

    /** Slots and stack of unused slots: the next slot handed out is always `size`. */
    ghost predicate Stacked()
      reads this, index
    {
      && list.Length == index.Length && size <= list.Length && top == list.Length - 1 - size
      && forall k :: 0 <= k <= top ==> index[k] == list.Length - 1 - k
    }

    ghost predicate Valid()
      reads this, list, index
    {
      Stacked() && Links(list[..], ord) && Full(ord, size) && headIndex == First(ord)
    }

    /** The entries from the head of the list to its tail. */
    ghost function Contents(): seq<Entry>
      requires Links(list[..], ord)
      reads this, list
    {
      Listed(list[..], ord)
    }

    /** The entries in array order. */
    ghost function HeapEntries(): (es: seq<Entry>)
      requires size <= list.Length
      reads this, list
      ensures |es| == size
    {
      Entries(list[..], size)
    }

    ghost function HeapIds(): seq<int>
      requires size <= list.Length
      reads this, list
    {
      IdsOf(HeapEntries())
    }

    /** initialStaticLinkList and initiateStack */
    constructor (capacity: nat)
      ensures Valid() && fresh(list) && fresh(index) && list.Length == capacity && Contents() == []
    {
      headIndex := -1;
      size := 0;
      list := new Student[capacity](_ => Student(0, 0, "", 0, 0));
      index := new int[capacity](i => capacity - i - 1);
      top := capacity - 1;
      ord := [];
    }

    /** "If there is a slot `i` and it is not the other one, its successor is now `v`." */
    method PutNext(i: int, other: int, v: int)
      requires LinkIndex(i, list.Length)
      modifies list
      ensures list[..] == RelinkNext(old(list[..]), i, other, v)
    {
      if i != -1 && i != other {
        list[i] := list[i].(next := v);
      }
    }

    method PutPre(i: int, other: int, v: int)
      requires LinkIndex(i, list.Length)
      modifies list
      ensures list[..] == RelinkPre(old(list[..]), i, other, v)
    {
      if i != -1 && i != other {
        list[i] := list[i].(pre := v);
      }
    }

    /** The array part of swapHeapNode. */
    method SwapSlots(parent: nat, child: nat)
      requires Indices(list[..], parent) && Indices(list[..], child) && parent != child
      modifies list
      ensures list[..] == SwapNodes(old(list[..]), parent, child)
    {
      hide RelinkNext, RelinkPre;
      ghost var a := list[..];
      var parentPre, parentNext := list[parent].pre, list[parent].next;
      var childPre, childNext := list[child].pre, list[child].next;
      var t := list[parent];
      list[parent] := list[child];
      list[child] := t;
      assert list[..] == a[parent := a[child]][child := a[parent]];
      PutNext(parentPre, child, child);
      PutPre(parentNext, child, child);
      PutNext(childPre, parent, parent);
      PutPre(childNext, parent, parent);
      ghost var b := list[..];
      if parentPre == child {
        list[parent] := list[parent].(next := child);
        list[child] := list[child].(pre := parent);
        assert list[..] == SetPre(SetNext(b, parent, child), child, parent);
      }
      ghost var d := list[..];
      if parentNext == child {
        list[parent] := list[parent].(pre := child);
        list[child] := list[child].(next := parent);
        assert list[..] == SetNext(SetPre(d, parent, child), child, parent);
      }
    }

    /** swapHeapNode on a list that fills the first `n` slots: two slots are exchanged, the list is not. */
    method SwapHeapNode(parent: nat, child: nat, ghost n: nat)
      requires Links(list[..], ord) && Full(ord, n) && n <= list.Length
      requires parent < n && child < n && parent != child
      modifies list, `headIndex, `ord
      ensures Links(list[..], ord) && Full(ord, n) && Contents() == old(Contents())
      ensures ord == RenamedAll(old(ord), parent, child)
      ensures Entries(list[..], n) == Exchanged(old(Entries(list[..], n)), parent, child)
      ensures headIndex == if First(ord) in {parent, child} then First(ord) else old(headIndex)
    {
      hide Links, EntryOf, Slots, SwapNodes, Full;
      ghost var kp, kc := Positions(list[..], ord, n, parent, child);
      SwapKeepsList(list[..], ord, kp, kc);
      SwapEntries(list[..], ord, n, kp, kc);
      RenamedFull(ord, n, parent, child);
      SwapSlots(parent, child);
      ord := RenamedAll(ord, parent, child);
      HeadHasNoPre(list[..], ord, kc);
      HeadHasNoPre(list[..], ord, kp);
      if list[parent].pre == -1 { headIndex := parent; }
      if list[child].pre == -1 { headIndex := child; }
    }

    /** insertListAtHead */
    method InsertListAtHead(stu: Student)
      requires Valid() && size < list.Length
      modifies this, list
      ensures Valid() && Contents() == [EntryOf(stu)] + old(Contents()) && size == old(size) + 1
      ensures HeapEntries() == old(HeapEntries()) + [EntryOf(stu)]
    {
      hide Links, Full, EntryOf, RelinkPre;
      var e: nat := TakeSlot();
      ghost var x := stu.(flag := 1, pre := -1, next := headIndex);
      HeadIsSlot(list[..], ord, size, e);
      LinkFront(list[..], ord, e, x);
      FrontFull(ord, size);
      list[e] := stu;
      list[e] := list[e].(flag := 1);
      list[e] := list[e].(pre := -1);
      list[e] := list[e].(next := headIndex);
      if headIndex != -1 {
        list[headIndex] := list[headIndex].(pre := e);
      }
      ord := [e] + ord;
      headIndex := e;
      size := size + 1;
      assert list[..] == Fronted(old(list[..]), old(headIndex), e, x) by {
        FrontedIs(old(list[..]), list[..], old(headIndex), e, x);
      }
      SameEntry(stu, x);
      FrontedEntries(old(list[..]), old(headIndex), e, x);
    }

    /** The inner loop of initialHeap: node `i` sinks to its place. */
    method Sink(i: nat)
      requires Valid() && i < size
      modifies list, `headIndex, `ord
      ensures Valid() && Contents() == old(Contents()) && HeapEntries() == Sunk(old(HeapEntries()), i)
    {
      hide Links, Full, RenamedAll, Sunk, Exchanged, IdsOf, Child, SmallerChild;
      var id := list[i].id;
      var n := size;
      var parent: nat := i;
      var child: nat := 2 * i + 1;
      while child < n
        invariant Valid() && Contents() == old(Contents())
        invariant parent < n && child == 2 * parent + 1 && list[parent].id == id
        invariant Sunk(HeapEntries(), parent) == Sunk(old(HeapEntries()), i)
        decreases n - parent
      {
        if child + 1 < n && list[child].id > list[child + 1].id {
          child := child + 1;
        }
        ChildIs(HeapEntries(), parent, child);
        SunkOn(HeapEntries(), parent);
        ExchangedAt(HeapEntries(), parent, child);
        if id > list[child].id {
          SwapHeapNode(parent, child, n);
          parent := child;
          child := 2 * parent + 1;
        } else {
          return;
        }
      }
      SunkOn(HeapEntries(), parent);
    }

    /** initialHeap */
    method InitialHeap()
      requires Valid()
      modifies list, `headIndex, `ord
      ensures Valid() && Contents() == old(Contents()) && IsHeap(HeapIds())
      ensures HeapEntries() == Heapified(old(HeapEntries()), size / 2)
    {
      hide Links, Full, Sunk;
      LeavesOnly(HeapIds(), size / 2);
      HeapifiedHeap(HeapEntries(), size / 2);
      var i: int := size / 2 - 1;
      while i >= 0
        invariant -1 <= i < size
        invariant Valid() && Contents() == old(Contents())
        invariant Heapified(HeapEntries(), i + 1) == Heapified(old(HeapEntries()), size / 2)
      {
        Sink(i);
        i := i - 1;
      }
    }

    /** pushHeap, pushHeapByIdAndName: the new entry goes to the front of the list and rises in the heap. */
    method PushHeap(stu: Entry)
      requires Valid() && size < list.Length && IsHeap(HeapIds())
      modifies this, list
      ensures Valid() && IsHeap(HeapIds()) && size == old(size) + 1
      ensures Contents() == [stu] + old(Contents())
      ensures HeapEntries() == Risen(old(HeapEntries()) + [stu], old(size))
    {
      hide Links, Full, EntryOf, IsHeap, Rising, Risen;
      var child: nat := TakeSlot();
      LinkLast(child, stu);
      RiseStart(old(HeapIds()), HeapIds());
      RisenHeap(HeapEntries(), child);
      Rise(child, stu.id);
    }

    /** The loop of pushHeap: the new node, first in the list, rises to its place. */
    method Rise(slot: nat, id: int)
      requires Stacked() && Links(list[..], ord) && Full(ord, size) && First(ord) == slot < size
      requires list[slot].id == id
      modifies list, `headIndex, `ord
      ensures Valid() && Contents() == old(Contents()) && HeapEntries() == Risen(old(HeapEntries()), slot)
    {
      hide Links, Full, Listed;
      var child: nat := slot;
      var parent: nat := ParentIndex(child);
      while id < list[parent].id && child > 0
        invariant Links(list[..], ord) && Full(ord, size) && First(ord) == child < size
        invariant Contents() == old(Contents()) && list[child].id == id && parent == ParentIndex(child)
        invariant Risen(HeapEntries(), child) == Risen(old(HeapEntries()), slot)
        decreases child
      {
        SwapHeapNode(parent, child, size);
        child := parent;
        parent := ParentIndex(child);
      }
      headIndex := child;
    }

    /** The first half of pushHeap: the record goes to slot `child` and in front of the list;
        the head index still names the old first node. */
    method LinkLast(child: nat, stu: Entry)
      requires child == size < list.Length && list.Length == index.Length
      requires top == list.Length - 2 - size && forall k :: 0 <= k <= top ==> index[k] == list.Length - 1 - k
      requires Links(list[..], ord) && Full(ord, size) && headIndex == First(ord)
      modifies list, `size, `ord
      ensures Stacked() && Links(list[..], ord) && Full(ord, size) && First(ord) == child && size == child + 1
      ensures Contents() == [stu] + old(Contents())
      ensures HeapEntries() == old(HeapEntries()) + [stu] && list[child].id == stu.id
    {
      hide Links, Full, RelinkPre;
      ghost var x := Student(1, stu.id, stu.name, -1, headIndex);
      HeadIsSlot(list[..], ord, size, child);
      LinkFront(list[..], ord, child, x);
      FrontFull(ord, size);
      list[child] := list[child].(id := stu.id);
      list[child] := list[child].(name := stu.name);
      if headIndex != -1 {
        list[headIndex] := list[headIndex].(pre := child);
      }
      list[child] := list[child].(flag := 1);
      list[child] := list[child].(pre := -1);
      list[child] := list[child].(next := headIndex);
      size := size + 1;
      ord := [child] + ord;
      FrontedIs(old(list[..]), list[..], headIndex, child, x);
      FrontedEntries(old(list[..]), headIndex, child, x);
    }

    /** popHeap: the root's entry leaves heap and list; `k` is its place in the list. */
    method PopHeap() returns (ghost k: nat)
      requires Valid() && IsHeap(HeapIds())
      modifies this, list, index
      ensures Valid() && IsHeap(HeapIds())
      ensures old(size) == 0 ==> size == 0 && Contents() == old(Contents())
      ensures old(size) > 0 ==> size == old(size) - 1 && k < |old(Contents())|
      ensures old(size) > 0 ==> old(Contents())[k] == EntryOf(old(list[0])) && Contents() == Without(old(Contents()), k)
      ensures old(size) > 0 ==> PopsLeast(old(Contents()), EntryOf(old(list[0])), Contents())
      ensures old(size) > 0 ==> HeapEntries() == Popped(old(HeapEntries()))
    {
      hide PopsLeast, NoneBelow, Links, Full, EntryOf, IsHeap, Listed, Slots, Without, Popped, Entries;
      k := 0;
      if size == 0 { return; }
      ghost var es := HeapEntries();
      k := Position(list[..], ord, size, 0);
      RootPops(list[..], ord, size, k);
      PoppedHeap(es);
      var id := list[size - 1].id;
      EntryId(list[size - 1]);
      Retire();
      if size == 0 {
        headIndex := -1;
        LastOut(list[..], ord);
        ord := [];
        return;
      }
      SettleLast(k, id, es);
    }

    /** The middle of popHeap: the root and the last node change places, the latter sinks, the former leaves. */
    method SettleLast(ghost k: nat, id: int, ghost es: seq<Entry>)
      requires 0 < size < list.Length && Links(list[..], ord) && Full(ord, size + 1) && headIndex == First(ord)
      requires Entries(list[..], size + 1) == es && list[size].id == id && k <= size && ord[k] == 0
      modifies list, `headIndex, `ord
      ensures Links(list[..], ord) && Full(ord, size) && headIndex == First(ord)
      ensures Contents() == Without(old(Contents()), k) && HeapEntries() == Popped(es)
    {
      hide Links, Full, EntryOf, IsHeap, Listed, Slots, Exchanged, Without, Sunk, Entries;
      EntryId(list[size]);
      FullParts(ord, size + 1);
      SwapHeapNode(0, size, size + 1);
      ShorterEntries(list[..], size);
      LastOnTop(es, HeapEntries());
      EntryId(list[0]);
      SinkLast(k, id);
      DropLast(k);
    }

    /** topHeap and popHeap until the heap is empty: every entry once, in ascending order of ids. */
    method Drain() returns (xs: seq<Entry>)
      requires Valid() && IsHeap(HeapIds())
      modifies this, list, index
      ensures Valid() && size == 0
      ensures multiset(xs) == multiset(old(Contents()))
      ensures forall i, j :: 0 <= i < j < |xs| ==> xs[i].id <= xs[j].id
    {
      hide Links, Full, Listed, IsHeap, PopsLeast;
      xs := [];
      ghost var cs := [Contents()];
      while size != 0
        invariant Valid() && IsHeap(HeapIds())
        invariant |cs| == |xs| + 1 && cs[0] == old(Contents()) && cs[|xs|] == Contents()
        invariant forall i {:trigger cs[i]} :: 0 <= i < |xs| ==> PopsLeast(cs[i], xs[i], cs[i + 1])
        decreases size
      {
        var x := Entry(list[0].id, list[0].name);
        ghost var k := PopHeap();
        xs := xs + [x];
        cs := cs + [Contents()];
      }
      AllListed(list[..], ord);
      DrainsSorted(cs, xs);
    }

    /** The first lines of popHeap: one slot less, back on the stack of unused ones. */
    method Retire()
      requires Valid() && size > 0
      modifies this, list, index
      ensures Stacked() && size == old(size) - 1 && Links(list[..], ord) && Full(ord, size + 1)
          && headIndex == First(ord)
      ensures ord == old(ord) && Contents() == old(Contents())
      ensures Entries(list[..], size + 1) == old(HeapEntries()) && list[size].id == old(list[size - 1].id)
    {
      hide Links, Full, Listed;
      size := size - 1;
      top := top + 1;
      index[top] := size;
      HeadIsSlot(list[..], ord, size + 1, size);
      FirstListed(ord, size + 1);
      FlagOnly(list[..], ord, headIndex, size + 1);
      list[headIndex] := list[headIndex].(flag := 0);
    }

    /** swapHeapNode on two of the first `size` slots, while the list also fills slot `size`. */
    method SwapBelow(parent: nat, child: nat, ghost k: nat)
      requires Links(list[..], ord) && Full(ord, size + 1) && size < list.Length && headIndex == First(ord)
      requires parent < size && child < size && parent != child && k <= size && ord[k] == size
      modifies list, `headIndex, `ord
      ensures Links(list[..], ord) && Full(ord, size + 1) && Contents() == old(Contents())
      ensures headIndex == First(ord) && ord[k] == size
      ensures HeapEntries() == Exchanged(old(HeapEntries()), parent, child)
    {
      hide Links, Slots, Listed;
      ShorterEntries(list[..], size);
      SwapHeapNode(parent, child, size + 1);
      ShorterEntries(list[..], size);
      assert HeapEntries() == Exchanged(old(HeapEntries()), parent, child);
    }

    /** The loop of popHeap: the last node, now in slot 0, sinks; the node taken out waits in slot `size`. */
    method SinkLast(ghost k: nat, id: int)
      requires 0 < size < list.Length && Links(list[..], ord) && Full(ord, size + 1) && headIndex == First(ord)
      requires k <= size && ord[k] == size && list[0].id == id
      modifies list, `headIndex, `ord
      ensures Links(list[..], ord) && Full(ord, size + 1) && headIndex == First(ord) && ord[k] == size
      ensures Contents() == old(Contents()) && HeapEntries() == Sunk(old(HeapEntries()), 0)
    {
      hide Links, Slots, Full, Listed, Sunk, Exchanged, IdsOf, Child, SmallerChild, Entries, First, IsHeap, Below;
      FullParts(ord, size + 1);
      var high: nat := 0;
      while high * 2 + 1 < size
        invariant Links(list[..], ord) && Full(ord, size + 1) && headIndex == First(ord) && k < |ord| && ord[k] == size
        invariant high < size && list[high].id == id && Contents() == old(Contents())
        invariant Sunk(HeapEntries(), high) == Sunk(old(HeapEntries()), 0)
        decreases size - high
      {
        var low := high * 2 + 1;
        if low != size - 1 && list[low].id > list[low + 1].id {
          low := low + 1;
        }
        ChildIs(HeapEntries(), high, low);
        SunkOn(HeapEntries(), high);
        ExchangedAt(HeapEntries(), high, low);
        if list[low].id < id {
          SwapBelow(high, low, k);
          FullParts(ord, size + 1);
          high := low;
        } else {
          return;
        }
      }
      SunkOn(HeapEntries(), high);
    }

    /** The last lines of popHeap: the node in slot `size` leaves the list. */
    method DropLast(ghost k: nat)
      requires size < list.Length && Links(list[..], ord) && Full(ord, size + 1) && headIndex == First(ord)
      requires k <= size && ord[k] == size && size > 0
      modifies list, `headIndex, `ord
      ensures Links(list[..], ord) && Full(ord, size) && headIndex == First(ord)
      ensures Contents() == Without(old(Contents()), k) && HeapEntries() == old(HeapEntries())
    {
      hide Links, Slots, Full, Listed, RelinkNext, RelinkPre;
      FullParts(ord, size + 1);
      Unlink(list[..], ord, k);
      UnlinkEntries(list[..], size, size);
      WithoutFull(ord, k, size);
      LinkAt(list[..], ord, k, k);
      var preNode, nextNode := list[size].pre, list[size].next;
      PutNext(preNode, -1, nextNode);
      PutPre(nextNode, -1, preNode);
      if preNode == -1 { headIndex := nextNode; }
      ord := Without(ord, k);
    }

    /** modifyIdByIndex; a negative index is outside the array in the source as well. */
    method ModifyIdByIndex(i: nat, id: int) returns (ghost k: nat)
      requires Valid()
      modifies list, `headIndex, `ord
      ensures Valid() && (i < size ==> IsHeap(HeapIds()))
      ensures i >= size ==> Contents() == old(Contents()) && HeapEntries() == old(HeapEntries())
      ensures i < size ==> k < size == |old(Contents())| == |old(ord)| && old(ord)[k] == i
      ensures i < size ==> old(Contents())[k] == EntryOf(old(list[i]))
      ensures i < size ==> Contents() == old(Contents())[k := Entry(id, old(list[i].name))]
      ensures i < size ==>
        HeapEntries() == Heapified(old(HeapEntries())[i := Entry(id, old(list[i].name))], size / 2)
    {
      hide Links, Full, IsHeap, Listed, Heapified, Entries, IdsOf, EntryOf;
      k := 0;
      if i < size {
        k := Position(list[..], ord, size, i);
        IdOnly(list[..], ord, k, id);
        IdOnlyEntries(list[..], size, i, id);
        list[i] := list[i].(id := id);
        InitialHeap();
      }
    }

    /** findHeap, findHeapById and findHeapByName: the search below slot `cur`, for what `want` accepts. */
    function FindHeap(want: Entry -> bool, cur: nat): (r: int)
      requires size <= list.Length
      reads this, list
      ensures r == -1 || (cur <= r < size && want(EntryOf(list[r])))
      decreases size - cur
    {
      if cur >= size then -1
      else if want(EntryOf(list[cur])) then cur
      else
        var left := if cur * 2 + 1 < size then FindHeap(want, cur * 2 + 1) else -1;
        if left != -1 then left
        else if cur * 2 + 2 < size then FindHeap(want, cur * 2 + 2) else -1
    }

    lemma {:induction false} FindsBelow(want: Entry -> bool, cur: nat, k: nat)
      requires size <= list.Length && k < size && Below(cur, k) && want(EntryOf(list[k]))
      ensures FindHeap(want, cur) != -1
      decreases size - cur
    {
      if cur != k {
        var c := Towards(cur, k);
        FindsBelow(want, c, k);
      }
    }

    /** What the search finds comes first in preorder among all wanted slots of the subtree: any other lies below it,
        or in a right subtree where it lies in the left one. */
    lemma {:induction false} FindsFirst(want: Entry -> bool, cur: nat, k: nat)
      requires size <= list.Length && k < size && Below(cur, k) && want(EntryOf(list[k]))
      ensures FindHeap(want, cur) >= 0 && FirstInPreorder(FindHeap(want, cur), k)
      ensures Below(cur, FindHeap(want, cur))
      decreases size - cur
    {
      FindsBelow(want, cur, k);
      var r: nat := FindHeap(want, cur);
      if r == cur {
      } else {
        FoundBelow(want, cur);
        var c := Towards(cur, k);
        var left := if cur * 2 + 1 < size then FindHeap(want, cur * 2 + 1) else -1;
        if left == -1 {
          if c == 2 * cur + 1 { FindsBelow(want, c, k); }
          FindsFirst(want, c, k);
        } else if c == 2 * cur + 1 {
          FindsFirst(want, c, k);
        } else {
          FoundBelow(want, 2 * cur + 1);
          assert Below(2 * cur + 1, r) && Below(2 * cur + 2, k);
        }
      }
    }

    /** The search stays in its subtree. */
    lemma {:induction false} FoundBelow(want: Entry -> bool, cur: nat)
      requires size <= list.Length && FindHeap(want, cur) != -1
      ensures Below(cur, FindHeap(want, cur))
      decreases size - cur
    {
      var r: nat := FindHeap(want, cur);
      if r != cur {
        var left := if cur * 2 + 1 < size then FindHeap(want, cur * 2 + 1) else -1;
        var c := if left != -1 then 2 * cur + 1 else 2 * cur + 2;
        FoundBelow(want, c);
        BelowChild(cur, c, r);
      }
    }

    /** From the root: exactly the first wanted slot in preorder. */
    lemma FindHeapIff(want: Entry -> bool, r: nat)
      requires size <= list.Length
      ensures FindHeap(want, 0) == r <==>
        (r < size && want(EntryOf(list[r])) && forall k: nat :: k < size && want(EntryOf(list[k])) ==>
          FirstInPreorder(r, k))
    {
      forall k: nat | k < size && want(EntryOf(list[k])) ensures FindHeap(want, 0) >= 0
        ensures FirstInPreorder(FindHeap(want, 0), k)
      {
        AllBelowRoot(k);
        FindsFirst(want, 0, k);
      }
      if r < size && want(EntryOf(list[r])) && forall k: nat :: k < size && want(EntryOf(list[k])) ==>
        FirstInPreorder(r, k)
      {
        PreorderOnce(r, FindHeap(want, 0));
      }
    }

    /** The search from the root fails exactly when no entry of the list is wanted. */
    lemma FindsAny(want: Entry -> bool)
      requires Valid()
      ensures FindHeap(want, 0) == -1 <==> forall e :: e in Contents() ==> !want(e)
    {
      ListIsArray(list[..], ord, size);
      var m, t := Contents(), Entries(list[..], size);
      forall e ensures e in m <==> e in t { assert multiset(m)[e] == multiset(t)[e]; }
      if k: nat :| k < size && want(EntryOf(list[k])) {
        AllBelowRoot(k);
        FindsBelow(want, 0, k);
        assert t[k] in t;
      }
    }

    /** modifyId: the first entry found equal to `stu` gets the new id; nothing happens if there is none. */
    method ModifyId(stu: Entry, id: int) returns (ghost k: nat)
      requires Valid()
      modifies list, `headIndex, `ord
      ensures Valid() && (stu in old(Contents()) ==> IsHeap(HeapIds()))
      ensures stu !in old(Contents()) ==> Contents() == old(Contents()) && HeapEntries() == old(HeapEntries())
      ensures stu in old(Contents()) ==> k < |old(Contents())| == |old(ord)| && old(Contents())[k] == stu
      ensures stu in old(Contents()) ==> old(ord)[k] == old(FindHeap(Is(stu), 0))
      ensures stu in old(Contents()) ==> Contents() == old(Contents())[k := Entry(id, stu.name)]
    {
      var i := FindHeap(Is(stu), 0);
      FindsAny(Is(stu));
      k := 0;
      if i != -1 {
        k := ModifyIdByIndex(i, id);
      }
    }

    /** topStack followed by popStack. */
    method TakeSlot() returns (e: int)
      requires Stacked() && size < list.Length
      modifies `top
      ensures e == size && top == old(top) - 1
    {
      e := index[top];
      top := top - 1;
    }
  }

  /** The comparison findHeap makes. */
  function Is(stu: Entry): Entry -> bool { e => e == stu }

  /** The `flag` field is in no link and no entry. */
  lemma FlagOnly(a: seq<Student>, ord: seq<nat>, i: int, n: nat)
    requires Links(a, ord) && 0 <= i < |a| && n <= |a|
    ensures var t := a[i := a[i].(flag := 0)];
      Links(t, ord) && Listed(t, ord) == Listed(a, ord) && Entries(t, n) == Entries(a, n)
  {
  }

  lemma ExchangedAt(es: seq<Entry>, p: nat, c: nat)
    requires p < |es| && c < |es|
    ensures |Exchanged(es, p, c)| == |es| && Exchanged(es, p, c)[c] == es[p]
  {
  }

  /** The child that the two programs take. */
  lemma ChildIs(es: seq<Entry>, h: nat, c: nat)
    requires 2 * h + 1 < |es|
    requires c == if 2 * h + 2 < |es| && es[2 * h + 1].id > es[2 * h + 2].id then 2 * h + 2 else 2 * h + 1
    ensures c == Child(es, h)
  {
  }

  lemma FirstListed(ord: seq<nat>, n: nat)
    requires Full(ord, n) && n > 0
    ensures First(ord) >= 0
  {
  }

  lemma ShorterEntries(a: seq<Student>, n: nat)
    requires n < |a|
    ensures Entries(a, n) == Entries(a, n + 1)[..n]
  {
  }

  /** What popHeap leaves of the array: the last entry goes to slot 0 and sinks. */
  ghost function Popped(es: seq<Entry>): seq<Entry>
    requires es != []
  {
    var n := |es| - 1;
    if n == 0 then [] else Sunk(es[..n][0 := es[n]], 0)
  }

  lemma LastOnTop(es: seq<Entry>, t: seq<Entry>)
    requires |t| == |es| - 1 > 0 && t == Exchanged(es, 0, |t|)[..|t|]
    ensures t == es[..|t|][0 := es[|t|]]
  {
  }

  lemma PoppedHeap(es: seq<Entry>)
    requires es != [] && IsHeap(IdsOf(es))
    ensures IsHeap(IdsOf(Popped(es))) && |Popped(es)| == |es| - 1
  {
    if |es| > 1 {
      var t := es[..|es| - 1][0 := es[|es| - 1]];
      assert forall k :: 0 < k < |t| ==> t[k] == es[k];
      SunkHeap(t, 0, 0);
      HeapFromRoot(IdsOf(Sunk(t, 0)));
    }
  }

  /** The one entry of a list of one. */
  lemma LastOut(a: seq<Student>, ord: seq<nat>)
    requires Links(a, ord) && Full(ord, 1)
    ensures |ord| == 1 && ord[0] == 0 && Links(a, []) && Full([], 0) && IsHeap(IdsOf(Entries(a, 0)))
        && Listed(a, []) == Without(Listed(a, ord), 0)
  {
  }

  lemma Position(a: seq<Student>, ord: seq<nat>, n: nat, i: nat) returns (k: nat)
    requires Links(a, ord) && Full(ord, n) && i < n
    ensures k < |ord| == n && ord[k] == i < |a| && Listed(a, ord)[k] == EntryOf(a[i])
  {
    assert i in ord;
    k :| k < |ord| && ord[k] == i;
  }

  /** (k - 1) / 2 as C computes it, rounding toward zero. */
  function ParentIndex(k: nat): nat { if k == 0 then 0 else Parent(k) }

  lemma RiseStart(ids: seq<int>, t: seq<int>)
    requires IsHeap(ids) && |t| == |ids| + 1 && t[..|ids|] == ids
    ensures Rising(t, |ids|)
  {
    assert forall k :: 0 <= k < |ids| ==> t[k] == t[..|ids|][k];
  }

  lemma IdOnly(a: seq<Student>, ord: seq<nat>, k: nat, id: int)
    requires Links(a, ord) && k < |ord|
    ensures ord[k] < |a|
    ensures var t := a[ord[k] := a[ord[k]].(id := id)];
      Links(t, ord) && Listed(t, ord) == Listed(a, ord)[k := Entry(id, a[ord[k]].name)]
  {
    hide Links, Slots, EntryOf;
    LinkAt(a, ord, k, k);
    var t := a[ord[k] := a[ord[k]].(id := id)];
    SameLinks(a, t, ord);
    forall j | 0 <= j < |ord|
      ensures EntryOf(t[ord[j]]) == if j == k then Entry(id, a[ord[k]].name) else EntryOf(a[ord[j]])
    {
      LinkAt(a, ord, k, j);
      IsEntry(t[ord[k]], id, a[ord[k]].name);
    }
  }

  lemma IdOnlyEntries(a: seq<Student>, n: nat, i: nat, id: int)
    requires i < n <= |a|
    ensures Entries(a[i := a[i].(id := id)], n) == Entries(a, n)[i := Entry(id, a[i].name)]
  {
  }

  lemma IsEntry(s: Student, id: int, name: string)
    requires s.id == id && s.name == name
    ensures EntryOf(s) == Entry(id, name)
  {
  }

  lemma SameLinks(a: seq<Student>, t: seq<Student>, ord: seq<nat>)
    requires Links(a, ord) && |t| == |a| && forall i :: 0 <= i < |a| ==> t[i].pre == a[i].pre && t[i].next == a[i].next
    ensures Links(t, ord) && Slots(|t|, ord)
  {
  }

  lemma LeastAtRoot(a: seq<Student>, ord: seq<nat>, n: nat)
    requires Links(a, ord) && Full(ord, n) && n <= |a| && IsHeap(IdsOf(Entries(a, n)))
    ensures n > 0 ==> NoneBelow(Listed(a, ord), a[0].id)
  {
    forall k | 0 <= k < |ord| ensures a[0].id <= Listed(a, ord)[k].id {
      RootIsLeast(IdsOf(Entries(a, n)), ord[k]);
    }
  }

  // ------------------------------------------------------------------ draining

  /** One top-and-pop: the least entry `x` leaves, the others keep their order. */
  ghost predicate PopsLeast(c: seq<Entry>, x: Entry, d: seq<Entry>) {
    NoneBelow(c, x.id) && exists k :: 0 <= k < |c| && c[k] == x && d == Without(c, k)
  }

  ghost predicate NoneBelow(c: seq<Entry>, id: int) { forall e :: e in c ==> id <= e.id }

  lemma RootPops(a: seq<Student>, ord: seq<nat>, n: nat, k: nat)
    requires Links(a, ord) && Full(ord, n) && 0 < n <= |a| && IsHeap(IdsOf(Entries(a, n))) && k < |ord| && ord[k] == 0
    ensures PopsLeast(Listed(a, ord), EntryOf(a[0]), Without(Listed(a, ord), k))
  {
    LeastAtRoot(a, ord, n);
  }

  lemma AllListed(a: seq<Student>, ord: seq<nat>)
    requires Links(a, ord) && Full(ord, 0)
    ensures Listed(a, ord) == []
  {
    FullParts(ord, 0);
  }

  /** Popping until the list is empty yields every entry once, in ascending order of ids. */
  lemma {:induction false} DrainsSorted(cs: seq<seq<Entry>>, xs: seq<Entry>)
    requires |cs| == |xs| + 1 && cs[|xs|] == []
    requires forall i :: 0 <= i < |xs| ==> PopsLeast(cs[i], xs[i], cs[i + 1])
    ensures multiset(xs) == multiset(cs[0])
    ensures forall i, j :: 0 <= i < j < |xs| ==> xs[i].id <= xs[j].id
    decreases |xs|
  {
    if xs != [] {
      hide Without;
      var rest := xs[1..];
      DrainsSorted(cs[1..], rest);
      assert xs == [xs[0]] + rest;
      PoppedMultiset(cs[0], xs[0], cs[1]);
      forall j | 0 < j < |xs| ensures xs[0].id <= xs[j].id {
        assert rest[j - 1] in multiset(rest);
        assert xs[j] in multiset(cs[0]);
      }
      forall i, j | 0 <= i < j < |xs| ensures xs[i].id <= xs[j].id {
        if i > 0 { assert rest[i - 1].id <= rest[j - 1].id; }
      }
    }
  }

  lemma PoppedMultiset(c: seq<Entry>, x: Entry, d: seq<Entry>)
    requires PopsLeast(c, x, d)
    ensures multiset(c) == multiset(d) + multiset{x} && NoneBelow(c, x.id)
  {
    var k :| 0 <= k < |c| && c[k] == x && d == Without(c, k);
    TakeOutMultiset(c, k);
  }

  lemma EntryId(a: Student)
    ensures EntryOf(a).id == a.id
  {
  }

  lemma SameEntry(a: Student, b: Student)
    requires a.id == b.id && a.name == b.name
    ensures EntryOf(a) == EntryOf(b)
  {
  }

  lemma HeadIsSlot(a: seq<Student>, ord: seq<nat>, n: nat, e: nat)
    requires Links(a, ord) && Full(ord, n)
    ensures LinkIndex(First(ord), |a|) && First(ord) < n && (e >= n ==> e !in ord)
    ensures |ord| == n
  {
  }

  lemma FrontFull(ord: seq<nat>, n: nat)
    requires Full(ord, n)
    ensures Full([n] + ord, n + 1)
  {
    var r: seq<nat> := [n] + ord;
    forall i: nat | i < n + 1 ensures i in r {
      if i < n { assert i in ord; }
    }
    forall j, k | 0 <= j < k < |r| ensures r[j] != r[k] { assert r[k] == ord[k - 1]; }
  }

  lemma FrontedIs(a: seq<Student>, t: seq<Student>, head: int, e: nat, x: Student)
    requires LinkIndex(head, |a|) && head != e && e < |a| == |t| && t[e] == x
    requires forall i :: 0 <= i < |a| && i != e ==> t[i] == if i == head then a[i].(pre := e) else a[i]
    ensures t == Fronted(a, head, e, x)
  {
  }

  lemma FrontedEntries(a: seq<Student>, head: int, e: nat, x: Student)
    requires LinkIndex(head, |a|) && e < |a|
    ensures Entries(Fronted(a, head, e, x), e + 1) == Entries(a, e) + [EntryOf(x)]
  {
    hide Fronted, EntryOf;
    FrontSelf(a, head, e, x);
  }

  lemma HeadHasNoPre(a: seq<Student>, ord: seq<nat>, k: nat)
    requires Links(a, ord) && k < |ord|
    ensures ord[k] < |a| && (a[ord[k]].pre == -1 <==> First(ord) == ord[k])
  {
    LinkAt(a, ord, 0, k);
  }

  lemma Positions(a: seq<Student>, ord: seq<nat>, n: nat, p: nat, c: nat) returns (kp: nat, kc: nat)
    requires Links(a, ord) && Full(ord, n) && p < n && c < n && p != c
    ensures kp < |ord| && kc < |ord| && kp != kc && ord[kp] == p && ord[kc] == c
    ensures Indices(a, p) && Indices(a, c)
  {
    assert p in ord && c in ord;
    kp :| kp < |ord| && ord[kp] == p;
    kc :| kc < |ord| && ord[kc] == c;
    LinkAt(a, ord, kp, kc);
  }
}
