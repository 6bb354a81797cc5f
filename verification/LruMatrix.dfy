/** LRU by a square bit matrix (page_replacement.c, LRU_matrix): on a use of frame r its row is set to 1
    and then its column to 0; the frame with the fewest ones in its row is the victim. */
module LruMatrix {
  import opened Basics
  import opened Frames
  import opened Matrices
  import opened Lru

  /** Ones in a row. */
  function Ones(row: seq<int>): (n: nat)
    ensures n <= |row|
  {
    if row == [] then 0 else Ones(row[..|row| - 1]) + if row[|row| - 1] == 1 then 1 else 0
  }

  ghost function OnesAt(row: seq<int>): set<nat> { set j: nat | j < |row| && row[j] == 1 }

  lemma {:induction false} OnesSize(row: seq<int>)
    ensures Ones(row) == |OnesAt(row)|
    decreases |row|
  {
    if row != [] {
      var m := |row| - 1;
      OnesSize(row[..m]);
      if row[m] == 1 {
        assert OnesAt(row) == OnesAt(row[..m]) + {m};
      } else {
        assert OnesAt(row) == OnesAt(row[..m]);
      }
    }
  }

  /** The first of the rows with the fewest ones. */
  ghost predicate LeastRow(rows: seq<seq<int>>, r: nat) {
    && r < |rows|
    && (forall i :: 0 <= i < |rows| ==> Ones(rows[r]) <= Ones(rows[i]))
    && (forall i :: 0 <= i < r ==> Ones(rows[r]) < Ones(rows[i]))
  }

  /** A used frame's row has ones exactly at the frames used no later; an unused frame's row has none. */
  ghost predicate Ages(rows: seq<seq<int>>, s: State, f: nat)
    requires Valid(s, f)
  {
    && |rows| == f && (forall i :: 0 <= i < f ==> |rows[i]| == f)
    && forall a, b :: 0 <= a < f && 0 <= b < f ==>
         rows[s.order[a]][s.order[b]] == if s.frames[s.order[a]] != EMPTY && b <= a then 1 else 0
  }

  ghost function PrefixSet(order: seq<nat>, a: nat): set<nat>
    requires a <= |order|
  {
    if a == 0 then {} else PrefixSet(order, a - 1) + {order[a - 1]}
  }

  lemma {:induction false} PrefixIs(order: seq<nat>, f: nat, a: nat)
    requires Permutation(order, f) && a <= f
    ensures |PrefixSet(order, a)| == a
    ensures forall b :: 0 <= b < f ==> (order[b] in PrefixSet(order, a) <==> b < a)
    ensures forall x :: x in PrefixSet(order, a) ==> x < f
    decreases a
  {
    if a > 0 { PrefixIs(order, f, a - 1); }
  }

  lemma OnesOfFrame(rows: seq<seq<int>>, s: State, f: nat, a: nat)
    requires Valid(s, f) && Ages(rows, s, f) && a < f
    ensures s.order[a] < f && Ones(rows[s.order[a]]) == if s.frames[s.order[a]] == EMPTY then 0 else a + 1
  {
    var row := rows[s.order[a]];
    OnesSize(row);
    PrefixIs(s.order, f, a + 1);
    forall j: nat | j < f
      ensures row[j] == 1 <==> s.frames[s.order[a]] != EMPTY && j in PrefixSet(s.order, a + 1)
    {
      assert j in s.order;
      var b :| 0 <= b < f && s.order[b] == j;
    }
    if s.frames[s.order[a]] == EMPTY {
      assert OnesAt(row) == {};
    } else {
      assert OnesAt(row) == PrefixSet(s.order, a + 1);
    }
  }

  /** The victim of the matrix is the least recently used frame, the first unused one while there is one. */
  lemma LeastIsBottom(rows: seq<seq<int>>, s: State, f: nat, recent: seq<int>, r: nat)
    requires f > 0 && Valid(s, f) && Ages(rows, s, f) && Reflects(s, f, recent) && Pages(recent) && LeastRow(rows, r)
    ensures r == s.order[0]
  {
    hide Ages, Ones;
    assert |rows| == f by { SizeOf(rows, s, f); }
    assert r in s.order;
    var a: nat :| a < f && s.order[a] == r;
    OnesOfFrame(rows, s, f, a);
    OnesOfFrame(rows, s, f, 0);
    var m := Min(f, |recent|);
    assert s.frames[s.order[0]] == EMPTY || (m == f && s.frames[s.order[f - 1 - (f - 1)]] == recent[f - 1]);
    if a >= f - m { assert s.frames[s.order[f - 1 - (f - 1 - a)]] == recent[f - 1 - a]; }
  }

  lemma SizeOf(rows: seq<seq<int>>, s: State, f: nat)
    requires Valid(s, f) && Ages(rows, s, f)
    ensures |rows| == f
  {
  }

  /** Row `r` to 1, then column `r` except its diagonal to 0. */
  ghost predicate Marked(rows: seq<seq<int>>, t: seq<seq<int>>, r: nat) {
    && |t| == |rows| && (forall i :: 0 <= i < |rows| ==> |t[i]| == |rows[i]| == |rows|)
    && forall i, j :: 0 <= i < |rows| && 0 <= j < |rows| ==>
         t[i][j] == if i == r then 1 else if j == r then 0 else rows[i][j]
  }

  /** Marking the frame at position `k` is what moving it to the end of the order means. */
  lemma MarkedAges(rows: seq<seq<int>>, t: seq<seq<int>>, s: State, f: nat, k: nat, frames: seq<int>)
    requires Valid(s, f) && Ages(rows, s, f) && k < f && Marked(rows, t, s.order[k])
    requires |frames| == f && frames[s.order[k]] != EMPTY
    requires forall i :: 0 <= i < f && i != s.order[k] ==> frames[i] == s.frames[i]
    ensures Valid(State(frames, Touch(s.order, k)), f)
    ensures Ages(t, State(frames, Touch(s.order, k)), f)
  {
    TouchPermutation(s.order, f, k);
    var order := Touch(s.order, k);
    forall a, b | 0 <= a < f && 0 <= b < f
      ensures t[order[a]][order[b]] == if frames[order[a]] != EMPTY && b <= a then 1 else 0
    {
      MarkedAt(rows, t, s, f, k, a, b);
    }
  }

  lemma MarkedAt(rows: seq<seq<int>>, t: seq<seq<int>>, s: State, f: nat, k: nat, a: nat, b: nat)
    requires Valid(s, f) && Ages(rows, s, f) && k < f && Marked(rows, t, s.order[k]) && a < f && b < f
    ensures var order := Touch(s.order, k);
      && order[a] < f && order[b] < f && (order[a] == s.order[k] <==> a == f - 1)
      && t[order[a]][order[b]] == if a == f - 1 || (s.frames[order[a]] != EMPTY && b <= a) then 1 else 0
  {
  }

  /** setrow1 and setcolumn0 */
  method Mark(matrix: array2<int>, r: nat)
    requires matrix.Length0 == matrix.Length1 && r < matrix.Length0
    modifies matrix
    ensures Marked(old(Rows(matrix)), Rows(matrix), r)
  {
    var i := 0;
    while i < matrix.Length1
      invariant 0 <= i <= matrix.Length1
      invariant forall a, b :: 0 <= a < matrix.Length0 && 0 <= b < matrix.Length1 ==>
        matrix[a, b] == if a == r && b < i then 1 else old(matrix[a, b])
    {
      matrix[r, i] := 1;
      i := i + 1;
    }
    i := 0;
    while i < matrix.Length0
      invariant 0 <= i <= matrix.Length0
      invariant forall a, b :: 0 <= a < matrix.Length0 && 0 <= b < matrix.Length1 ==>
        matrix[a, b] == if a == r then 1 else if b == r && a < i then 0 else old(matrix[a, b])
    {
      if i != r { matrix[i, r] := 0; }
      i := i + 1;
    }
  }

  /** find_least_row */
  method FindLeastRow(matrix: array2<int>) returns (leastRow: nat)
    requires matrix.Length0 == matrix.Length1 > 0
    ensures LeastRow(Rows(matrix), leastRow)
  {
    var f := matrix.Length0;
    ghost var rows := Rows(matrix);
    var leastOneSum := f;
    leastRow := 0;
    var i := 0;
    while i < f
      invariant 0 <= i <= f && leastRow < f
      invariant forall a :: 0 <= a < i ==> leastOneSum <= Ones(rows[a])
      invariant leastOneSum == Ones(rows[leastRow]) || (leastOneSum == f && leastRow == 0)
      invariant leastOneSum <= f && forall a :: 0 <= a < leastRow ==> leastOneSum < Ones(rows[a])
    {
      var oneSum := 0;
      var j := 0;
      while j < f
        invariant 0 <= j <= f && oneSum == Ones(rows[i][..j])
      {
        assert rows[i][..j + 1][..j] == rows[i][..j];
        if matrix[i, j] == 1 { oneSum := oneSum + 1; }
        j := j + 1;
      }
      assert rows[i][..f] == rows[i];
      if oneSum < leastOneSum {
        leastOneSum := oneSum;
        leastRow := i;
      }
      i := i + 1;
    }
  }

  /** The frame holding a resident page is the one at its place in the order, and there is only one. */
  lemma FrameOfPage(s: State, f: nat, recent: seq<int>, p: int, j: nat)
    requires Valid(s, f) && Reflects(s, f, recent) && NoRepeats(recent) && p != EMPTY && j < f && s.frames[j] == p
    ensures Find(s, f, p) < f && s.order[Find(s, f, p)] == j
  {
    assert j in s.order;
    var a :| 0 <= a < f && s.order[a] == j;
    var k := Find(s, f, p);
    var m := Min(f, |recent|);
    assert k < f;
    assert s.frames[s.order[f - 1 - (f - 1 - a)]] == recent[f - 1 - a]
        && s.frames[s.order[f - 1 - (f - 1 - k)]] == recent[f - 1 - k];
  }

  lemma NotFound(s: State, f: nat, p: int)
    requires Valid(s, f) && forall j :: 0 <= j < f ==> s.frames[j] != p
    ensures Find(s, f, p) == f
  {
  }

  /** One turn of the loop of LRU_matrix, in a state reached by `refs`. */
  method Reference(p: int, pageFrame: array<int>, matrix: array2<int>, ghost f: nat, ghost refs: seq<int>)
      returns (fault: bool)
    requires f > 0 && Pages(refs) && p != EMPTY && pageFrame.Length == f && matrix.Length0 == matrix.Length1 == f
    requires pageFrame[..] == After(f, refs).frames && Ages(Rows(matrix), After(f, refs), f)
    modifies pageFrame, matrix
    ensures var (s, faults) := Step(After(f, refs), f, p);
      pageFrame[..] == s.frames && fault == faults && Valid(s, f) && Ages(Rows(matrix), s, f)
  {
    hide Ages, Marked, LeastRow, Permutation, Reflects, NoRepeats, Touch;
    ghost var s := After(f, refs);
    ReflectsAlways(f, refs);
    RecentIs(refs);
    StepValid(s, f, p);
    var j: nat := 0;
    while j < pageFrame.Length
      invariant j <= f && forall i :: 0 <= i < j ==> pageFrame[i] != p
      modifies {}
    {
      if pageFrame[j] == p { break; }
      j := j + 1;
    }
    fault := j == pageFrame.Length;
    if !fault {
      FrameOfPage(s, f, Recent(refs), p, j);
      Mark(matrix, j);
      MarkedAges(old(Rows(matrix)), Rows(matrix), s, f, Find(s, f, p), s.frames);
    } else {
      NotFound(s, f, p);
      RecentPages(refs);
      var leastOneRow := FindLeastRow(matrix);
      LeastIsBottom(Rows(matrix), s, f, Recent(refs), leastOneRow);
      InFrames(s, f);
      pageFrame[leastOneRow] := p;
      Mark(matrix, leastOneRow);
      MarkedAges(old(Rows(matrix)), Rows(matrix), s, f, 0, pageFrame[..]);
    }
  }

  lemma InFrames(s: State, f: nat)
    requires Valid(s, f) && f > 0
    ensures |s.order| == f && s.order[0] < f
  {
  }

  lemma RecentPages(refs: seq<int>)
    requires Pages(refs)
    ensures Pages(Recent(refs))
  {
    RecentIs(refs);
    var recent := Recent(refs);
    forall a | 0 <= a < |recent|
      ensures recent[a] != EMPTY
    {
      assert recent[a] in recent;
      assert recent[a] in refs;
    }
  }

  /** LRU_matrix on a string of page numbers: exactly what LRU_stack prints. */
  method Run(refs: seq<int>, f: nat) returns (trace: seq<Shown>)
    requires f > 0 && Pages(refs)
    ensures trace == Trace(f, refs)
  {
    hide Step, Permutation;
    var pageFrame := new int[f](_ => EMPTY);
    var matrix := new int[f, f]((_, _) => 0);
    trace := [];
    Started(Rows(matrix), pageFrame[..], f);
    var i := 0;
    while i < |refs|
      invariant 0 <= i <= |refs|
      invariant pageFrame[..] == After(f, refs[..i]).frames && Ages(Rows(matrix), After(f, refs[..i]), f)
      invariant trace == Trace(f, refs[..i])
    {
      NextReference(f, refs, i);
      var fault := Reference(refs[i], pageFrame, matrix, f, refs[..i]);
      trace := trace + [Shown(pageFrame[..], fault)];
      i := i + 1;
    }
    assert refs[..|refs|] == refs;
  }

  lemma Started(rows: seq<seq<int>>, frames: seq<int>, f: nat)
    requires f > 0 && |rows| == f
    requires forall i :: 0 <= i < f ==> |rows[i]| == f && forall j :: 0 <= j < f ==> rows[i][j] == 0
    requires |frames| == f && forall k :: 0 <= k < f ==> frames[k] == EMPTY
    ensures frames == After(f, []).frames && Ages(rows, After(f, []), f)
  {
    InitValid(f);
  }
}
