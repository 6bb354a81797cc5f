/** Least-recently-used page replacement as a function of the reference string, and what it means:
    the resident pages are exactly those with fewer than F distinct pages referenced since their last use. */
module Lru {
  import opened Basics
  import opened Frames

  /** Frames in index order, and frame indices from the least to the most recently used. */
  datatype State = State(frames: seq<int>, order: seq<nat>)

  function Init(f: nat): State { State(seq(f, _ => EMPTY), seq(f, i => i)) }

  ghost predicate Permutation(order: seq<nat>, f: nat) {
    && |order| == f && (forall a :: 0 <= a < f ==> order[a] < f)
    && (forall a, b :: 0 <= a < b < f ==> order[a] != order[b])
    && (forall i: nat :: i < f ==> i in order)
  }

  ghost predicate Valid(s: State, f: nat) { |s.frames| == f && Permutation(s.order, f) }

  /** Element `k` moved to the end. */
  function Touch<T>(s: seq<T>, k: nat): (r: seq<T>)
    requires k < |s|
    ensures |r| == |s|
    ensures forall a :: 0 <= a < |s| ==> r[a] == if a < k then s[a] else if a + 1 < |s| then s[a + 1] else s[k]
  {
    s[..k] + s[k + 1..] + [s[k]]
  }

  /** Position in `order` of the first frame holding `p`, from the least recently used, or the length. */
  function Find(s: State, f: nat, p: int): (k: nat)
    requires Valid(s, f)
    ensures k <= f && (k < f ==> s.frames[s.order[k]] == p)
    ensures forall a :: 0 <= a < k ==> s.frames[s.order[a]] != p
  {
    FindFrom(s, f, p, 0)
  }

  function FindFrom(s: State, f: nat, p: int, from: nat): (k: nat)
    requires Valid(s, f) && from <= f
    ensures from <= k <= f && (k < f ==> s.frames[s.order[k]] == p)
    ensures forall a :: from <= a < k ==> s.frames[s.order[a]] != p
    decreases f - from
  {
    if from == f || s.frames[s.order[from]] == p then from else FindFrom(s, f, p, from + 1)
  }

  lemma FindIs(s: State, f: nat, p: int, k: nat)
    requires Valid(s, f) && k <= f && (k < f ==> s.frames[s.order[k]] == p)
    requires forall a :: 0 <= a < k ==> s.frames[s.order[a]] != p
    ensures k == Find(s, f, p)
  {
  }

  /** One reference: a hit makes its frame the most recent, a fault loads the page into the least recent one. */
  function Step(s: State, f: nat, p: int): (State, bool)
    requires Valid(s, f) && f > 0
  {
    var k := Find(s, f, p);
    if k < f then (State(s.frames, Touch(s.order, k)), false)
    else (State(s.frames[s.order[0] := p], Touch(s.order, 0)), true)
  }

  lemma TouchPermutation(order: seq<nat>, f: nat, k: nat)
    requires Permutation(order, f) && k < f
    ensures Permutation(Touch(order, k), f)
  {
    var r := Touch(order, k);
    forall i: nat | i < f ensures i in r {
      assert i in order;
      var a :| 0 <= a < f && order[a] == i;
      assert r[if a < k then a else if a == k then f - 1 else a - 1] == i;
    }
  }

  lemma InitValid(f: nat)
    ensures Valid(Init(f), f)
  {
    forall i: nat | i < f ensures i in Init(f).order { assert Init(f).order[i] == i; }
  }

  lemma StepValid(s: State, f: nat, p: int)
    requires Valid(s, f) && f > 0
    ensures Valid(Step(s, f, p).0, f)
  {
    TouchPermutation(s.order, f, 0);
    var k := Find(s, f, p);
    if k < f { TouchPermutation(s.order, f, k); }
  }

  ghost function After(f: nat, refs: seq<int>): (s: State)
    requires f > 0
    ensures Valid(s, f)
    decreases |refs|
  {
    InitValid(f);
    if refs == [] then Init(f) else
    StepValid(After(f, refs[..|refs| - 1]), f, refs[|refs| - 1]);
    Step(After(f, refs[..|refs| - 1]), f, refs[|refs| - 1]).0
  }

  ghost predicate Faults(f: nat, refs: seq<int>, p: int)
    requires f > 0
  {
    Step(After(f, refs), f, p).1
  }

  /** The printed frames and faults of the whole reference string. */
  ghost function Trace(f: nat, refs: seq<int>): (t: seq<Shown>)
    requires f > 0
    ensures |t| == |refs|
    decreases |refs|
  {
    if refs == [] then [] else
    var m := |refs| - 1;
    Trace(f, refs[..m]) + [Shown(After(f, refs).frames, Faults(f, refs[..m], refs[m]))]
  }

  /** One more reference. */
  lemma NextReference(f: nat, refs: seq<int>, i: nat)
    requires f > 0 && i < |refs|
    ensures var s := After(f, refs[..i]);
      && (After(f, refs[..i + 1]), Faults(f, refs[..i], refs[i])) == Step(s, f, refs[i])
      && Trace(f, refs[..i + 1]) == Trace(f, refs[..i])
           + [Shown(After(f, refs[..i + 1]).frames, Faults(f, refs[..i], refs[i]))]
  {
    assert refs[..i + 1][..i] == refs[..i];
  }

  // ------------------------------------------------------------------ recency

  /** `s` without its (first) element `p`. */
  function Minus(s: seq<int>, p: int): (r: seq<int>)
    ensures forall x :: x in r ==> x in s
  {
    if s == [] then [] else if s[0] == p then s[1..] else [s[0]] + Minus(s[1..], p)
  }

  /** The distinct pages of a reference string, most recently used first. */
  ghost function Recent(refs: seq<int>): seq<int>
    decreases |refs|
  {
    if refs == [] then [] else [refs[|refs| - 1]] + Minus(Recent(refs[..|refs| - 1]), refs[|refs| - 1])
  }

  ghost predicate NoRepeats(s: seq<int>) { forall a, b :: 0 <= a < b < |s| ==> s[a] != s[b] }

  lemma {:induction false} MinusIs(s: seq<int>, p: int)
    requires NoRepeats(s)
    ensures NoRepeats(Minus(s, p)) && p !in Minus(s, p)
    ensures forall x :: x in Minus(s, p) <==> x in s && x != p
    ensures |Minus(s, p)| == |s| - if p in s then 1 else 0
    ensures p !in s ==> Minus(s, p) == s
    decreases |s|
  {
    if s != [] {
      MinusIs(s[1..], p);
      assert s == [s[0]] + s[1..];
      assert s[0] !in s[1..];
      ConsNoRepeats(s[0], Minus(s[1..], p));
    }
  }

  lemma ConsNoRepeats(x: int, t: seq<int>)
    requires NoRepeats(t) && x !in t
    ensures NoRepeats([x] + t)
  {
  }

  lemma {:induction false} MinusAt(s: seq<int>, p: int, k: nat)
    requires NoRepeats(s) && k < |s| && s[k] == p
    ensures Minus(s, p) == s[..k] + s[k + 1..]
    decreases k
  {
    if k > 0 {
      MinusAt(s[1..], p, k - 1);
      assert s[1..][..k - 1] == s[1..k] && s[1..][k..] == s[k + 1..];
    }
  }

  lemma {:induction false} RecentIs(refs: seq<int>)
    ensures NoRepeats(Recent(refs))
    ensures forall x :: x in Recent(refs) <==> x in refs
    decreases |refs|
  {
    if refs != [] {
      var m := |refs| - 1;
      RecentIs(refs[..m]);
      MinusIs(Recent(refs[..m]), refs[m]);
      assert refs == refs[..m] + [refs[m]];
    }
  }

  // ------------------------------------------------------------------ what is resident


  /** The frames, read from the most recent, hold the most recent pages; the unused ones follow in index order. */
  ghost predicate Reflects(s: State, f: nat, recent: seq<int>)
    requires Valid(s, f)
  {
    var m := Min(f, |recent|);
    && (forall a :: 0 <= a < m ==> s.frames[s.order[f - 1 - a]] == recent[a])
    && (forall k :: 0 <= k < f - m ==> s.order[k] == m + k && s.frames[s.order[k]] == EMPTY)
  }

  ghost predicate Pages(refs: seq<int>) { forall i :: 0 <= i < |refs| ==> refs[i] != EMPTY }

  /** The recency list after a use of its element `j`. */
  lemma MovedToFront(r: seq<int>, p: int, j: nat)
    requires NoRepeats(r) && j < |r| && r[j] == p
    ensures var t := [p] + Minus(r, p);
      |t| == |r| && forall a {:trigger t[a]} :: 0 <= a < |r| ==>
          t[a] == if a == 0 then p else if a <= j then r[a - 1] else r[a]
  {
    hide NoRepeats, Minus;
    MinusIs(r, p);
    MinusAt(r, p, j);
  }

  lemma TouchReflects(s: State, f: nat, r: seq<int>, j: nat, t: seq<int>)
    requires Valid(s, f) && Reflects(s, f, r) && j < Min(f, |r|) && |t| == |r|
    requires forall a {:trigger t[a]} :: 0 <= a < |r| ==>
        t[a] == if a == 0 then r[j] else if a <= j then r[a - 1] else r[a]
    requires Valid(State(s.frames, Touch(s.order, f - 1 - j)), f)
    ensures Reflects(State(s.frames, Touch(s.order, f - 1 - j)), f, t)
  {
    hide Touch;
    var order := Touch(s.order, f - 1 - j);
    forall a | 0 <= a < Min(f, |r|) ensures s.frames[order[f - 1 - a]] == t[a] {
      FromRecentAt(s.order, f, j, a);
    }
    forall k: nat | k < f - Min(f, |r|) ensures order[k] == s.order[k] { FromRecentAt(s.order, f, j, f - 1 - k); }
  }

  /** A use counted from the most recent end: what was at `j` comes first, what was before it moves back one. */
  lemma FromRecentAt(order: seq<nat>, f: nat, j: nat, a: nat)
    requires |order| == f && j < f && a < f
    ensures Touch(order, f - 1 - j)[f - 1 - a] == order[f - 1 - (if a == 0 then j else if a <= j then a - 1 else a)]
  {
  }

  lemma HitReflects(s: State, f: nat, recent: seq<int>, p: int)
    requires Valid(s, f) && Reflects(s, f, recent) && NoRepeats(recent) && p != EMPTY && Find(s, f, p) < f
    ensures Valid(Step(s, f, p).0, f) && Reflects(Step(s, f, p).0, f, [p] + Minus(recent, p))
  {
    hide NoRepeats, Minus;
    var j := f - 1 - Find(s, f, p);
    StepValid(s, f, p);
    assert j < Min(f, |recent|);
    assert s.frames[s.order[f - 1 - j]] == recent[j];
    MovedToFront(recent, p, j);
    var t := [p] + Minus(recent, p);
    TouchReflects(s, f, recent, j, t);
  }

  /** The recency list after the use of a page that is not among its first `m`. */
  lemma PutInFront(r: seq<int>, p: int, m: nat)
    requires NoRepeats(r) && m <= |r| && forall a :: 0 <= a < m ==> r[a] != p
    ensures var t := [p] + Minus(r, p);
      && |t| == (if p in r then |r| else |r| + 1)
      && forall a {:trigger t[a]} :: 1 <= a <= m && a < |t| ==> t[a] == r[a - 1]
  {
    hide NoRepeats, Minus;
    MinusIs(r, p);
    if p in r {
      var j :| 0 <= j < |r| && r[j] == p;
      MinusAt(r, p, j);
      var t := [p] + Minus(r, p);
      assert j >= m;
      forall a | 1 <= a <= m && a < |t| ensures t[a] == r[a - 1] {
        assert t[a] == Minus(r, p)[a - 1] == (r[..j] + r[j + 1..])[a - 1];
      }
    }
  }

  lemma LoadReflects(s: State, f: nat, r: seq<int>, p: int, t: seq<int>)
    requires Valid(s, f) && Reflects(s, f, r) && f > 0 && |r| <= |t| <= |r| + 1 && (|r| < f ==> |t| == |r| + 1)
        && |t| > 0
    requires t[0] == p && forall a {:trigger t[a]} :: 1 <= a <= Min(f, |r|) && a < |t| ==> t[a] == r[a - 1]
    requires Valid(State(s.frames[s.order[0] := p], Touch(s.order, 0)), f)
    ensures Reflects(State(s.frames[s.order[0] := p], Touch(s.order, 0)), f, t)
  {
    hide Permutation;
    FirstApart(s.order, f);
    var order := Touch(s.order, 0);
    FirstApart(order, f);
    var frames := s.frames[s.order[0] := p];
    forall a | 0 <= a < Min(f, |t|) ensures frames[order[f - 1 - a]] == t[a] {
      if a > 0 {
        assert order[f - 1 - a] == s.order[f - 1 - (a - 1)] && s.order[f - 1 - (a - 1)] != s.order[0];
        assert t[a] == r[a - 1];
      }
    }
  }

  lemma FirstApart(order: seq<nat>, f: nat)
    requires Permutation(order, f) && f > 0
    ensures |order| == f && forall a :: 0 <= a < f ==> order[a] < f && (a > 0 ==> order[a] != order[0])
  {
  }

  lemma FaultReflects(s: State, f: nat, recent: seq<int>, p: int)
    requires Valid(s, f) && Reflects(s, f, recent) && NoRepeats(recent) && f > 0 && Find(s, f, p) == f
    ensures Valid(Step(s, f, p).0, f) && Reflects(Step(s, f, p).0, f, [p] + Minus(recent, p))
  {
    hide NoRepeats, Minus, Touch;
    var m := Min(f, |recent|);
    StepValid(s, f, p);
    forall a | 0 <= a < m ensures recent[a] != p {
      assert s.frames[s.order[f - 1 - a]] != p;
    }
    PutInFront(recent, p, m);
    LoadReflects(s, f, recent, p, [p] + Minus(recent, p));
  }

  lemma {:induction false} ReflectsAlways(f: nat, refs: seq<int>)
    requires f > 0 && Pages(refs)
    ensures Reflects(After(f, refs), f, Recent(refs))
    decreases |refs|
  {
    if refs != [] {
      var m := |refs| - 1;
      ReflectsAlways(f, refs[..m]);
      RecentIs(refs[..m]);
      var s := After(f, refs[..m]);
      var recent := Recent(refs[..m]);
      forall a | 0 <= a < |recent| ensures recent[a] != EMPTY { assert recent[a] in recent && recent[a] in refs[..m]; }
      if Find(s, f, refs[m]) < f { HitReflects(s, f, recent, refs[m]); } else { FaultReflects(s, f, recent, refs[m]); }
    }
  }

  /** The resident pages are the `f` most recently used distinct ones, or all of them if fewer. */
  lemma Residents(f: nat, refs: seq<int>, q: int)
    requires f > 0 && Pages(refs) && q != EMPTY
    ensures q in After(f, refs).frames <==> q in Recent(refs)[..Min(f, |Recent(refs)|)]
    ensures Faults(f, refs, q) <==> q !in After(f, refs).frames
  {
    var s, recent := After(f, refs), Recent(refs);
    var m := Min(f, |recent|);
    ReflectsAlways(f, refs);
    if q in s.frames {
      var i: nat :| i < f && s.frames[i] == q;
      assert i in s.order;
      var k :| 0 <= k < f && s.order[k] == i;
      assert recent[..m][f - 1 - k] == q;
      assert s.frames[s.order[k]] == q;
    }
    if q in recent[..m] {
      var a :| 0 <= a < m && recent[..m][a] == q;
      assert s.frames[s.order[f - 1 - a]] == q;
    }
  }

  /** A page stays in its frame while it is resident: a hit changes no frame, a fault only that of the page thrown
      out, which is the least recent resident one, or the first unused frame. */
  lemma FramesChange(f: nat, refs: seq<int>, p: int) returns (v: nat)
    requires f > 0 && Pages(refs)
    ensures var before, recent := After(f, refs).frames, Recent(refs);
      && v < f && After(f, refs + [p]).frames == (if p in before then before else before[v := p])
      && before[v] == (if f <= |recent| then recent[f - 1] else EMPTY)
      && (|recent| < f ==> v == |recent|)
  {
    var s := After(f, refs);
    assert (refs + [p])[..|refs|] == refs;
    ReflectsAlways(f, refs);
    v := s.order[0];
    var m := Min(f, |Recent(refs)|);
    assert m == f ==> s.frames[s.order[f - 1 - (f - 1)]] == Recent(refs)[f - 1];
    if p in s.frames {
      var i: nat :| i < f && s.frames[i] == p;
      assert i in s.order;
    }
  }

  // ------------------------------------------------------------------ residence by distance

  /** The references after the last use of `q`. */
  ghost function Since(refs: seq<int>, q: int): seq<int>
    requires q in refs
    decreases |refs|
  {
    var m := |refs| - 1;
    if refs[m] == q then [] else
    assert refs == refs[..m] + [refs[m]];
    Since(refs[..m], q) + [refs[m]]
  }

  ghost function Elements(s: seq<int>): set<int> { set x | x in s }

  lemma {:induction false} ElementsSize(s: seq<int>)
    requires NoRepeats(s)
    ensures |Elements(s)| == |s|
    decreases |s|
  {
    if s != [] {
      var m := |s| - 1;
      ElementsSize(s[..m]);
      assert s == s[..m] + [s[m]];
      assert Elements(s) == Elements(s[..m]) + {s[m]};
      assert s[m] !in s[..m];
    }
  }

  /** The pages more recent than `q` are those referenced since its last use. */
  lemma {:induction false} RecentPosition(refs: seq<int>, q: int) returns (i: nat)
    requires q in refs
    ensures i < |Recent(refs)| && Recent(refs)[i] == q && Elements(Recent(refs)[..i]) == Elements(Since(refs, q))
    decreases |refs|
  {
    var m := |refs| - 1;
    var p := refs[m];
    if p == q {
      i := 0;
    } else {
      assert refs == refs[..m] + [p];
      var j := RecentPosition(refs[..m], q);
      RecentIs(refs[..m]);
      assert Elements(Since(refs, q)) == Elements(Since(refs[..m], q)) + {p};
      i := PositionAfter(Recent(refs[..m]), p, q, j);
    }
  }

  /** Where `q` is, and what precedes it, after a use of another page `p`. */
  lemma PositionAfter(r: seq<int>, p: int, q: int, j: nat) returns (i: nat)
    requires NoRepeats(r) && j < |r| && r[j] == q && p != q
    ensures var t := [p] + Minus(r, p);
      i < |t| && t[i] == q && Elements(t[..i]) == Elements(r[..j]) + {p}
  {
    hide NoRepeats, Minus;
    var t := [p] + Minus(r, p);
    if k :| 0 <= k < j && r[k] == p {
      MovedToFront(r, p, k);
      i := j;
      forall x ensures x in t[..i] <==> x in r[..j] {
        if x in t[..i] {
          var a :| 0 <= a < i && t[a] == x;
          assert r[..j][if a == 0 then k else if a <= k then a - 1 else a] == x;
        }
        if x in r[..j] {
          var a :| 0 <= a < j && r[a] == x;
          assert t[..i][if a == k then 0 else if a < k then a + 1 else a] == x;
        }
      }
      assert p in r[..j] by { assert r[..j][k] == p; }
    } else {
      i := j + 1;
      MinusKeepsPrefix(r, p, j);
      var w := Minus(r, p);
      assert t[i] == w[j] && w[j] == w[..j + 1][j] && r[j] == r[..j + 1][j];
      assert w[..j] == w[..j + 1][..j] && r[..j] == r[..j + 1][..j];
      assert t[..i] == [p] + r[..j];
    }
  }

  lemma {:induction false} MinusKeepsPrefix(r: seq<int>, p: int, j: nat)
    requires j < |r| && forall k :: 0 <= k <= j ==> r[k] != p
    ensures j < |Minus(r, p)| && Minus(r, p)[..j + 1] == r[..j + 1]
    decreases j
  {
    if j == 0 {
    } else {
      MinusKeepsPrefix(r[1..], p, j - 1);
      assert Minus(r, p)[..j + 1] == [r[0]] + Minus(r[1..], p)[..j];
      assert r[..j + 1] == [r[0]] + r[1..][..j];
    }
  }

  /** A page is resident exactly when it was used and fewer than `f` distinct pages were since. */
  lemma ResidentIff(f: nat, refs: seq<int>, q: int)
    requires f > 0 && Pages(refs) && q != EMPTY
    ensures q in After(f, refs).frames <==> q in refs && |Elements(Since(refs, q))| < f
  {
    Residents(f, refs, q);
    RecentIs(refs);
    var r := Recent(refs);
    if q in refs {
      var i := RecentPosition(refs, q);
      ElementsSize(r[..i]);
      assert forall k :: 0 <= k < |r| && k != i ==> r[k] != q;
      assert q in r[..Min(f, |r|)] <==> i < f by {
        if i < f { assert r[..Min(f, |r|)][i] == q; }
      }
    }
  }

  /** More frames hold more pages: LRU has no anomaly. */
  lemma Inclusion(f: nat, g: nat, refs: seq<int>, q: int)
    requires 0 < f <= g && Pages(refs) && q != EMPTY
    ensures q in After(f, refs).frames ==> q in After(g, refs).frames
    ensures Faults(g, refs, q) ==> Faults(f, refs, q)
  {
    ResidentIff(f, refs, q);
    ResidentIff(g, refs, q);
    Residents(f, refs, q);
    Residents(g, refs, q);
  }

  ghost function FaultCount(f: nat, refs: seq<int>): nat
    requires f > 0
    decreases |refs|
  {
    if refs == [] then 0 else
    var m := |refs| - 1;
    FaultCount(f, refs[..m]) + if Faults(f, refs[..m], refs[m]) then 1 else 0
  }

  lemma {:induction false} MoreFramesFewerFaults(f: nat, g: nat, refs: seq<int>)
    requires 0 < f <= g && Pages(refs)
    ensures FaultCount(g, refs) <= FaultCount(f, refs)
    decreases |refs|
  {
    if refs != [] {
      var m := |refs| - 1;
      MoreFramesFewerFaults(f, g, refs[..m]);
      Inclusion(f, g, refs[..m], refs[m]);
    }
  }
}
