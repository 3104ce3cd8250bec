/** Breadth-first order on the tree of DIEs, and what a breadth-first iterator still has to visit. */
module BreadthFirst {
  import opened Wrappers
  import opened DieTree

  /** The index just after the last of i's siblings and their subtrees. */
  function SiblingsEnd(L: Layout, i: nat): (e: nat)
    requires i < |L|
    ensures i < e <= |L|
    ensures forall k :: i <= k < e ==> L[k].depth >= L[i].depth
    ensures e < |L| ==> L[e].depth < L[i].depth
  {
    SiblingsEndFrom(L, i, i + 1)
  }

  function SiblingsEndFrom(L: Layout, i: nat, j: nat): (e: nat)
    requires i < j <= |L|
    requires forall k :: i <= k < j ==> L[k].depth >= L[i].depth
    ensures j <= e <= |L|
    ensures forall k :: i <= k < e ==> L[k].depth >= L[i].depth
    ensures e < |L| ==> L[e].depth < L[i].depth
    decreases |L| - j
  {
    if j < |L| && L[j].depth >= L[i].depth then SiblingsEndFrom(L, i, j + 1) else j
  }

  /** Level by level, and in preorder within a level. */
  predicate Before(L: Layout, a: nat, b: nat)
    requires a < |L| && b < |L|
  {
    L[a].depth < L[b].depth || (L[a].depth == L[b].depth && a < b)
  }

  /** The state of the iterator: the current index, |L| at the end, and the queued indices. */
  datatype State = State(i: nat, q: seq<nat>)

  predicate InRange(L: Layout, s: State) {
    s.i <= |L| && forall k :: 0 <= k < |s.q| ==> s.q[k] < |L|
  }

  function Dequeue(L: Layout, q: seq<nat>): State {
    if q == [] then State(|L|, []) else State(q[0], q[1..])
  }

  /** One step: the next sibling if there is one, and otherwise the head of the queue. The first child is
      queued unless the subtree is to be skipped. */
  function Step(L: Layout, s: State, skip: bool): (t: State)
    requires s.i < |L| && InRange(L, s)
    ensures InRange(L, t)
  {
    var q := if skip || FirstChild(L, s.i).None? then s.q else s.q + [FirstChild(L, s.i).value];
    if NextSibling(L, s.i).Some? then State(NextSibling(L, s.i).value, q) else Dequeue(L, q)
  }

  /** Queued indices are first children, in breadth-first order: those on the current level lie beyond
      the siblings of the current DIE, and those one level down have their parents before it. */
  ghost predicate Inv(L: Layout, s: State) {
    && IsLayout(L) && s.i < |L| && InRange(L, s)
    && (forall k :: 0 <= k < |s.q| ==> Queued(L, s.i, s.q[k]))
    && (forall j, k :: 0 <= j < k < |s.q| ==> Before(L, s.q[j], s.q[k]))
  }

  ghost predicate Queued(L: Layout, i: nat, c: nat)
    requires i < |L|
  {
    && 0 < c < |L| && FirstChild(L, c - 1) == Some(c)
    && (L[c].depth == L[i].depth || L[c].depth == L[i].depth + 1)
    && (L[c].depth == L[i].depth ==> SiblingsEnd(L, i) <= c)
    && (L[c].depth == L[i].depth + 1 ==> c < i)
  }

  /** The t-th DIE is among the subtrees of the current DIE, its later siblings, and the queued ones and
      their siblings. */
  ghost predicate Covers(L: Layout, s: State, t: nat) {
    && InRange(L, s) && s.i < |L|
    && (s.i <= t < SiblingsEnd(L, s.i) || exists k :: 0 <= k < |s.q| && s.q[k] <= t < SiblingsEnd(L, s.q[k]))
  }

  lemma SiblingsEndUnique(L: Layout, i: nat, e: nat)
    requires i < e <= |L|
    requires forall k :: i <= k < e ==> L[k].depth >= L[i].depth
    requires e < |L| ==> L[e].depth < L[i].depth
    ensures SiblingsEnd(L, i) == e
  {
    assert SiblingsEnd(L, i) <= e && e <= SiblingsEnd(L, i);
  }

  lemma SiblingSameEnd(L: Layout, i: nat)
    requires i < |L| && NextSibling(L, i).Some?
    ensures SiblingsEnd(L, NextSibling(L, i).value) == SiblingsEnd(L, i)
    ensures i < NextSibling(L, i).value < SiblingsEnd(L, i)
  {
    var e, n := SiblingsEnd(L, i), NextSibling(L, i).value;
    assert n < e;
    SiblingsEndUnique(L, n, e);
  }

  lemma ChildrenEnd(L: Layout, i: nat)
    requires i < |L| && FirstChild(L, i).Some?
    ensures SiblingsEnd(L, i + 1) == SubtreeEnd(L, i)
  {
    SiblingsEndUnique(L, i + 1, SubtreeEnd(L, i));
  }

  lemma NoChildEnd(L: Layout, i: nat)
    requires IsLayout(L) && i < |L| && FirstChild(L, i).None?
    ensures SubtreeEnd(L, i) == i + 1
  {
  }

  /** Of two queued DIEs on one level, the later one is beyond the siblings of the earlier. */
  lemma QueuedApart(L: Layout, b: nat, c: nat)
    requires b < c < |L| && L[b].depth == L[c].depth && FirstChild(L, c - 1) == Some(c)
    ensures SiblingsEnd(L, b) <= c
  {
    assert L[c - 1].depth < L[c].depth;
    assert !(b <= c - 1 < SiblingsEnd(L, b));
  }

  /** The queue after the current DIE's first child has been queued, if it is. */
  function Enqueued(L: Layout, s: State, skip: bool): seq<nat>
    requires s.i < |L|
  {
    if skip || FirstChild(L, s.i).None? then s.q else s.q + [FirstChild(L, s.i).value]
  }

  lemma EnqueuedSorted(L: Layout, s: State, skip: bool)
    requires Inv(L, s)
    ensures var q := Enqueued(L, s, skip);
            && (forall k :: 0 <= k < |q| ==>
                q[k] < |L| && (Queued(L, s.i, q[k]) || (q[k] == s.i + 1 && FirstChild(L, s.i) == Some(q[k]))))
            && (forall j, k :: 0 <= j < k < |q| ==> Before(L, q[j], q[k]))
  {
    var q := Enqueued(L, s, skip);
    forall j, k | 0 <= j < k < |q| ensures Before(L, q[j], q[k]) {
      assert Queued(L, s.i, s.q[j]);
      if k < |s.q| { assert q[k] == s.q[k]; }
    }
  }

  /** What is queued stays so when the iterator moves to the next sibling, or to the head of the queue. */
  lemma QueuedAfterSibling(L: Layout, i: nat, c: nat)
    requires IsLayout(L) && i < |L| && NextSibling(L, i).Some?
    requires c < |L| && (Queued(L, i, c) || (c == i + 1 && FirstChild(L, i) == Some(c)))
    ensures Queued(L, NextSibling(L, i).value, c)
  {
    SiblingSameEnd(L, i);
    if c == i + 1 && FirstChild(L, i) == Some(c) {
      assert c < SubtreeEnd(L, i);
    }
  }

  lemma QueuedAfterDequeue(L: Layout, i: nat, b: nat, c: nat)
    requires IsLayout(L) && i < |L|
    requires b < |L| && (Queued(L, i, b) || (b == i + 1 && FirstChild(L, i) == Some(b)))
    requires c < |L| && (Queued(L, i, c) || (c == i + 1 && FirstChild(L, i) == Some(c)))
    requires Before(L, b, c)
    ensures Queued(L, b, c)
  {
    if L[b].depth == L[c].depth {
      QueuedApart(L, b, c);
    } else if c == i + 1 && FirstChild(L, i) == Some(c) {
      assert c < SiblingsEnd(L, i);
    }
  }

  /** A step keeps the invariant, and moves strictly forward in breadth-first order. */
  lemma StepKeepsInv(L: Layout, s: State, skip: bool)
    requires Inv(L, s) && Step(L, s, skip).i < |L|
    ensures Inv(L, Step(L, s, skip)) && Before(L, s.i, Step(L, s, skip).i)
  {
    hide Queued, Before, FirstChild;
    var q, t := Enqueued(L, s, skip), Step(L, s, skip);
    EnqueuedSorted(L, s, skip);
    StepForward(L, s, skip);
    if NextSibling(L, s.i).Some? {
      forall k | 0 <= k < |t.q| ensures Queued(L, t.i, t.q[k]) {
        QueuedAfterSibling(L, s.i, q[k]);
      }
    } else {
      forall k | 0 <= k < |t.q| ensures Queued(L, t.i, t.q[k]) {
        QueuedAfterDequeue(L, s.i, q[0], q[k + 1]);
      }
    }
  }

  lemma StepForward(L: Layout, s: State, skip: bool)
    requires Inv(L, s) && Step(L, s, skip).i < |L|
    ensures Before(L, s.i, Step(L, s, skip).i)
  {
    EnqueuedSorted(L, s, skip);
    var q := Enqueued(L, s, skip);
    if NextSibling(L, s.i).None? {
      assert Queued(L, s.i, q[0]) || (q[0] == s.i + 1 && FirstChild(L, s.i) == Some(q[0]));
    }
  }

  lemma CoversMember(L: Layout, s: State, k: nat, t: nat)
    requires InRange(L, s) && s.i < |L| && k < |s.q| && s.q[k] <= t < SiblingsEnd(L, s.q[k])
    ensures Covers(L, s, t)
  {
  }

  /** A full step loses only the current DIE. */
  lemma StepCovers(L: Layout, s: State, t: nat)
    requires Inv(L, s) && Covers(L, s, t) && t != s.i
    ensures Step(L, s, false).i < |L| && Covers(L, Step(L, s, false), t)
  {
    var q, n := Enqueued(L, s, false), Step(L, s, false);
    if s.i < t < SubtreeEnd(L, s.i) {
      if FirstChild(L, s.i).None? { NoChildEnd(L, s.i); }
      ChildrenEnd(L, s.i);
      assert q[|q| - 1] <= t < SiblingsEnd(L, q[|q| - 1]);
      InQueueStays(L, s, false, |q| - 1, t);
    } else {
      SkipCovers(L, s, false, t);
    }
  }

  /** What the queue covers stays covered. */
  lemma InQueueStays(L: Layout, s: State, skip: bool, k: nat, t: nat)
    requires s.i < |L| && InRange(L, s) && k < |Enqueued(L, s, skip)|
    requires Enqueued(L, s, skip)[k] <= t < SiblingsEnd(L, Enqueued(L, s, skip)[k])
    ensures Step(L, s, skip).i < |L| && Covers(L, Step(L, s, skip), t)
  {
    var q, n := Enqueued(L, s, skip), Step(L, s, skip);
    if NextSibling(L, s.i).Some? {
      CoversMember(L, n, k, t);
    } else if k > 0 {
      CoversMember(L, n, k - 1, t);
    }
  }

  lemma LaterSibling(L: Layout, i: nat, t: nat)
    requires i < |L| && SubtreeEnd(L, i) <= t < SiblingsEnd(L, i)
    ensures NextSibling(L, i).Some? && NextSibling(L, i).value <= t < SiblingsEnd(L, NextSibling(L, i).value)
  {
    assert NextSibling(L, i).Some?;
    SiblingSameEnd(L, i);
  }

  /** A step, with or without the subtree, keeps covering what lies outside the current subtree. */
  lemma SkipCovers(L: Layout, s: State, skip: bool, t: nat)
    requires Inv(L, s) && Covers(L, s, t) && !(s.i <= t < SubtreeEnd(L, s.i))
    ensures Step(L, s, skip).i < |L| && Covers(L, Step(L, s, skip), t)
  {
    hide FirstChild, NextSibling, IsLayout, Before, Queued;
    if s.i <= t < SiblingsEnd(L, s.i) {
      LaterSibling(L, s.i, t);
    } else {
      var k :| 0 <= k < |s.q| && s.q[k] <= t < SiblingsEnd(L, s.q[k]);
      assert Enqueued(L, s, skip)[k] == s.q[k];
      InQueueStays(L, s, skip, k, t);
    }
  }

  /** If a step stays on the level and the t-th DIE lies between the two positions, it is below the first;
      if it does not lie between, it is not below. */
  lemma BetweenIsBelow(L: Layout, s: State, t: nat)
    requires Inv(L, s) && Covers(L, s, t) && Step(L, s, false).i < |L|
    requires L[Step(L, s, false).i].depth == L[s.i].depth
    ensures s.i < t < Step(L, s, false).i <==> s.i < t < SubtreeEnd(L, s.i)
  {
  }
}
