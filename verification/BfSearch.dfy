/** Breadth-first iterators, and the search for the DIE at an offset that prunes subtrees. */
module BfSearch {
  import opened DieTree
  import opened DieRoot
  import BF = BreadthFirst

  /** The iterators it and those in queue were issued for the DIEs s.i and those in s.q. */
  ghost predicate Represents(tree: Layout, parentOf: map<nat, nat>, it: Iter, queue: seq<Iter>, s: BF.State) {
    && BF.InRange(tree, s) && it == ItAt(tree, s.i) && |queue| == |s.q|
    && (0 < s.i < |tree| ==> it.off in parentOf)
    && (forall k :: 0 <= k < |queue| ==> queue[k] == ItAt(tree, s.q[k]) && (s.q[k] > 0 ==> queue[k].off in parentOf))
  }

  class BfIterator {
    const root: Root
    var pos: Iter
    var queue: seq<Iter>
    ghost var state: BF.State

    ghost predicate Valid()
      reads this, root
    {
      root.Valid() && Represents(root.tree, root.parentOf, pos, queue, state)
    }

    constructor FromIter(root: Root, it: Iter, ghost i: nat)
      requires root.Valid() && (if it == End then i == |root.tree| else root.Issued(it, i))
      ensures Valid() && this.root == root && state == BF.State(i, []) && pos == it
    {
      this.root, pos, queue, state := root, it, [], BF.State(i, []);
    }

    constructor Copy(that: BfIterator)
      requires that.Valid()
      ensures Valid() && root == that.root && state == that.state && pos == that.pos
    {
      root, pos, queue, state := that.root, that.pos, that.queue, that.state;
    }

    /** Moves to the next sibling or else to the head of the queue, queueing the first child. */
    method Increment()
      requires Valid() && pos != End
      modifies this, root`firstChildOf, root`nextSiblingOf, root`parentOf
      ensures Valid() && state == BF.Step(root.tree, old(state), false)
      ensures old(root.parentOf.Keys) <= root.parentOf.Keys
    {
      hide Consistent, SubtreeEnd;
      ghost var i := state.i;
      var firstChild := root.GetFirstChild(pos, i);
      if firstChild != End {
        queue := queue + [firstChild];
        state := BF.State(i, state.q + [FirstChild(root.tree, i).value]);
      }
      Move();
    }

    /** The same, without queueing the first child. */
    method IncrementSkippingSubtree()
      requires Valid() && pos != End
      modifies this, root`firstChildOf, root`nextSiblingOf, root`parentOf
      ensures Valid() && state == BF.Step(root.tree, old(state), true)
      ensures old(root.parentOf.Keys) <= root.parentOf.Keys
    {
      Move();
    }

    method Move()
      requires Valid() && pos != End
      modifies this, root`nextSiblingOf, root`parentOf
      ensures Valid() && state == BF.Step(root.tree, old(state), true)
      ensures old(root.parentOf.Keys) <= root.parentOf.Keys
    {
      hide Consistent, SubtreeEnd;
      ghost var i := state.i;
      var sibling := root.GetNextSibling(pos, i);
      state := BF.Step(root.tree, state, true);
      if sibling != End {
        pos := sibling;
      } else if |queue| > 0 {
        pos, queue := queue[0], queue[1..];
      } else {
        pos := End;
      }
    }
  }

  /** The DIE at the given offset, or the end if there is none. */
  method FindDownwards(root: Root, off: nat) returns (r: Iter)
    requires root.Valid()
    modifies root`firstChildOf, root`nextSiblingOf, root`parentOf
    ensures root.Valid() && old(root.parentOf.Keys) <= root.parentOf.Keys
    ensures HasOff(root.tree, off) ==>
              r == ItAt(root.tree, Index(root.tree, off)) && root.Issued(r, Index(root.tree, off))
    ensures !HasOff(root.tree, off) ==> r == End
  {
    hide Consistent, Searching, BF.Step, Measure;
    ghost var L := root.tree;
    assert IsLayout(L) by { TreeIsLayout(root); }
    var pos := new BfIterator.FromIter(root, At(0, 0), 0);
    StartCovers(L, off);
    while pos.pos != End && pos.pos.off != off
      invariant fresh(pos) && pos.root == root && pos.Valid() && old(root.parentOf.Keys) <= root.parentOf.Keys
      invariant Searching(L, pos.state, off)
      decreases Measure(L, pos.state)
    {
      ghost var s := pos.state;
      FullStep(L, s, off);
      var next := new BfIterator.Copy(pos);
      next.Increment();
      if next.pos != End && next.pos.depth == pos.pos.depth {
        ForwardOffset(L, s, off);
        assert next.pos.off > pos.pos.off;
        if pos.pos.off < off < next.pos.off {
          ResetStep(L, s, off);
          var newPos := new BfIterator.FromIter(root, pos.pos, pos.state.i);
          newPos.Increment();
          pos := newPos;
        } else {
          SkipStep(L, s, off);
          pos.IncrementSkippingSubtree();
        }
      } else {
        pos.Increment();
      }
    }
    r := pos.pos;
    FoundOrNot(L, pos.state, off);
  }

  /** The parent of an entry, found downwards from the root if it is not known; that of a compilation unit
      is the root. */
  method Parent(root: Root, it: Iter, ghost i: nat) returns (r: Iter)
    requires root.Valid() && i < |root.tree| && it == ItAt(root.tree, i)
    modifies root`firstChildOf, root`nextSiblingOf, root`parentOf
    ensures root.Valid() && old(root.parentOf.Keys) <= root.parentOf.Keys
    ensures if i == 0 then r == End else IsLayout(root.tree) && root.Issued(r, ParentIndex(root.tree, i))
  {
    hide Consistent;
    TreeIsLayout(root);
    RootIsZero(root.tree, i);
    if it.depth == 1 {
      ParentOfUnit(root.tree, i);
      return At(0, 0);
    }
    if it.off != 0 && it.off !in root.parentOf {
      IndexAt(root.tree, i);
      var found := FindDownwards(root, it.off);
    }
    r := root.GetParent(it, i);
  }

  lemma ParentOfUnit(L: Layout, i: nat)
    requires IsLayout(L) && 0 < i < |L| && L[i].depth == 1
    ensures ParentIndex(L, i) == 0 && ItAt(L, 0) == At(0, 0)
  {
  }

  lemma FoundOrNot(L: Layout, s: BF.State, off: nat)
    requires IsLayout(L) && Searching(L, s, off) && (s.i < |L| ==> L[s.i].off == off)
    ensures HasOff(L, off) <==> s.i < |L|
    ensures HasOff(L, off) ==> s.i == Index(L, off)
  {
    if s.i < |L| { IndexAt(L, s.i); }
  }

  /** If there is a DIE at off, it has not been lost. */
  ghost predicate Searching(L: Layout, s: BF.State, off: nat) {
    && BF.InRange(L, s) && (s.i < |L| ==> BF.Inv(L, s))
    && (HasOff(L, off) ==> s.i < |L| && BF.Covers(L, s, Index(L, off)))
  }

  lemma StartCovers(L: Layout, off: nat)
    requires IsLayout(L)
    ensures Searching(L, BF.State(0, []), off)
  {
    BF.SiblingsEndUnique(L, 0, |L|);
  }

  ghost function Measure(L: Layout, s: BF.State): nat
    requires IsLayout(L) && s.i <= |L|
  {
    if s.i < |L| then (DepthBound(L, s.i); (|L| - L[s.i].depth) * (|L| + 1) + |L| - s.i) else 0
  }

  lemma DepthBound(L: Layout, i: nat)
    requires IsLayout(L) && i < |L|
    ensures L[i].depth <= i
  {
    if i > 0 { DepthBound(L, i - 1); }
  }

  lemma MeasureDown(L: Layout, s: BF.State, t: BF.State)
    requires IsLayout(L) && s.i < |L| && t.i <= |L| && (t.i < |L| ==> BF.Before(L, s.i, t.i))
    ensures Measure(L, t) < Measure(L, s)
  {
    DepthBound(L, s.i);
    if t.i < |L| {
      DepthBound(L, t.i);
      assert L[s.i].depth <= L[t.i].depth && (L[s.i].depth == L[t.i].depth ==> s.i < t.i);
      Lexicographic(|L| - L[s.i].depth, |L| - L[t.i].depth, |L| - s.i, |L| - t.i, |L| + 1);
    } else {
      Lexicographic(|L| - L[s.i].depth, 0, |L| - s.i, 0, |L| + 1);
    }
  }

  lemma Lexicographic(a: nat, b: nat, x: nat, y: nat, n: nat)
    requires (b < a && y < n) || (b == a && y < x)
    ensures b * n + y < a * n + x
  {
    if b < a {
      Times(b + 1, a, n);
    }
  }

  lemma Times(a: nat, b: nat, n: nat)
    requires a <= b
    ensures a * n <= b * n
  {
  }

  lemma FullStep(L: Layout, s: BF.State, off: nat)
    requires IsLayout(L) && Searching(L, s, off) && s.i < |L| && L[s.i].off != off
    ensures var n := BF.Step(L, s, false); Searching(L, n, off) && Measure(L, n) < Measure(L, s)
  {
    hide BF.Covers, BF.Inv, BF.Step, BF.Before, Measure;
    var n := BF.Step(L, s, false);
    if HasOff(L, off) { BF.StepCovers(L, s, Index(L, off)); }
    if n.i < |L| { BF.StepKeepsInv(L, s, false); }
    MeasureDown(L, s, n);
  }

  lemma ForwardOffset(L: Layout, s: BF.State, off: nat)
    requires Searching(L, s, off) && s.i < |L| && BF.Step(L, s, false).i < |L|
    requires L[BF.Step(L, s, false).i].depth == L[s.i].depth
    ensures L[BF.Step(L, s, false).i].off > L[s.i].off
  {
    BF.StepForward(L, s, false);
  }

  lemma OffsetsOrder(L: Layout, a: nat, b: nat)
    requires IsLayout(L) && a < |L| && b < |L|
    ensures L[a].off < L[b].off <==> a < b
  {
  }

  /** A subtree that cannot hold the offset can be skipped. */
  lemma SkipStep(L: Layout, s: BF.State, off: nat)
    requires IsLayout(L) && Searching(L, s, off) && s.i < |L| && L[s.i].off != off
    requires BF.Step(L, s, false).i < |L| && L[BF.Step(L, s, false).i].depth == L[s.i].depth
    requires !(L[s.i].off < off < L[BF.Step(L, s, false).i].off)
    ensures var n := BF.Step(L, s, true); Searching(L, n, off) && Measure(L, n) < Measure(L, s)
  {
    hide BF.Covers, BF.Inv, BF.Step, BF.Before, Measure;
    var n, f := BF.Step(L, s, true), BF.Step(L, s, false);
    if HasOff(L, off) {
      var t := Index(L, off);
      BF.BetweenIsBelow(L, s, t);
      OffsetsOrder(L, s.i, t);
      OffsetsOrder(L, t, f.i);
      BF.SkipCovers(L, s, true, t);
    }
    if n.i < |L| { BF.StepKeepsInv(L, s, true); }
    MeasureDown(L, s, n);
  }

  /** If the offset lies between the two positions, only the subtree of the first can hold it, and the
      search can start afresh from there. */
  lemma ResetStep(L: Layout, s: BF.State, off: nat)
    requires IsLayout(L) && Searching(L, s, off) && s.i < |L|
    requires BF.Step(L, s, false).i < |L| && L[BF.Step(L, s, false).i].depth == L[s.i].depth
    requires L[s.i].off < off < L[BF.Step(L, s, false).i].off
    ensures var n := BF.Step(L, BF.State(s.i, []), false); Searching(L, n, off) && Measure(L, n) < Measure(L, s)
  {
    hide BF.Step, BF.Before, Measure;
    var anew := BF.State(s.i, []);
    if HasOff(L, off) {
      var t := Index(L, off);
      OffsetsOrder(L, s.i, t);
      OffsetsOrder(L, t, BF.Step(L, s, false).i);
      BF.BetweenIsBelow(L, s, t);
      assert t < SubtreeEnd(L, s.i) <= BF.SiblingsEnd(L, s.i);
      assert BF.Covers(L, anew, t);
    }
    FullStep(L, anew, off);
    assert Measure(L, anew) == Measure(L, s) by { SameMeasure(L, s, anew); }
  }

  lemma SameMeasure(L: Layout, s: BF.State, t: BF.State)
    requires IsLayout(L) && s.i == t.i <= |L|
    ensures Measure(L, s) == Measure(L, t)
  {
  }
}
