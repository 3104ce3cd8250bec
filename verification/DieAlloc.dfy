/** Growing the tree of DIEs: a new DIE becomes the last child of its parent, at the offset just after
    the parent's subtree, if there is room there. */
module DieAlloc {
  import opened Wrappers
  import opened DieTree
  import opened DieRoot
  import opened DieIterators
  import opened BfSearch

  /** The tree with a new last child of the i-th DIE. */
  ghost function Insert(L: Layout, i: nat, o: nat): Layout
    requires i < |L|
  {
    var e := SubtreeEnd(L, i);
    L[..e] + [Entry(o, L[i].depth + 1)] + L[e..]
  }

  /** The new offset lies strictly between those of its neighbours in preorder. */
  ghost predicate Fits(L: Layout, i: nat, o: nat) {
    && IsLayout(L) && i < |L|
    && var e := SubtreeEnd(L, i);
       L[e - 1].off < o && (e < |L| ==> o < L[e].off)
  }

  /** Where the j-th DIE ends up. */
  ghost function Moved(L: Layout, i: nat, j: nat): nat
    requires i < |L|
  {
    if j < SubtreeEnd(L, i) then j else j + 1
  }

  lemma InsertedAt(L: Layout, i: nat, o: nat, j: nat)
    requires i < |L|
    ensures |Insert(L, i, o)| == |L| + 1
    ensures Insert(L, i, o)[SubtreeEnd(L, i)] == Entry(o, L[i].depth + 1)
    ensures j < |L| ==> Insert(L, i, o)[Moved(L, i, j)] == L[j]
    ensures j < |Insert(L, i, o)| && j != SubtreeEnd(L, i) ==>
              Insert(L, i, o)[j] == L[if j < SubtreeEnd(L, i) then j else j - 1]
  {
  }

  lemma InsertIsLayout(L: Layout, i: nat, o: nat)
    requires Fits(L, i, o)
    ensures IsLayout(Insert(L, i, o))
  {
    InsertedDepths(L, i, o);
    InsertedOffsets(L, i, o);
  }

  lemma InsertedDepths(L: Layout, i: nat, o: nat)
    requires Fits(L, i, o)
    ensures forall k: nat :: 0 < k <= |L| ==> 1 <= Insert(L, i, o)[k].depth <= Insert(L, i, o)[k - 1].depth + 1
  {
    hide Insert, SubtreeEnd;
    var M, e := Insert(L, i, o), SubtreeEnd(L, i);
    InsertedAt(L, i, o, 0);
    forall k: nat | 0 < k <= |L| ensures 1 <= M[k].depth <= M[k - 1].depth + 1 {
      InsertedAt(L, i, o, k);
      InsertedAt(L, i, o, k - 1);
    }
  }

  lemma InsertedOffsets(L: Layout, i: nat, o: nat)
    requires Fits(L, i, o)
    ensures forall j: nat, k: nat :: j < k <= |L| ==> Insert(L, i, o)[j].off < Insert(L, i, o)[k].off
  {
    hide Insert, SubtreeEnd;
    var M, e := Insert(L, i, o), SubtreeEnd(L, i);
    InsertedAt(L, i, o, 0);
    forall j: nat, k: nat | j < k <= |L| ensures M[j].off < M[k].off {
      InsertedAt(L, i, o, k);
      InsertedAt(L, i, o, j);
    }
  }

  /** The i-th DIE and those above it whose subtrees end where its own does gain the new DIE. */
  lemma InsertedEnd(L: Layout, i: nat, o: nat, j: nat)
    requires Fits(L, i, o) && j < |L|
    ensures var e, f := SubtreeEnd(L, i), SubtreeEnd(L, j);
            SubtreeEnd(Insert(L, i, o), Moved(L, i, j))
            == if f < e || (f == e && L[j].depth > L[i].depth) then f else f + 1
  {
    hide Insert, IsLayout;
    var M, e, f := Insert(L, i, o), SubtreeEnd(L, i), SubtreeEnd(L, j);
    var g := if f < e || (f == e && L[j].depth > L[i].depth) then f else f + 1;
    var j' := Moved(L, i, j);
    if j < e && f > e {
      assert L[e].depth > L[j].depth;
    }
    InsertedAt(L, i, o, j);
    forall k | j' < k < g ensures M[k].depth > M[j'].depth {
      InsertedAt(L, i, o, k);
    }
    InsertedAt(L, i, o, g);
    SubtreeEndUnique(M, j', g);
  }

  lemma NewIsLeaf(L: Layout, i: nat, o: nat)
    requires Fits(L, i, o)
    ensures var M, e := Insert(L, i, o), SubtreeEnd(L, i);
            SubtreeEnd(M, e) == e + 1 && FirstChild(M, e).None? && NextSibling(M, e).None?
  {
    SubtreeEndUnique(Insert(L, i, o), SubtreeEnd(L, i), SubtreeEnd(L, i) + 1);
  }

  /** The l-th DIE is the last child of the i-th. */
  ghost predicate IsLastChild(L: Layout, i: nat, l: nat) {
    i < |L| && l < |L| && IsParent(L, i, l) && SubtreeEnd(L, l) == SubtreeEnd(L, i)
  }

  lemma InsertedFirstChild(L: Layout, i: nat, o: nat, j: nat)
    requires Fits(L, i, o) && j < |L|
    ensures FirstChild(Insert(L, i, o), Moved(L, i, j)) ==
            if j == i && FirstChild(L, i).None? then Some(SubtreeEnd(L, i))
            else if FirstChild(L, j).Some? then Some(Moved(L, i, FirstChild(L, j).value)) else None
  {
    var M, e := Insert(L, i, o), SubtreeEnd(L, i);
    if j == e - 1 {
      assert j > i ==> L[j].depth > L[i].depth;
    }
  }

  lemma InsertedNextSibling(L: Layout, i: nat, o: nat, j: nat)
    requires Fits(L, i, o) && j < |L|
    ensures NextSibling(Insert(L, i, o), Moved(L, i, j)) ==
            if IsLastChild(L, i, j) then Some(SubtreeEnd(L, i))
            else if NextSibling(L, j).Some? then Some(Moved(L, i, NextSibling(L, j).value)) else None
  {
    InsertedEnd(L, i, o, j);
    var M, e, f := Insert(L, i, o), SubtreeEnd(L, i), SubtreeEnd(L, j);
    if f == e && L[j].depth == L[i].depth + 1 {
      assert i < j;
      forall k | i < k < j ensures L[k].depth >= L[j].depth {}
    }
  }

  lemma InsertedParent(L: Layout, i: nat, o: nat, p: nat, j: nat)
    requires Fits(L, i, o) && IsParent(L, p, j)
    ensures IsParent(Insert(L, i, o), Moved(L, i, p), Moved(L, i, j))
  {
    hide IsLayout, Insert;
    var M, e := Insert(L, i, o), SubtreeEnd(L, i);
    InsertedAt(L, i, o, p);
    InsertedAt(L, i, o, j);
    forall k | Moved(L, i, p) < k < Moved(L, i, j) ensures M[k].depth >= L[j].depth {
      InsertedAt(L, i, o, k);
      if k == e {
        BetweenParent(L, i, p, j);
      }
    }
  }

  lemma BetweenParent(L: Layout, i: nat, p: nat, j: nat)
    requires i < |L| && IsParent(L, p, j) && p < SubtreeEnd(L, i) < |L| && SubtreeEnd(L, i) <= j
    ensures L[i].depth + 1 >= L[j].depth
  {
    var e := SubtreeEnd(L, i);
    assert L[j].depth <= L[e].depth;
  }

  lemma NewParent(L: Layout, i: nat, o: nat)
    requires Fits(L, i, o)
    ensures IsParent(Insert(L, i, o), i, SubtreeEnd(L, i))
  {
    hide IsLayout;
  }

  // ---- The same, by offset ----

  lemma InsertedIndex(L: Layout, i: nat, o: nat, a: nat)
    requires Fits(L, i, o)
    ensures HasOff(L, a) ==>
              HasOff(Insert(L, i, o), a) && Index(Insert(L, i, o), a) == Moved(L, i, Index(L, a)) && a != o
    ensures a == o ==> HasOff(Insert(L, i, o), a) && Index(Insert(L, i, o), a) == SubtreeEnd(L, i)
    ensures HasOff(Insert(L, i, o), a) && a != o ==> HasOff(L, a)
  {
    hide Insert, SubtreeEnd;
    var M, e := Insert(L, i, o), SubtreeEnd(L, i);
    InsertIsLayout(L, i, o);
    InsertedAt(L, i, o, 0);
    if HasOff(L, a) {
      InsertedAt(L, i, o, Index(L, a));
      IndexAt(M, Moved(L, i, Index(L, a)));
    }
    if a == o {
      IndexAt(M, e);
    } else if HasOff(M, a) {
      var k := Index(M, a);
      InsertedAt(L, i, o, k);
      assert L[if k < e then k else k - 1].off == a;
    }
  }

  lemma FirstChildEdges(L: Layout, i: nat, o: nat, a: nat, c: nat)
    requires Fits(L, i, o)
    ensures IsFirstChild(Insert(L, i, o), a, c) <==>
            IsFirstChild(L, a, c) || (a == L[i].off && FirstChild(L, i).None? && c == o)
  {
    hide Insert, SubtreeEnd, FirstChild, IsLayout;
    var e := SubtreeEnd(L, i);
    IndexAt(L, i);
    InsertedIndex(L, i, o, a);
    NewIsLeaf(L, i, o);
    InsertedAt(L, i, o, e);
    if HasOff(L, a) {
      var j := Index(L, a);
      InsertedFirstChild(L, i, o, j);
      if FirstChild(L, j).Some? { FirstChildInRange(L, j); InsertedAt(L, i, o, FirstChild(L, j).value); }
    }
  }

  lemma FirstChildInRange(L: Layout, i: nat)
    requires i < |L| && FirstChild(L, i).Some?
    ensures FirstChild(L, i).value < |L|
  {
  }

  lemma NextSiblingInRange(L: Layout, i: nat)
    requires i < |L| && NextSibling(L, i).Some?
    ensures NextSibling(L, i).value < |L|
  {
  }

  /** The new edge to a next sibling starts at the last child of the DIE at the offset, if there is one. */
  lemma NextSiblingEdges(L: Layout, i: nat, o: nat, a: nat, s: nat)
    requires Fits(L, i, o)
    ensures IsNextSibling(Insert(L, i, o), a, s) <==>
            IsNextSibling(L, a, s) || (HasOff(L, a) && IsLastChild(L, i, Index(L, a)) && s == o)
  {
    hide Insert, SubtreeEnd, NextSibling, IsLayout, IsLastChild;
    var e := SubtreeEnd(L, i);
    InsertedIndex(L, i, o, a);
    NewIsLeaf(L, i, o);
    InsertedAt(L, i, o, e);
    if HasOff(L, a) {
      var j := Index(L, a);
      InsertedNextSibling(L, i, o, j);
      LastHasNoSibling(L, i, j);
      if NextSibling(L, j).Some? { NextSiblingInRange(L, j); InsertedAt(L, i, o, NextSibling(L, j).value); }
    }
  }

  lemma LastHasNoSibling(L: Layout, i: nat, l: nat)
    requires i < |L|
    ensures IsLastChild(L, i, l) ==> NextSibling(L, l).None?
  {
  }

  lemma ParentEdges(L: Layout, i: nat, o: nat, p: nat, a: nat)
    requires Fits(L, i, o)
    ensures IsParentOff(L, p, a) ==> IsParentOff(Insert(L, i, o), p, a)
    ensures IsParentOff(Insert(L, i, o), L[i].off, o)
  {
    hide Insert, SubtreeEnd, IsLayout, IsParent, Fits;
    IndexAtFits(L, i, o);
    InsertedIndex(L, i, o, p);
    InsertedIndex(L, i, o, a);
    InsertedIndex(L, i, o, o);
    InsertedIndex(L, i, o, L[i].off);
    NewParent(L, i, o);
    if IsParentOff(L, p, a) { InsertedParent(L, i, o, Index(L, p), Index(L, a)); }
  }

  lemma IndexAtFits(L: Layout, i: nat, o: nat)
    requires Fits(L, i, o)
    ensures HasOff(L, L[i].off) && Index(L, L[i].off) == i && !HasOff(L, o)
  {
    IndexAt(L, i);
    InsertedIndex(L, i, o, o);
  }

  /** The caches with the edges of the new DIE. */
  function Linked(c: Caches, p: nat, last: Option<nat>, o: nat): Caches {
    var d := c.(parentOf := c.parentOf[o := p]);
    if last.None? then d.(firstChildOf := d.firstChildOf[p := o])
    else d.(nextSiblingOf := d.nextSiblingOf[last.value := o])
  }

  /** The last child of the i-th DIE, by offset, if it has children. */
  ghost predicate IsLastOff(L: Layout, i: nat, last: Option<nat>) {
    && i < |L|
    && (last.None? <==> FirstChild(L, i).None?)
    && (last.Some? ==> HasOff(L, last.value) && IsLastChild(L, i, Index(L, last.value)))
  }

  lemma LinkedCaches(L: Layout, c: Caches, i: nat, last: Option<nat>, o: nat)
    requires Fits(L, i, o) && CachesOk(L, c) && IsLastOff(L, i, last)
    requires i == 0 || L[i].off in c.parentOf
    ensures CachesOk(Insert(L, i, o), Linked(c, L[i].off, last, o))
  {
    hide Insert, IsFirstChild, IsNextSibling, IsParentOff, IsLayout, IsLastChild;
    var M, d := Insert(L, i, o), Linked(c, L[i].off, last, o);
    IndexAtFits(L, i, o);
    forall a | a in d.firstChildOf ensures IsFirstChild(M, a, d.firstChildOf[a]) {
      FirstChildEdges(L, i, o, a, d.firstChildOf[a]);
    }
    forall a | a in d.nextSiblingOf ensures IsNextSibling(M, a, d.nextSiblingOf[a]) {
      NextSiblingEdges(L, i, o, a, d.nextSiblingOf[a]);
    }
    forall a | a in d.parentOf ensures IsParentOff(M, d.parentOf[a], a) { ParentEdges(L, i, o, d.parentOf[a], a); }
    assert L[0].off == 0 by { RootOffset(L, i, o); }
  }

  lemma RootOffset(L: Layout, i: nat, o: nat)
    requires Fits(L, i, o)
    ensures IsLayout(L) && L[0].off == 0
  {
  }

  lemma LinkedServes(L: Layout, file: Layout, c: Caches, live: set<nat>, i: nat, last: Option<nat>, o: nat)
    requires Fits(L, i, o) && Serves(L, file, c, live) && IsLastOff(L, i, last)
    ensures Serves(Insert(L, i, o), file, Linked(c, L[i].off, last, o), live + {o})
  {
    hide Insert, IsFirstChild, IsNextSibling, IsParentOff, IsLayout, IsLastChild, FileFirstChild, FileNextSibling;
    var M, d := Insert(L, i, o), Linked(c, L[i].off, last, o);
    forall a: nat, t: nat
      ensures IsFirstChild(M, a, t) ==> FileFirstChild(file, a) == Some(t) || (a in d.firstChildOf && t in live + {o})
      ensures FileFirstChild(file, a) == Some(t) ==> IsFirstChild(M, a, t)
    {
      FirstChildEdges(L, i, o, a, t);
    }
    forall a: nat, t: nat
      ensures IsNextSibling(M, a, t) ==>
                FileNextSibling(file, a) == Some(t) || (a in d.nextSiblingOf && t in live + {o})
      ensures FileNextSibling(file, a) == Some(t) ==> IsNextSibling(M, a, t)
    {
      NextSiblingEdges(L, i, o, a, t);
      if HasOff(L, a) && IsLastChild(L, i, Index(L, a)) { RootOffset(L, i, o); LastIsUnique(L, i, last, a); }
    }
  }

  lemma LastIsUnique(L: Layout, i: nat, last: Option<nat>, a: nat)
    requires IsLayout(L) && IsLastOff(L, i, last) && HasOff(L, a) && IsLastChild(L, i, Index(L, a))
    ensures last == Some(a)
  {
    assert L[i + 1].depth <= L[i].depth + 1;
  }

  /** The new DIE, with its edges cached and itself alive, keeps the root consistent. */
  lemma LinkedIsConsistent(L: Layout, file: Layout, c: Caches, live: set<nat>, i: nat, last: Option<nat>, o: nat)
    requires Fits(L, i, o) && Consistent(L, file, c, live) && IsLastOff(L, i, last)
    requires i == 0 || L[i].off in c.parentOf
    ensures Consistent(Insert(L, i, o), file, Linked(c, L[i].off, last, o), live + {o})
  {
    InsertIsLayout(L, i, o);
    LinkedCaches(L, c, i, last, o);
    LinkedServes(L, file, c, live, i, last, o);
  }

  // ---- Issuing offsets ----

  /** The last child of a DIE that has children. */
  method LastChild(root: Root, first: Iter, ghost i: nat) returns (last: Iter, ghost l: nat)
    requires root.Valid() && i < |root.tree| && FirstChild(root.tree, i).Some?
    requires root.Issued(first, i + 1)
    modifies root`firstChildOf, root`nextSiblingOf, root`parentOf
    ensures root.Valid() && old(root.parentOf.Keys) <= root.parentOf.Keys
    ensures i < l && root.Issued(last, l) && IsLastChild(root.tree, i, l)
  {
    hide Consistent;
    last, l := first, i + 1;
    while true
      invariant root.Valid() && old(root.parentOf.Keys) <= root.parentOf.Keys
      invariant root.Issued(last, l) && IsParent(root.tree, i, l)
      decreases |root.tree| - l
    {
      var next := root.GetNextSibling(last, l);
      if next == End {
        ClimbKeepsEnd(root.tree, l, i);
        return;
      }
      SiblingParent(root.tree, l, i);
      last, l := next, NextSibling(root.tree, l).value;
    }
  }

  /** The last DIE, in preorder, below the given one or itself, noting the last child of each DIE on
      the way. */
  method HighestInSubtree(root: Root, it: Iter, ghost i: nat, seen: map<nat, nat>)
    returns (r: Iter, lastSeen: map<nat, nat>)
    requires root.Valid() && root.Issued(it, i)
    modifies root`firstChildOf, root`nextSiblingOf, root`parentOf
    ensures root.Valid() && old(root.parentOf.Keys) <= root.parentOf.Keys
    ensures root.Issued(r, SubtreeEnd(root.tree, i) - 1)
    ensures FirstChild(root.tree, i).None? ==> r == it
    ensures FirstChild(root.tree, i).Some? ==> r.off > it.off
    ensures FirstChild(root.tree, i).Some? ==> it.off in lastSeen && IsLastOff(root.tree, i, Some(lastSeen[it.off]))
    ensures forall a :: a < it.off ==> (a in seen <==> a in lastSeen) && (a in seen ==> seen[a] == lastSeen[a])
    decreases |root.tree| - i
  {
    hide Consistent, SubtreeEnd, IsLastChild;
    TreeIsLayout(root);
    r := root.GetFirstChild(it, i);
    if r == End {
      LeafEnd(root.tree, i);
      return it, seen;
    }
    ghost var l;
    r, l := LastChild(root, r, i);
    LastOff(root.tree, i, l);
    lastSeen := seen[it.off := r.off];
    r, lastSeen := HighestInSubtree(root, r, l, lastSeen);
  }

  lemma LeafEnd(L: Layout, i: nat)
    requires IsLayout(L) && i < |L| && FirstChild(L, i).None?
    ensures SubtreeEnd(L, i) == i + 1
  {
    SubtreeEndUnique(L, i, i + 1);
  }

  lemma LastOff(L: Layout, i: nat, l: nat)
    requires IsLayout(L) && IsLastChild(L, i, l) && FirstChild(L, i).Some?
    ensures IsLastOff(L, i, Some(L[l].off))
    ensures SubtreeEnd(L, i) == SubtreeEnd(L, l) && L[i].off < L[l].off
  {
    IndexAt(L, l);
  }

  /** Issues an offset for a new last child of a DIE and caches its edges; none if the next subtree
      begins right after. */
  method FreshOffsetUnder(root: Root, pos: Iter, ghost i: nat) returns (o: Option<nat>)
    requires root.Valid() && root.Issued(pos, i)
    modifies root`firstChildOf, root`nextSiblingOf, root`parentOf
    ensures o.None? ==> root.Valid() && forall n: nat :: !Fits(root.tree, i, n)
    ensures o.Some? ==> CanGrow(root, i, o.value) && o.value == NextOff(root.tree, i)
    ensures old(root.parentOf.Keys) <= root.parentOf.Keys
  {
    hide Consistent, IsLastChild;
    TreeIsLayout(root);
    var highest, lastSeen := HighestInSubtree(root, pos, i, map[]);
    var next := IncrementDepthFirst(root, highest, SubtreeEnd(root.tree, i) - 1);
    if next != End && next.off - highest.off <= 1 {
      return None;
    }
    var issued := highest.off + 1;
    if highest.off == pos.off {
      LinkedIsConsistent(root.tree, root.file, root.C(), root.live, i, None, issued);
      root.firstChildOf := root.firstChildOf[pos.off := issued];
    } else {
      var last := lastSeen[pos.off];
      NoSiblingYet(root, i, last);
      assert last !in root.nextSiblingOf;
      LinkedIsConsistent(root.tree, root.file, root.C(), root.live, i, Some(last), issued);
      root.nextSiblingOf := root.nextSiblingOf[last := issued];
    }
    root.parentOf := root.parentOf[issued := pos.off];
    o := Some(issued);
  }

  lemma NoSiblingYet(root: Root, i: nat, last: nat)
    requires root.Valid() && IsLastOff(root.tree, i, Some(last))
    ensures last !in root.nextSiblingOf
  {
    LastHasNoSibling(root.tree, i, Index(root.tree, last));
  }

  /** There is room for o, and its edges are in the caches. */
  ghost predicate CanGrow(root: Root, i: nat, o: nat)
    reads root
  {
    && Fits(root.tree, i, o) && o in root.parentOf
    && Consistent(Insert(root.tree, i, o), root.file, root.C(), root.live + {o})
  }

  /** Issues an offset for a new last compilation unit, past every other DIE. */
  method FreshCuOffset(root: Root) returns (o: nat)
    requires root.Valid()
    modifies root`firstChildOf, root`nextSiblingOf, root`parentOf
    ensures CanGrow(root, 0, o) && o == NextOff(root.tree, 0)
    ensures old(root.parentOf.Keys) <= root.parentOf.Keys
  {
    hide Consistent, IsLastChild, IsLastOff, SubtreeEnd;
    TreeIsLayout(root);
    RootEnd(root.tree);
    var cu := root.GetFirstChild(At(0, 0), 0);
    if cu == End {
      LinkedIsConsistent(root.tree, root.file, root.C(), root.live, 0, None, 1);
      root.firstChildOf := root.firstChildOf[0 := 1];
      root.parentOf := root.parentOf[1 := 0];
      return 1;
    }
    var lastCu, l := LastChild(root, cu, 0);
    IndexAt(root.tree, l);
    o := PastEveryDie(root, lastCu, l);
    CuIsLast(root.tree, l);
    NoSiblingYet(root, 0, lastCu.off);
    assert lastCu.off !in root.nextSiblingOf;
    LinkedIsConsistent(root.tree, root.file, root.C(), root.live, 0, Some(lastCu.off), o);
    root.nextSiblingOf := root.nextSiblingOf[lastCu.off := o];
    root.parentOf := root.parentOf[o := 0];
  }

  lemma RootEnd(L: Layout)
    requires IsLayout(L)
    ensures SubtreeEnd(L, 0) == |L|
    ensures FirstChild(L, 0).Some? <==> |L| > 1
    ensures forall o: nat :: Fits(L, 0, o) <==> L[|L| - 1].off < o
  {
    SubtreeEndUnique(L, 0, |L|);
  }

  lemma CuIsLast(L: Layout, l: nat)
    requires IsLayout(L) && IsLastChild(L, 0, l)
    ensures IsLastOff(L, 0, Some(L[l].off))
  {
    LastOff(L, 0, l);
  }

  /** One more than the offset of the last DIE, found by going on from the last compilation unit. */
  method PastEveryDie(root: Root, lastCu: Iter, ghost l: nat) returns (o: nat)
    requires root.Valid() && root.Issued(lastCu, l) && l > 0
    modifies root`firstChildOf, root`nextSiblingOf, root`parentOf
    ensures root.Valid() && old(root.parentOf.Keys) <= root.parentOf.Keys
    ensures o == root.tree[|root.tree| - 1].off + 1
  {
    hide Consistent;
    var it, off := lastCu, 0;
    ghost var k: nat := l;
    while it != End
      invariant root.Valid() && old(root.parentOf.Keys) <= root.parentOf.Keys
      invariant 0 < k <= |root.tree| && it == ItAt(root.tree, k) && (it.At? ==> root.Issued(it, k))
      invariant it.At? || off == root.tree[k - 1].off
      decreases |root.tree| - k
    {
      off := it.off;
      it := IncrementDepthFirst(root, it, k);
      k := k + 1;
    }
    return off + 1;
  }

  /** Makes a DIE in memory under the given parent, if there is room for its offset. */
  method MakeNew(root: Root, parent: Iter, ghost i: nat) returns (r: Iter)
    requires root.Valid() && root.Issued(parent, i)
    modifies root
    ensures root.Valid() && old(root.parentOf.Keys) <= root.parentOf.Keys
    ensures r == End ==> root.tree == old(root.tree) && forall n: nat :: !Fits(root.tree, i, n)
    ensures r != End ==> Fits(old(root.tree), i, r.off) && root.tree == Insert(old(root.tree), i, r.off)
    ensures r != End ==> r.off == NextOff(old(root.tree), i)
    ensures r != End ==> root.Issued(r, SubtreeEnd(root.tree, i) - 1)
  {
    hide Consistent, Insert, Fits, SubtreeEnd;
    var o: nat;
    if parent.off == 0 {
      ZeroIsRoot(root, i);
      o := FreshCuOffset(root);
    } else {
      var maybe := FreshOffsetUnder(root, parent, i);
      if maybe.None? {
        return End;
      }
      o := maybe.value;
    }
    NewPlace(root.tree, i, o);
    root.live := root.live + {o};
    root.tree := Insert(root.tree, i, o);
    r := Find(root, o);
  }

  lemma ZeroIsRoot(root: Root, i: nat)
    requires root.Valid() && i < |root.tree| && root.tree[i].off == 0
    ensures i == 0
  {
    RootIsZero(root.tree, i);
  }

  lemma NewPlace(L: Layout, i: nat, o: nat)
    requires Fits(L, i, o)
    ensures i < |L| && i < |Insert(L, i, o)| && SubtreeEnd(Insert(L, i, o), i) == SubtreeEnd(L, i) + 1
    ensures HasOff(Insert(L, i, o), o) && Index(Insert(L, i, o), o) == SubtreeEnd(L, i)
  {
    InsertedEnd(L, i, o, i);
    InsertedIndex(L, i, o, o);
  }

  // ---- Room ----

  /** One past the offset of the last DIE of the subtree. */
  ghost function NextOff(L: Layout, i: nat): nat
    requires IsLayout(L) && i < |L|
  {
    L[SubtreeEnd(L, i) - 1].off + 1
  }

  /** How many offsets are left before the next subtree; none stands for any number. */
  ghost function RoomUnder(L: Layout, i: nat): Option<nat>
    requires IsLayout(L) && i < |L|
  {
    var e := SubtreeEnd(L, i);
    if e == |L| then None else Some(L[e].off - L[e - 1].off - 1)
  }

  /** The tree after k more DIEs under the i-th, if each fits. */
  ghost function GrowBy(L: Layout, i: nat, k: nat): Option<Layout>
    requires IsLayout(L) && i < |L|
    decreases k
  {
    if k == 0 then Some(L)
    else if !Fits(L, i, NextOff(L, i)) then None
    else
      InsertIsLayout(L, i, NextOff(L, i));
      GrowBy(Insert(L, i, NextOff(L, i)), i, k - 1)
  }

  lemma RoomShrinks(L: Layout, i: nat)
    requires IsLayout(L) && i < |L|
    ensures Fits(L, i, NextOff(L, i)) <==> RoomUnder(L, i) != Some(0)
    ensures Fits(L, i, NextOff(L, i)) ==>
              var M := Insert(L, i, NextOff(L, i));
              && IsLayout(M) && i < |M|
              && RoomUnder(M, i) == if RoomUnder(L, i).None? then None else Some(RoomUnder(L, i).value - 1)
  {
    hide Insert;
    var o := NextOff(L, i);
    if Fits(L, i, o) {
      var e := SubtreeEnd(L, i);
      InsertIsLayout(L, i, o);
      InsertedEnd(L, i, o, i);
      InsertedAt(L, i, o, e);
      if e < |L| { InsertedAt(L, i, o, e + 1); }
    }
  }

  /** As many more DIEs can be made under one as there are offsets before the next subtree. */
  lemma {:induction false} RoomIsUsed(L: Layout, i: nat, k: nat)
    requires IsLayout(L) && i < |L|
    ensures GrowBy(L, i, k).Some? <==> RoomUnder(L, i).None? || k <= RoomUnder(L, i).value
    decreases k
  {
    hide Insert, Fits, RoomUnder, NextOff;
    RoomShrinks(L, i);
    if k > 0 && Fits(L, i, NextOff(L, i)) { RoomIsUsed(Insert(L, i, NextOff(L, i)), i, k - 1); }
  }

  // ---- Runs ----

  /** Every tree comes from the one before by one new DIE. */
  ghost predicate IsRun(trees: seq<Layout>, parents: seq<nat>, offs: seq<nat>) {
    && |trees| == |parents| + 1 && |offs| == |parents|
    && forall k :: 0 <= k < |parents| ==>
         Fits(trees[k], parents[k], offs[k]) && trees[k + 1] == Insert(trees[k], parents[k], offs[k])
  }

  /** A DIE keeps its offset, its parent and its depth for the rest of the run. */
  lemma {:induction false} RunKeepsDies(trees: seq<Layout>, parents: seq<nat>, offs: seq<nat>, j: nat, k: nat, p: nat,
                                        a: nat)
    requires IsRun(trees, parents, offs) && j <= k <= |parents|
    requires IsParentOff(trees[j], p, a)
    ensures IsParentOff(trees[k], p, a) && trees[k][Index(trees[k], a)] == trees[j][Index(trees[j], a)]
  {
    hide IsParentOff, Insert, Fits;
    if j < k {
      RunKeepsDies(trees, parents, offs, j, k - 1, p, a);
      var L, i, o := trees[k - 1], parents[k - 1], offs[k - 1];
      assert Fits(L, i, o);
      ParentEdges(L, i, o, p, a);
      ParentOffIsReal(L, p, a);
      DieKept(L, i, o, a);
    }
    ParentOffIsReal(trees[j], p, a);
  }

  lemma ParentOffIsReal(L: Layout, p: nat, a: nat)
    requires IsParentOff(L, p, a)
    ensures HasOff(L, p) && HasOff(L, a)
    ensures IsLayout(L) ==> p < a
  {
  }

  lemma DieKept(L: Layout, i: nat, o: nat, a: nat)
    requires Fits(L, i, o) && HasOff(L, a)
    ensures HasOff(Insert(L, i, o), a) && Insert(L, i, o)[Index(Insert(L, i, o), a)] == L[Index(L, a)]
  {
    hide Insert;
    InsertedIndex(L, i, o, a);
    InsertedAt(L, i, o, Index(L, a));
  }

  /** An issued offset is new, and a child of the DIE it was issued under; no offset is issued twice. */
  lemma {:induction false} RunIssuesFresh(trees: seq<Layout>, parents: seq<nat>, offs: seq<nat>, j: nat, k: nat)
    requires IsRun(trees, parents, offs) && j < k <= |parents|
    ensures parents[j] < |trees[j]| && !HasOff(trees[j], offs[j])
    ensures IsParentOff(trees[k], trees[j][parents[j]].off, offs[j])
    ensures k < |parents| ==> offs[j] != offs[k]
  {
    hide IsParentOff, Insert, Fits;
    var L, i, o := trees[j], parents[j], offs[j];
    IndexAtFits(L, i, o);
    ParentEdges(L, i, o, 0, 0);
    RunKeepsDies(trees, parents, offs, j + 1, k, L[i].off, o);
    ParentOffIsReal(trees[k], L[i].off, o);
    if k < |parents| { IndexAtFits(trees[k], parents[k], offs[k]); }
  }

  // ---- Finding DIEs ----

  /** Climbs by the cached parents. */
  method FindUpwards(root: Root, off: nat) returns (r: Iter)
    requires root.Valid()
    ensures off == 0 || off in root.parentOf ==>
              HasOff(root.tree, off) && r == ItAt(root.tree, Index(root.tree, off))
                && root.Issued(r, Index(root.tree, off))
    ensures off != 0 && off !in root.parentOf ==> r == End
  {
    hide Consistent, CachesOk;
    var cur, height := off, 0;
    ghost var i: nat := KnownIndex(root, off);
    ghost var c: nat := i;
    while cur != 0 && cur in root.parentOf
      invariant off == 0 || off in root.parentOf || cur == off
      invariant off == 0 || off in root.parentOf ==>
                  c < |root.tree| && cur == root.tree[c].off && (c == 0 || cur in root.parentOf)
                  && height + root.tree[c].depth == root.tree[i].depth
      decreases cur
    {
      c := StepUp(root, c);
      assert root.parentOf[cur] < cur;
      cur, height := root.parentOf[cur], height + 1;
    }
    if cur == 0 && (off == 0 || off in root.parentOf) { ZeroDepth(root, c); }
    r := if cur == 0 then At(off, height) else End;
  }

  lemma ZeroDepth(root: Root, c: nat)
    requires root.Valid() && c < |root.tree| && root.tree[c].off == 0
    ensures root.tree[c].depth == 0 && c == 0
  {
  }

  lemma StepUp(root: Root, c: nat) returns (p: nat)
    requires root.Valid() && c < |root.tree| && root.tree[c].off in root.parentOf
    ensures p < c && root.tree[p].off == root.parentOf[root.tree[c].off] < root.tree[c].off
    ensures root.tree[p].depth + 1 == root.tree[c].depth
    ensures p == 0 || root.tree[p].off in root.parentOf
  {
    var i := KnownIndex(root, root.tree[c].off);
    IndexAt(root.tree, c);
    p := ParentFacts(root.tree, root.C(), c);
  }

  lemma KnownIndex(root: Root, off: nat) returns (i: nat)
    requires root.Valid()
    ensures i < |root.tree| && root.tree[0].off == 0
    ensures off == 0 || off in root.parentOf ==>
              HasOff(root.tree, off) && Index(root.tree, off) == i && root.tree[i].off == off && (off == 0 <==> i == 0)
  {
    i := 0;
    if off in root.parentOf {
      assert IsParentOff(root.tree, root.parentOf[off], off);
      i := Index(root.tree, off);
      assert IsParent(root.tree, Index(root.tree, root.parentOf[off]), i);
    } else if off == 0 {
      IndexAt(root.tree, 0);
    }
  }

  /** The DIE at an offset, whether or not it was reached before. */
  method Find(root: Root, off: nat) returns (r: Iter)
    requires root.Valid()
    modifies root`firstChildOf, root`nextSiblingOf, root`parentOf
    ensures root.Valid() && old(root.parentOf.Keys) <= root.parentOf.Keys
    ensures HasOff(root.tree, off) ==>
              r == ItAt(root.tree, Index(root.tree, off)) && root.Issued(r, Index(root.tree, off))
    ensures !HasOff(root.tree, off) ==> r == End
  {
    hide Consistent;
    r := FindUpwards(root, off);
    if r == End {
      r := FindDownwards(root, off);
    }
  }
}
