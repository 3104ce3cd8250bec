/** The root object that iterators over DIEs work through. It answers first-child, next-sibling and
    parent queries from caches of edges and, failing that, from the file. */
module DieRoot {
  import opened Wrappers
  import opened DieTree

  ghost predicate HasOff(L: Layout, o: nat) {
    exists i :: 0 <= i < |L| && L[i].off == o
  }

  ghost function Index(L: Layout, o: nat): (i: nat)
    requires HasOff(L, o)
    ensures i < |L| && L[i].off == o
  {
    var i :| 0 <= i < |L| && L[i].off == o;
    i
  }

  lemma IndexAt(L: Layout, i: nat)
    requires IsLayout(L) && i < |L|
    ensures HasOff(L, L[i].off) && Index(L, L[i].off) == i
  {
    var j := Index(L, L[i].off);
    assert i == j;
  }

  function FindIndex(L: Layout, o: nat, i: nat): (r: Option<nat>)
    requires i <= |L|
    ensures r.Some? ==> i <= r.value < |L| && L[r.value].off == o
    ensures r.None? ==> forall k :: i <= k < |L| ==> L[k].off != o
    decreases |L| - i
  {
    if i == |L| then None else if L[i].off == o then Some(i) else FindIndex(L, o, i + 1)
  }

  /** What the DWARF library finds in the file. */
  function FileFirstChild(file: Layout, o: nat): Option<nat> {
    var i := FindIndex(file, o, 0);
    if i.None? || FirstChild(file, i.value).None? then None else Some(file[FirstChild(file, i.value).value].off)
  }

  function FileNextSibling(file: Layout, o: nat): Option<nat> {
    var i := FindIndex(file, o, 0);
    if i.None? || NextSibling(file, i.value).None? then None else Some(file[NextSibling(file, i.value).value].off)
  }

  // ---- The edges of the tree, by offset ----

  ghost predicate IsFirstChild(L: Layout, o: nat, c: nat) {
    HasOff(L, o) && FirstChild(L, Index(L, o)).Some? && L[FirstChild(L, Index(L, o)).value].off == c
  }

  ghost predicate IsNextSibling(L: Layout, o: nat, s: nat) {
    HasOff(L, o) && NextSibling(L, Index(L, o)).Some? && L[NextSibling(L, Index(L, o)).value].off == s
  }

  ghost predicate IsParentOff(L: Layout, p: nat, o: nat) {
    HasOff(L, p) && HasOff(L, o) && IsParent(L, Index(L, p), Index(L, o))
  }

  datatype Caches = Caches(firstChildOf: map<nat, nat>, nextSiblingOf: map<nat, nat>, parentOf: map<nat, nat>)

  /** Cached edges are edges of the tree; a DIE that was reached has its chain of parents cached. */
  ghost predicate CachesOk(L: Layout, c: Caches) {
    && (forall o :: o in c.firstChildOf ==> IsFirstChild(L, o, c.firstChildOf[o]) && c.firstChildOf[o] in c.parentOf)
    && (forall o :: o in c.nextSiblingOf ==>
        IsNextSibling(L, o, c.nextSiblingOf[o]) && c.nextSiblingOf[o] in c.parentOf)
    && (forall o :: o in c.parentOf ==> IsParentOff(L, c.parentOf[o], o))
    && (forall o :: o in c.parentOf ==> c.parentOf[o] == 0 || c.parentOf[o] in c.parentOf)
  }

  /** An edge leads to a DIE of the file, and the file has the edge; or it leads to a DIE made in memory,
      and the edge is cached, and its target alive. */
  ghost predicate Serves(L: Layout, file: Layout, c: Caches, live: set<nat>) {
    && (forall o: nat, t: nat :: IsFirstChild(L, o, t) ==>
          FileFirstChild(file, o) == Some(t) || (o in c.firstChildOf && t in live))
    && (forall o: nat, t: nat :: IsNextSibling(L, o, t) ==>
          FileNextSibling(file, o) == Some(t) || (o in c.nextSiblingOf && t in live))
    && (forall o: nat, t: nat :: FileFirstChild(file, o) == Some(t) ==> IsFirstChild(L, o, t))
    && (forall o: nat, t: nat :: FileNextSibling(file, o) == Some(t) ==> IsNextSibling(L, o, t))
  }

  /** An iterator: the end, or a DIE (or the root) with its depth. */
  datatype Iter = End | At(off: nat, depth: nat)

  /** The iterator that points at the i-th DIE. */
  ghost function ItAt(L: Layout, i: nat): Iter
    requires i <= |L|
  {
    if i < |L| then At(L[i].off, L[i].depth) else End
  }

  ghost function ItAtOption(L: Layout, i: Option<nat>): Iter
    requires i.Some? ==> i.value <= |L|
  {
    if i.Some? then ItAt(L, i.value) else End
  }

  ghost predicate Consistent(L: Layout, file: Layout, c: Caches, live: set<nat>) {
    IsLayout(L) && CachesOk(L, c) && Serves(L, file, c, live)
  }

  lemma FirstChildFacts(L: Layout, file: Layout, c: Caches, live: set<nat>, i: nat)
    requires Consistent(L, file, c, live) && i < |L|
    ensures L[i].off in c.firstChildOf ==>
              FirstChild(L, i).Some? && c.firstChildOf[L[i].off] == L[FirstChild(L, i).value].off
              && c.firstChildOf[L[i].off] in c.parentOf
    ensures FileFirstChild(file, L[i].off).Some? ==>
              FirstChild(L, i).Some? && FileFirstChild(file, L[i].off).value == L[FirstChild(L, i).value].off
    ensures FirstChild(L, i).Some? ==>
              FileFirstChild(file, L[i].off).Some? || (L[i].off in c.firstChildOf && c.firstChildOf[L[i].off] in live)
  {
    IndexAt(L, i);
    if FirstChild(L, i).Some? { assert IsFirstChild(L, L[i].off, L[FirstChild(L, i).value].off); }
    if FileFirstChild(file, L[i].off).Some? { assert IsFirstChild(L, L[i].off, FileFirstChild(file, L[i].off).value); }
  }

  lemma NextSiblingFacts(L: Layout, file: Layout, c: Caches, live: set<nat>, i: nat)
    requires Consistent(L, file, c, live) && i < |L|
    ensures L[i].off in c.nextSiblingOf ==>
              NextSibling(L, i).Some? && c.nextSiblingOf[L[i].off] == L[NextSibling(L, i).value].off
              && c.nextSiblingOf[L[i].off] in c.parentOf
    ensures FileNextSibling(file, L[i].off).Some? ==>
              NextSibling(L, i).Some? && FileNextSibling(file, L[i].off).value == L[NextSibling(L, i).value].off
    ensures NextSibling(L, i).Some? ==>
              FileNextSibling(file, L[i].off).Some?
                || (L[i].off in c.nextSiblingOf && c.nextSiblingOf[L[i].off] in live)
  {
    IndexAt(L, i);
    if NextSibling(L, i).Some? { assert IsNextSibling(L, L[i].off, L[NextSibling(L, i).value].off); }
    if FileNextSibling(file, L[i].off).Some? {
      assert IsNextSibling(L, L[i].off, FileNextSibling(file, L[i].off).value);
    }
  }

  lemma FirstChildEdge(L: Layout, i: nat)
    requires IsLayout(L) && i < |L| && FirstChild(L, i).Some?
    ensures var t := L[FirstChild(L, i).value].off; IsFirstChild(L, L[i].off, t) && IsParentOff(L, L[i].off, t)
    ensures i > 0 ==> L[i].off != 0
  {
    IndexAt(L, i);
    IndexAt(L, FirstChild(L, i).value);
    FirstChildParent(L, i);
  }

  lemma NextSiblingEdge(L: Layout, i: nat, p: nat)
    requires IsLayout(L) && i < |L| && NextSibling(L, i).Some? && IsParentOff(L, p, L[i].off)
    ensures var t := L[NextSibling(L, i).value].off; IsNextSibling(L, L[i].off, t) && IsParentOff(L, p, t)
  {
    IndexAt(L, i);
    IndexAt(L, NextSibling(L, i).value);
    SiblingParent(L, i, Index(L, p));
  }

  lemma RecordFirstChild(L: Layout, file: Layout, c: Caches, live: set<nat>, i: nat)
    requires Consistent(L, file, c, live) && i < |L| && FirstChild(L, i).Some?
    requires i == 0 || L[i].off in c.parentOf
    ensures var t := L[FirstChild(L, i).value].off;
            Consistent(L, file, c.(firstChildOf := c.firstChildOf[L[i].off := t],
                                   parentOf := c.parentOf[t := L[i].off]), live)
  {
    hide IsFirstChild, IsNextSibling, IsParentOff, FirstChild, FileFirstChild, FileNextSibling;
    FirstChildEdge(L, i);
  }

  lemma RecordNextSibling(L: Layout, file: Layout, c: Caches, live: set<nat>, i: nat)
    requires Consistent(L, file, c, live) && 0 < i < |L| && NextSibling(L, i).Some?
    requires L[i].off in c.parentOf
    ensures var t := L[NextSibling(L, i).value].off;
            Consistent(L, file, c.(nextSiblingOf := c.nextSiblingOf[L[i].off := t],
                                   parentOf := c.parentOf[t := c.parentOf[L[i].off]]), live)
  {
    hide IsFirstChild, IsNextSibling, IsParentOff, NextSibling, FileFirstChild, FileNextSibling;
    NextSiblingEdge(L, i, c.parentOf[L[i].off]);
  }

  lemma RootIsZero(L: Layout, i: nat)
    requires IsLayout(L) && i < |L|
    ensures L[i].off == 0 <==> i == 0
    ensures NextSibling(L, 0).None?
    ensures NextSibling(L, i).Some? ==> NextSibling(L, i).value < |L| && L[NextSibling(L, i).value].depth == L[i].depth
  {
  }

  lemma ParentFacts(L: Layout, c: Caches, i: nat) returns (p: nat)
    requires IsLayout(L) && CachesOk(L, c) && 0 < i < |L| && L[i].off in c.parentOf
    ensures IsParent(L, p, i) && L[p].off == c.parentOf[L[i].off]
    ensures p == 0 || L[p].off in c.parentOf
  {
    IndexAt(L, i);
    p := Index(L, c.parentOf[L[i].off]);
    if p > 0 { assert L[0].off < L[p].off; }
  }

  lemma TreeIsLayout(root: Root)
    requires root.Valid()
    ensures IsLayout(root.tree)
  {
  }

  class Root {
    const file: Layout
    ghost var tree: Layout
    var firstChildOf: map<nat, nat>
    var nextSiblingOf: map<nat, nat>
    var parentOf: map<nat, nat>
    var live: set<nat>

    ghost function C(): Caches
      reads this
    {
      Caches(firstChildOf, nextSiblingOf, parentOf)
    }

    ghost predicate Valid()
      reads this
    {
      Consistent(tree, file, C(), live)
    }

    /** The iterator was issued for the i-th DIE: its parent is known. */
    ghost predicate Issued(it: Iter, i: nat)
      reads this
    {
      i < |tree| && it == ItAt(tree, i) && (i == 0 || it.off in parentOf)
    }

    method GetFirstChild(it: Iter, ghost i: nat) returns (r: Iter)
      requires Valid() && Issued(it, i)
      modifies this`firstChildOf, this`parentOf
      ensures Valid() && old(parentOf.Keys) <= parentOf.Keys
      ensures r == ItAtOption(tree, FirstChild(tree, i)) && (r.At? ==> r.off in parentOf)
    {
      hide CachesOk, Serves;
      FirstChildFacts(tree, file, C(), live, i);
      if it.off in firstChildOf && firstChildOf[it.off] in live {
        return At(firstChildOf[it.off], it.depth + 1);
      }
      var handle := FileFirstChild(file, it.off);
      if handle.None? {
        return End;
      }
      RecordFirstChild(tree, file, C(), live, i);
      parentOf := parentOf[handle.value := it.off];
      firstChildOf := firstChildOf[it.off := handle.value];
      return At(handle.value, it.depth + 1);
    }

    method GetNextSibling(it: Iter, ghost i: nat) returns (r: Iter)
      requires Valid() && Issued(it, i)
      modifies this`nextSiblingOf, this`parentOf
      ensures Valid() && old(parentOf.Keys) <= parentOf.Keys
      ensures r == ItAtOption(tree, NextSibling(tree, i)) && (r.At? ==> r.off in parentOf)
    {
      RootIsZero(tree, i);
      hide CachesOk, Serves, IsLayout, NextSibling, FileNextSibling;
      if it.off == 0 {
        return End;
      }
      NextSiblingFacts(tree, file, C(), live, i);
      if it.off in nextSiblingOf && nextSiblingOf[it.off] in live {
        return At(nextSiblingOf[it.off], it.depth);
      }
      r := SiblingFromFile(it, i);
    }

    method SiblingFromFile(it: Iter, ghost i: nat) returns (r: Iter)
      requires Valid() && Issued(it, i) && i > 0
      requires NextSibling(tree, i).Some? ==> FileNextSibling(file, it.off).Some?
      requires FileNextSibling(file, it.off).Some? ==>
                 NextSibling(tree, i).Some?
                   && FileNextSibling(file, it.off).value == tree[NextSibling(tree, i).value].off
      modifies this`nextSiblingOf, this`parentOf
      ensures Valid() && old(parentOf.Keys) <= parentOf.Keys
      ensures r == ItAtOption(tree, NextSibling(tree, i)) && (r.At? ==> r.off in parentOf)
    {
      RootIsZero(tree, i);
      hide CachesOk, Serves, IsLayout, NextSibling, FileNextSibling;
      var commonParent := parentOf[it.off];
      var handle := FileNextSibling(file, it.off);
      if handle.None? {
        return End;
      }
      RecordNextSibling(tree, file, C(), live, i);
      parentOf := parentOf[handle.value := commonParent];
      nextSiblingOf := nextSiblingOf[it.off := handle.value];
      return At(handle.value, it.depth);
    }

    method GetParent(it: Iter, ghost i: nat) returns (r: Iter)
      requires Valid() && Issued(it, i)
      ensures if i == 0 then r == End else IsLayout(tree) && Issued(r, ParentIndex(tree, i))
    {
      hide Consistent;
      TreeIsLayout(this);
      RootIsZero(tree, i);
      if it.off == 0 {
        r := End;
      } else {
        r := At(parentOf[it.off], it.depth - 1);
        ParentIssued(this, i);
      }
    }
  }

  lemma ParentIssued(root: Root, i: nat)
    requires root.Valid() && 0 < i < |root.tree| && root.tree[i].off in root.parentOf
    ensures IsLayout(root.tree) && root.tree[i].depth > 0
    ensures root.Issued(At(root.parentOf[root.tree[i].off], root.tree[i].depth - 1), ParentIndex(root.tree, i))
  {
    var p: nat := ParentFacts(root.tree, root.C(), i);
    ParentUnique(root.tree, p, ParentIndex(root.tree, i), i);
  }
}
