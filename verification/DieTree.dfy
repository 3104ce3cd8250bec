/** The tree of DIEs, laid out in preorder as in the .debug_info section: each DIE with its offset and
    its depth. The root is not a DIE; it stands at offset 0 and depth 0. */
module DieTree {
  import opened Wrappers

  datatype Entry = Entry(off: nat, depth: nat)

  type Layout = seq<Entry>

  /** Offsets strictly increase in preorder, and a DIE is at most one level below the one before it. */
  ghost predicate IsLayout(L: Layout) {
    && |L| > 0 && L[0] == Entry(0, 0)
    && (forall i :: 0 < i < |L| ==> 1 <= L[i].depth <= L[i - 1].depth + 1)
    && (forall i, j :: 0 <= i < j < |L| ==> L[i].off < L[j].off)
  }

  /** The index just after the subtree of the i-th DIE, given that it is not before j. */
  function EndFrom(L: Layout, i: nat, j: nat): (e: nat)
    requires i < j <= |L|
    requires forall k :: i < k < j ==> L[k].depth > L[i].depth
    ensures j <= e <= |L|
    ensures forall k :: i < k < e ==> L[k].depth > L[i].depth
    ensures e < |L| ==> L[e].depth <= L[i].depth
    decreases |L| - j
  {
    if j < |L| && L[j].depth > L[i].depth then EndFrom(L, i, j + 1) else j
  }

  function SubtreeEnd(L: Layout, i: nat): (e: nat)
    requires i < |L|
    ensures i < e <= |L|
    ensures forall k :: i < k < e ==> L[k].depth > L[i].depth
    ensures e < |L| ==> L[e].depth <= L[i].depth
  {
    EndFrom(L, i, i + 1)
  }

  function FirstChild(L: Layout, i: nat): Option<nat>
    requires i < |L|
  {
    if i + 1 < |L| && L[i + 1].depth == L[i].depth + 1 then Some(i + 1) else None
  }

  function NextSibling(L: Layout, i: nat): Option<nat>
    requires i < |L|
  {
    var e := SubtreeEnd(L, i);
    if e < |L| && L[e].depth == L[i].depth then Some(e) else None
  }

  /** The last DIE before the i-th that is one level up. */
  ghost predicate IsParent(L: Layout, p: nat, i: nat) {
    && p < i < |L| && L[p].depth + 1 == L[i].depth
    && forall k :: p < k < i ==> L[k].depth >= L[i].depth
  }

  lemma ParentUnique(L: Layout, p: nat, q: nat, i: nat)
    requires IsParent(L, p, i) && IsParent(L, q, i)
    ensures p == q
  {
  }

  lemma SubtreeEndUnique(L: Layout, i: nat, e: nat)
    requires i < e <= |L|
    requires forall k :: i < k < e ==> L[k].depth > L[i].depth
    requires e < |L| ==> L[e].depth <= L[i].depth
    ensures SubtreeEnd(L, i) == e
  {
    var f := SubtreeEnd(L, i);
    assert f <= e;
    assert e <= f;
  }

  lemma FindParent(L: Layout, i: nat) returns (p: nat)
    requires IsLayout(L) && 0 < i < |L|
    ensures IsParent(L, p, i)
  {
    p := i - 1;
    while L[p].depth >= L[i].depth
      invariant p < i
      invariant forall k :: p < k < i ==> L[k].depth >= L[i].depth
      decreases p
    {
      p := p - 1;
    }
    assert p + 1 < i ==> L[p + 1].depth >= L[i].depth;
  }

  ghost function ParentIndex(L: Layout, i: nat): (p: nat)
    requires IsLayout(L) && 0 < i < |L|
    ensures IsParent(L, p, i)
  {
    ParentExists(L, i);
    var p: nat :| IsParent(L, p, i);
    p
  }

  lemma ParentExists(L: Layout, i: nat)
    requires IsLayout(L) && 0 < i < |L|
    ensures exists p: nat :: IsParent(L, p, i)
  {
    var p: nat := FindParent(L, i);
  }

  lemma FirstChildParent(L: Layout, i: nat)
    requires i < |L| && FirstChild(L, i).Some?
    ensures IsParent(L, i, FirstChild(L, i).value)
  {
  }

  lemma SiblingParent(L: Layout, i: nat, p: nat)
    requires i < |L| && NextSibling(L, i).Some? && IsParent(L, p, i)
    ensures IsParent(L, p, NextSibling(L, i).value)
  {
    var e := SubtreeEnd(L, i);
    forall k | p < k < e ensures L[k].depth >= L[e].depth {
      if k > i { assert L[k].depth > L[i].depth; }
    }
  }

  /** If nothing follows the subtree of c at its own level, the subtree of its parent ends there too. */
  lemma ClimbKeepsEnd(L: Layout, c: nat, p: nat)
    requires c < |L| && NextSibling(L, c).None? && IsParent(L, p, c)
    ensures SubtreeEnd(L, p) == SubtreeEnd(L, c)
  {
    var e := SubtreeEnd(L, c);
    forall k | p < k < e ensures L[k].depth > L[p].depth {
      if k > c { assert L[k].depth > L[c].depth; }
    }
    SubtreeEndUnique(L, p, e);
  }
}
