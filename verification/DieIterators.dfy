/** Iteration over the tree of DIEs, using only first-child, next-sibling and parent moves. */
module DieIterators {
  import opened DieTree
  import opened DieRoot

  /** One depth-first step leads to the next DIE in preorder, and from the last one to the end. */
  method IncrementDepthFirst(root: Root, it: Iter, ghost i: nat) returns (r: Iter)
    requires root.Valid() && root.Issued(it, i)
    modifies root`firstChildOf, root`nextSiblingOf, root`parentOf
    ensures root.Valid() && old(root.parentOf.Keys) <= root.parentOf.Keys
    ensures r == ItAt(root.tree, i + 1) && (r.At? ==> root.Issued(r, i + 1))
  {
    hide Consistent;
    TreeIsLayout(root);
    r := root.GetFirstChild(it, i);
    if r != End {
      assert r.off > it.off;
      return;
    }
    var cur := it;
    ghost var c: nat := i;
    while true
      invariant c <= i && root.Valid() && root.Issued(cur, c)
      invariant SubtreeEnd(root.tree, c) == i + 1
      invariant old(root.parentOf.Keys) <= root.parentOf.Keys
      decreases c
    {
      r := root.GetNextSibling(cur, c);
      if r != End {
        assert r.off > it.off;
        return;
      }
      cur := root.GetParent(cur, c);
      if cur == End {
        return;
      }
      ClimbKeepsEnd(root.tree, c, ParentIndex(root.tree, c));
      c := ParentIndex(root.tree, c);
    }
  }

  /** Depth-first iteration from the root visits every DIE in preorder, by strictly increasing offset,
      whatever part of the edge caches is filled in beforehand. */
  method Traverse(root: Root) returns (visits: seq<Iter>)
    requires root.Valid()
    modifies root`firstChildOf, root`nextSiblingOf, root`parentOf
    ensures root.Valid()
    ensures |visits| == |root.tree|
    ensures forall i :: 0 <= i < |visits| ==> visits[i] == At(root.tree[i].off, root.tree[i].depth)
    ensures forall i, j :: 0 <= i < j < |visits| ==> visits[i].off < visits[j].off
  {
    hide Consistent;
    TreeIsLayout(root);
    var it := At(0, 0);
    visits := [];
    while it != End
      invariant root.Valid() && |visits| <= |root.tree| && it == ItAt(root.tree, |visits|)
      invariant it.At? ==> root.Issued(it, |visits|)
      invariant forall i :: 0 <= i < |visits| ==> visits[i] == At(root.tree[i].off, root.tree[i].depth)
      decreases |root.tree| - |visits|
    {
      visits := visits + [it];
      it := IncrementDepthFirst(root, it, |visits| - 1);
    }
  }
}
