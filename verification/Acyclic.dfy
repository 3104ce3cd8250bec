/** Finite directed graphs without cycles: every node has a rank, which drops along every edge. */
module Acyclic {
  type Succs<T(==)> = map<T, seq<T>>

  ghost predicate IsClosed<T(!new)>(s: Succs<T>) {
    forall t, v :: t in s && v in s[t] ==> v in s
  }

  ghost predicate HasEdge<T(!new)>(s: Succs<T>, u: T, v: T) {
    u in s && v in s && v in s[u]
  }

  ghost predicate IsWalk<T(!new)>(s: Succs<T>, p: seq<T>) {
    |p| > 0 && p[0] in s && forall i: nat :: i + 1 < |p| ==> HasEdge(s, p[i], p[i + 1])
  }

  ghost predicate IsCycle<T(!new)>(s: Succs<T>, p: seq<T>) {
    IsWalk(s, p) && |p| >= 2 && p[0] == p[|p| - 1]
  }

  ghost predicate NoCycle<T(!new)>(s: Succs<T>) {
    forall p: seq<T> :: !IsCycle(s, p)
  }

  lemma WalkStays<T(!new)>(s: Succs<T>, p: seq<T>, i: nat)
    requires IsWalk(s, p) && i < |p|
    ensures p[i] in s
  {
    if i > 0 { assert HasEdge(s, p[i - 1], p[i - 1 + 1]); }
  }

  lemma SubWalk<T(!new)>(s: Succs<T>, p: seq<T>, i: nat, j: nat)
    requires IsWalk(s, p) && i < j <= |p|
    ensures IsWalk(s, p[i..j])
  {
    WalkStays(s, p, i);
    var q := p[i..j];
    forall k: nat | k + 1 < |q| ensures HasEdge(s, q[k], q[k + 1]) {
      assert HasEdge(s, p[i + k], p[i + k + 1]);
    }
  }

  /** Different nodes, so no more of them than there are. */
  lemma {:induction false} Pigeonhole<T(!new)>(p: seq<T>, nodes: set<T>)
    requires forall i: nat :: i < |p| ==> p[i] in nodes
    requires forall i: nat, j: nat :: i < j < |p| ==> p[i] != p[j]
    ensures |p| <= |nodes|
  {
    if |p| > 0 {
      var last := p[|p| - 1];
      Pigeonhole(p[..|p| - 1], nodes - {last});
    }
  }

  lemma WalkIsShort<T(!new)>(s: Succs<T>, p: seq<T>)
    requires NoCycle(s) && IsWalk(s, p)
    ensures |p| <= |s.Keys|
  {
    forall i: nat, j: nat | i < j < |p| ensures p[i] != p[j] {
      SubWalk(s, p, i, j + 1);
      assert !IsCycle(s, p[i..j + 1]);
    }
    forall i: nat | i < |p| ensures p[i] in s.Keys {
      WalkStays(s, p, i);
    }
    Pigeonhole(p, s.Keys);
  }

  /** There is a walk of n edges from the node. */
  ghost predicate Walks<T(!new)>(s: Succs<T>, t: T, n: nat) {
    exists p: seq<T> :: IsWalk(s, p) && p[0] == t && |p| == n + 1
  }

  ghost function LongestUpTo<T(!new)>(s: Succs<T>, t: T, n: nat): (r: nat)
    requires t in s
    ensures Walks(s, t, r) && r <= n && forall m: nat :: r < m <= n ==> !Walks(s, t, m)
  {
    WalksNowhere(s, t);
    if Walks(s, t, n) then n else LongestUpTo(s, t, n - 1)
  }

  lemma WalksNowhere<T(!new)>(s: Succs<T>, t: T)
    requires t in s
    ensures Walks(s, t, 0)
  {
    assert IsWalk(s, [t]);
  }

  /** The length of the longest walk from the node. */
  ghost function Rank<T(!new)>(s: Succs<T>, t: T): nat {
    if t in s then LongestUpTo(s, t, |s.Keys|) else 0
  }

  lemma RankDrops<T(!new)>(s: Succs<T>, u: T, v: T)
    requires NoCycle(s) && HasEdge(s, u, v)
    ensures Rank(s, v) < Rank(s, u)
  {
    var n := Rank(s, v);
    var p: seq<T> :| IsWalk(s, p) && p[0] == v && |p| == n + 1;
    var q := [u] + p;
    forall i: nat | i + 1 < |q| ensures HasEdge(s, q[i], q[i + 1]) {
      if i > 0 { assert HasEdge(s, p[i - 1], p[i - 1 + 1]); }
    }
    assert IsWalk(s, q);
    WalkIsShort(s, q);
    assert Walks(s, u, n + 1);
  }

  lemma {:induction false} WalkGoesDown<T(!new)>(s: Succs<T>, rank: T -> nat, p: seq<T>, k: nat)
    requires (forall u, v :: HasEdge(s, u, v) ==> rank(v) < rank(u)) && IsWalk(s, p) && k < |p|
    ensures rank(p[k]) + k <= rank(p[0])
  {
    if k > 0 {
      WalkGoesDown(s, rank, p, k - 1);
      assert HasEdge(s, p[k - 1], p[k - 1 + 1]);
    }
  }

  /** Anything that drops along every edge shows that there is no cycle. */
  lemma DropsShowNoCycle<T(!new)>(s: Succs<T>, rank: T -> nat)
    requires forall u, v :: HasEdge(s, u, v) ==> rank(v) < rank(u)
    ensures NoCycle(s)
  {
    forall p: seq<T> ensures !IsCycle(s, p) {
      if IsWalk(s, p) { WalkGoesDown(s, rank, p, |p| - 1); }
    }
  }
}
