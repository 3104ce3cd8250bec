/** The per-type cache of strongly connected components that get_scc fills in, over any sequence of
    calls and of destructions of unreferenced type DIEs. */
module SccCache {
  import opened Wrappers
  import opened TypeGraph
  import Scc

  /** x lies on a cycle: some edge out of it leads back. */
  ghost predicate OnCycle(g: Graph, x: Node) {
    exists y :: Edge(g, {}, x, y) && Reach(g, {}, y, x)
  }

  /** The edge p has both ends in the component of x. */
  ghost predicate EdgeWithin(g: Graph, x: Node, p: Position) {
    g.HasEdge(p) && Mutual(g, {}, x, p.reason.source) && Mutual(g, {}, x, p.node)
  }

  /** A set of types that holds all or none of every strongly connected component. */
  ghost predicate UnionOfComponents(g: Graph, X: set<Node>) {
    forall x, y :: x in X && Mutual(g, {}, x, y) ==> y in X
  }

  /** The cached results are right: null for a type on no cycle, and otherwise an SCC object that is
      shared by exactly the types of the component and holds exactly the edges within it. */
  ghost predicate CacheOk(g: Graph, cached: map<Node, Option<nat>>, sccs: seq<set<Position>>) {
    && cached.Keys <= g.out.Keys && VOID !in cached
    && UnionOfComponents(g, cached.Keys)
    && (forall x :: x in cached ==> (cached[x].Some? <==> OnCycle(g, x)))
    && (forall x :: x in cached && cached[x].Some? ==> cached[x].value < |sccs|)
    && (forall x, y :: x in cached && cached[x].Some? ==>
          (Mutual(g, {}, x, y) <==> y in cached && cached[y] == cached[x]))
    && (forall x, p :: x in cached && cached[x].Some? ==>
          (p in sccs[cached[x].value] <==> EdgeWithin(g, x, p)))
  }

  // ---- Edges into types that already have a result can be ignored ----

  lemma ReachPrefix(g: Graph, p: seq<Node>, i: nat)
    requires IsPath(g, {}, p) && i < |p|
    ensures Reach(g, {}, p[0], p[i]) && Reach(g, {}, p[i], p[|p| - 1])
  {
    assert IsPathFromTo(g, {}, p[0], p[i], p[..i + 1]);
    forall k | 0 <= k < |p[i..]| - 1 ensures Edge(g, {}, p[i..][k], p[i..][k + 1]) {
      assert Edge(g, {}, p[i + k], p[i + k + 1]);
    }
    assert IsPathFromTo(g, {}, p[i], p[|p| - 1], p[i..]);
  }

  /** A path between two types of the same uncached component avoids cached types. */
  lemma CutReach(g: Graph, cut: set<Node>, x: Node, y: Node)
    requires UnionOfComponents(g, cut) && x !in cut && Mutual(g, {}, x, y)
    ensures Reach(g, cut, x, y)
  {
    var p :| IsPathFromTo(g, {}, x, y, p);
    forall k | 0 <= k < |p| - 1 ensures Edge(g, cut, p[k], p[k + 1]) {
      assert Edge(g, {}, p[k], p[k + 1]);
      ReachPrefix(g, p, k + 1);
      ReachTrans(g, {}, p[k + 1], y, x);
      assert Mutual(g, {}, p[k + 1], x);
    }
    assert IsPathFromTo(g, cut, x, y, p);
  }

  /** Dropping the edges into cached types does not change the component of an uncached type. */
  lemma CutKeepsComponents(g: Graph, cut: set<Node>, x: Node, y: Node)
    requires UnionOfComponents(g, cut) && x !in cut
    ensures Mutual(g, cut, x, y) <==> Mutual(g, {}, x, y)
  {
    hide Reach;
    if Mutual(g, cut, x, y) {
      UncutReach(g, cut, x, y);
      UncutReach(g, cut, y, x);
    }
    if Mutual(g, {}, x, y) {
      assert y !in cut by { assert y in cut ==> Mutual(g, {}, y, x); }
      CutReach(g, cut, x, y);
      CutReach(g, cut, y, x);
    }
  }

  // ---- One run of the builder ----

  /** What the builder delivers for the types reachable from start without entering cut. */
  ghost predicate Built(g: Graph, cut: set<Node>, start: Node, comp: map<Node, nat>, count: nat) {
    && (forall n :: n in comp <==> Reach(g, cut, start, n))
    && (forall n :: n in comp ==> n in g.out && n !in cut && comp[n] < count)
    && (forall x, y :: x in comp ==> (Mutual(g, cut, x, y) <==> y in comp && comp[x] == comp[y]))
  }

  ghost predicate EdgeOfComponent(g: Graph, comp: map<Node, nat>, c: nat, p: Position) {
    && g.HasEdge(p)
    && p.reason.source in comp && comp[p.reason.source] == c
    && p.node in comp && comp[p.node] == c
  }

  lemma BuiltComponents(g: Graph, cut: set<Node>, start: Node, comp: map<Node, nat>, count: nat, x: Node, y: Node)
    requires UnionOfComponents(g, cut) && Built(g, cut, start, comp, count) && x in comp
    ensures Mutual(g, {}, x, y) <==> y in comp && comp[x] == comp[y]
  {
    hide Mutual;
    CutKeepsComponents(g, cut, x, y);
  }

  /** The edges with both ends numbered like x are those within the component of x. */
  lemma BuiltEdges(g: Graph, cut: set<Node>, start: Node, comp: map<Node, nat>, count: nat, x: Node, p: Position)
    requires UnionOfComponents(g, cut) && Built(g, cut, start, comp, count) && x in comp
    ensures EdgeOfComponent(g, comp, comp[x], p) <==> EdgeWithin(g, x, p)
  {
    hide Mutual;
    if g.HasEdge(p) {
      BuiltComponents(g, cut, start, comp, count, x, p.reason.source);
      BuiltComponents(g, cut, start, comp, count, x, p.node);
    }
  }

  /** A type is on a cycle exactly when its component has an edge within it. */
  lemma CycleHasEdge(g: Graph, x: Node)
    ensures OnCycle(g, x) <==> exists p :: EdgeWithin(g, x, p)
  {
    hide Reach;
    if OnCycle(g, x) {
      var y :| Edge(g, {}, x, y) && Reach(g, {}, y, x);
      var i :| 0 <= i < |g.out[x]| && g.out[x][i] == y;
      ReachRefl(g, {}, x);
      ReachEdge(g, {}, x, y);
      assert EdgeWithin(g, x, Position(y, Label(x, i)));
    }
    if p :| EdgeWithin(g, x, p) {
      var s, t := p.reason.source, p.node;
      assert Edge(g, {}, s, t);
      if s == x {
        assert Edge(g, {}, x, t) && Reach(g, {}, t, x);
      } else {
        var z := FirstStep(g, x, s);
        ReachTrans(g, {}, z, s, x);
      }
    }
  }

  lemma FirstStep(g: Graph, x: Node, y: Node) returns (z: Node)
    requires Reach(g, {}, x, y) && x != y
    ensures Edge(g, {}, x, z) && Reach(g, {}, z, y)
  {
    var p :| IsPathFromTo(g, {}, x, y, p);
    z := p[1];
    assert Edge(g, {}, p[0], p[1]);
    ReachPrefix(g, p, 1);
  }

  /** The cache after the results of one run have been installed. VOID has no DIE to hold one. */
  function Installed(cached: map<Node, Option<nat>>, base: nat, comp: map<Node, nat>, created: seq<set<Position>>)
    : map<Node, Option<nat>>
    requires forall n :: n in comp ==> comp[n] < |created|
  {
    cached + (map n | n in comp && n != VOID :: if created[comp[n]] == {} then None else Some(base + comp[n]))
  }

  ghost predicate CreatedOk(g: Graph, comp: map<Node, nat>, created: seq<set<Position>>) {
    && (forall n :: n in comp ==> comp[n] < |created|)
    && (forall c, p :: 0 <= c < |created| ==> (p in created[c] <==> EdgeOfComponent(g, comp, c, p)))
  }

  lemma CreatedCyclic(g: Graph, cut: set<Node>, start: Node, comp: map<Node, nat>, created: seq<set<Position>>, x: Node)
    requires UnionOfComponents(g, cut) && Built(g, cut, start, comp, |created|) && x in comp
    requires CreatedOk(g, comp, created)
    ensures created[comp[x]] != {} <==> OnCycle(g, x)
    ensures forall p :: p in created[comp[x]] <==> EdgeWithin(g, x, p)
  {
    hide EdgeOfComponent, EdgeWithin, OnCycle;
    CycleHasEdge(g, x);
    forall p ensures p in created[comp[x]] <==> EdgeWithin(g, x, p) {
      BuiltEdges(g, cut, start, comp, |created|, x, p);
    }
    if created[comp[x]] != {} {
      var p :| p in created[comp[x]];
      assert EdgeWithin(g, x, p);
    }
  }

  /** Void is on no cycle, so nothing else is in its component. */
  lemma VoidAlone(g: Graph, x: Node)
    requires g.Valid() && Mutual(g, {}, VOID, x)
    ensures x == VOID && !OnCycle(g, VOID)
  {
    hide Reach;
    assert Closed(g, {}, {VOID});
    ReachClosed(g, {}, {VOID}, VOID, x);
  }

  lemma InstalledUnion(g: Graph, cached: map<Node, Option<nat>>, start: Node, comp: map<Node, nat>, count: nat,
                       X: set<Node>)
    requires g.Valid() && UnionOfComponents(g, cached.Keys) && Built(g, cached.Keys, start, comp, count)
    requires X == cached.Keys + (set n | n in comp && n != VOID)
    ensures UnionOfComponents(g, X)
  {
    hide Reach;
    forall x, y | x in X && Mutual(g, {}, x, y) ensures y in X {
      if x in cached.Keys {
      } else {
        BuiltComponents(g, cached.Keys, start, comp, count, x, y);
        if y == VOID {
          VoidAlone(g, x);
        }
      }
    }
  }

  lemma InstalledPointers(g: Graph, cached: map<Node, Option<nat>>, sccs: seq<set<Position>>, start: Node,
                          comp: map<Node, nat>, created: seq<set<Position>>)
    requires g.Valid() && CacheOk(g, cached, sccs)
    requires Built(g, cached.Keys, start, comp, |created|) && CreatedOk(g, comp, created)
    ensures var after := Installed(cached, |sccs|, comp, created);
            forall x, y :: x in after && after[x].Some? ==>
                (Mutual(g, {}, x, y) <==> y in after && after[y] == after[x])
  {
    hide Mutual, EdgeWithin, OnCycle, CreatedOk;
    assert forall n :: n in comp ==> comp[n] < |created|;
    var after := Installed(cached, |sccs|, comp, created);
    forall x, y | x in after && after[x].Some?
      ensures Mutual(g, {}, x, y) <==> y in after && after[y] == after[x] {
      if x !in cached {
        BuiltComponents(g, cached.Keys, start, comp, |created|, x, y);
        NewPointers(g, cached, sccs, start, comp, created, x, y);
      }
    }
  }

  lemma InstalledOk(g: Graph, cached: map<Node, Option<nat>>, sccs: seq<set<Position>>, start: Node,
                    comp: map<Node, nat>, created: seq<set<Position>>)
    requires g.Valid() && CacheOk(g, cached, sccs)
    requires Built(g, cached.Keys, start, comp, |created|) && CreatedOk(g, comp, created)
    ensures CacheOk(g, Installed(cached, |sccs|, comp, created), sccs + created)
  {
    hide Mutual, EdgeWithin, OnCycle, EdgeOfComponent;
    var after := Installed(cached, |sccs|, comp, created);
    assert after.Keys == cached.Keys + (set n | n in comp && n != VOID);
    InstalledUnion(g, cached, start, comp, |created|, after.Keys);
    forall x | x in after ensures after[x].Some? <==> OnCycle(g, x) {
      if x !in cached { CreatedCyclic(g, cached.Keys, start, comp, created, x); }
    }
    InstalledPointers(g, cached, sccs, start, comp, created);
    forall x, p | x in after && after[x].Some? ensures p in (sccs + created)[after[x].value] <==> EdgeWithin(g, x, p) {
      if x !in cached { CreatedCyclic(g, cached.Keys, start, comp, created, x); }
    }
  }

  lemma NewPointers(g: Graph, cached: map<Node, Option<nat>>, sccs: seq<set<Position>>, start: Node,
                    comp: map<Node, nat>, created: seq<set<Position>>, x: Node, y: Node)
    requires g.Valid() && CacheOk(g, cached, sccs)
    requires Built(g, cached.Keys, start, comp, |created|) && CreatedOk(g, comp, created)
    requires var after := Installed(cached, |sccs|, comp, created); x in after && x !in cached && after[x].Some?
    ensures var after := Installed(cached, |sccs|, comp, created);
            (y in comp && comp[x] == comp[y]) <==> (y in after && after[y] == after[x])
  {
    var after := Installed(cached, |sccs|, comp, created);
    if y == VOID && y in comp && comp[x] == comp[y] {
      BuiltComponents(g, cached.Keys, start, comp, |created|, x, y);
      VoidAlone(g, x);
    }
  }

  // ---- Destruction of a type DIE that nothing refers to ----

  lemma AcyclicAlone(g: Graph, x: Node, y: Node)
    requires Mutual(g, {}, x, y) && !OnCycle(g, y)
    ensures x == y
  {
    hide Reach;
    if x != y {
      var z := FirstStep(g, y, x);
      ReachTrans(g, {}, z, x, y);
    }
  }

  /** Forgetting the result of a type on no cycle keeps the cache right. */
  lemma ForgetKeepsOk(g: Graph, cached: map<Node, Option<nat>>, sccs: seq<set<Position>>, t: Node)
    requires CacheOk(g, cached, sccs) && t in cached && cached[t] == None
    ensures CacheOk(g, cached - {t}, sccs)
  {
    hide Mutual, EdgeWithin, OnCycle;
    var after := cached - {t};
    forall x, y | x in after.Keys && Mutual(g, {}, x, y) ensures y in after.Keys {
      if y == t {
        AcyclicAlone(g, x, y);
      }
    }
  }

  // ---- get_scc ----

  function InstalledFor(cached: map<Node, Option<nat>>, base: nat, comp: map<Node, nat>, created: seq<set<Position>>,
                        done: set<Node>): map<Node, Option<nat>>
    requires forall n :: n in comp ==> comp[n] < |created|
  {
    cached + (map n | n in comp && n != VOID && n in done :: if created[comp[n]] == {} then None
              else Some(base + comp[n]))
  }

  lemma InstallOne(cached: map<Node, Option<nat>>, base: nat, comp: map<Node, nat>, created: seq<set<Position>>,
                   done: set<Node>, n: Node)
    requires forall n :: n in comp ==> comp[n] < |created|
    requires n in comp
    ensures InstalledFor(cached, base, comp, created, done + {n}) ==
            if n == VOID then InstalledFor(cached, base, comp, created, done)
            else InstalledFor(cached, base, comp, created, done)[n := if created[comp[n]] == {} then None
                                                                 else Some(base + comp[n])]
  {
  }

  lemma InstalledForEnds(cached: map<Node, Option<nat>>, base: nat, comp: map<Node, nat>, created: seq<set<Position>>)
    requires forall n :: n in comp ==> comp[n] < |created|
    ensures InstalledFor(cached, base, comp, created, {}) == cached
  {
  }

  lemma InstalledForAll(cached: map<Node, Option<nat>>, base: nat, comp: map<Node, nat>, created: seq<set<Position>>,
                        done: set<Node>)
    requires forall n :: n in comp ==> comp[n] < |created|
    requires forall n :: n in done <==> n in comp && comp[n] < |created|
    ensures InstalledFor(cached, base, comp, created, done) == Installed(cached, base, comp, created)
  {
  }

  lemma InstallFacts(g: Graph, cached: map<Node, Option<nat>>, sccs: seq<set<Position>>, start: Node,
                     comp: map<Node, nat>, created: seq<set<Position>>, n: Node)
    requires g.Valid() && CacheOk(g, cached, sccs)
    requires Built(g, cached.Keys, start, comp, |created|) && CreatedOk(g, comp, created)
    requires n in comp && created[comp[n]] != {}
    ensures n != VOID && n !in cached
  {
    hide Reach;
    CreatedCyclic(g, cached.Keys, start, comp, created, n);
    MutualWithItself(g, VOID);
    if n == VOID { VoidAlone(g, VOID); }
  }

  lemma MutualWithItself(g: Graph, x: Node)
    ensures Mutual(g, {}, x, x)
  {
    ReachRefl(g, {}, x);
  }

  class TypeSccs {
    const g: Graph
    const declarations: set<Node>
    var cached: map<Node, Option<nat>>     // each type DIE's cached pointer: null, or an index into sccs
    var sccs: seq<set<Position>>           // the SCC objects: sets of edges

    ghost predicate Valid()
      reads this
    {
      g.Valid() && CacheOk(g, cached, sccs)
    }

    constructor (g: Graph, declarations: set<Node>)
      requires g.Valid()
      ensures Valid() && cached == map[] && this.g == g && this.declarations == declarations
    {
      this.g, this.declarations, cached, sccs := g, declarations, map[], [];
    }

    /** The payload of a DIE on no cycle is not sticky: it, and its cached result, can go away. */
    method Forget(t: Node)
      requires Valid() && t in cached && cached[t] == None
      modifies this`cached
      ensures Valid() && cached == old(cached) - {t}
    {
      ForgetKeepsOk(g, cached, sccs, t);
      cached := cached - {t};
    }

    /** The cached or newly computed component of t; null if t is on no cycle. Every type that can be
        reached without passing through an earlier result gets its result cached as well. */
    method GetScc(t: Node) returns (r: Option<nat>)
      requires Valid() && t in g.out && t != VOID
      modifies this
      ensures Valid()
      ensures old(sccs) <= sccs && old(cached.Keys) <= cached.Keys
      ensures forall x :: x in old(cached) ==> cached[x] == old(cached)[x]
      ensures t in declarations && t !in old(cached) ==> r == None && cached == old(cached)
      ensures t !in declarations || t in old(cached) ==> t in cached && r == cached[t]
      ensures t !in declarations && t !in old(cached) ==>
                forall x :: x in cached <==> x in old(cached) || (x != VOID && Reach(g, old(cached).Keys, t, x))
    {
      if t in cached {
        return cached[t];
      }
      if t in declarations {
        return None;
      }
      var comp, count := Scc.BuildSccs(g, cached.Keys, t);
      var created := CollectEdges(g, comp, count);
      ReachRefl(g, cached.Keys, t);
      Install(t, comp, created);
      r := cached[t];
    }

    /** Caches the results of one run. No type of a cyclic component has a result yet. */
    method Install(ghost start: Node, comp: map<Node, nat>, created: seq<set<Position>>)
      requires Valid() && Built(g, cached.Keys, start, comp, |created|) && CreatedOk(g, comp, created)
      modifies this
      ensures Valid()
      ensures cached == Installed(old(cached), |old(sccs)|, comp, created)
      ensures sccs == old(sccs) + created
    {
      hide CacheOk, Built, EdgeOfComponent, InstalledFor;
      ghost var before := cached;
      InstalledForEnds(before, |sccs|, comp, created);
      ghost var done: set<Node> := {};
      var base := |sccs|;
      InstalledOk(g, cached, sccs, start, comp, created);
      sccs := sccs + created;
      for i := 0 to |created|
        invariant sccs == old(sccs) + created
        invariant forall n :: n in done <==> n in comp && comp[n] < i
        invariant cached == InstalledFor(before, base, comp, created, done)
      {
        var types := set n | n in comp && comp[n] == i;
        while types != {}
          invariant sccs == old(sccs) + created
          invariant forall n :: n in types ==> n in comp && comp[n] == i && n !in done
          invariant forall n :: n in done || n in types <==> n in comp && comp[n] <= i
          invariant cached == InstalledFor(before, base, comp, created, done)
          decreases types
        {
          ghost var some := SomeMember(types);
          var n :| n in types;
          types := types - {n};
          if created[i] == {} {
            if n != VOID {
              cached := cached[n := None];
            }
          } else {
            InstallFacts(g, before, old(sccs), start, comp, created, n);
            assert n != VOID && n !in before;
            cached := cached[n := Some(base + i)];
          }
          InstallOne(before, base, comp, created, done, n);
          done := done + {n};
        }
      }
      InstalledForAll(before, base, comp, created, done);
    }
  }

  /** Gathers, for each component, the edges whose ends are both numbered with it. */
  method CollectEdges(g: Graph, comp: map<Node, nat>, count: nat) returns (created: seq<set<Position>>)
    requires g.Valid()
    requires forall n :: n in comp ==> n in g.out && comp[n] < count
    ensures |created| == count && CreatedOk(g, comp, created)
  {
    created := seq(count, _ => {});
    var todo := comp.Keys;
    while todo != {}
      invariant |created| == count && todo <= comp.Keys
      invariant forall c, p :: 0 <= c < count ==>
                  (p in created[c] <==> EdgeOfComponent(g, comp, c, p) && p.reason.source !in todo)
      decreases todo
    {
      ghost var some := SomeMember(todo);
      var n :| n in todo;
      todo := todo - {n};
      var c := comp[n];
      var edge := g.FirstOutgoing(n);
      ghost var j := 0;
      while edge.Some?
        invariant |created| == count && j <= |g.out[n]|
        invariant if j < |g.out[n]| then edge == Some(Position(g.out[n][j], Label(n, j))) else edge == None
        invariant forall d, p :: 0 <= d < count ==>
                    (p in created[d] <==> EdgeOfComponent(g, comp, d, p) && p.reason.source !in todo
                                          && (p.reason.source == n ==> p.reason.index < j))
        decreases |g.out[n]| - j
      {
        if edge.value.node in comp && comp[edge.value.node] == c {
          created := created[c := created[c] + {edge.value}];
        }
        edge := g.NextOutgoing(edge.value.reason);
        j := j + 1;
      }
    }
  }
}
