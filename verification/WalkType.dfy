/** The recursive walk over types. */
module WalkType {
  import opened Wrappers
  import opened TypeGraph
  import A = Acyclic

  /** The recursive walk, with a visitor that always asks to continue: the types visited, in order,
      each with the reason it was visited for. A type already being walked is left alone. */
  function Walk(g: Graph, p: Position, walking: set<Node>): seq<Position>
    requires g.Valid() && p.node in g.out && walking <= g.out.Keys
    decreases g.out.Keys - walking, 0
  {
    if p.node in walking then [] else [p] + WalkEdges(g, p.node, 0, walking + {p.node})
  }

  /** The walks along the edges out of n from the i-th on. */
  function WalkEdges(g: Graph, n: Node, i: nat, walking: set<Node>): seq<Position>
    requires g.Valid() && n in g.out && walking <= g.out.Keys && i <= |g.out[n]|
    decreases g.out.Keys - walking, 1 + |g.out[n]| - i
  {
    if i == |g.out[n]| then []
    else Walk(g, Position(g.out[n][i], Label(n, i)), walking) + WalkEdges(g, n, i + 1, walking)
  }

  /** The types being walked are those on the path from the start, each once. */
  ghost predicate OnPath(path: seq<Node>, walking: set<Node>) {
    && (forall n :: n in walking <==> n in path)
    && (forall i, j :: 0 <= i < j < |path| ==> path[i] != path[j])
  }

  /** The recursion itself: path is where it is. No type is ever on the path twice. */
  method WalkFrom(g: Graph, p: Position, walking: set<Node>, ghost path: seq<Node>) returns (visits: seq<Position>)
    requires g.Valid() && p.node in g.out && walking <= g.out.Keys && OnPath(path, walking)
    ensures visits == Walk(g, p, walking)
    decreases g.out.Keys - walking
  {
    if p.node in walking {
      return [];
    }
    visits := [p];
    var i := 0;
    while i < |g.out[p.node]|
      invariant 0 <= i <= |g.out[p.node]|
      invariant [p] + WalkEdges(g, p.node, 0, walking + {p.node})
                  == visits + WalkEdges(g, p.node, i, walking + {p.node})
    {
      var below := WalkFrom(g, Position(g.out[p.node][i], Label(p.node, i)), walking + {p.node}, path + [p.node]);
      visits := visits + below;
      i := i + 1;
    }
  }

  ghost predicate Visits(visits: seq<Position>, x: Node) {
    exists i :: 0 <= i < |visits| && visits[i].node == x
  }

  lemma VisitsConcat(a: seq<Position>, b: seq<Position>, x: Node)
    ensures Visits(a + b, x) <==> Visits(a, x) || Visits(b, x)
  {
    if Visits(a, x) {
      var i :| 0 <= i < |a| && a[i].node == x;
      assert (a + b)[i].node == x;
    }
    if Visits(b, x) {
      var i :| 0 <= i < |b| && b[i].node == x;
      assert (a + b)[|a| + i].node == x;
    }
  }

  // ---- On every graph, the walk visits exactly what can be reached ----

  /** A path from n to another node leaves n for good at some edge. */
  lemma LastLeave(g: Graph, cut: set<Node>, n: Node, x: Node) returns (c: Node)
    requires Reach(g, cut, n, x) && n != x
    ensures Edge(g, cut + {n}, n, c) && Reach(g, cut + {n}, c, x)
  {
    var p :| IsPathFromTo(g, cut, n, x, p);
    var k := 0;
    while exists j :: k < j < |p| && p[j] == n
      invariant 0 <= k < |p| - 1 && p[k] == n
      decreases |p| - k
    {
      var j :| k < j < |p| && p[j] == n;
      k := j;
    }
    c := p[k + 1];
    var q := p[k + 1..];
    assert Edge(g, cut, p[k], p[k + 1]);
    forall i | 0 <= i < |q| - 1 ensures Edge(g, cut + {n}, q[i], q[i + 1]) {
      assert Edge(g, cut, p[k + 1 + i], p[k + 2 + i]);
    }
    assert IsPathFromTo(g, cut + {n}, c, x, q);
  }

  lemma EdgeVisits(g: Graph, n: Node, j: nat, i: nat, walking: set<Node>, x: Node)
    requires g.Valid() && n in g.out && walking <= g.out.Keys && j <= i < |g.out[n]|
    requires Visits(Walk(g, Position(g.out[n][i], Label(n, i)), walking), x)
    ensures Visits(WalkEdges(g, n, j, walking), x)
    decreases i - j
  {
    VisitsConcat(Walk(g, Position(g.out[n][j], Label(n, j)), walking), WalkEdges(g, n, j + 1, walking), x);
    if j < i {
      EdgeVisits(g, n, j + 1, i, walking, x);
    }
  }

  lemma {:induction false} WalkCovers(g: Graph, p: Position, walking: set<Node>, x: Node)
    requires g.Valid() && p.node in g.out && walking <= g.out.Keys
    requires p.node !in walking && Reach(g, walking, p.node, x)
    ensures Visits(Walk(g, p, walking), x)
    decreases g.out.Keys - walking
  {
    hide Reach;
    var n, inside := p.node, walking + {p.node};
    VisitsConcat([p], WalkEdges(g, n, 0, inside), x);
    if x == n {
      assert [p][0].node == x;
    } else {
      var c := LastLeave(g, walking, n, x);
      var i :| 0 <= i < |g.out[n]| && g.out[n][i] == c;
      WalkCovers(g, Position(c, Label(n, i)), inside, x);
      EdgeVisits(g, n, 0, i, inside, x);
    }
  }

  lemma {:induction false} WalkStaysReachable(g: Graph, p: Position, walking: set<Node>, x: Node)
    requires g.Valid() && p.node in g.out && walking <= g.out.Keys
    requires Visits(Walk(g, p, walking), x)
    ensures Reach(g, {}, p.node, x)
    decreases g.out.Keys - walking, 0
  {
    hide Reach;
    var n, inside := p.node, walking + {p.node};
    ReachRefl(g, {}, n);
    VisitsConcat([p], WalkEdges(g, n, 0, inside), x);
    if Visits(WalkEdges(g, n, 0, inside), x) {
      WalkEdgesStayReachable(g, n, 0, inside, x);
    }
  }

  lemma {:induction false} WalkEdgesStayReachable(g: Graph, n: Node, i: nat, walking: set<Node>, x: Node)
    requires g.Valid() && n in g.out && walking <= g.out.Keys && i <= |g.out[n]|
    requires Visits(WalkEdges(g, n, i, walking), x)
    ensures Reach(g, {}, n, x)
    decreases g.out.Keys - walking, 1 + |g.out[n]| - i
  {
    hide Reach;
    var q := Position(g.out[n][i], Label(n, i));
    VisitsConcat(Walk(g, q, walking), WalkEdges(g, n, i + 1, walking), x);
    if Visits(Walk(g, q, walking), x) {
      WalkStaysReachable(g, q, walking, x);
      ReachEdge(g, {}, n, q.node);
      ReachTrans(g, {}, n, q.node, x);
    } else {
      WalkEdgesStayReachable(g, n, i + 1, walking, x);
    }
  }

  /** The walk terminates on every finite graph, cyclic or not, having visited exactly the types that
      can be reached from where it started. */
  lemma WalkVisitsReachable(g: Graph, start: Node, x: Node)
    requires g.Valid() && start in g.out
    ensures Visits(Walk(g, Position(start, NoReason), {}), x) <==> Reach(g, {}, start, x)
  {
    hide Reach;
    if Reach(g, {}, start, x) {
      WalkCovers(g, Position(start, NoReason), {}, x);
    }
    if Visits(Walk(g, Position(start, NoReason), {}), x) {
      WalkStaysReachable(g, Position(start, NoReason), {}, x);
    }
  }

  // ---- On an acyclic graph, the walk unfolds it into a tree ----

  ghost predicate Acyclic(g: Graph) {
    g.Valid() && A.NoCycle(g.out)
  }

  ghost function Rank(g: Graph, n: Node): nat { A.Rank(g.out, n) }

  lemma EdgeDrops(g: Graph, n: Node, i: nat)
    requires Acyclic(g) && n in g.out && i < |g.out[n]|
    ensures Rank(g, g.out[n][i]) < Rank(g, n)
  {
    assert A.HasEdge(g.out, n, g.out[n][i]);
    A.RankDrops(g.out, n, g.out[n][i]);
  }

  ghost function Unfold(g: Graph, p: Position): seq<Position>
    requires Acyclic(g) && p.node in g.out
    decreases Rank(g, p.node), |g.out[p.node]| + 1
  {
    [p] + UnfoldEdges(g, p.node, 0)
  }

  ghost function UnfoldEdges(g: Graph, n: Node, i: nat): seq<Position>
    requires Acyclic(g) && n in g.out && i <= |g.out[n]|
    decreases Rank(g, n), |g.out[n]| - i
  {
    if i == |g.out[n]| then []
    else (EdgeDrops(g, n, i); Unfold(g, Position(g.out[n][i], Label(n, i)))) + UnfoldEdges(g, n, i + 1)
  }

  /** On an acyclic graph, no type that is reached is being walked already: nothing is left out. */
  lemma {:induction false} WalkIsUnfold(g: Graph, p: Position, walking: set<Node>)
    requires Acyclic(g) && p.node in g.out && walking <= g.out.Keys
    requires forall m :: m in walking ==> Rank(g, p.node) < Rank(g, m)
    ensures Walk(g, p, walking) == Unfold(g, p)
    decreases g.out.Keys - walking, 0
  {
    hide A.NoCycle, Rank;
    WalkEdgesAreUnfold(g, p.node, 0, walking + {p.node});
  }

  lemma {:induction false} WalkEdgesAreUnfold(g: Graph, n: Node, i: nat, walking: set<Node>)
    requires Acyclic(g) && n in g.out && walking <= g.out.Keys && i <= |g.out[n]|
    requires forall m :: m in walking ==> Rank(g, n) <= Rank(g, m)
    ensures WalkEdges(g, n, i, walking) == UnfoldEdges(g, n, i)
    decreases g.out.Keys - walking, 1 + |g.out[n]| - i
  {
    hide A.NoCycle, Rank;
    if i < |g.out[n]| {
      EdgeDrops(g, n, i);
      WalkIsUnfold(g, Position(g.out[n][i], Label(n, i)), walking);
      WalkEdgesAreUnfold(g, n, i + 1, walking);
    }
  }
}
