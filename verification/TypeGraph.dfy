/** The type graph that the type iterators walk: a finite, possibly cyclic graph whose
    nodes are type DIEs (and "void"), each with an ordered list of labelled out-edges. */
module TypeGraph {
  import opened Wrappers

  /** A type DIE is named by its offset. "Void" has no DIE; the iterators file it under the
      offset -1, which no DIE has. */
  type Node = int

  const VOID: Node := -1

  /** The label ("reason") of an edge is the DIE that gives rise to it: the source itself, a
      member child or a formal parameter child. Either way it fixes the source and the
      position in the source's list of out-edges. The starting position has no reason. */
  datatype Reason = NoReason | Label(source: Node, index: nat)

  /** A position of a type iterator: the target of an edge, with the edge's label. */
  datatype Position = Position(node: Node, reason: Reason)

  /** out[n] lists the targets of n's out-edges in order; repeated targets are distinct edges. */
  datatype Graph = Graph(out: map<Node, seq<Node>>) {
    ghost predicate Valid() {
      && VOID in out && out[VOID] == []
      && forall n, i :: n in out && 0 <= i < |out[n]| ==> out[n][i] in out
    }

    ghost predicate IsLabel(r: Reason) {
      r.Label? && r.source in out && r.index < |out[r.source]|
    }

    /** The edge with this label leads to this node. */
    ghost predicate HasEdge(p: Position) {
      IsLabel(p.reason) && out[p.reason.source][p.reason.index] == p.node
    }

    function FirstOutgoing(n: Node): (p: Option<Position>)
      requires n in out
      ensures p.Some? ==> p.value.reason == Label(n, 0) && HasEdge(p.value)
      ensures p.None? <==> forall q :: HasEdge(q) ==> q.reason.source != n
    {
      if |out[n]| > 0 then Some(Position(out[n][0], Label(n, 0)))
      else
        None
    }

    /** The edge after the one with label r, among the out-edges of the same source. */
    function NextOutgoing(r: Reason): (p: Option<Position>)
      requires r.Label? ==> IsLabel(r)
      ensures p.Some? ==> r.Label? && p.value.reason == Label(r.source, r.index + 1) && HasEdge(p.value)
      ensures p.None? && r.Label? ==> r.index + 1 == |out[r.source]|
    {
      if r.Label? && r.index + 1 < |out[r.source]|
      then Some(Position(out[r.source][r.index + 1], Label(r.source, r.index + 1)))
      else None
    }
  }

  /** u has an edge to v, and v is not among the nodes the walk must not enter. */
  ghost predicate Edge(g: Graph, cut: set<Node>, u: Node, v: Node) {
    u in g.out && v in g.out[u] && v !in cut
  }

  ghost predicate IsPath(g: Graph, cut: set<Node>, p: seq<Node>) {
    |p| > 0 && forall i :: 0 <= i < |p| - 1 ==> Edge(g, cut, p[i], p[i + 1])
  }

  ghost predicate IsPathFromTo(g: Graph, cut: set<Node>, u: Node, v: Node, p: seq<Node>) {
    IsPath(g, cut, p) && p[0] == u && p[|p| - 1] == v
  }

  /** v can be reached from u by following edges, without entering cut. */
  ghost predicate Reach(g: Graph, cut: set<Node>, u: Node, v: Node) {
    exists p :: IsPathFromTo(g, cut, u, v, p)
  }

  ghost predicate Mutual(g: Graph, cut: set<Node>, u: Node, v: Node) {
    Reach(g, cut, u, v) && Reach(g, cut, v, u)
  }

  /** X is closed under edges. */
  ghost predicate Closed(g: Graph, cut: set<Node>, X: set<Node>) {
    forall u, v :: u in X && Edge(g, cut, u, v) ==> v in X
  }

  lemma ReachRefl(g: Graph, cut: set<Node>, u: Node)
    ensures Reach(g, cut, u, u)
  {
    assert IsPathFromTo(g, cut, u, u, [u]);
  }

  lemma ReachEdge(g: Graph, cut: set<Node>, u: Node, v: Node)
    requires Edge(g, cut, u, v)
    ensures Reach(g, cut, u, v)
  {
    assert IsPathFromTo(g, cut, u, v, [u, v]);
  }

  lemma ReachTrans(g: Graph, cut: set<Node>, u: Node, v: Node, w: Node)
    requires Reach(g, cut, u, v) && Reach(g, cut, v, w)
    ensures Reach(g, cut, u, w)
  {
    var p :| IsPathFromTo(g, cut, u, v, p);
    var q :| IsPathFromTo(g, cut, v, w, q);
    var r := p + q[1..];
    forall i | 0 <= i < |r| - 1 ensures Edge(g, cut, r[i], r[i + 1]) {
      if i < |p| - 1 {
        assert r[i] == p[i] && r[i + 1] == p[i + 1];
      } else {
        assert r[i] == q[i - (|p| - 1)] && r[i + 1] == q[i + 1 - (|p| - 1)];
      }
    }
    assert IsPathFromTo(g, cut, u, w, r);
  }

  /** A closed set that holds u holds everything reachable from u. */
  lemma ReachClosed(g: Graph, cut: set<Node>, X: set<Node>, u: Node, v: Node)
    requires Closed(g, cut, X) && u in X && Reach(g, cut, u, v)
    ensures v in X
  {
    var p :| IsPathFromTo(g, cut, u, v, p);
    PathClosed(g, cut, X, p);
  }

  lemma PathClosed(g: Graph, cut: set<Node>, X: set<Node>, p: seq<Node>)
    requires Closed(g, cut, X) && IsPath(g, cut, p) && p[0] in X
    ensures p[|p| - 1] in X
  {
    if |p| > 1 {
      assert Edge(g, cut, p[0], p[1]);
      forall i | 0 <= i < |p[1..]| - 1 ensures Edge(g, cut, p[1..][i], p[1..][i + 1]) {
        assert Edge(g, cut, p[i + 1], p[i + 2]);
      }
      PathClosed(g, cut, X, p[1..]);
    }
  }

  datatype Colour = White | Grey | Black

  /** The stack holds a path of grey nodes from start: each entry above the bottom was entered
      along an edge out of the entry below it. */
  ghost predicate IsGreyPath(g: Graph, start: Node, stack: seq<Position>, black: set<Node>) {
    && (|stack| > 0 ==> stack[0] == Position(start, NoReason))
    && (forall k :: 0 <= k < |stack| ==> stack[k].node in g.out && stack[k].node !in black)
    && (forall k :: 0 < k < |stack| ==> g.HasEdge(stack[k]) && stack[k].reason.source == stack[k - 1].node)
    && (forall j, k :: 0 <= j < k < |stack| ==> stack[j].node != stack[k].node)
  }

  ghost predicate OnStack(stack: seq<Position>, n: Node) {
    exists k :: 0 <= k < |stack| && stack[k].node == n
  }

  lemma OnStackAppend(stack: seq<Position>, p: Position, n: Node)
    ensures OnStack(stack + [p], n) <==> OnStack(stack, n) || n == p.node
  {
    assert (stack + [p])[|stack|] == p;
    if OnStack(stack, n) {
      var k :| 0 <= k < |stack| && stack[k].node == n;
      assert (stack + [p])[k].node == n;
    }
  }

  lemma GreyPathAppend(g: Graph, start: Node, stack: seq<Position>, black: set<Node>, p: Position)
    requires IsGreyPath(g, start, stack, black)
    requires p.node in g.out && p.node !in black && !OnStack(stack, p.node)
    requires if |stack| == 0 then p == Position(start, NoReason)
             else g.HasEdge(p) && p.reason.source == stack[|stack| - 1].node
    ensures IsGreyPath(g, start, stack + [p], black)
  {
    var s := stack + [p];
    forall k | 0 <= k < |stack| ensures s[k] == stack[k] && stack[k].node != p.node {}
  }

  lemma OnStackPop(stack: seq<Position>, n: Node)
    requires stack != []
    ensures OnStack(stack, n) <==> OnStack(stack[..|stack| - 1], n) || n == stack[|stack| - 1].node
  {
    var top := |stack| - 1;
    if OnStack(stack, n) {
      var k :| 0 <= k < |stack| && stack[k].node == n;
      if k < top { assert stack[..top][k].node == n; }
    }
  }

  lemma GreyPathPop(g: Graph, start: Node, stack: seq<Position>, black: set<Node>)
    requires IsGreyPath(g, start, stack, black) && stack != []
    ensures IsGreyPath(g, start, stack[..|stack| - 1], black + {stack[|stack| - 1].node})
  {
    var top := |stack| - 1;
    forall k | 0 <= k < top ensures stack[..top][k] == stack[k] && stack[k].node != stack[top].node {}
  }

  lemma UncutReach(g: Graph, cut: set<Node>, x: Node, y: Node)
    requires Reach(g, cut, x, y)
    ensures Reach(g, {}, x, y)
  {
    var p :| IsPathFromTo(g, cut, x, y, p);
    forall k | 0 <= k < |p| - 1 ensures Edge(g, {}, p[k], p[k + 1]) {
      assert Edge(g, cut, p[k], p[k + 1]);
    }
    assert IsPathFromTo(g, {}, x, y, p);
  }

  lemma SomeMember<T>(s: set<T>) returns (x: T)
    requires s != {}
    ensures x in s
  {
    x :| x in s;
  }
}
