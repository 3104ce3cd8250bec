/** The strongly connected components of the type graph, as built by a path-based search that can
    be resumed after each node it reaches. */
module Scc {
  import opened Wrappers
  import opened TypeGraph

  /** What the builder remembers: the grey stack, the black set, the two node stacks of the
      path-based algorithm, the preorder numbers and the components assigned so far. */
  datatype State = State(
    stack: seq<Position>,
    black: set<Node>,
    seen: seq<Node>,          // reached, but not yet assigned to a component
    perhaps: seq<Node>,       // not yet known to lie in different components from each other
    pre: map<Node, nat>,
    comp: map<Node, nat>,
    count: nat)

  ghost predicate Increasing(pre: map<Node, nat>, s: seq<Node>) {
    && (forall i :: 0 <= i < |s| ==> s[i] in pre)
    && (forall i, j :: 0 <= i < j < |s| ==> pre[s[i]] < pre[s[j]])
  }

  /** How many of the edges out of stack[k] have been dealt with; j for the top. */
  ghost function Cursor(stack: seq<Position>, j: nat, k: nat): nat
    requires k < |stack|
  {
    if k == |stack| - 1 then j else if stack[k + 1].reason.Label? then stack[k + 1].reason.index else 0
  }

  /** The i-th edge out of u has been dealt with. */
  ghost predicate Handled(g: Graph, s: State, j: nat, u: Node, i: int) {
    && u in g.out && 0 <= i < |g.out[u]|
    && (u in s.black || exists k :: 0 <= k < |s.stack| && s.stack[k].node == u && i < Cursor(s.stack, j, k))
  }

  ghost predicate GreyStack(g: Graph, cut: set<Node>, start: Node, s: State) {
    && IsGreyPath(g, start, s.stack, s.black)
    && (forall n :: n in s.pre <==> n in s.black || OnStack(s.stack, n))
    && (forall j, k :: 0 <= j < k < |s.stack| ==> s.pre[s.stack[j].node] < s.pre[s.stack[k].node])
  }

  ghost predicate Numbering(g: Graph, cut: set<Node>, start: Node, s: State) {
    && (forall n :: n in s.pre ==> n in g.out && n !in cut && s.pre[n] < |s.pre| && Reach(g, cut, start, n))
    && (forall m, n :: m in s.pre && n in s.pre && m != n ==> s.pre[m] != s.pre[n])
  }

  /** The nodes in seen are those reached but not assigned; perhaps picks, from the grey ones among
      them, the first of each run of seen whose members are known to reach each other. */
  ghost predicate Segments(g: Graph, cut: set<Node>, s: State) {
    && Increasing(s.pre, s.seen) && Increasing(s.pre, s.perhaps)
    && (forall n :: n in s.seen <==> n in s.pre && n !in s.comp)
    && (forall n :: n in s.perhaps ==> n in s.seen && OnStack(s.stack, n))
    && (forall n :: n in s.seen ==> |s.perhaps| > 0 && s.pre[s.perhaps[0]] <= s.pre[n])
    && (forall n, k :: n in s.seen && 0 <= k < |s.perhaps| && InSegment(s, k, n) ==> Mutual(g, cut, s.perhaps[k], n))
  }

  ghost predicate InSegment(s: State, k: nat, n: Node)
    requires k < |s.perhaps| && Increasing(s.pre, s.perhaps)
  {
    && n in s.pre
    && s.pre[s.perhaps[k]] <= s.pre[n]
    && (k + 1 < |s.perhaps| ==> s.pre[n] < s.pre[s.perhaps[k + 1]])
  }

  /** No edge dealt with leads from one run of seen back to an earlier one. */
  ghost predicate NoBackEdge(s: State, u: Node, v: Node) {
    && v in s.pre && u in s.pre
    && (u in s.comp ==> v in s.comp)
    && (v !in s.comp ==> forall p :: p in s.perhaps && p in s.pre && s.pre[p] <= s.pre[u] ==> s.pre[p] <= s.pre[v])
  }

  ghost predicate EdgesHandled(g: Graph, cut: set<Node>, s: State, j: nat) {
    forall u, i :: Handled(g, s, j, u, i) && g.out[u][i] !in cut ==> NoBackEdge(s, u, g.out[u][i])
  }

  /** Assigned nodes are in the same component exactly when they reach each other, and a whole
      component is assigned at once. */
  ghost predicate Components(g: Graph, cut: set<Node>, s: State) {
    && (forall x :: x in s.comp ==> x in s.black && x in s.pre && s.comp[x] < s.count)
    && (forall x, y :: x in s.comp ==> (Mutual(g, cut, x, y) <==> y in s.comp && s.comp[x] == s.comp[y]))
  }

  /** The invariant while the first j edges out of the top of the stack have been dealt with. */
  ghost predicate Inv(g: Graph, cut: set<Node>, start: Node, s: State, j: nat) {
    && g.Valid() && start in g.out && start != VOID && start !in cut
    && GreyStack(g, cut, start, s)
    && Numbering(g, cut, start, s)
    && Segments(g, cut, s)
    && EdgesHandled(g, cut, s, j)
    && Components(g, cut, s)
    && (s.stack == [] ==> s.pre == map[] || start in s.comp)
    && (s.stack != [] ==> j <= |g.out[s.stack[|s.stack| - 1].node]|)
  }

  lemma MutualRefl(g: Graph, cut: set<Node>, x: Node)
    ensures Mutual(g, cut, x, x)
  {
    ReachRefl(g, cut, x);
  }

  lemma MutualTrans(g: Graph, cut: set<Node>, x: Node, y: Node, z: Node)
    requires Mutual(g, cut, x, y) && Mutual(g, cut, y, z)
    ensures Mutual(g, cut, x, z)
  {
    ReachTrans(g, cut, x, y, z);
    ReachTrans(g, cut, z, y, x);
  }

  /** Reaching a white node: it is numbered and pushed on all three stacks. */
  function Visit(s: State, p: Position): State {
    s.(stack := s.stack + [p], seen := s.seen + [p.node], perhaps := s.perhaps + [p.node],
       pre := s.pre[p.node := |s.pre|])
  }

  ghost predicate CanVisit(g: Graph, cut: set<Node>, start: Node, s: State, j: nat, p: Position) {
    && p.node in g.out && p.node !in s.pre && p.node !in cut
    && (if s.stack == [] then s.pre == map[] && p == Position(start, NoReason)
        else g.HasEdge(p) && p.reason == Label(s.stack[|s.stack| - 1].node, j))
  }

  lemma VisitKeepsGreyStack(g: Graph, cut: set<Node>, start: Node, s: State, j: nat, p: Position)
    requires GreyStack(g, cut, start, s) && CanVisit(g, cut, start, s, j, p)
    requires forall n :: n in s.pre ==> s.pre[n] < |s.pre|
    ensures GreyStack(g, cut, start, Visit(s, p))
  {
    var t := Visit(s, p);
    GreyPathAppend(g, start, s.stack, s.black, p);
    forall n ensures n in t.pre <==> n in t.black || OnStack(t.stack, n) {
      OnStackAppend(s.stack, p, n);
    }
    hide IsGreyPath;
    forall j, k | 0 <= j < k < |t.stack| ensures t.pre[t.stack[j].node] < t.pre[t.stack[k].node] {
      assert OnStack(s.stack, s.stack[j].node);
      if k < |s.stack| { assert OnStack(s.stack, s.stack[k].node); }
    }
  }

  lemma VisitKeepsNumbering(g: Graph, cut: set<Node>, start: Node, s: State, j: nat, p: Position)
    requires Inv(g, cut, start, s, j) && CanVisit(g, cut, start, s, j, p)
    ensures Numbering(g, cut, start, Visit(s, p))
  {
    hide Segments, EdgesHandled, Components, Reach;
    if s.stack == [] {
      ReachRefl(g, cut, start);
    } else {
      var top := s.stack[|s.stack| - 1].node;
      assert OnStack(s.stack, top);
      assert Edge(g, cut, top, p.node);
      ReachEdge(g, cut, top, p.node);
      ReachTrans(g, cut, start, top, p.node);
    }
  }

  lemma IncreasingAppend(pre: map<Node, nat>, s: seq<Node>, n: Node, m: nat)
    requires Increasing(pre, s) && n !in pre && forall x :: x in pre ==> pre[x] < m
    ensures Increasing(pre[n := m], s + [n])
  {
    var t := s + [n];
    forall i, j | 0 <= i < j < |t| ensures pre[n := m][t[i]] < pre[n := m][t[j]] {
      assert t[i] == s[i] && (j < |s| ==> t[j] == s[j]);
    }
  }

  lemma VisitKeepsSegments(g: Graph, cut: set<Node>, s: State, p: Position)
    requires Segments(g, cut, s) && p.node !in s.pre && p.node !in s.comp
    requires forall n :: n in s.pre ==> s.pre[n] < |s.pre|
    ensures Segments(g, cut, Visit(s, p))
  {
    hide Mutual;
    var t := Visit(s, p);
    IncreasingAppend(s.pre, s.seen, p.node, |s.pre|);
    IncreasingAppend(s.pre, s.perhaps, p.node, |s.pre|);
    forall n | n in t.perhaps ensures n in t.seen && OnStack(t.stack, n) {
      OnStackAppend(s.stack, p, n);
    }
    hide OnStack;
    forall n, k | n in t.seen && 0 <= k < |t.perhaps| && InSegment(t, k, n) ensures Mutual(g, cut, t.perhaps[k], n) {
      if n == p.node {
        assert k == |s.perhaps|;
        MutualRefl(g, cut, n);
      } else {
        assert k < |s.perhaps| && t.perhaps[k] == s.perhaps[k] && InSegment(s, k, n);
      }
    }
  }

  lemma VisitKeepsHandled(g: Graph, cut: set<Node>, start: Node, s: State, j: nat, p: Position, u: Node, i: int)
    requires CanVisit(g, cut, start, s, j, p) && Handled(g, Visit(s, p), 0, u, i)
    ensures Handled(g, s, j, u, i)
  {
    var t := Visit(s, p);
    if u !in s.black {
      var k :| 0 <= k < |t.stack| && t.stack[k].node == u && i < Cursor(t.stack, 0, k);
      assert s.stack[k].node == u && i < Cursor(s.stack, j, k);
    }
  }

  lemma VisitKeepsEdges(g: Graph, cut: set<Node>, start: Node, s: State, j: nat, p: Position)
    requires EdgesHandled(g, cut, s, j) && CanVisit(g, cut, start, s, j, p)
    requires forall n :: n in s.pre ==> s.pre[n] < |s.pre|
    ensures EdgesHandled(g, cut, Visit(s, p), 0)
  {
    var t := Visit(s, p);
    forall u, i | Handled(g, t, 0, u, i) && g.out[u][i] !in cut ensures NoBackEdge(t, u, g.out[u][i]) {
      VisitKeepsHandled(g, cut, start, s, j, p, u, i);
      hide Handled;
      assert NoBackEdge(s, u, g.out[u][i]);
    }
  }

  lemma VisitKeepsInv(g: Graph, cut: set<Node>, start: Node, s: State, j: nat, p: Position)
    requires Inv(g, cut, start, s, j) && CanVisit(g, cut, start, s, j, p)
    ensures Inv(g, cut, start, Visit(s, p), 0)
  {
    hide GreyStack, Segments, EdgesHandled, Reach;
    VisitKeepsGreyStack(g, cut, start, s, j, p);
    VisitKeepsNumbering(g, cut, start, s, j, p);
    VisitKeepsSegments(g, cut, s, p);
    VisitKeepsEdges(g, cut, start, s, j, p);
  }

  ghost function Top(s: State): Node
    requires s.stack != []
  {
    s.stack[|s.stack| - 1].node
  }

  /** One more edge out of the top of the stack has been dealt with. */
  lemma AdvanceKeepsInv(g: Graph, cut: set<Node>, start: Node, s: State, j: nat)
    requires Inv(g, cut, start, s, j) && s.stack != [] && j < |g.out[Top(s)]|
    requires g.out[Top(s)][j] in cut || NoBackEdge(s, Top(s), g.out[Top(s)][j])
    ensures Inv(g, cut, start, s, j + 1)
  {
    hide Reach, NoBackEdge, Segments, Components, Numbering;
    forall u, i | Handled(g, s, j + 1, u, i) && g.out[u][i] !in cut ensures NoBackEdge(s, u, g.out[u][i]) {
      if u in s.black {
        assert Handled(g, s, j, u, i);
      } else {
        var k :| 0 <= k < |s.stack| && s.stack[k].node == u && i < Cursor(s.stack, j + 1, k);
        if k < |s.stack| - 1 || i < j {
          assert i < Cursor(s.stack, j, k);
          assert Handled(g, s, j, u, i);
        }
      }
    }
  }

  /** Nodes lower on the stack reach those above. */
  lemma StackReach(g: Graph, cut: set<Node>, start: Node, s: State, a: nat, b: nat)
    requires GreyStack(g, cut, start, s) && Numbering(g, cut, start, s)
    requires a <= b < |s.stack|
    ensures Reach(g, cut, s.stack[a].node, s.stack[b].node)
  {
    hide Reach;
    if a == b {
      ReachRefl(g, cut, s.stack[a].node);
    } else {
      StackReach(g, cut, start, s, a, b - 1);
      assert g.HasEdge(s.stack[b]) && s.stack[b].reason.source == s.stack[b - 1].node;
      assert OnStack(s.stack, s.stack[b].node);
      assert Edge(g, cut, s.stack[b - 1].node, s.stack[b].node);
      ReachEdge(g, cut, s.stack[b - 1].node, s.stack[b].node);
      ReachTrans(g, cut, s.stack[a].node, s.stack[b - 1].node, s.stack[b].node);
    }
  }

  lemma GreyReach(g: Graph, cut: set<Node>, start: Node, s: State, u: Node, v: Node)
    requires GreyStack(g, cut, start, s) && Numbering(g, cut, start, s)
    requires OnStack(s.stack, u) && OnStack(s.stack, v) && s.pre[u] <= s.pre[v]
    ensures Reach(g, cut, u, v)
  {
    hide Reach;
    var a :| 0 <= a < |s.stack| && s.stack[a].node == u;
    var b :| 0 <= b < |s.stack| && s.stack[b].node == v;
    assert a <= b;
    StackReach(g, cut, start, s, a, b);
  }

  lemma FindSegment(s: State, m: nat, n: Node) returns (k: nat)
    requires Increasing(s.pre, s.perhaps) && m < |s.perhaps| && n in s.pre && s.pre[s.perhaps[m]] <= s.pre[n]
    ensures m <= k < |s.perhaps| && InSegment(s, k, n)
  {
    k := m;
    while k + 1 < |s.perhaps| && s.pre[s.perhaps[k + 1]] <= s.pre[n]
      invariant m <= k < |s.perhaps| && s.pre[s.perhaps[k]] <= s.pre[n]
    {
      k := k + 1;
    }
  }

  /** An edge from the top of the stack to w, which is unassigned, closes a cycle through every run of
      seen from w's on: popping perhaps merges them. */
  ghost predicate CanMerge(g: Graph, cut: set<Node>, s: State, w: Node, m: nat) {
    && s.stack != [] && Edge(g, cut, Top(s), w) && w in s.pre && w in s.seen
    && 0 < m <= |s.perhaps|
    && (forall k :: 0 <= k < |s.perhaps| ==> s.perhaps[k] in s.pre)
    && s.pre[s.perhaps[m - 1]] <= s.pre[w]
    && (forall k :: m <= k < |s.perhaps| ==> s.pre[w] < s.pre[s.perhaps[k]])
  }

  lemma MergeKeepsSegments(g: Graph, cut: set<Node>, start: Node, s: State, w: Node, m: nat)
    requires GreyStack(g, cut, start, s) && Numbering(g, cut, start, s) && Segments(g, cut, s)
    requires CanMerge(g, cut, s, w, m)
    ensures Segments(g, cut, s.(perhaps := s.perhaps[..m]))
  {
    hide Reach;
    var t := s.(perhaps := s.perhaps[..m]);
    forall n, k | n in t.seen && 0 <= k < |t.perhaps| && InSegment(t, k, n) ensures Mutual(g, cut, t.perhaps[k], n) {
      if k + 1 < m {
        assert InSegment(s, k, n);
      } else {
        var k' := FindSegment(s, m - 1, n);
        if k' == m - 1 {
          assert InSegment(s, k, n);
        } else {
          assert InSegment(s, m - 1, w);
          MergedMutual(g, cut, start, s, w, s.perhaps[m - 1], s.perhaps[k']);
          MutualTrans(g, cut, s.perhaps[m - 1], s.perhaps[k'], n);
        }
      }
    }
  }

  lemma MergedMutual(g: Graph, cut: set<Node>, start: Node, s: State, w: Node, p: Node, q: Node)
    requires GreyStack(g, cut, start, s) && Numbering(g, cut, start, s)
    requires s.stack != [] && Edge(g, cut, Top(s), w)
    requires OnStack(s.stack, p) && OnStack(s.stack, q) && s.pre[p] <= s.pre[q]
    requires Mutual(g, cut, p, w)
    ensures Mutual(g, cut, p, q)
  {
    hide Reach;
    GreyReach(g, cut, start, s, p, q);
    var b :| 0 <= b < |s.stack| && s.stack[b].node == q;
    StackReach(g, cut, start, s, b, |s.stack| - 1);
    ReachEdge(g, cut, Top(s), w);
    ReachTrans(g, cut, q, Top(s), w);
    ReachTrans(g, cut, q, w, p);
  }

  lemma MergedEdge(s: State, w: Node, m: nat)
    requires Increasing(s.pre, s.perhaps) && 0 < m <= |s.perhaps| && w in s.pre
    requires s.pre[s.perhaps[m - 1]] <= s.pre[w]
    requires s.stack != [] && Top(s) in s.pre && Top(s) !in s.comp
    ensures NoBackEdge(s.(perhaps := s.perhaps[..m]), Top(s), w)
  {
    forall p | p in s.perhaps[..m] ensures s.pre[p] <= s.pre[w] {
      var k :| 0 <= k < m && s.perhaps[k] == p;
    }
  }

  lemma MergeKeepsEdges(g: Graph, cut: set<Node>, s: State, j: nat, m: nat)
    requires EdgesHandled(g, cut, s, j) && m <= |s.perhaps|
    ensures EdgesHandled(g, cut, s.(perhaps := s.perhaps[..m]), j)
  {
    var t := s.(perhaps := s.perhaps[..m]);
    forall u, i | Handled(g, t, j, u, i) && g.out[u][i] !in cut ensures NoBackEdge(t, u, g.out[u][i]) {
      assert Handled(g, s, j, u, i);
      assert NoBackEdge(s, u, g.out[u][i]);
    }
  }

  lemma TopIsGrey(g: Graph, cut: set<Node>, start: Node, s: State)
    requires GreyStack(g, cut, start, s) && Components(g, cut, s) && s.stack != []
    ensures Top(s) in s.pre && Top(s) !in s.black && Top(s) !in s.comp
  {
    hide Mutual;
    assert OnStack(s.stack, Top(s));
  }

  lemma MergeKeepsInv(g: Graph, cut: set<Node>, start: Node, s: State, j: nat, w: Node, m: nat)
    requires Inv(g, cut, start, s, j) && CanMerge(g, cut, s, w, m)
    ensures Inv(g, cut, start, s.(perhaps := s.perhaps[..m]), j)
    ensures NoBackEdge(s.(perhaps := s.perhaps[..m]), Top(s), w)
  {
    hide Reach, Mutual, Segments, EdgesHandled, InSegment, NoBackEdge, GreyStack, Numbering, Components, Increasing;
    MergeKeepsRest(g, cut, start, s, m);
    MergeKeepsSegments(g, cut, start, s, w, m);
    MergeKeepsEdges(g, cut, s, j, m);
    TopIsGrey(g, cut, start, s);
    PerhapsIncrease(g, cut, s);
    MergedEdge(s, w, m);
  }

  lemma PerhapsIncrease(g: Graph, cut: set<Node>, s: State)
    requires Segments(g, cut, s)
    ensures Increasing(s.pre, s.perhaps)
  {
    hide Mutual, InSegment, OnStack;
  }

  lemma MergeKeepsRest(g: Graph, cut: set<Node>, start: Node, s: State, m: nat)
    requires GreyStack(g, cut, start, s) && Numbering(g, cut, start, s) && Components(g, cut, s) && m <= |s.perhaps|
    ensures var t := s.(perhaps := s.perhaps[..m]);
            GreyStack(g, cut, start, t) && Numbering(g, cut, start, t) && Components(g, cut, t)
  {
    hide Reach, Mutual, IsGreyPath, OnStack;
  }

  /** The top of the stack, all of whose edges have been dealt with, becomes black and is popped. */
  function Retire(s: State): State
    requires s.stack != []
  {
    s.(stack := s.stack[..|s.stack| - 1], black := s.black + {s.stack[|s.stack| - 1].node})
  }

  function AssignedFrom(comp: map<Node, nat>, seen: seq<Node>, k: nat, c: nat): map<Node, nat>
    requires k <= |seen|
  {
    comp + (map x | x in seen[k..] :: c)
  }

  /** The nodes of seen from the i-th on form a new component. */
  function Assign(s: State, i: nat): State
    requires i <= |s.seen| && s.perhaps != []
  {
    s.(seen := s.seen[..i], perhaps := s.perhaps[..|s.perhaps| - 1],
       comp := AssignedFrom(s.comp, s.seen, i, s.count), count := s.count + 1)
  }

  /** Having come back along an edge, the iteration resumes with the edge after it. */
  ghost function NextCursor(s: State): nat
    requires s.stack != []
  {
    var r := s.stack[|s.stack| - 1].reason;
    if r.Label? then r.index + 1 else 0
  }

  lemma RetireKeepsGreyStack(g: Graph, cut: set<Node>, start: Node, s: State)
    requires GreyStack(g, cut, start, s) && s.stack != []
    ensures GreyStack(g, cut, start, Retire(s))
  {
    var t := Retire(s);
    GreyPathPop(g, start, s.stack, s.black);
    forall n ensures n in t.pre <==> n in t.black || OnStack(t.stack, n) {
      OnStackPop(s.stack, n);
    }
    hide IsGreyPath, OnStack;
  }

  lemma RetireHandled(g: Graph, s: State, u: Node, i: int)
    requires s.stack != [] && Top(s) in g.out && Handled(g, Retire(s), NextCursor(s), u, i)
    ensures Handled(g, s, |g.out[Top(s)]|, u, i)
            || (|s.stack| > 1 && u == s.stack[|s.stack| - 2].node && i == NextCursor(s) - 1)
  {
    var t, top := Retire(s), |s.stack| - 1;
    if u in s.black {
    } else if u == Top(s) {
      assert i < Cursor(s.stack, |g.out[Top(s)]|, top);
    } else {
      var k :| 0 <= k < |t.stack| && t.stack[k].node == u && i < Cursor(t.stack, NextCursor(s), k);
      assert s.stack[k].node == u;
      if k < top - 1 || i < NextCursor(s) - 1 {
        assert i < Cursor(s.stack, |g.out[Top(s)]|, k);
      }
    }
  }

  /** The edge along which the top of the stack was entered leads forward. */
  lemma TreeEdge(g: Graph, cut: set<Node>, start: Node, s: State, p: State)
    requires GreyStack(g, cut, start, s) && |s.stack| > 1
    requires p.pre == s.pre && s.stack[|s.stack| - 2].node !in p.comp
    ensures NextCursor(s) > 0
    ensures var u := s.stack[|s.stack| - 2].node;
            && u in g.out && NextCursor(s) - 1 < |g.out[u]| && g.out[u][NextCursor(s) - 1] == Top(s)
            && NoBackEdge(p, u, Top(s))
  {
    var u := s.stack[|s.stack| - 2].node;
    assert g.HasEdge(s.stack[|s.stack| - 1]);
    assert OnStack(s.stack, u) && OnStack(s.stack, Top(s));
    assert s.pre[u] < s.pre[Top(s)];
  }

  lemma LastPerhaps(g: Graph, cut: set<Node>, start: Node, s: State)
    requires GreyStack(g, cut, start, s) && Segments(g, cut, s) && s.stack != []
    requires forall x :: x in s.comp ==> x in s.black
    ensures Top(s) in s.seen && s.perhaps != []
    ensures forall p :: p in s.perhaps && p == Top(s) ==> p == s.perhaps[|s.perhaps| - 1]
  {
    hide Mutual;
    var n := Top(s);
    assert OnStack(s.stack, n) && n !in s.black;
    var q := s.perhaps[|s.perhaps| - 1];
    assert q in s.perhaps;
    var b :| 0 <= b < |s.stack| && s.stack[b].node == q;
    assert s.pre[q] <= s.pre[n];
    if n in s.perhaps {
      var k :| 0 <= k < |s.perhaps| && s.perhaps[k] == n;
      assert k == |s.perhaps| - 1;
    }
  }

  lemma PerhapsStaysOnStack(g: Graph, cut: set<Node>, start: Node, s: State)
    requires GreyStack(g, cut, start, s) && Segments(g, cut, s) && s.stack != []
    requires forall x :: x in s.comp ==> x in s.black
    requires s.perhaps != [] && s.perhaps[|s.perhaps| - 1] != Top(s)
    ensures forall p :: p in s.perhaps ==> OnStack(Retire(s).stack, p)
    ensures |s.stack| > 1
  {
    hide Mutual;
    LastPerhaps(g, cut, start, s);
    forall p | p in s.perhaps ensures OnStack(Retire(s).stack, p) {
      OnStackPop(s.stack, p);
    }
    assert OnStack(Retire(s).stack, s.perhaps[0]);
  }

  /** Retiring a node that is not the first of its run leaves it to be assigned later. */
  lemma RetireKeepsInv(g: Graph, cut: set<Node>, start: Node, s: State)
    requires s.stack != [] && Top(s) in g.out && Inv(g, cut, start, s, |g.out[Top(s)]|)
    requires s.perhaps != [] && s.perhaps[|s.perhaps| - 1] != Top(s)
    ensures Inv(g, cut, start, Retire(s), NextCursor(s))
  {
    hide Mutual, Segments, GreyStack, EdgesHandled, OnStack;
    var t := Retire(s);
    PerhapsStaysOnStack(g, cut, start, s);
    RetireKeepsGreyStack(g, cut, start, s);
    RetireKeepsEdges(g, cut, start, s, t);
    RetireKeepsSegments(g, cut, s);
    CursorInRange(g, cut, start, s);
  }

  lemma CursorInRange(g: Graph, cut: set<Node>, start: Node, s: State)
    requires GreyStack(g, cut, start, s) && s.stack != []
    ensures |s.stack| > 1 ==> s.stack[|s.stack| - 2].node in g.out
                              && NextCursor(s) <= |g.out[s.stack[|s.stack| - 2].node]|
  {
  }

  lemma RetireKeepsSegments(g: Graph, cut: set<Node>, s: State)
    requires Segments(g, cut, s) && s.stack != []
    requires forall p :: p in s.perhaps ==> OnStack(Retire(s).stack, p)
    ensures Segments(g, cut, Retire(s))
  {
    hide Mutual, OnStack;
    var t := Retire(s);
    forall n, k | n in t.seen && 0 <= k < |t.perhaps| && InSegment(t, k, n) ensures Mutual(g, cut, t.perhaps[k], n) {
      assert InSegment(s, k, n);
    }
  }

  lemma RetireKeepsEdges(g: Graph, cut: set<Node>, start: Node, s: State, t: State)
    requires GreyStack(g, cut, start, s) && s.stack != [] && Top(s) in g.out
    requires EdgesHandled(g, cut, s, |g.out[Top(s)]|)
    requires t == Retire(s)
    requires forall x :: x in s.comp ==> x in s.black
    ensures EdgesHandled(g, cut, t, NextCursor(s))
  {
    forall u, i | Handled(g, t, NextCursor(s), u, i) && g.out[u][i] !in cut ensures NoBackEdge(t, u, g.out[u][i]) {
      RetireHandled(g, s, u, i);
      if Handled(g, s, |g.out[Top(s)]|, u, i) {
        assert NoBackEdge(s, u, g.out[u][i]);
      } else {
        assert OnStack(s.stack, u) && u !in s.black;
        TreeEdge(g, cut, start, s, t);
      }
    }
  }

  /** The state in which the top of the stack is the first node of the last run of seen, with all its
      edges dealt with; the run starts at index i. */
  ghost predicate CanAssign(g: Graph, s: State, i: nat) {
    && s.stack != [] && Top(s) in g.out
    && i < |s.seen| && s.seen[i] == Top(s)
    && s.perhaps != [] && s.perhaps[|s.perhaps| - 1] == Top(s)
  }

  ghost function Run(s: State, i: nat): set<Node>
    requires i <= |s.seen|
  {
    set x | x in s.seen[i..]
  }

  lemma InRun(s: State, i: nat, x: Node)
    requires Increasing(s.pre, s.seen) && i < |s.seen|
    ensures x in Run(s, i) <==> x in s.seen && s.pre[x] >= s.pre[s.seen[i]]
    ensures x in s.seen[..i] <==> x in s.seen && x !in Run(s, i)
  {
    if x in s.seen {
      var k :| 0 <= k < |s.seen| && s.seen[k] == x;
      if k >= i { assert x == s.seen[i..][k - i]; } else { assert x == s.seen[..i][k]; }
      if x in s.seen[..i] {
        var m :| 0 <= m < i && s.seen[m] == x;
      }
    }
  }

  /** Nodes of the run other than the top of the stack are finished. */
  lemma RunIsFinished(g: Graph, cut: set<Node>, start: Node, s: State, i: nat, u: Node)
    requires GreyStack(g, cut, start, s) && Segments(g, cut, s) && CanAssign(g, s, i)
    requires u in Run(s, i)
    ensures u in s.black || u == Top(s)
  {
    hide Mutual;
    InRun(s, i, u);
    if u !in s.black {
      var k :| 0 <= k < |s.stack| && s.stack[k].node == u;
      assert k == |s.stack| - 1;
    }
  }

  lemma AssignedClosed(g: Graph, cut: set<Node>, s: State, j: nat)
    requires EdgesHandled(g, cut, s, j)
    requires forall x :: x in s.comp ==> x in s.black
    ensures Closed(g, cut, s.comp.Keys)
  {
    forall u, v | u in s.comp.Keys && Edge(g, cut, u, v) ensures v in s.comp.Keys {
      var i :| 0 <= i < |g.out[u]| && g.out[u][i] == v;
      assert Handled(g, s, j, u, i);
    }
  }

  lemma RunClosed(g: Graph, cut: set<Node>, start: Node, s: State, i: nat)
    requires GreyStack(g, cut, start, s) && Segments(g, cut, s) && CanAssign(g, s, i)
    requires EdgesHandled(g, cut, s, |g.out[Top(s)]|)
    requires forall x :: x in s.comp ==> x in s.black
    ensures Closed(g, cut, s.comp.Keys + Run(s, i))
  {
    hide Mutual, InSegment, IsGreyPath;
    var j := |g.out[Top(s)]|;
    AssignedClosed(g, cut, s, j);
    forall u, v | u in Run(s, i) && Edge(g, cut, u, v) ensures v in s.comp.Keys + Run(s, i) {
      RunIsFinished(g, cut, start, s, i, u);
      InRun(s, i, u);
      InRun(s, i, v);
      var e :| 0 <= e < |g.out[u]| && g.out[u][e] == v;
      assert u == Top(s) ==> e < Cursor(s.stack, j, |s.stack| - 1);
      assert Handled(g, s, j, u, e);
      assert NoBackEdge(s, u, v);
      assert s.perhaps[|s.perhaps| - 1] in s.perhaps;
    }
  }

  /** The run is a whole strongly connected component. */
  lemma RunIsComponent(g: Graph, cut: set<Node>, start: Node, s: State, i: nat, x: Node, y: Node)
    requires GreyStack(g, cut, start, s) && Segments(g, cut, s) && CanAssign(g, s, i)
    requires EdgesHandled(g, cut, s, |g.out[Top(s)]|)
    requires forall x :: x in s.comp ==> x in s.black
    requires x in Run(s, i)
    ensures Mutual(g, cut, x, y) <==> y in Run(s, i)
  {
    hide Reach;
    RunClosed(g, cut, start, s, i);
    AssignedClosed(g, cut, s, |g.out[Top(s)]|);
    InRun(s, i, x);
    InRun(s, i, y);
    if Mutual(g, cut, x, y) {
      ReachClosed(g, cut, s.comp.Keys + Run(s, i), x, y);
      if y in s.comp.Keys {
        ReachClosed(g, cut, s.comp.Keys, y, x);
        assert false;
      }
    }
    if y in Run(s, i) {
      RunMutual(g, cut, s, i, x);
      RunMutual(g, cut, s, i, y);
      MutualTrans(g, cut, x, Top(s), y);
    }
  }

  lemma RunMutual(g: Graph, cut: set<Node>, s: State, i: nat, x: Node)
    requires Segments(g, cut, s) && CanAssign(g, s, i) && x in Run(s, i)
    ensures Mutual(g, cut, Top(s), x)
  {
    hide Mutual;
    InRun(s, i, x);
    assert InSegment(s, |s.perhaps| - 1, x);
  }

  lemma AssignMembers(s: State, i: nat, n: Node)
    requires i < |s.seen| && s.perhaps != [] && Increasing(s.pre, s.seen)
    ensures n in Assign(s, i).seen <==> n in s.seen && n !in Run(s, i)
    ensures n in Assign(s, i).comp <==> n in s.comp || n in Run(s, i)
  {
    InRun(s, i, n);
  }

  lemma AssignKeepsPerhaps(g: Graph, cut: set<Node>, s: State, i: nat, p: Node)
    requires Segments(g, cut, s) && CanAssign(g, s, i) && p in Assign(s, i).perhaps
    ensures p in Assign(s, i).seen && OnStack(Retire(s).stack, p)
  {
    hide Mutual, InSegment;
    var k :| 0 <= k < |s.perhaps| - 1 && s.perhaps[k] == p;
    assert p in s.perhaps && s.pre[p] < s.pre[Top(s)];
    InRun(s, i, p);
    OnStackPop(s.stack, p);
  }

  lemma AssignKeepsSegments(g: Graph, cut: set<Node>, start: Node, s: State, i: nat)
    requires GreyStack(g, cut, start, s) && Segments(g, cut, s) && CanAssign(g, s, i)
    ensures Segments(g, cut, Retire(Assign(s, i)))
  {
    hide Mutual, GreyStack, Run, AssignedFrom, OnStack;
    var t := Retire(Assign(s, i));
    forall n ensures (n in t.seen <==> n in t.pre && n !in t.comp)
      && (n in t.seen ==> n in s.seen && s.pre[n] < s.pre[Top(s)]) {
      AssignMembers(s, i, n);
      InRun(s, i, n);
    }
    forall p | p in t.perhaps ensures p in t.seen && OnStack(t.stack, p) {
      AssignKeepsPerhaps(g, cut, s, i, p);
    }
    forall n, k | n in t.seen && 0 <= k < |t.perhaps| && InSegment(t, k, n) ensures Mutual(g, cut, t.perhaps[k], n) {
      assert InSegment(s, k, n);
    }
  }

  lemma AssignKeepsEdges(g: Graph, cut: set<Node>, start: Node, s: State, i: nat)
    requires GreyStack(g, cut, start, s) && Segments(g, cut, s) && CanAssign(g, s, i)
    requires EdgesHandled(g, cut, s, |g.out[Top(s)]|)
    requires forall x :: x in s.comp ==> x in s.black
    ensures EdgesHandled(g, cut, Retire(Assign(s, i)), NextCursor(s))
  {
    hide Mutual, IsGreyPath, InSegment;
    var t := Retire(Assign(s, i));
    forall u, e | Handled(g, t, NextCursor(s), u, e) && g.out[u][e] !in cut ensures NoBackEdge(t, u, g.out[u][e]) {
      var v := g.out[u][e];
      assert Handled(g, Retire(s), NextCursor(s), u, e);
      RetireHandled(g, s, u, e);
      InRun(s, i, u);
      if Handled(g, s, |g.out[Top(s)]|, u, e) {
        assert NoBackEdge(s, u, v);
        if u in Run(s, i) {
          RunClosed(g, cut, start, s, i);
          assert Edge(g, cut, u, v);
        }
      } else {
        assert OnStack(s.stack, u) && u !in s.black;
        assert s.pre[u] < s.pre[Top(s)];
        TreeEdge(g, cut, start, s, t);
      }
    }
  }

  lemma AssignKeepsComponents(g: Graph, cut: set<Node>, start: Node, s: State, i: nat)
    requires GreyStack(g, cut, start, s) && Segments(g, cut, s) && CanAssign(g, s, i)
    requires EdgesHandled(g, cut, s, |g.out[Top(s)]|)
    requires Components(g, cut, s)
    ensures Components(g, cut, Retire(Assign(s, i)))
  {
    var t := Retire(Assign(s, i));
    forall x | x in Run(s, i) ensures x in s.seen && x in t.black && x !in s.comp {
      RunIsFinished(g, cut, start, s, i, x);
      InRun(s, i, x);
    }
    hide Segments, EdgesHandled, GreyStack, Mutual, OnStack, Run;
    forall x, y | x in t.comp ensures Mutual(g, cut, x, y) <==> y in t.comp && t.comp[x] == t.comp[y] {
      if x in Run(s, i) {
        RunIsComponent(g, cut, start, s, i, x, y);
      } else {
        assert Mutual(g, cut, x, y) <==> y in s.comp && s.comp[x] == s.comp[y];
      }
    }
  }

  /** Assigning the last run of seen to a new component and retiring its first node. */
  lemma AssignKeepsInv(g: Graph, cut: set<Node>, start: Node, s: State, i: nat)
    requires s.stack != [] && Top(s) in g.out && Inv(g, cut, start, s, |g.out[Top(s)]|)
    requires CanAssign(g, s, i)
    ensures Inv(g, cut, start, Retire(Assign(s, i)), NextCursor(s))
  {
    hide Mutual, Segments, EdgesHandled, OnStack, Components;
    var a := Assign(s, i);
    assert forall x :: x in s.comp ==> x in s.black by { BlackIfAssigned(g, cut, s); }
    AssignKeepsSegments(g, cut, start, s, i);
    AssignKeepsEdges(g, cut, start, s, i);
    AssignKeepsComponents(g, cut, start, s, i);
    assert GreyStack(g, cut, start, a);
    RetireKeepsGreyStack(g, cut, start, a);
    CursorInRange(g, cut, start, s);
    if |s.stack| == 1 { assert start == Top(s) && start in s.seen[i..] by { assert s.seen[i..][0] == Top(s); } }
  }

  lemma BlackIfAssigned(g: Graph, cut: set<Node>, s: State)
    requires Components(g, cut, s)
    ensures forall x :: x in s.comp ==> x in s.black
  {
  }

  /** The edges out of the current node are scanned from the j-th on. */
  ghost predicate Scanning(g: Graph, cut: set<Node>, start: Node, s: State, j: nat, node: Node,
                           succ: Option<Position>) {
    && Inv(g, cut, start, s, j)
    && g.Valid() && s.stack != [] && Top(s) == node
    && node in g.out && j <= |g.out[node]|
    && (if j < |g.out[node]| then succ == Some(Position(g.out[node][j], Label(node, j))) else succ == None)
  }

  /** The walk is about to visit a white node. */
  ghost predicate AtWhite(g: Graph, cut: set<Node>, start: Node, s: State, p: Position) {
    var j := if p.reason.Label? then p.reason.index else 0;
    Inv(g, cut, start, s, j) && CanVisit(g, cut, start, s, j, p)
  }

  /** The walk is at a node that has become black and is still on the stack. */
  ghost predicate AtBlack(g: Graph, cut: set<Node>, start: Node, s: State, p: Position) {
    && s.stack != [] && s.stack[|s.stack| - 1] == p && p.node in s.black
    && (if |s.stack| == 1 then p == Position(start, NoReason)
        else g.HasEdge(p) && p.reason.source == s.stack[|s.stack| - 2].node)
    && Inv(g, cut, start, s.(stack := s.stack[..|s.stack| - 1]), NextCursor(s))
  }

  class SccBuilder {
    const g: Graph
    const cut: set<Node>    // types that already have a cached result
    const start: Node
    var node: Node
    var reason: Reason
    var stack: seq<Position>
    var black: set<Node>
    var seenButNotAssigned: seq<Node>
    var perhapsSameScc: seq<Node>
    var preorderNumbers: map<Node, nat>
    var componentNumbers: map<Node, nat>
    var componentCount: nat

    ghost function St(): State
      reads this
    {
      State(stack, black, seenButNotAssigned, perhapsSameScc, preorderNumbers, componentNumbers, componentCount)
    }

    predicate AtEnd()
      reads this
    {
      node == VOID && reason == NoReason
    }

    ghost predicate Valid()
      reads this
    {
      && g.Valid() && VOID !in cut
      && (if AtEnd() then stack == [] && preorderNumbers != map[] && Inv(g, cut, start, St(), 0)
          else AtWhite(g, cut, start, St(), Position(node, reason)))
    }

    constructor (g: Graph, cut: set<Node>, start: Node)
      requires g.Valid() && start in g.out && start != VOID && start !in cut && VOID !in cut
      ensures Valid() && !AtEnd() && this.g == g && this.cut == cut && this.start == start
      ensures preorderNumbers == map[]
    {
      this.g, this.cut, this.start := g, cut, start;
      node, reason, stack, black := start, NoReason, [], {};
      seenButNotAssigned, perhapsSameScc := [], [];
      preorderNumbers, componentNumbers, componentCount := map[], map[], 0;
    }

    /** Steps 1 and 2 for a white node. */
    method VisitNode()
      requires Valid() && !AtEnd()
      modifies this
      ensures node == old(node) && reason == old(reason)
      ensures St() == Visit(old(St()), Position(old(node), old(reason)))
      ensures Inv(g, cut, start, St(), 0)
    {
      VisitKeepsInv(g, cut, start, St(), if reason.Label? then reason.index else 0, Position(node, reason));
      preorderNumbers := preorderNumbers[node := |preorderNumbers|];
      seenButNotAssigned := seenButNotAssigned + [node];
      perhapsSameScc := perhapsSameScc + [node];
      stack := stack + [Position(node, reason)];
    }

    /** Step 3b for an edge from the current node to w, which has been reached before. */
    method MergeSegments(w: Node, ghost j: nat)
      requires Inv(g, cut, start, St(), j) && stack != [] && Edge(g, cut, Top(St()), w)
      requires w in preorderNumbers && w !in componentNumbers
      modifies this`perhapsSameScc
      ensures Inv(g, cut, start, St(), j) && NoBackEdge(St(), Top(St()), w)
      ensures perhapsSameScc <= old(perhapsSameScc)
    {
      hide Inv, Edge, NoBackEdge;
      ghost var s := St();
      CanPop(g, cut, start, s, j, w);
      while preorderNumbers[perhapsSameScc[|perhapsSameScc| - 1]] > preorderNumbers[w]
        invariant 0 < |perhapsSameScc| <= |s.perhaps| && perhapsSameScc == s.perhaps[..|perhapsSameScc|]
        invariant forall k :: |perhapsSameScc| <= k < |s.perhaps| ==> s.pre[w] < s.pre[s.perhaps[k]]
        decreases |perhapsSameScc|
      {
        perhapsSameScc := perhapsSameScc[..|perhapsSameScc| - 1];
      }
      MergeKeepsInv(g, cut, start, s, j, w, |perhapsSameScc|);
    }

    /** Follows the remaining edges out of the current node, from succ on, up to the first that
        leads to a white node; the walk then moves there. */
    method ScanEdges(first: Option<Position>, ghost j0: nat) returns (moved: bool)
      requires Scanning(g, cut, start, St(), j0, node, first) && VOID !in cut
      modifies this`node, this`reason, this`perhapsSameScc
      ensures moved ==> Valid() && !AtEnd()
      ensures !moved ==> node == old(node) && reason == old(reason)
      ensures !moved ==> node in g.out && Inv(g, cut, start, St(), |g.out[node]|)
    {
      hide Inv, NoBackEdge, CanVisit, Reach;
      var succ := first;
      ghost var j := j0;
      while succ.Some?
        invariant Scanning(g, cut, start, St(), j, node, succ)
        invariant node == old(node) && reason == old(reason)
        decreases |g.out[node]| - j
      {
        var w := succ.value.node;
        ScanFacts(g, cut, start, St(), j, node, succ);
        if w !in cut {
          if w !in preorderNumbers {
            node, reason := w, succ.value.reason;
            return true;
          }
          if w !in componentNumbers {
            MergeSegments(w, j);
          }
        }
        ScanStep(g, cut, start, St(), j, node);
        succ := g.NextOutgoing(succ.value.reason);
        j := j + 1;
      }
      return false;
    }

    /** Steps 4a and 4b: pops the nodes that have been seen since the current one was, which
        form a component. */
    method AssignComponent() returns (ghost i: nat)
      requires perhapsSameScc != [] && node in seenButNotAssigned
      requires forall k, l :: 0 <= k < l < |seenButNotAssigned| ==> seenButNotAssigned[k] != seenButNotAssigned[l]
      modifies this`seenButNotAssigned, this`perhapsSameScc, this`componentNumbers, this`componentCount
      ensures i < |old(seenButNotAssigned)| && old(seenButNotAssigned)[i] == node
      ensures St() == Assign(old(St()), i)
    {
      hide AssignedFrom;
      ghost var s := St();
      i :| 0 <= i < |s.seen| && s.seen[i] == node;
      var popped := seenButNotAssigned[|seenButNotAssigned| - 1];
      seenButNotAssigned := seenButNotAssigned[..|seenButNotAssigned| - 1];
      componentNumbers := componentNumbers[popped := componentCount];
      AssignedOne(s.comp, s.seen, |s.seen| - 1, s.count);
      while popped != node
        invariant i <= |seenButNotAssigned| < |s.seen|
        invariant seenButNotAssigned == s.seen[..|seenButNotAssigned|]
        invariant popped == s.seen[|seenButNotAssigned|]
        invariant componentNumbers == AssignedFrom(s.comp, s.seen, |seenButNotAssigned|, s.count)
        invariant perhapsSameScc == s.perhaps && componentCount == s.count
        decreases |seenButNotAssigned|
      {
        AssignedOne(s.comp, s.seen, |seenButNotAssigned| - 1, s.count);
        popped := seenButNotAssigned[|seenButNotAssigned| - 1];
        seenButNotAssigned := seenButNotAssigned[..|seenButNotAssigned| - 1];
        componentNumbers := componentNumbers[popped := componentCount];
      }
      componentCount := componentCount + 1;
      perhapsSameScc := perhapsSameScc[..|perhapsSameScc| - 1];
    }

    /** Step 4: if the current node is the first of its run, the run is a component; either way
        the node is finished. */
    method CloseNode()
      requires stack != [] && stack[|stack| - 1] == Position(node, reason) && node in g.out
      requires Inv(g, cut, start, St(), |g.out[node]|)
      modifies this`black, this`seenButNotAssigned, this`perhapsSameScc, this`componentNumbers, this`componentCount
      ensures AtBlack(g, cut, start, St(), Position(node, reason))
    {
      hide Inv;
      ghost var s := St();
      LastPerhapsOf(g, cut, start, s, |g.out[node]|);
      TopEdge(g, cut, start, s, |g.out[node]|);
      if perhapsSameScc[|perhapsSameScc| - 1] == node {
        ghost var i := AssignComponent();
        AssignKeepsInv(g, cut, start, s, i);
      } else {
        RetireKeepsInv(g, cut, start, s);
      }
      black := black + {node};
    }

    /** Leaves a black node; succ is the edge after the one by which it was entered. */
    method Backtrack() returns (succ: Option<Position>, ghost j: nat)
      requires AtBlack(g, cut, start, St(), Position(node, reason))
      modifies this`stack, this`node, this`reason
      ensures stack == old(stack)[..|old(stack)| - 1]
      ensures if stack == [] then succ == None && preorderNumbers != map[] && Inv(g, cut, start, St(), 0)
              else (&& stack[|stack| - 1] == Position(node, reason) && !AtEnd()
                    && Scanning(g, cut, start, St(), j, node, succ))
    {
      hide Inv;
      FromBlack(g, cut, start, St(), Position(node, reason));
      j := NextCursor(St());
      succ := g.NextOutgoing(stack[|stack| - 1].reason);
      stack := stack[..|stack| - 1];
      if stack != [] {
        node, reason := stack[|stack| - 1].node, stack[|stack| - 1].reason;
      }
    }

    /** Runs the search up to the next white node it comes to, or to the end. */
    method Increment()
      requires Valid() && !AtEnd()
      modifies this
      ensures Valid()
      ensures preorderNumbers.Keys > old(preorderNumbers.Keys)
    {
      hide Inv, CanVisit, Reach, AtWhite, AtBlack, Scanning;
      ghost var white := true;
      WhiteIsNotBlack(g, cut, start, St(), Position(node, reason));
      while !AtEnd() && (stack != [] || node !in black)
        invariant g.Valid() && VOID !in cut && !AtEnd()
        invariant if white then AtWhite(g, cut, start, St(), Position(node, reason))
                  else AtBlack(g, cut, start, St(), Position(node, reason))
        invariant if white then node !in black && node in g.out && node !in preorderNumbers
                  else node in black && stack != []
        invariant if white then preorderNumbers == old(preorderNumbers)
                  else preorderNumbers.Keys > old(preorderNumbers.Keys)
        decreases white, |stack|
      {
        var succ: Option<Position>;
        ghost var j := 0;
        if node in black {
          succ, j := Backtrack();
          if stack == [] {
            break;
          }
        } else {
          OneMoreKey(preorderNumbers, node, |preorderNumbers|);
          VisitNode();
          succ := g.FirstOutgoing(node);
          StartScan(g, cut, start, St(), node);
        }
        var moved := ScanEdges(succ, j);
        if moved {
          return;
        }
        CloseNode();
        BlackIsBlack(g, cut, start, St(), Position(node, reason));
        white := false;
      }
      node, reason := VOID, NoReason;
    }
  }

  lemma WhiteIsNotBlack(g: Graph, cut: set<Node>, start: Node, s: State, p: Position)
    ensures AtWhite(g, cut, start, s, p) ==> p.node !in s.black && p.node in g.out && p.node !in s.pre
  {
  }

  lemma OneMoreKey(m: map<Node, nat>, n: Node, k: nat)
    requires n !in m
    ensures m[n := k].Keys > m.Keys
  {
  }

  lemma BlackIsBlack(g: Graph, cut: set<Node>, start: Node, s: State, p: Position)
    requires AtBlack(g, cut, start, s, p)
    ensures p.node in s.black && s.stack != []
  {
  }

  lemma StartScan(g: Graph, cut: set<Node>, start: Node, s: State, node: Node)
    requires Inv(g, cut, start, s, 0) && g.Valid() && s.stack != [] && Top(s) == node && node in g.out
    ensures Scanning(g, cut, start, s, 0, node, g.FirstOutgoing(node))
  {
  }

  lemma TopEdge(g: Graph, cut: set<Node>, start: Node, s: State, j: nat)
    requires Inv(g, cut, start, s, j) && s.stack != []
    ensures var p := s.stack[|s.stack| - 1];
            if |s.stack| == 1 then p == Position(start, NoReason)
            else g.HasEdge(p) && p.reason.source == s.stack[|s.stack| - 2].node
  {
  }

  /** Backtracking from a black node, the walk resumes with the next edge out of the node below. */
  lemma FromBlack(g: Graph, cut: set<Node>, start: Node, s: State, p: Position)
    requires AtBlack(g, cut, start, s, p)
    ensures p.reason.Label? ==> g.IsLabel(p.reason)
    ensures var t := s.(stack := s.stack[..|s.stack| - 1]);
            if t.stack == [] then p.reason == NoReason && Inv(g, cut, start, t, 0) && t.pre != map[]
            else Top(t) in g.out && Scanning(g, cut, start, t, NextCursor(s), Top(t), g.NextOutgoing(p.reason))
                 && t.stack[|t.stack| - 1] != Position(VOID, NoReason)
  {
    hide Reach, Mutual, Segments, EdgesHandled, Components, Numbering;
    var t := s.(stack := s.stack[..|s.stack| - 1]);
    assert p.node in t.pre;
    if t.stack != [] { assert IsGreyPath(g, start, t.stack, t.black); }
  }

  lemma CanPop(g: Graph, cut: set<Node>, start: Node, s: State, j: nat, w: Node)
    requires Inv(g, cut, start, s, j) && w in s.pre && w !in s.comp
    ensures w in s.seen && s.perhaps != [] && s.pre[s.perhaps[0]] <= s.pre[w]
    ensures forall k :: 0 <= k < |s.perhaps| ==> s.perhaps[k] in s.pre
  {
  }

  lemma LastPerhapsOf(g: Graph, cut: set<Node>, start: Node, s: State, j: nat)
    requires Inv(g, cut, start, s, j) && s.stack != []
    ensures Top(s) in s.seen && s.perhaps != []
    ensures forall k, l :: 0 <= k < l < |s.seen| ==> s.seen[k] != s.seen[l]
  {
    LastPerhaps(g, cut, start, s);
  }

  lemma ScanFacts(g: Graph, cut: set<Node>, start: Node, s: State, j: nat, node: Node, succ: Option<Position>)
    requires Scanning(g, cut, start, s, j, node, succ) && succ.Some?
    ensures node in g.out && j < |g.out[node]| && succ.value.reason == Label(node, j)
    ensures g.HasEdge(succ.value)
    ensures succ.value.node !in cut ==> Edge(g, cut, node, succ.value.node)
    ensures succ.value.node !in cut && succ.value.node !in s.pre ==> CanVisit(g, cut, start, s, j, succ.value)
  {
  }

  /** An edge to an assigned node, like one to a cut node, needs nothing done. */
  lemma ScanStep(g: Graph, cut: set<Node>, start: Node, s: State, j: nat, node: Node)
    requires Inv(g, cut, start, s, j) && s.stack != [] && Top(s) == node && node in g.out && j < |g.out[node]|
    requires g.out[node][j] in cut || g.out[node][j] in s.comp || NoBackEdge(s, node, g.out[node][j])
    ensures Inv(g, cut, start, s, j + 1)
  {
    var w := g.out[node][j];
    if w !in cut && w in s.comp {
      assert OnStack(s.stack, node);
      assert NoBackEdge(s, node, w);
    }
    AdvanceKeepsInv(g, cut, start, s, j);
  }

  lemma AssignedOne(comp: map<Node, nat>, seen: seq<Node>, k: nat, c: nat)
    requires k < |seen|
    ensures AssignedFrom(comp, seen, k, c) == AssignedFrom(comp, seen, k + 1, c)[seen[k] := c]
    ensures AssignedFrom(comp, seen, |seen|, c) == comp
  {
    assert seen[k..] == [seen[k]] + seen[k + 1..];
  }

  /** At the end, every node reached has been assigned, and the nodes reached are those that can be
      reached from the start without entering a cut node. */
  lemma AtEndAllAssigned(g: Graph, cut: set<Node>, start: Node, s: State)
    requires Inv(g, cut, start, s, 0) && s.stack == [] && s.pre != map[]
    ensures forall n :: n in s.comp <==> Reach(g, cut, start, n)
    ensures forall n :: n in s.comp ==> n in g.out && n !in cut
  {
    hide Mutual, Reach;
    assert forall p :: p in s.perhaps ==> OnStack(s.stack, p);
    if s.perhaps != [] {
      var p := FirstOf(s.perhaps);
      assert false;
    }
    assert forall n :: n in s.pre ==> n in s.comp;
    AssignedClosed(g, cut, s, 0);
    forall n | Reach(g, cut, start, n) ensures n in s.comp {
      ReachClosed(g, cut, s.comp.Keys, start, n);
    }
  }

  /** Runs the builder from a start type to its end. Two of the nodes reached have the same component
      number exactly when each can be reached from the other. */
  method BuildSccs(g: Graph, cut: set<Node>, start: Node) returns (comp: map<Node, nat>, count: nat)
    requires g.Valid() && start in g.out && start != VOID && start !in cut && VOID !in cut
    ensures forall n :: n in comp <==> Reach(g, cut, start, n)
    ensures forall n :: n in comp ==> n in g.out && n !in cut && comp[n] < count
    ensures forall x, y :: x in comp ==> (Mutual(g, cut, x, y) <==> y in comp && comp[x] == comp[y])
  {
    hide Inv, AtWhite;
    var b := new SccBuilder(g, cut, start);
    while !b.AtEnd()
      invariant b.Valid() && b.g == g && b.cut == cut && b.start == start
      invariant b.preorderNumbers.Keys <= g.out.Keys
      decreases g.out.Keys - b.preorderNumbers.Keys
    {
      b.Increment();
      NumberedInGraph(g, cut, start, b.St(), Position(b.node, b.reason));
    }
    comp, count := b.componentNumbers, b.componentCount;
    AtEndComponents(g, cut, start, b.St());
  }

  lemma FirstOf(s: seq<Node>) returns (n: Node)
    requires s != []
    ensures n in s
  {
    n := s[0];
  }

  lemma NumberedInGraph(g: Graph, cut: set<Node>, start: Node, s: State, p: Position)
    requires Inv(g, cut, start, s, 0) || AtWhite(g, cut, start, s, p)
    ensures s.pre.Keys <= g.out.Keys
  {
    assert Numbering(g, cut, start, s);
    forall n | n in s.pre.Keys ensures n in g.out.Keys {
      assert s.pre[n] < |s.pre|;
    }
  }

  lemma AtEndComponents(g: Graph, cut: set<Node>, start: Node, s: State)
    requires Inv(g, cut, start, s, 0) && s.stack == [] && s.pre != map[]
    ensures forall n :: n in s.comp <==> Reach(g, cut, start, n)
    ensures forall n :: n in s.comp ==> n in g.out && n !in cut && s.comp[n] < s.count
    ensures forall x, y :: x in s.comp ==> (Mutual(g, cut, x, y) <==> y in s.comp && s.comp[x] == s.comp[y])
  {
    hide Mutual, Reach;
    AtEndAllAssigned(g, cut, start, s);
  }
}
