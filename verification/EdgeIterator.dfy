/** The iterator that visits every labelled edge of the type graph reachable from a start type.
    It keeps the grey nodes on an explicit stack and the finished nodes in a set. */
module EdgeIterator {
  import opened TypeGraph

  ghost predicate Seen(stack: seq<Position>, black: set<Node>, n: Node) {
    n in black || OnStack(stack, n)
  }

  /** The last edge out of stack[k] that has been followed; the current position is the last
      edge followed out of the top of the stack. */
  ghost function Cursor(stack: seq<Position>, reason: Reason, k: nat): Reason
    requires k < |stack|
  {
    if k == |stack| - 1 then reason else stack[k + 1].reason
  }

  /** The position is an edge out of the top of the stack. */
  ghost predicate AtEdge(g: Graph, p: Position, stack: seq<Position>) {
    |stack| > 0 && g.HasEdge(p) && p.reason.source == stack[|stack| - 1].node
  }

  /** The edge labelled r has been visited. */
  ghost predicate Yielded(g: Graph, reason: Reason, stack: seq<Position>, black: set<Node>, r: Reason) {
    && g.IsLabel(r)
    && (r.source in black
        || exists k :: 0 <= k < |stack| && stack[k].node == r.source
                       && Cursor(stack, reason, k).Label? && r.index <= Cursor(stack, reason, k).index)
  }

  /** Visited edges lead to nodes that have been seen, apart from the edge labelled except. */
  ghost predicate Explored(g: Graph, reason: Reason, stack: seq<Position>, black: set<Node>, except: Reason) {
    forall r :: Yielded(g, reason, stack, black, r) && r != except ==>
      Seen(stack, black, g.out[r.source][r.index])
  }

  ghost predicate AllReachable(g: Graph, start: Node, stack: seq<Position>, black: set<Node>) {
    && (forall n :: n in black ==> n in g.out && Reach(g, {}, start, n))
    && (forall k :: 0 <= k < |stack| ==> Reach(g, {}, start, stack[k].node))
  }

  ghost predicate Inv(g: Graph, start: Node, p: Position, stack: seq<Position>, black: set<Node>) {
    && g.Valid() && start in g.out && start != VOID
    && IsGreyPath(g, start, stack, black)
    && AllReachable(g, start, stack, black)
    && (if |stack| > 0 then AtEdge(g, p, stack)
        else (p == Position(start, NoReason) && black == {}) || (p == Position(VOID, NoReason) && start in black))
    && Explored(g, p.reason, stack, black, p.reason)
  }

  /** While backtracking, the edge at the current position has been dealt with. */
  ghost predicate Backtracking(g: Graph, start: Node, p: Position, stack: seq<Position>, black: set<Node>) {
    && g.Valid() && start in g.out && start != VOID
    && IsGreyPath(g, start, stack, black)
    && AllReachable(g, start, stack, black)
    && (|stack| > 0 ==> AtEdge(g, p, stack))
    && (|stack| == 0 ==> start in black && p.reason == NoReason)
    && Explored(g, p.reason, stack, black, NoReason)
  }

  ghost predicate SameYields(g: Graph, r1: Reason, s1: seq<Position>, b1: set<Node>,
                             r2: Reason, s2: seq<Position>, b2: set<Node>) {
    forall r :: Yielded(g, r1, s1, b1, r) <==> Yielded(g, r2, s2, b2, r)
  }

  /** The edges visited are those visited before and the one labelled new. */
  ghost predicate YieldsOneMore(g: Graph, r1: Reason, s1: seq<Position>, b1: set<Node>,
                                r2: Reason, s2: seq<Position>, b2: set<Node>) {
    && !Yielded(g, r1, s1, b1, r2)
    && forall r :: Yielded(g, r2, s2, b2, r) <==> Yielded(g, r1, s1, b1, r) || r == r2
  }

  lemma SameThen(g: Graph, r0: Reason, s0: seq<Position>, b0: set<Node>, r1: Reason, s1: seq<Position>, b1: set<Node>,
                 r2: Reason, s2: seq<Position>, b2: set<Node>)
    requires SameYields(g, r0, s0, b0, r1, s1, b1)
    ensures SameYields(g, r1, s1, b1, r2, s2, b2) ==> SameYields(g, r0, s0, b0, r2, s2, b2)
    ensures YieldsOneMore(g, r1, s1, b1, r2, s2, b2) ==> YieldsOneMore(g, r0, s0, b0, r2, s2, b2)
  {
    hide Yielded;
  }

  lemma SameAsBefore(g: Graph, r: Reason, s: seq<Position>, b: set<Node>)
    ensures SameYields(g, r, s, b, r, s, b)
  {
  }

  lemma ReachTarget(g: Graph, start: Node, p: Position)
    requires g.Valid() && g.HasEdge(p) && Reach(g, {}, start, p.reason.source)
    ensures p.node in g.out && Reach(g, {}, start, p.node)
  {
    assert Edge(g, {}, p.reason.source, p.node);
    ReachEdge(g, {}, p.reason.source, p.node);
    ReachTrans(g, {}, start, p.reason.source, p.node);
  }

  /** Pushing a white node keeps the stack a grey path. */
  lemma Push(g: Graph, start: Node, p: Position, stack: seq<Position>, black: set<Node>)
    requires Inv(g, start, p, stack, black) && !Seen(stack, black, p.node)
    requires p != Position(VOID, NoReason)
    ensures IsGreyPath(g, start, stack + [p], black)
    ensures AllReachable(g, start, stack + [p], black)
    ensures forall n :: Seen(stack + [p], black, n) <==> Seen(stack, black, n) || n == p.node
  {
    hide Reach;
    var s := stack + [p];
    if |stack| > 0 { ReachTarget(g, start, p); } else { ReachRefl(g, {}, start); }
    forall n ensures Seen(s, black, n) <==> Seen(stack, black, n) || n == p.node {
      if OnStack(stack, n) {
        var k :| 0 <= k < |stack| && stack[k].node == n;
        assert s[k].node == n;
      }
      assert s[|stack|].node == p.node;
    }
    forall j, k | 0 <= j < k < |s| ensures s[j].node != s[k].node {
      if k == |stack| { assert stack[j] == s[j]; }
    }
  }

  lemma Descend(g: Graph, start: Node, p: Position, stack: seq<Position>, black: set<Node>, q: Position)
    requires Inv(g, start, p, stack, black) && !Seen(stack, black, p.node)
    requires p != Position(VOID, NoReason)
    requires g.HasEdge(q) && q.reason == Label(p.node, 0)
    ensures Inv(g, start, q, stack + [p], black)
    ensures YieldsOneMore(g, p.reason, stack, black, q.reason, stack + [p], black)
  {
    var s := stack + [p];
    Push(g, start, p, stack, black);
    forall r ensures Yielded(g, q.reason, s, black, r) <==> Yielded(g, p.reason, stack, black, r) || r == q.reason {
      YieldsOnPush(g, p, stack, black, q.reason, r);
    }
  }

  lemma YieldsOnPush(g: Graph, p: Position, stack: seq<Position>, black: set<Node>, next: Reason, r: Reason)
    requires g.Valid() && next.Label? && next == Label(p.node, 0) && g.IsLabel(next)
    requires |stack| > 0 ==> AtEdge(g, p, stack)
    ensures Yielded(g, next, stack + [p], black, r) <==> Yielded(g, p.reason, stack, black, r) || r == next
  {
    var s := stack + [p];
    forall k | 0 <= k < |stack| ensures s[k] == stack[k] && Cursor(s, next, k) == Cursor(stack, p.reason, k) {}
    assert s[|stack|] == p && Cursor(s, next, |stack|) == next;
    if Yielded(g, p.reason, stack, black, r) && r.source !in black {
      var k :| 0 <= k < |stack| && stack[k].node == r.source
               && Cursor(stack, p.reason, k).Label? && r.index <= Cursor(stack, p.reason, k).index;
      assert s[k].node == r.source;
    }
  }

  /** A white node with no out-edges goes straight to black. */
  lemma Leaf(g: Graph, start: Node, p: Position, stack: seq<Position>, black: set<Node>)
    requires Inv(g, start, p, stack, black) && !Seen(stack, black, p.node)
    requires p != Position(VOID, NoReason)
    requires p.node in g.out && |g.out[p.node]| == 0
    ensures Backtracking(g, start, p, stack, black + {p.node})
    ensures SameYields(g, p.reason, stack, black, p.reason, stack, black + {p.node})
  {
    hide Reach;
    if |stack| > 0 { ReachTarget(g, start, p); } else { ReachRefl(g, {}, start); }
  }

  lemma Revisit(g: Graph, start: Node, p: Position, stack: seq<Position>, black: set<Node>)
    requires Inv(g, start, p, stack, black) && Seen(stack, black, p.node)
    requires p != Position(VOID, NoReason)
    ensures Backtracking(g, start, p, stack, black)
  {
  }

  lemma Sideways(g: Graph, start: Node, p: Position, stack: seq<Position>, black: set<Node>, q: Position)
    requires Backtracking(g, start, p, stack, black) && |stack| > 0
    requires g.HasEdge(q) && q.reason == Label(p.reason.source, p.reason.index + 1)
    ensures Inv(g, start, q, stack, black)
    ensures YieldsOneMore(g, p.reason, stack, black, q.reason, stack, black)
  {
    assert !Yielded(g, p.reason, stack, black, NoReason);
    hide Reach, Yielded, Seen;
    NotYetYielded(g, p, stack, black);
    forall r ensures Yielded(g, q.reason, stack, black, r) <==> Yielded(g, p.reason, stack, black, r) || r == q.reason {
      YieldsOnSideways(g, p, stack, black, q, r);
    }
  }

  lemma NotYetYielded(g: Graph, p: Position, stack: seq<Position>, black: set<Node>)
    requires |stack| > 0 && g.HasEdge(p) && p.reason.source == stack[|stack| - 1].node
    requires forall k :: 0 <= k < |stack| ==> stack[k].node !in black
    requires forall j, k :: 0 <= j < k < |stack| ==> stack[j].node != stack[k].node
    ensures !Yielded(g, p.reason, stack, black, Label(p.reason.source, p.reason.index + 1))
  {
  }

  lemma YieldsOnSideways(g: Graph, p: Position, stack: seq<Position>, black: set<Node>, q: Position, r: Reason)
    requires |stack| > 0 && g.HasEdge(p) && p.reason.source == stack[|stack| - 1].node
    requires g.HasEdge(q) && q.reason == Label(p.reason.source, p.reason.index + 1)
    ensures Yielded(g, q.reason, stack, black, r) <==> Yielded(g, p.reason, stack, black, r) || r == q.reason
  {
    var top := |stack| - 1;
    forall k | 0 <= k < top ensures Cursor(stack, q.reason, k) == Cursor(stack, p.reason, k) {}
    assert Cursor(stack, p.reason, top) == p.reason && Cursor(stack, q.reason, top) == q.reason;
    if r.Label? && r.source == p.reason.source {
      assert stack[top].node == r.source;
    }
  }

  /** Once all its out-edges have been followed, the top of the stack becomes black. */
  lemma Backtrack(g: Graph, start: Node, p: Position, stack: seq<Position>, black: set<Node>)
    requires Backtracking(g, start, p, stack, black) && |stack| > 0
    requires p.reason.index + 1 == |g.out[p.reason.source]|
    ensures var top := |stack| - 1;
            && Backtracking(g, start, stack[top], stack[..top], black + {p.reason.source})
            && SameYields(g, p.reason, stack, black, stack[top].reason, stack[..top], black + {p.reason.source})
  {
    hide Reach, Yielded;
    var top := |stack| - 1;
    var s, b := stack[..top], black + {p.reason.source};
    forall r ensures Yielded(g, p.reason, stack, black, r) <==> Yielded(g, stack[top].reason, s, b, r) {
      YieldsOnPop(g, p, stack, black, r);
    }
    forall n | Seen(stack, black, n) ensures Seen(s, b, n) {
      SeenOnPop(stack, black, n);
    }
    hide Seen;
    assert forall k :: 0 <= k < top ==> s[k] == stack[k];
    assert stack[top].node == p.reason.source;
  }

  lemma SeenOnPop(stack: seq<Position>, black: set<Node>, n: Node)
    requires |stack| > 0 && Seen(stack, black, n)
    ensures Seen(stack[..|stack| - 1], black + {stack[|stack| - 1].node}, n)
  {
    var top := |stack| - 1;
    if OnStack(stack, n) {
      var k :| 0 <= k < |stack| && stack[k].node == n;
      if k < top { assert stack[..top][k].node == n; }
    }
  }

  lemma YieldsOnPop(g: Graph, p: Position, stack: seq<Position>, black: set<Node>, r: Reason)
    requires |stack| > 0 && g.HasEdge(p) && p.reason.source == stack[|stack| - 1].node
    requires p.reason.index + 1 == |g.out[p.reason.source]|
    ensures var top := |stack| - 1;
            Yielded(g, p.reason, stack, black, r)
            <==> Yielded(g, stack[top].reason, stack[..top], black + {p.reason.source}, r)
  {
    var top := |stack| - 1;
    var s := stack[..top];
    assert stack[top].node == p.reason.source && Cursor(stack, p.reason, top) == p.reason;
    forall k | 0 <= k < top ensures s[k] == stack[k] && Cursor(s, stack[top].reason, k) == Cursor(stack, p.reason, k) {}
    if Yielded(g, p.reason, stack, black, r) && r.source !in black && r.source != p.reason.source {
      var k :| 0 <= k < |stack| && stack[k].node == r.source
               && Cursor(stack, p.reason, k).Label? && r.index <= Cursor(stack, p.reason, k).index;
      assert s[k].node == r.source;
    }
  }

  lemma SeenIsColoured(stack: seq<Position>, black: set<Node>, n: Node)
    ensures Seen(stack, black, n) <==> n in black || exists k :: 0 <= k < |stack| && stack[k].node == n
  {
  }

  class EdgeIterator {
    const g: Graph
    const start: Node
    var node: Node
    var reason: Reason
    var stack: seq<Position>
    var black: set<Node>

    ghost predicate Valid()
      reads this
    {
      Inv(g, start, Position(node, reason), stack, black)
    }

    /** The end position has neither a DIE nor a reason; void reached along an edge has a reason. */
    predicate AtEnd()
      reads this
    {
      node == VOID && reason == NoReason
    }

    function ColourOf(n: Node): Colour
      reads this
    {
      if n in black then Black
      else if exists k :: 0 <= k < |stack| && stack[k].node == n then Grey
      else White
    }

    constructor (g: Graph, start: Node)
      requires g.Valid() && start in g.out && start != VOID
      ensures Valid() && this.g == g && this.start == start && !AtEnd()
      ensures node == start && reason == NoReason && stack == [] && black == {}
    {
      this.g, this.start := g, start;
      node, reason, stack, black := start, NoReason, [], {};
      new;
      ReachRefl(g, {}, start);
    }

    method Increment()
      requires Valid() && !AtEnd()
      modifies this
      ensures Valid()
      ensures !AtEnd() ==> g.HasEdge(Position(node, reason))
      ensures !AtEnd() ==> YieldsOneMore(g, old(reason), old(stack), old(black), reason, stack, black)
      ensures AtEnd() ==> stack == [] && SameYields(g, old(reason), old(stack), old(black), reason, stack, black)
    {
      hide Yielded, Explored, AllReachable, Seen, Reach, SameYields, YieldsOneMore;
      ghost var p0, s0, b0 := Position(node, reason), stack, black;
      SameAsBefore(g, p0.reason, s0, b0);
      SeenIsColoured(stack, black, node);
      if ColourOf(node) == White {
        stack := stack + [Position(node, reason)];
        var deeper := g.FirstOutgoing(node);
        if deeper.Some? {
          Descend(g, start, p0, s0, b0, deeper.value);
          node, reason := deeper.value.node, deeper.value.reason;
          return;
        }
        Leaf(g, start, p0, s0, b0);
        stack := stack[..|stack| - 1];
        black := black + {node};
      } else {
        Revisit(g, start, p0, s0, b0);
      }
      while stack != []
        invariant Backtracking(g, start, Position(node, reason), stack, black)
        invariant SameYields(g, p0.reason, s0, b0, reason, stack, black)
        decreases |stack|
      {
        var sideways := g.NextOutgoing(reason);
        if sideways.Some? {
          assert ColourOf(reason.source) == Grey by { assert stack[|stack| - 1].node == reason.source; }
          assert reason.source == stack[|stack| - 1].node;
          Sideways(g, start, Position(node, reason), stack, black, sideways.value);
          SameThen(g, p0.reason, s0, b0, reason, stack, black, sideways.value.reason, stack, black);
          node, reason := sideways.value.node, sideways.value.reason;
          return;
        }
        var predecessor := reason.source;
        Backtrack(g, start, Position(node, reason), stack, black);
        ghost var top := |stack| - 1;
        SameThen(g, p0.reason, s0, b0, reason, stack, black, stack[top].reason, stack[..top], black + {predecessor});
        black := black + {predecessor};
        node, reason := predecessor, stack[|stack| - 1].reason;
        stack := stack[..|stack| - 1];
      }
      node, reason := VOID, NoReason;
    }
  }

  ghost function AllLabels(g: Graph): (labels: set<Reason>)
    ensures forall r :: r in labels <==> g.IsLabel(r)
  {
    set n, i | n in g.out && 0 <= i < |g.out[n]| :: Label(n, i)
  }

  /** At the end, the finished nodes are exactly those reachable from the start. */
  lemma BlackAtEnd(g: Graph, start: Node, black: set<Node>, r: Reason)
    requires Inv(g, start, Position(VOID, NoReason), [], black)
    ensures Yielded(g, NoReason, [], black, r) <==> g.IsLabel(r) && Reach(g, {}, start, r.source)
  {
    if g.IsLabel(r) && Reach(g, {}, start, r.source) {
      forall u, v | u in black && Edge(g, {}, u, v) ensures v in black {
        var i :| 0 <= i < |g.out[u]| && g.out[u][i] == v;
        assert Yielded(g, NoReason, [], black, Label(u, i));
        assert Seen([], black, v);
      }
      ReachClosed(g, {}, black, start, r.source);
    }
  }

  /** The visits so far are distinct edges, and left holds the labels of the others. */
  ghost predicate Progress(g: Graph, visits: seq<Position>, left: set<Reason>) {
    && (forall r :: r in left ==> g.IsLabel(r))
    && (forall i :: 0 <= i < |visits| ==> g.HasEdge(visits[i]) && visits[i].reason !in left)
    && (forall i, j :: 0 <= i < j < |visits| ==> visits[i].reason != visits[j].reason)
    && (forall r :: g.IsLabel(r) && r !in left ==> Visited(visits, r))
  }

  ghost predicate Visited(visits: seq<Position>, r: Reason) {
    exists i :: 0 <= i < |visits| && visits[i].reason == r
  }

  /** Apart from the current one, the edges the iterator has yielded are those not left. */
  ghost predicate YieldedAreNotLeft(g: Graph, reason: Reason, stack: seq<Position>, black: set<Node>,
                                    left: set<Reason>) {
    forall r :: Yielded(g, reason, stack, black, r) <==> g.IsLabel(r) && (r !in left || r == reason)
  }

  lemma ProgressStep(g: Graph, visits: seq<Position>, left: set<Reason>, p: Position)
    requires Progress(g, visits, left) && g.HasEdge(p) && p.reason in left
    ensures Progress(g, visits + [p], left - {p.reason})
  {
    var v := visits + [p];
    forall r | g.IsLabel(r) && r !in left - {p.reason} ensures Visited(v, r) {
      if r == p.reason {
        assert v[|visits|].reason == r;
      } else {
        var i :| 0 <= i < |visits| && visits[i].reason == r;
        assert v[i].reason == r;
      }
    }
  }

  lemma NothingYielded(g: Graph)
    ensures forall r :: !Yielded(g, NoReason, [], {}, r)
  {
  }

  /** Running the iterator from a start type until END visits every edge out of every type
      reachable from it exactly once. */
  method VisitEdges(g: Graph, start: Node) returns (visits: seq<Position>)
    requires g.Valid() && start in g.out && start != VOID
    ensures forall i :: 0 <= i < |visits| ==> g.HasEdge(visits[i])
    ensures forall i, j :: 0 <= i < j < |visits| ==> visits[i].reason != visits[j].reason
    ensures forall r :: g.IsLabel(r) && Reach(g, {}, start, r.source) <==> Visited(visits, r)
  {
    hide Reach, Yielded, Inv, Visited;
    var it := new EdgeIterator(g, start);
    visits := [];
    ghost var left := AllLabels(g);
    NothingYielded(g);
    it.Increment();
    while !it.AtEnd()
      invariant it.Valid() && it.g == g && it.start == start
      invariant Progress(g, visits, left)
      invariant if it.AtEnd() then it.stack == [] else g.HasEdge(Position(it.node, it.reason)) && it.reason in left
      invariant YieldedAreNotLeft(g, it.reason, it.stack, it.black, left)
      decreases |left|
    {
      ProgressStep(g, visits, left, Position(it.node, it.reason));
      visits := visits + [Position(it.node, it.reason)];
      left := left - {it.reason};
      assert YieldedAreNotLeft(g, it.reason, it.stack, it.black, left);
      it.Increment();
    }
    forall r ensures g.IsLabel(r) && Reach(g, {}, start, r.source) <==> Visited(visits, r) {
      BlackAtEnd(g, start, it.black, r);
      VisitedIffNotLeft(g, visits, left, r);
    }
  }

  lemma VisitedIffNotLeft(g: Graph, visits: seq<Position>, left: set<Reason>, r: Reason)
    requires Progress(g, visits, left)
    ensures Visited(visits, r) <==> g.IsLabel(r) && r !in left
  {
  }
}
