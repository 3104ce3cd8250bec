/** When the walk iterator visits the sequence of the recursive walk, on any type graph. */
module WalkEquivalence {
  import opened Wrappers
  import opened TypeGraph
  import opened WalkType
  import opened WalkIterator

  /** For a member or parameter, the recursive walk finds the type through the DIE that defines it, or
      makes one for a bitfield; the iterator does so for the first edge only, and for later edges takes
      the type that the DIE itself states. */
  datatype Targets = Targets(found: Graph, stated: Graph) {
    ghost predicate Valid() {
      && found.Valid() && stated.Valid() && found.out.Keys == stated.out.Keys
      && forall n :: n in found.out ==> |found.out[n]| == |stated.out[n]|
    }

    /** The graph whose edges the iterators follow. */
    function IteratorGraph(): (g: Graph)
      requires Valid()
      ensures Alike(found, g)
    {
      Graph(map n | n in found.out :: if found.out[n] == [] then [] else [found.out[n][0]] + stated.out[n][1..])
    }
  }

  /** Both graphs have the same edges, with the same targets for the first ones. */
  ghost predicate Alike(g: Graph, h: Graph) {
    && g.Valid() && h.Valid()
    && (forall n :: n in g.out <==> n in h.out)
    && (forall n :: n in g.out ==> |g.out[n]| == |h.out[n]| && (g.out[n] != [] ==> g.out[n][0] == h.out[n][0]))
  }

  // ---- What the recursion has still to visit ----

  /** The types on the stack. */
  ghost function Nodes(stack: seq<Position>): set<Node> {
    if stack == [] then {} else Nodes(stack[..|stack| - 1]) + {stack[|stack| - 1].node}
  }

  lemma {:induction false} InNodes(stack: seq<Position>, n: Node)
    ensures n in Nodes(stack) <==> exists k :: 0 <= k < |stack| && stack[k].node == n
  {
    if stack != [] {
      var rest := stack[..|stack| - 1];
      InNodes(rest, n);
      if k :| 0 <= k < |stack| && stack[k].node == n {
        if k < |rest| { assert rest[k].node == n; }
      }
    }
  }

  lemma NodesPush(stack: seq<Position>, p: Position)
    ensures Nodes(stack + [p]) == Nodes(stack) + {p.node}
  {
    assert (stack + [p])[..|stack|] == stack;
  }

  /** The stack is a path of the recursion: edges of g from the start, with no type twice. */
  ghost predicate IsPath(g: Graph, stack: seq<Position>) {
    && |stack| > 0 && stack[0].reason == NoReason && stack[0].node in g.out
    && (forall k :: 0 < k < |stack| ==> g.HasEdge(stack[k]) && stack[k].reason.source == stack[k - 1].node)
    && (forall j, k :: 0 <= j < k < |stack| ==> stack[j].node != stack[k].node)
  }

  lemma PathFacts(g: Graph, stack: seq<Position>)
    requires g.Valid() && IsPath(g, stack)
    ensures |stack| > 0 && Labelled(g, stack) && Nodes(stack) <= g.out.Keys
    ensures |stack| > 1 ==> IsPath(g, stack[..|stack| - 1]) && Nodes(stack[..|stack| - 1]) <= g.out.Keys
    ensures |stack| == 1 <==> stack[|stack| - 1].reason == NoReason
    ensures |stack| > 1 ==>
              && stack[|stack| - 1].reason.Label? && g.IsLabel(stack[|stack| - 1].reason)
              && stack[|stack| - 1].reason.source == stack[|stack| - 2].node
    ensures stack[|stack| - 1].node in g.out
  {
    NodesInGraph(g, stack);
    if |stack| > 1 {
      PathPop(g, stack);
      NodesInGraph(g, stack[..|stack| - 1]);
    }
  }

  lemma NodesInGraph(g: Graph, stack: seq<Position>)
    requires g.Valid() && IsPath(g, stack)
    ensures Labelled(g, stack) && Nodes(stack) <= g.out.Keys
  {
    forall n | n in Nodes(stack) ensures n in g.out.Keys { InNodes(stack, n); }
  }

  lemma PathPop(g: Graph, stack: seq<Position>)
    requires IsPath(g, stack) && |stack| > 1
    ensures IsPath(g, stack[..|stack| - 1])
  {
  }

  lemma PathPush(g: Graph, stack: seq<Position>, p: Position)
    requires g.Valid() && IsPath(g, stack) && g.HasEdge(p) && p.reason.source == stack[|stack| - 1].node
    requires p.node !in Nodes(stack)
    ensures IsPath(g, stack + [p])
  {
    var s := stack + [p];
    InNodes(stack, p.node);
    forall k | 0 < k < |s| ensures g.HasEdge(s[k]) && s[k].reason.source == s[k - 1].node {
      assert s[k - 1] == stack[k - 1];
    }
    forall j, k | 0 <= j < k < |s| ensures s[j].node != s[k].node {
      assert s[j] == stack[j];
    }
  }

  /** What is visited after the top of the stack and all below it. */
  ghost function Later(g: Graph, stack: seq<Position>): seq<Position>
    requires g.Valid() && IsPath(g, stack)
    decreases |stack|
  {
    PathFacts(g, stack);
    var rest, r := stack[..|stack| - 1], stack[|stack| - 1].reason;
    if |stack| == 1 then [] else WalkEdges(g, r.source, r.index + 1, Nodes(rest)) + Later(g, rest)
  }

  ghost function Todo(g: Graph, stack: seq<Position>): seq<Position>
    requires g.Valid() && IsPath(g, stack)
  {
    PathFacts(g, stack);
    var top := stack[|stack| - 1];
    [top] + WalkEdges(g, top.node, 0, Nodes(stack)) + Later(g, stack)
  }

  // ---- The condition ----

  /** The finished types after the walk of n, or of its edges from the i-th on; walking includes n. */
  ghost function After(g: Graph, n: Node, walking: set<Node>, black: set<Node>): set<Node>
    requires g.Valid() && n in g.out && n in walking && walking <= g.out.Keys
    decreases g.out.Keys - walking, |g.out[n]| + 1
  {
    AfterEdges(g, n, 0, walking, black) + {n}
  }

  ghost function AfterEdges(g: Graph, n: Node, i: nat, walking: set<Node>, black: set<Node>): set<Node>
    requires g.Valid() && n in g.out && n in walking && walking <= g.out.Keys && i <= |g.out[n]|
    decreases g.out.Keys - walking, |g.out[n]| - i
  {
    if i == |g.out[n]| then black
    else
      var t := g.out[n][i];
      AfterEdges(g, n, i + 1, walking, if t in walking then black else After(g, t, walking + {t}, black))
  }

  /** At every visit of the walk of n, either no edge leads back to a type on the path, and both graphs agree on
      the targets; or all do, and the first leads to a type that is visited for the first time. */
  ghost predicate Ordinary(g: Graph, h: Graph, n: Node, walking: set<Node>, black: set<Node>)
    requires Alike(g, h) && n in g.out && n in walking && walking <= g.out.Keys
    decreases g.out.Keys - walking, |g.out[n]| + 1
  {
    if g.out[n] != [] && g.out[n][0] in walking then
      g.out[n][0] !in black && forall i :: 0 <= i < |g.out[n]| ==> g.out[n][i] in walking
    else OrdinaryEdges(g, h, n, 0, walking, black)
  }

  ghost predicate OrdinaryEdges(g: Graph, h: Graph, n: Node, i: nat, walking: set<Node>, black: set<Node>)
    requires Alike(g, h) && n in g.out && n in walking && walking <= g.out.Keys && i <= |g.out[n]|
    decreases g.out.Keys - walking, |g.out[n]| - i
  {
    i == |g.out[n]|
    || var t := g.out[n][i];
       && t !in walking && t == h.out[n][i]
       && Ordinary(g, h, t, walking + {t}, black)
       && OrdinaryEdges(g, h, n, i + 1, walking, After(g, t, walking + {t}, black))
  }

  /** The same for what comes after the top of the stack, with the types finished by then. */
  ghost predicate LaterOrdinary(g: Graph, h: Graph, stack: seq<Position>, black: set<Node>)
    requires Alike(g, h) && IsPath(g, stack)
    decreases |stack|
  {
    PathFacts(g, stack);
    var rest, r := stack[..|stack| - 1], stack[|stack| - 1].reason;
    |stack| == 1
    || (SourceOnPath(g, stack);
        && OrdinaryEdges(g, h, r.source, r.index + 1, Nodes(rest), black)
        && LaterOrdinary(g, h, rest, AfterEdges(g, r.source, r.index + 1, Nodes(rest), black) + {r.source}))
  }

  lemma SourceOnPath(g: Graph, stack: seq<Position>)
    requires g.Valid() && IsPath(g, stack)
    ensures stack[|stack| - 1].node in Nodes(stack)
    ensures |stack| > 1 ==> stack[|stack| - 1].reason.source in Nodes(stack[..|stack| - 1])
  {
  }

  ghost predicate RestOrdinary(g: Graph, h: Graph, s: State)
    requires Alike(g, h) && IsPath(g, s.stack)
  {
    PathFacts(g, s.stack);
    SourceOnPath(g, s.stack);
    var n := s.stack[|s.stack| - 1].node;
    Ordinary(g, h, n, Nodes(s.stack), s.black) && LaterOrdinary(g, h, s.stack, After(g, n, Nodes(s.stack), s.black))
  }

  // ---- One step ----

  /** The iterator's next position is the next of what the recursion visits, or both end. */
  ghost predicate Next(t: State, todo: seq<Position>) {
    if todo == [] then t.stack == [] else t.stack != [] && t.stack[|t.stack| - 1] == todo[0]
  }

  /** After a step that keeps up with the recursion, the rest is ordinary exactly if all was; a step that does
      not shows that all was not. */
  ghost predicate KeepsUp(g: Graph, h: Graph, t: State, todo: seq<Position>, ordinary: bool)
    requires Alike(g, h)
  {
    && (Next(t, todo) && todo == [] ==> ordinary)
    && (Next(t, todo) && todo != [] ==>
        IsPath(g, t.stack) && Todo(g, t.stack) == todo && (RestOrdinary(g, h, t) <==> ordinary))
    && (!Next(t, todo) ==> !ordinary)
  }

  lemma {:induction false} WalkEdgesFirst(g: Graph, n: Node, i: nat, walking: set<Node>)
    requires g.Valid() && n in g.out && walking <= g.out.Keys && i <= |g.out[n]|
    ensures var v := WalkEdges(g, n, i, walking); v != [] ==>
              v[0].reason.Label? && v[0].reason.source == n && v[0].reason.index >= i
    ensures (forall k :: i <= k < |g.out[n]| ==> g.out[n][k] in walking) <==> WalkEdges(g, n, i, walking) == []
    decreases |g.out[n]| - i
  {
    if i < |g.out[n]| { WalkEdgesFirst(g, n, i + 1, walking); }
  }

  /** What comes after the top of the stack starts with an edge out of a type further down. */
  lemma {:induction false} LaterFirst(g: Graph, stack: seq<Position>)
    requires g.Valid() && IsPath(g, stack)
    ensures var v := Later(g, stack);
            v != [] ==> v[0].reason.Label? && exists k :: 0 <= k < |stack| - 1 && stack[k].node == v[0].reason.source
    decreases |stack|
  {
    if |stack| > 1 {
      PathFacts(g, stack);
      var rest, r := stack[..|stack| - 1], stack[|stack| - 1].reason;
      WalkEdgesFirst(g, r.source, r.index + 1, Nodes(rest));
      LaterFirst(g, rest);
      assert rest[|rest| - 1] == stack[|stack| - 2];
      if WalkEdges(g, r.source, r.index + 1, Nodes(rest)) == [] && Later(g, rest) != [] {
        var k :| 0 <= k < |rest| - 1 && rest[k].node == Later(g, rest)[0].reason.source;
        assert stack[k] == rest[k];
      }
    }
  }

  lemma LabelledAlike(g: Graph, h: Graph, stack: seq<Position>)
    requires Alike(g, h) && IsPath(g, stack)
    ensures Labelled(h, stack)
  {
    PathFacts(g, stack);
  }

  lemma LaterOfPush(g: Graph, h: Graph, stack: seq<Position>, p: Position, black: set<Node>)
    requires Alike(g, h) && IsPath(g, stack) && IsPath(g, stack + [p])
    requires p.reason.Label? && p.reason.source == stack[|stack| - 1].node && g.IsLabel(p.reason)
    ensures p.reason.source in g.out && Nodes(stack) <= g.out.Keys && p.reason.source in Nodes(stack)
    ensures Later(g, stack + [p]) == WalkEdges(g, p.reason.source, p.reason.index + 1, Nodes(stack)) + Later(g, stack)
    ensures LaterOrdinary(g, h, stack + [p], black)
            <==> OrdinaryEdges(g, h, p.reason.source, p.reason.index + 1, Nodes(stack), black)
                 && LaterOrdinary(g, h, stack,
                         AfterEdges(g, p.reason.source, p.reason.index + 1, Nodes(stack), black) + {p.reason.source})
  {
    hide OrdinaryEdges, IsPath;
    PathFacts(g, stack);
    SourceOnPath(g, stack);
    assert (stack + [p])[..|stack|] == stack;
    assert (stack + [p])[|stack|] == p;
  }

  /** Moving from the top of the stack along the i-th edge out of it, as the iterator does. */
  lemma MoveAlong(g: Graph, h: Graph, stack: seq<Position>, i: nat, black: set<Node>)
    requires Alike(g, h) && IsPath(g, stack) && stack[|stack| - 1].node in g.out && Nodes(stack) <= g.out.Keys
    requires stack[|stack| - 1].node in Nodes(stack) && i < |g.out[stack[|stack| - 1].node]|
    ensures var n := stack[|stack| - 1].node;
            KeepsUp(g, h, State(stack + [Position(h.out[n][i], Label(n, i))], black),
                    WalkEdges(g, n, i, Nodes(stack)) + Later(g, stack),
                    OrdinaryEdges(g, h, n, i, Nodes(stack), black)
                    && LaterOrdinary(g, h, stack, AfterEdges(g, n, i, Nodes(stack), black) + {n}))
  {
    var n := stack[|stack| - 1].node;
    var c, p := g.out[n][i], Position(h.out[n][i], Label(n, i));
    if c in Nodes(stack) {
      MovesToPath(g, h, stack, i, State(stack + [p], black));
    } else if c == h.out[n][i] {
      MovesOn(g, h, stack, i, black);
    } else {
      hide IsPath, Later, LaterOrdinary;
      assert (WalkEdges(g, n, i, Nodes(stack)) + Later(g, stack))[0] == Position(c, Label(n, i));
    }
  }

  lemma MovesToPath(g: Graph, h: Graph, stack: seq<Position>, i: nat, t: State)
    requires Alike(g, h) && IsPath(g, stack) && stack[|stack| - 1].node in g.out && Nodes(stack) <= g.out.Keys
    requires var n := stack[|stack| - 1].node; i < |g.out[n]| && g.out[n][i] in Nodes(stack)
    requires t.stack != [] && t.stack[|t.stack| - 1].reason == Label(stack[|stack| - 1].node, i)
    ensures !Next(t, WalkEdges(g, stack[|stack| - 1].node, i, Nodes(stack)) + Later(g, stack))
  {
    var n := stack[|stack| - 1].node;
    WalkEdgesFirst(g, n, i + 1, Nodes(stack));
    LaterFirst(g, stack);
  }

  lemma MovesOn(g: Graph, h: Graph, stack: seq<Position>, i: nat, black: set<Node>)
    requires Alike(g, h) && IsPath(g, stack) && stack[|stack| - 1].node in g.out && Nodes(stack) <= g.out.Keys
    requires stack[|stack| - 1].node in Nodes(stack)
    requires var n := stack[|stack| - 1].node;
             i < |g.out[n]| && g.out[n][i] !in Nodes(stack) && g.out[n][i] == h.out[n][i]
    ensures var n := stack[|stack| - 1].node;
            var s := stack + [Position(g.out[n][i], Label(n, i))];
            && IsPath(g, s)
            && Todo(g, s) == WalkEdges(g, n, i, Nodes(stack)) + Later(g, stack)
            && (RestOrdinary(g, h, State(s, black))
                <==> OrdinaryEdges(g, h, n, i, Nodes(stack), black)
                     && LaterOrdinary(g, h, stack, AfterEdges(g, n, i, Nodes(stack), black) + {n}))
  {
    hide Alike, RestOrdinary, LaterOrdinary, OrdinaryEdges, Todo;
    MovesTodo(g, h, stack, i);
    MovesOrdinary(g, h, stack, i, black);
  }

  lemma MovesTodo(g: Graph, h: Graph, stack: seq<Position>, i: nat)
    requires Alike(g, h) && IsPath(g, stack) && stack[|stack| - 1].node in g.out && Nodes(stack) <= g.out.Keys
    requires stack[|stack| - 1].node in Nodes(stack)
    requires var n := stack[|stack| - 1].node;
             i < |g.out[n]| && g.out[n][i] !in Nodes(stack) && g.out[n][i] == h.out[n][i]
    ensures var n := stack[|stack| - 1].node;
            var s := stack + [Position(g.out[n][i], Label(n, i))];
            IsPath(g, s) && Todo(g, s) == WalkEdges(g, n, i, Nodes(stack)) + Later(g, stack)
  {
    var n := stack[|stack| - 1].node;
    var p := Position(g.out[n][i], Label(n, i));
    PathPush(g, stack, p);
    NodesPush(stack, p);
    PathFacts(g, stack + [p]);
    SourceOnPath(g, stack + [p]);
    LaterOfPush(g, h, stack, p, {});
    hide IsPath, Alike, Later, LaterOrdinary;
    Associate(Walk(g, p, Nodes(stack)), WalkEdges(g, n, i + 1, Nodes(stack)), Later(g, stack));
  }

  lemma MovesOrdinary(g: Graph, h: Graph, stack: seq<Position>, i: nat, black: set<Node>)
    requires Alike(g, h) && IsPath(g, stack) && stack[|stack| - 1].node in g.out && Nodes(stack) <= g.out.Keys
    requires stack[|stack| - 1].node in Nodes(stack)
    requires var n := stack[|stack| - 1].node;
             i < |g.out[n]| && g.out[n][i] !in Nodes(stack) && g.out[n][i] == h.out[n][i]
    requires IsPath(g, stack + [Position(g.out[stack[|stack| - 1].node][i], Label(stack[|stack| - 1].node, i))])
    ensures var n := stack[|stack| - 1].node;
            RestOrdinary(g, h, State(stack + [Position(g.out[n][i], Label(n, i))], black))
            <==> OrdinaryEdges(g, h, n, i, Nodes(stack), black)
                 && LaterOrdinary(g, h, stack, AfterEdges(g, n, i, Nodes(stack), black) + {n})
  {
    var n := stack[|stack| - 1].node;
    var p := Position(g.out[n][i], Label(n, i));
    NodesPush(stack, p);
    PathFacts(g, stack + [p]);
    SourceOnPath(g, stack + [p]);
    LaterOfPush(g, h, stack, p, After(g, p.node, Nodes(stack + [p]), black));
    hide IsPath, Alike, Later, LaterOrdinary;
  }

  lemma {:induction false} SideStep(g: Graph, h: Graph, stack: seq<Position>, black: set<Node>)
    requires Alike(g, h) && IsPath(g, stack) && Labelled(h, stack)
    ensures KeepsUp(g, h, GoSideways(h, State(stack, black)), Later(g, stack),
                    LaterOrdinary(g, h, stack, black + {stack[|stack| - 1].node}))
    decreases |stack|
  {
    hide KeepsUp, IsPath, Labelled;
    PathFacts(g, stack);
    var top, rest := stack[|stack| - 1], stack[..|stack| - 1];
    var b := black + {top.node};
    if |stack| == 1 {
      assert rest == [];
      EndKeepsUp(g, h, b);
    } else {
      LabelledAlike(g, h, rest);
      SourceOnPath(g, stack);
      var n, i := top.reason.source, top.reason.index + 1;
      assert n == rest[|rest| - 1].node;
      if i < |g.out[n]| {
        MoveAlong(g, h, rest, i, b);
      } else {
        SideStep(g, h, rest, b);
        assert [] + Later(g, rest) == Later(g, rest);
      }
    }
  }

  lemma EndKeepsUp(g: Graph, h: Graph, black: set<Node>)
    requires Alike(g, h)
    ensures KeepsUp(g, h, State([], black), [], true)
  {
  }

  /** Sideways steps lead out of types below the top of the stack. */
  lemma {:induction false} SidewaysSource(h: Graph, s: State)
    requires h.Valid() && Labelled(h, s.stack)
    requires forall k :: 0 < k < |s.stack| ==>
               s.stack[k].reason.Label? && s.stack[k].reason.source == s.stack[k - 1].node
    requires s.stack != [] ==> s.stack[0].reason == NoReason
    ensures var t := GoSideways(h, s);
            t.stack != [] ==> var r := t.stack[|t.stack| - 1].reason;
                              r.Label? && exists k :: 0 <= k < |s.stack| - 1 && s.stack[k].node == r.source
    decreases |s.stack|
  {
    if s.stack != [] {
      var top, rest := s.stack[|s.stack| - 1], s.stack[..|s.stack| - 1];
      var black := s.black + {top.node};
      if h.NextOutgoing(top.reason).None? {
        SidewaysSource(h, State(rest, black));
        var t := GoSideways(h, State(rest, black));
        if t.stack != [] {
          var k :| 0 <= k < |rest| - 1 && rest[k].node == t.stack[|t.stack| - 1].reason.source;
          assert s.stack[k] == rest[k];
        }
      } else {
        assert s.stack[|s.stack| - 2].node == top.reason.source;
      }
    }
  }

  /** Where all edges of the top lead back to the path, nothing is visited below it. */
  lemma {:induction false} NothingBelow(g: Graph, n: Node, i: nat, walking: set<Node>, black: set<Node>)
    requires g.Valid() && n in g.out && n in walking && walking <= g.out.Keys && i <= |g.out[n]|
    requires forall k :: 0 <= k < |g.out[n]| ==> g.out[n][k] in walking
    ensures WalkEdges(g, n, i, walking) == [] && AfterEdges(g, n, i, walking, black) == black
    decreases |g.out[n]| - i
  {
    if i < |g.out[n]| { NothingBelow(g, n, i + 1, walking, black); }
  }

  /** One step of the iterator. */
  lemma StepKeepsUp(g: Graph, h: Graph, s: State)
    requires Alike(g, h) && IsPath(g, s.stack) && Labelled(h, s.stack)
    ensures KeepsUp(g, h, Step(h, s, false), Todo(g, s.stack)[1..], RestOrdinary(g, h, s))
  {
    hide IsPath, Labelled, KeepsUp, Later, LaterOrdinary;
    PathFacts(g, s.stack);
    SourceOnPath(g, s.stack);
    var n, walking := s.stack[|s.stack| - 1].node, Nodes(s.stack);
    var below, later := WalkEdges(g, n, 0, walking), Later(g, s.stack);
    assert Todo(g, s.stack)[1..] == below + later
      by { assert Todo(g, s.stack) == [s.stack[|s.stack| - 1]] + (below + later); }
    SideStep(g, h, s.stack, s.black);
    assert State(s.stack, s.black) == s;
    if g.out[n] == [] {
      NothingBelow(g, n, 0, walking, s.black);
      assert below + later == later;
      assert OrdinaryEdges(g, h, n, 0, walking, s.black);
    } else {
      InNodes(s.stack, g.out[n][0]);
      if g.out[n][0] !in walking {
        MoveAlong(g, h, s.stack, 0, s.black);
      } else if g.out[n][0] in s.black {
        FollowsBlack(g, h, s);
      } else if forall i :: 0 <= i < |g.out[n]| ==> g.out[n][i] in walking {
        NothingBelow(g, n, 0, walking, s.black);
        assert below + later == later;
      } else {
        LeavesOut(g, h, s);
      }
    }
  }

  lemma FollowsBlack(g: Graph, h: Graph, s: State)
    requires Alike(g, h) && IsPath(g, s.stack) && Labelled(h, s.stack) && Nodes(s.stack) <= g.out.Keys
    requires var n := s.stack[|s.stack| - 1].node;
             n in g.out && g.out[n] != [] && g.out[n][0] in Nodes(s.stack) && g.out[n][0] in s.black
    ensures var n := s.stack[|s.stack| - 1].node;
            KeepsUp(g, h, Step(h, s, false), WalkEdges(g, n, 0, Nodes(s.stack)) + Later(g, s.stack),
                    RestOrdinary(g, h, s))
  {
    hide LaterOrdinary, Todo;
    SourceOnPath(g, s.stack);
    MovesToPath(g, h, s.stack, 0, Step(h, s, false));
  }

  lemma LeavesOut(g: Graph, h: Graph, s: State)
    requires Alike(g, h) && IsPath(g, s.stack) && Labelled(h, s.stack) && Nodes(s.stack) <= g.out.Keys
    requires Step(h, s, false) == GoSideways(h, s)
    requires var n := s.stack[|s.stack| - 1].node;
             n in g.out && g.out[n] != [] && g.out[n][0] in Nodes(s.stack) && exists i ::
               0 <= i < |g.out[n]| && g.out[n][i] !in Nodes(s.stack)
    ensures var n := s.stack[|s.stack| - 1].node;
            KeepsUp(g, h, Step(h, s, false), WalkEdges(g, n, 0, Nodes(s.stack)) + Later(g, s.stack),
                    RestOrdinary(g, h, s))
  {
    hide LaterOrdinary, Todo, Later;
    SourceOnPath(g, s.stack);
    WalkEdgesFirst(g, s.stack[|s.stack| - 1].node, 0, Nodes(s.stack));
    SidewaysSource(h, s);
  }

  // ---- The whole run ----

  /** From this state on, the iterator visits exactly these positions and ends. */
  ghost predicate Visits(h: Graph, s: State, todo: seq<Position>)
    requires h.Valid() && Labelled(h, s.stack)
  {
    Trace(h, s, |todo| + 1) == todo
  }

  lemma {:induction false} VisitsIffOrdinary(g: Graph, h: Graph, s: State)
    requires Alike(g, h) && IsPath(g, s.stack) && Labelled(h, s.stack)
    ensures Visits(h, s, Todo(g, s.stack)) <==> RestOrdinary(g, h, s)
    decreases |Todo(g, s.stack)|
  {
    TodoFirst(g, s.stack);
    StepKeepsUp(g, h, s);
    var todo, t := Todo(g, s.stack), Step(h, s, false);
    hide IsPath, Labelled, RestOrdinary, Todo, Step, Alike;
    VisitsFirst(h, s, todo);
    if Next(t, todo[1..]) && todo[1..] != [] {
      VisitsIffOrdinary(g, h, t);
    }
  }

  lemma VisitsFirst(h: Graph, s: State, todo: seq<Position>)
    requires h.Valid() && Labelled(h, s.stack) && s.stack != [] && todo != [] && todo[0] == s.stack[|s.stack| - 1]
    ensures var t := Step(h, s, false);
            Visits(h, s, todo) <==> Next(t, todo[1..]) && (todo[1..] != [] ==> Visits(h, t, todo[1..]))
  {
    hide Step, Labelled;
    var t := Step(h, s, false);
    assert Trace(h, s, |todo| + 1) == [todo[0]] + Trace(h, t, |todo|);
    assert todo == [todo[0]] + todo[1..];
    if t.stack != [] { assert Trace(h, t, |todo|)[0] == t.stack[|t.stack| - 1]; }
  }

  lemma TodoFirst(g: Graph, stack: seq<Position>)
    requires g.Valid() && IsPath(g, stack)
    ensures stack != [] && Todo(g, stack) != [] && Todo(g, stack)[0] == stack[|stack| - 1]
  {
  }

  /** From any start type of any type graph, the iterator visits the sequence of the recursive walk, and ends,
      exactly when the walk is ordinary. */
  lemma IteratorIsWalkIff(g: Graph, h: Graph, start: Node)
    requires Alike(g, h) && start in g.out
    ensures Labelled(h, [Position(start, NoReason)])
    ensures Visits(h, State([Position(start, NoReason)], {}), Walk(g, Position(start, NoReason), {}))
            <==> Ordinary(g, h, start, {} + {start}, {})
  {
    var p := Position(start, NoReason);
    var s := State([p], {});
    assert IsPath(g, s.stack);
    LabelledAlike(g, h, s.stack);
    VisitsIffOrdinary(g, h, s);
    assert s.stack[..0] == [];
    assert Nodes(s.stack) == {} + {start};
    assert Later(g, s.stack) == [];
    assert Todo(g, s.stack) == Walk(g, p, {});
  }

  // ---- Acyclic graphs ----

  /** Both graphs agree on the edges of all types that can be reached from n. */
  ghost predicate AgreeBelow(g: Graph, h: Graph, n: Node) {
    forall m :: m in g.out && Reach(g, {}, n, m) ==> m in h.out && g.out[m] == h.out[m]
  }

  lemma AgreeBelowStep(g: Graph, h: Graph, n: Node)
    requires Alike(g, h) && n in g.out
    ensures AgreeBelow(g, h, n) <==> g.out[n] == h.out[n] && forall i :: 0 <= i < |g.out[n]| ==>
              AgreeBelow(g, h, g.out[n][i])
  {
    hide Reach;
    ReachRefl(g, {}, n);
    if AgreeBelow(g, h, n) {
      forall i, m | 0 <= i < |g.out[n]| && m in g.out && Reach(g, {}, g.out[n][i], m) ensures g.out[m] == h.out[m] {
        ReachEdge(g, {}, n, g.out[n][i]);
        ReachTrans(g, {}, n, g.out[n][i], m);
      }
    }
    if g.out[n] == h.out[n] && forall i :: 0 <= i < |g.out[n]| ==> AgreeBelow(g, h, g.out[n][i]) {
      forall m | m in g.out && Reach(g, {}, n, m) ensures g.out[m] == h.out[m] {
        if m != n {
          var c := LastLeave(g, {}, n, m);
          UncutReach(g, {} + {n}, c, m);
          var i :| 0 <= i < |g.out[n]| && g.out[n][i] == c;
          assert AgreeBelow(g, h, g.out[n][i]);
        }
      }
    }
  }

  lemma {:induction false} AcyclicOrdinary(g: Graph, h: Graph, n: Node, walking: set<Node>, black: set<Node>)
    requires Acyclic(g) && Alike(g, h) && n in g.out && n in walking && walking <= g.out.Keys
    requires forall m :: m in walking ==> Rank(g, n) <= Rank(g, m)
    ensures Ordinary(g, h, n, walking, black) <==> AgreeBelow(g, h, n)
    decreases g.out.Keys - walking, |g.out[n]| + 1
  {
    hide Rank, AgreeBelow, Acyclic;
    AcyclicOrdinaryEdges(g, h, n, 0, walking, black);
    SameTargetsIff(g, h, n);
    AgreeBelowStep(g, h, n);
    if g.out[n] != [] { EdgeDrops(g, n, 0); }
  }

  lemma SameTargetsIff(g: Graph, h: Graph, n: Node)
    requires Alike(g, h) && n in g.out
    ensures g.out[n] == h.out[n] <==> forall k :: 0 <= k < |g.out[n]| ==> g.out[n][k] == h.out[n][k]
  {
  }

  lemma {:induction false} AcyclicOrdinaryEdges(g: Graph, h: Graph, n: Node, i: nat, walking: set<Node>,
                                                black: set<Node>)
    requires Acyclic(g) && Alike(g, h) && n in g.out && n in walking && walking <= g.out.Keys && i <= |g.out[n]|
    requires forall m :: m in walking ==> Rank(g, n) <= Rank(g, m)
    ensures OrdinaryEdges(g, h, n, i, walking, black)
            <==> forall k :: i <= k < |g.out[n]| ==> g.out[n][k] == h.out[n][k] && AgreeBelow(g, h, g.out[n][k])
    decreases g.out.Keys - walking, |g.out[n]| - i
  {
    hide Rank, AgreeBelow, Acyclic;
    if i < |g.out[n]| {
      var t := g.out[n][i];
      EdgeDrops(g, n, i);
      AcyclicOrdinary(g, h, t, walking + {t}, black);
      AcyclicOrdinaryEdges(g, h, n, i + 1, walking, After(g, t, walking + {t}, black));
    }
  }

  /** On an acyclic graph, the two visit the same exactly when, at every type that can be reached, they find the
      same targets. */
  lemma AcyclicIteratorIsWalkIff(g: Graph, h: Graph, start: Node)
    requires Acyclic(g) && Alike(g, h) && start in g.out
    ensures Labelled(h, [Position(start, NoReason)])
    ensures Visits(h, State([Position(start, NoReason)], {}), Walk(g, Position(start, NoReason), {}))
            <==> AgreeBelow(g, h, start)
  {
    hide Rank, AgreeBelow, Acyclic, Visits, Walk;
    IteratorIsWalkIff(g, h, start);
    AcyclicOrdinary(g, h, start, {} + {start}, {});
  }

  // ---- Where the iterator never ends ----

  /** Once it is at a finished type from which first edges lead round finished types, it goes round for ever. */
  lemma {:induction false} GoesRound(g: Graph, s: State, round: set<Node>, k: nat)
    requires g.Valid() && Labelled(g, s.stack) && s.stack != [] && s.stack[|s.stack| - 1].node in round
    requires round <= s.black
    requires forall n :: n in round && n in g.out ==> g.out[n] != [] && g.out[n][0] in round
    ensures |Trace(g, s, k)| == k
    decreases k
  {
    if k > 0 {
      var t := Step(g, s, false);
      assert t == State(s.stack + [g.FirstOutgoing(s.stack[|s.stack| - 1].node).value], s.black);
      GoesRound(g, t, round, k - 1);
    }
  }

  /** A structure (0) with two members of another (1), which has a pointer (2) to itself for its only member. */
  const TWO_NODES := Graph(map[VOID := [], 0 := [1, 1], 1 := [2], 2 := [1]])

  lemma TwoNodesSteps()
    ensures TWO_NODES.Valid() && Labelled(TWO_NODES, [Position(0, NoReason)])
    ensures var s1 := Step(TWO_NODES, State([Position(0, NoReason)], {}), false);
            s1.stack != [] && Step(TWO_NODES, s1, false).stack != []
    ensures var s := Step(TWO_NODES,
                          Step(TWO_NODES, Step(TWO_NODES, State([Position(0, NoReason)], {}), false), false), false);
            s.stack == [Position(0, NoReason), Position(1, Label(0, 1))] && s.black == {} + {2} + {1}
  {
    var a, b, c, d := Position(0, NoReason), Position(1, Label(0, 0)), Position(2, Label(1, 0)),
      Position(1, Label(0, 1));
    var s0 := State([a], {});
    var s1 := Step(TWO_NODES, s0, false);
    assert s1.stack == [a, b];
    var s2 := Step(TWO_NODES, s1, false);
    assert s2.stack == [a, b, c] && s2.stack[1].node == 1;
    assert [a, b, c][..2] == [a, b] && [a, b][..1] == [a];
    assert GoSideways(TWO_NODES, s2) == GoSideways(TWO_NODES, State([a, b], {} + {2}));
  }

  /** On it the iterator never ends, while the recursive walk, like all walks, does. */
  lemma NeverEnds(k: nat)
    ensures TWO_NODES.Valid() && Labelled(TWO_NODES, [Position(0, NoReason)])
    ensures |Trace(TWO_NODES, State([Position(0, NoReason)], {}), k)| == k
  {
    TwoNodesSteps();
    var s0 := State([Position(0, NoReason)], {});
    var s1 := Step(TWO_NODES, s0, false);
    var s2 := Step(TWO_NODES, s1, false);
    var s3 := Step(TWO_NODES, s2, false);
    hide Step;
    if k >= 3 { GoesRound(TWO_NODES, s3, {1, 2}, k - 3); }
    if k >= 1 { TraceUnfolds(TWO_NODES, s0, k); }
    if k >= 2 { TraceUnfolds(TWO_NODES, s1, k - 1); }
    if k >= 3 { TraceUnfolds(TWO_NODES, s2, k - 2); }
  }

  /** A pointer (0) to a structure (1) whose member points (2) to a function type (3) that returns the pointer
      and takes an integer (4). */
  const CALLBACK := Graph(map[VOID := [], 0 := [1], 1 := [2], 2 := [3], 3 := [0, 4], 4 := []])

  /** On it the iterator leaves out the integer, since it does not look at the other edges of a type whose
      first edge leads back. */
  lemma LeavesOutParameter(k: nat)
    ensures Alike(CALLBACK, CALLBACK) && Position(4, Label(3, 1)) in Walk(CALLBACK, Position(0, NoReason), {})
    ensures Labelled(CALLBACK, [Position(0, NoReason)])
    ensures Position(4, Label(3, 1)) !in Trace(CALLBACK, State([Position(0, NoReason)], {}), k)
    ensures !Ordinary(CALLBACK, CALLBACK, 0, {} + {0}, {})
  {
    CallbackTrace(k);
    var w1, w2, w3 := {} + {0} + {1}, {} + {0} + {1} + {2}, {} + {0} + {1} + {2} + {3};
    var p1, p2, p3, p4 := Position(1, Label(0, 0)), Position(2, Label(1, 0)), Position(3, Label(2, 0)),
      Position(4, Label(3, 1));
    assert CALLBACK.out[3] == [0, 4];
    assert !Ordinary(CALLBACK, CALLBACK, 3, w3, {}) by { assert CALLBACK.out[3][1] !in w3; }
    assert !Ordinary(CALLBACK, CALLBACK, 2, w2, {});
    assert !Ordinary(CALLBACK, CALLBACK, 1, w1, {});
    assert p4 in WalkEdges(CALLBACK, 3, 1, w3);
    assert p4 in WalkEdges(CALLBACK, 3, 0, w3);
    assert p4 in Walk(CALLBACK, p3, w2);
    assert p4 in WalkEdges(CALLBACK, 2, 0, w2);
    assert p4 in Walk(CALLBACK, p2, w1);
    assert p4 in WalkEdges(CALLBACK, 1, 0, w1);
    assert p4 in Walk(CALLBACK, p1, {} + {0});
    assert p4 in WalkEdges(CALLBACK, 0, 0, {} + {0});
  }

  const TO_FUNCTION := [Position(0, NoReason), Position(1, Label(0, 0)), Position(2, Label(1, 0)),
                        Position(3, Label(2, 0))]

  lemma GoesDeeper(k: nat)
    requires k < 3
    ensures CALLBACK.Valid() && Labelled(CALLBACK, TO_FUNCTION[..k + 1])
    ensures Step(CALLBACK, State(TO_FUNCTION[..k + 1], {}), false) == State(TO_FUNCTION[..k + 2], {})
  {
    hide GoSideways;
    assert TO_FUNCTION[..k + 2] == TO_FUNCTION[..k + 1] + [TO_FUNCTION[k + 1]];
  }

  lemma GoesBack(s: State)
    requires s == State(TO_FUNCTION, {})
    ensures CALLBACK.Valid() && Labelled(CALLBACK, s.stack) && Step(CALLBACK, s, false) == GoSideways(CALLBACK, s)
  {
    hide GoSideways;
    assert s.stack[0].node == 0;
  }

  lemma AllTheWayBack(s: State)
    requires s.stack == TO_FUNCTION
    ensures CALLBACK.Valid() && Labelled(CALLBACK, s.stack) && GoSideways(CALLBACK, s).stack == []
  {
    PopLast(CALLBACK, s);
    var s2 := State(TO_FUNCTION[..3], s.black + {3});
    PopLast(CALLBACK, s2);
    var s1 := State(TO_FUNCTION[..2], s2.black + {2});
    PopLast(CALLBACK, s1);
    var s0 := State(TO_FUNCTION[..1], s1.black + {1});
    PopLast(CALLBACK, s0);
  }

  lemma PopLast(g: Graph, s: State)
    requires g.Valid() && Labelled(g, s.stack) && s.stack != []
    requires g.NextOutgoing(s.stack[|s.stack| - 1].reason).None?
    ensures var t := State(s.stack[..|s.stack| - 1], s.black + {s.stack[|s.stack| - 1].node});
            Labelled(g, t.stack) && GoSideways(g, s) == GoSideways(g, t)
  {
  }

  lemma CallbackTrace(k: nat)
    ensures CALLBACK.Valid() && Labelled(CALLBACK, [Position(0, NoReason)])
    ensures Position(4, Label(3, 1)) !in Trace(CALLBACK, State([Position(0, NoReason)], {}), k)
  {
    assert TO_FUNCTION[..1] == [Position(0, NoReason)] && TO_FUNCTION[..4] == TO_FUNCTION;
    GoesDeeper(0);
    TraceFrom(0, k);
  }

  lemma {:induction false} TraceFrom(n: nat, k: nat)
    requires n < 4
    ensures CALLBACK.Valid() && Labelled(CALLBACK, TO_FUNCTION[..n + 1])
    ensures Position(4, Label(3, 1)) !in Trace(CALLBACK, State(TO_FUNCTION[..n + 1], {}), k)
    decreases 4 - n
  {
    hide Step, GoSideways;
    var s := State(TO_FUNCTION[..n + 1], {});
    assert s.stack[|s.stack| - 1] == TO_FUNCTION[n] && TO_FUNCTION[n] != Position(4, Label(3, 1));
    if n < 3 {
      GoesDeeper(n);
      if k > 0 { TraceFrom(n + 1, k - 1); }
    } else {
      assert TO_FUNCTION[..4] == TO_FUNCTION;
      GoesBack(s);
      AllTheWayBack(s);
      if k > 0 { TraceEnds(CALLBACK, Step(CALLBACK, s, false), k - 1); }
    }
  }

  lemma TraceUnfolds(g: Graph, s: State, k: nat)
    requires g.Valid() && Labelled(g, s.stack) && s.stack != [] && k > 0
    ensures Trace(g, s, k) == [s.stack[|s.stack| - 1]] + Trace(g, Step(g, s, false), k - 1)
  {
  }

  lemma TraceEnds(g: Graph, s: State, k: nat)
    requires g.Valid() && Labelled(g, s.stack) && (k == 0 || s.stack == [])
    ensures Trace(g, s, k) == []
  {
  }

  // ---- Running both ----

  /** The first positions that the iterator visits, up to a bound or to its end. */
  method RunIterator(g: Graph, start: Node, bound: nat) returns (visits: seq<Position>)
    requires g.Valid() && start in g.out && start != VOID
    ensures Labelled(g, [Position(start, NoReason)])
    ensures visits == Trace(g, State([Position(start, NoReason)], {}), bound)
  {
    hide Step, Trace, Labelled;
    var it := new WalkIterator(g, start);
    visits := [];
    while !it.AtEnd() && |visits| < bound
      invariant fresh(it) && it.Valid() && it.g == g && |visits| <= bound
      invariant Trace(g, State([Position(start, NoReason)], {}), bound) == visits + Trace(g, it.St(), bound - |visits|)
    {
      TraceUnfolds(g, it.St(), bound - |visits|);
      Associate(visits, [Position(it.node, it.reason)], Trace(g, Step(g, it.St(), false), bound - |visits| - 1));
      visits := visits + [Position(it.node, it.reason)];
      it.Increment(false);
    }
    TraceEnds(g, it.St(), bound - |visits|);
    assert visits + [] == visits;
  }

  /** The iterator visits the same sequence as the recursive walk exactly when the walk is ordinary. */
  method WalkLikeTheRecursion(t: Targets, start: Node) returns (visits: seq<Position>)
    requires t.Valid() && start in t.found.out && start != VOID
    ensures visits == Walk(t.found, Position(start, NoReason), {})
            <==> Ordinary(t.found, t.IteratorGraph(), start, {} + {start}, {})
    ensures Acyclic(t.found) ==>
              (visits == Walk(t.found, Position(start, NoReason), {})
               <==> AgreeBelow(t.found, t.IteratorGraph(), start))
  {
    hide Walk, Ordinary, Acyclic, AgreeBelow;
    var g, h := t.found, t.IteratorGraph();
    var walk := WalkFrom(g, Position(start, NoReason), {}, []);
    visits := RunIterator(h, start, |walk| + 1);
    IteratorIsWalkIff(g, h, start);
    if Acyclic(g) { AcyclicIteratorIsWalkIff(g, h, start); }
  }
}
