/** The iterator that is meant to visit the same sequence of types as the recursive walk, with an explicit
    stack, on any type graph. */
module WalkIterator {
  import opened Wrappers
  import opened TypeGraph
  import opened WalkType

  // ---- The steps of the iterator ----

  /** The stack, whose top is the position, and the finished types; an empty stack is the end. */
  datatype State = State(stack: seq<Position>, black: set<Node>)

  /** A finished type counts as black even if it is on the stack again. */
  predicate IsGrey(s: State, n: Node) {
    n !in s.black && exists k :: 0 <= k < |s.stack| && s.stack[k].node == n
  }

  ghost predicate Labelled(g: Graph, stack: seq<Position>) {
    forall k :: 0 <= k < |stack| ==> stack[k].node in g.out && (stack[k].reason.Label? ==> g.IsLabel(stack[k].reason))
  }

  /** Replaces the top by the next edge out of the same source, backtracking as far as that takes. */
  ghost function GoSideways(g: Graph, s: State): (t: State)
    requires g.Valid() && Labelled(g, s.stack)
    ensures Labelled(g, t.stack)
    decreases |s.stack|
  {
    if s.stack == [] then s
    else
      var top, rest := s.stack[|s.stack| - 1], s.stack[..|s.stack| - 1];
      var next := g.NextOutgoing(top.reason);
      var black := s.black + {top.node};
      if next.Some? then State(rest + [next.value], black) else GoSideways(g, State(rest, black))
  }

  /** Goes deeper along the first edge, unless that is to be skipped or leads to a grey type. */
  ghost function Step(g: Graph, s: State, skip: bool): (t: State)
    requires g.Valid() && Labelled(g, s.stack) && s.stack != []
    ensures Labelled(g, t.stack)
  {
    var deeper := g.FirstOutgoing(s.stack[|s.stack| - 1].node);
    if !skip && deeper.Some? && !IsGrey(s, deeper.value.node) then State(s.stack + [deeper.value], s.black)
    else GoSideways(g, s)
  }

  /** The first n positions from this state on; fewer if the iterator ends. */
  ghost function Trace(g: Graph, s: State, n: nat): seq<Position>
    requires g.Valid() && Labelled(g, s.stack)
    decreases n
  {
    if n == 0 || s.stack == [] then [] else [s.stack[|s.stack| - 1]] + Trace(g, Step(g, s, false), n - 1)
  }

  class WalkIterator {
    const g: Graph
    const start: Node
    var node: Node
    var reason: Reason
    var stack: seq<Position>
    var black: set<Node>

    predicate AtEnd()
      reads this
    {
      node == VOID && reason == NoReason
    }

    /** The position is the top of the stack, once the start has been pushed. */
    ghost predicate Valid()
      reads this
    {
      && g.Valid() && Labelled(g, stack) && (AtEnd() ==> stack == [])
      && (!AtEnd() ==>
            if stack == [] then node == start && reason == NoReason && start in g.out && black == {}
            else stack[|stack| - 1] == Position(node, reason))
    }

    ghost function St(): (s: State)
      requires Valid()
      reads this
      ensures Labelled(g, s.stack)
    {
      State(if !AtEnd() && stack == [] then [Position(node, reason)] else stack, black)
    }

    constructor (g: Graph, start: Node)
      requires g.Valid() && start in g.out && start != VOID
      ensures Valid() && !AtEnd() && this.g == g && this.start == start
      ensures St() == State([Position(start, NoReason)], {})
    {
      this.g, this.start := g, start;
      node, reason, stack, black := start, NoReason, [], {};
    }

    method Increment(skipDependencies: bool)
      requires Valid() && !AtEnd()
      modifies this
      ensures Valid() && St() == Step(g, old(St()), skipDependencies)
    {
      if stack == [] {
        stack := [Position(node, reason)];
      }
      assert stack[|stack| - 1] == Position(node, reason);
      var deeper := g.FirstOutgoing(node);
      if !skipDependencies && deeper.Some? && !IsGrey(State(stack, black), deeper.value.node) {
        stack := stack + [deeper.value];
        node, reason := deeper.value.node, deeper.value.reason;
        return;
      }
      Sideways();
    }

    method Sideways()
      requires Valid() && stack != []
      modifies this
      ensures Valid() && St() == GoSideways(g, old(St()))
    {
      while true
        invariant g.Valid() && Labelled(g, stack) && stack != [] && stack[|stack| - 1] == Position(node, reason)
        invariant GoSideways(g, State(stack, black)) == GoSideways(g, old(St()))
        decreases |stack|
      {
        var sideways := g.NextOutgoing(reason);
        black := black + {stack[|stack| - 1].node};
        stack := stack[..|stack| - 1];
        if sideways.Some? {
          stack := stack + [sideways.value];
          node, reason := sideways.value.node, sideways.value.reason;
          return;
        }
        if stack == [] {
          break;
        }
        node, reason := stack[|stack| - 1].node, stack[|stack| - 1].reason;
      }
      node, reason := VOID, NoReason;
    }
  }
}
