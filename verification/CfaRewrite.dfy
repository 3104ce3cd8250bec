/** Rewriting location lists so that they refer to the canonical frame address instead of registers, using
    the rows of the frame tables. */
module CfaRewrite {
  import opened Wrappers
  import opened Leb128
  import opened LocEval
  import opened LocStacks
  import T = FrameTable

  // ---- The graph of a row ----

  /** A definition of one register as another plus an offset. */
  predicate IsSum(defs: T.Defs, target: int) { target in defs && defs[target].kind == T.REG }

  /** The difference on the first edge between two registers: each definition of one as the other plus an
      offset gives an edge, and one back; the definitions come in the order of the registers they define. */
  function Edge(defs: T.Defs, from: int, to: int): Option<int> {
    var there := IsSum(defs, to) && defs[to].regPlusOffset.0 == from;
    var back := IsSum(defs, from) && defs[from].regPlusOffset.0 == to;
    if there && (to <= from || !back) then Some(defs[to].regPlusOffset.1)
    else if back then Some(-defs[from].regPlusOffset.1)
    else None
  }

  predicate InGraph(defs: T.Defs, v: int) {
    IsSum(defs, v) || exists r :: r in defs && IsSum(defs, r) && defs[r].regPlusOffset.0 == v
  }

  /** What the shortest-path search from the frame address finds: the distances of the registers it reaches,
      and a predecessor for each register, which is itself for those it does not reach. */
  datatype Tree = Tree(dist: map<int, nat>, pred: map<int, int>)

  ghost predicate IsTree(defs: T.Defs, t: Tree) {
    && (T.CFA in t.dist <==> InGraph(defs, T.CFA))
    && (forall v :: v in t.dist ==> InGraph(defs, v))
    && (forall v {:trigger v in t.pred} :: v in t.dist && v != T.CFA ==>
          v in t.pred && t.pred[v] in t.dist && t.dist[v] == t.dist[t.pred[v]] + 1 && Edge(defs, t.pred[v], v).Some?)
    && (forall u, v :: u in t.dist && Edge(defs, u, v).Some? ==> v in t.dist)
    && (forall v :: InGraph(defs, v) && v !in t.dist ==> v in t.pred && t.pred[v] == v)
  }

  /** The registers reached so far hang together in a tree. */
  ghost predicate IsPartialTree(defs: T.Defs, t: Tree) {
    && (T.CFA in t.dist <==> InGraph(defs, T.CFA))
    && (forall v :: v in t.dist ==> InGraph(defs, v))
    && (forall v {:trigger v in t.pred} :: v in t.dist && v != T.CFA ==>
          v in t.pred && t.pred[v] in t.dist && t.dist[v] == t.dist[t.pred[v]] + 1 && Edge(defs, t.pred[v], v).Some?)
  }

  ghost predicate LeadsOn(defs: T.Defs, t: Tree, u: int, v: int) {
    u in t.dist && v !in t.dist && Edge(defs, u, v).Some?
  }

  ghost function Registers(defs: T.Defs): (s: set<int>)
    ensures forall v :: v in s <==> InGraph(defs, v)
  {
    (set v | v in defs && IsSum(defs, v)) + (set v | v in defs && IsSum(defs, v) :: defs[v].regPlusOffset.0)
  }

  /** Every row has a tree of predecessors. */
  lemma TreeExists(defs: T.Defs) returns (t: Tree)
    ensures IsTree(defs, t)
  {
    hide IsTree;
    var start := Tree(if InGraph(defs, T.CFA) then map[T.CFA := 0] else map[], map[]);
    var grown := GrowAll(defs, start, Registers(defs) - start.dist.Keys);
    CompletedIsTree(defs, grown);
    t := Tree(grown.dist, Completed(defs, grown));
  }

  lemma {:induction false} GrowAll(defs: T.Defs, t: Tree, left: set<int>) returns (r: Tree)
    requires IsPartialTree(defs, t) && forall v :: v in left <==> InGraph(defs, v) && v !in t.dist
    ensures IsPartialTree(defs, r) && forall u, v :: !LeadsOn(defs, r, u, v)
    decreases left
  {
    hide Edge, InGraph, IsPartialTree;
    if u, v :| LeadsOn(defs, t, u, v) {
      EdgeInGraph(defs, u, v);
      Grow(defs, t, u, v);
      r := GrowAll(defs, Tree(t.dist[v := t.dist[u] + 1], t.pred[v := u]), left - {v});
    } else {
      r := t;
    }
  }

  /** The registers that are not reached are their own predecessors. */
  ghost function Completed(defs: T.Defs, t: Tree): map<int, int> {
    map v | v in Registers(defs) :: if v in t.dist && v in t.pred then t.pred[v] else v
  }

  lemma CompletedIsTree(defs: T.Defs, t: Tree)
    requires IsPartialTree(defs, t) && forall u, v :: !LeadsOn(defs, t, u, v)
    ensures IsTree(defs, Tree(t.dist, Completed(defs, t)))
  {
    hide Edge, InGraph;
    forall u, v | u in t.dist && Edge(defs, u, v).Some? ensures v in t.dist {
      assert !LeadsOn(defs, t, u, v);
    }
  }

  lemma EdgeInGraph(defs: T.Defs, u: int, v: int)
    requires Edge(defs, u, v).Some?
    ensures InGraph(defs, v)
  {
  }

  lemma Grow(defs: T.Defs, t: Tree, u: int, v: int)
    requires IsPartialTree(defs, t) && LeadsOn(defs, t, u, v) && InGraph(defs, v)
    ensures IsPartialTree(defs, Tree(t.dist[v := t.dist[u] + 1], t.pred[v := u]))
  {
    hide Edge, InGraph;
  }

  /** The sum of the differences on the path from the frame address to a register. */
  ghost function PathSum(defs: T.Defs, t: Tree, v: int): int
    requires IsTree(defs, t) && v in t.dist
    decreases t.dist[v]
  {
    if v == T.CFA then 0 else Edge(defs, t.pred[v], v).value + PathSum(defs, t, t.pred[v])
  }

  datatype Outcome = Found(sum: int) | NoPath | Stuck

  /** Follows the predecessors from a register to the frame address. It is stuck at a register in the graph
      that the search does not reach. */
  method WalkToCfa(defs: T.Defs, t: Tree, regnum: int) returns (r: Outcome)
    requires IsTree(defs, t)
    ensures r == if regnum in t.dist then Found(PathSum(defs, t, regnum))
                 else if InGraph(defs, regnum) then Stuck else NoPath
  {
    if !InGraph(defs, regnum) {
      return NoPath;
    }
    var pos, sum := regnum, 0;
    while pos != T.CFA
      invariant InGraph(defs, pos) && (pos in t.dist <==> regnum in t.dist)
      invariant pos in t.dist ==> sum + PathSum(defs, t, pos) == PathSum(defs, t, regnum)
      decreases if pos in t.dist then t.dist[pos] else 0
    {
      var p := t.pred[pos];
      var edge := Edge(defs, p, pos);
      if p == pos || edge.None? {
        return Stuck;
      }
      sum := sum + edge.value;
      pos := p;
    }
    return Found(sum);
  }

  // ---- Register values ----

  /** Equal as 64-bit numbers. */
  ghost predicate Same64(x: int, y: int) { U64(x) == U64(y) }

  function Column(env: Env, r: int): nat { if r == T.CFA then env.frameBase else env.regs(r) }

  /** The register values agree with each definition of one register as another plus an offset. */
  ghost predicate Satisfies(env: Env, defs: T.Defs) {
    forall r :: IsSum(defs, r) ==>
        Same64(Column(env, r), Column(env, defs[r].regPlusOffset.0) + defs[r].regPlusOffset.1)
  }

  lemma Same64Add(x: int, y: int, z: int)
    requires Same64(x, y)
    ensures Same64(x + z, y + z) && Same64(x - z, y - z)
  {
    var q := x / TWO64 - y / TWO64;
    assert x == y + TWO64 * q;
    Periodic(y + z, q);
    Periodic(y - z, q);
  }

  lemma Periodic(x: int, q: int)
    ensures U64(x + TWO64 * q) == U64(x)
  {
    var a, b := (x + TWO64 * q) / TWO64, x / TWO64;
    assert TWO64 * (a - b - q) == U64(x) - U64(x + TWO64 * q);
    assert a - b - q == 0;
  }

  lemma EdgeHolds(env: Env, defs: T.Defs, from: int, to: int)
    requires Satisfies(env, defs) && Edge(defs, from, to).Some?
    ensures Same64(Column(env, to), Column(env, from) + Edge(defs, from, to).value)
  {
    hide Same64;
    if !(IsSum(defs, to) && defs[to].regPlusOffset.0 == from
         && Edge(defs, from, to).value == defs[to].regPlusOffset.1) {
      var d := defs[from].regPlusOffset.1;
      assert Same64(Column(env, from), Column(env, to) + d);
      Flip(Column(env, from), Column(env, to), d);
    }
  }

  lemma Flip(x: int, y: int, d: int)
    requires Same64(x, y + d)
    ensures Same64(y, x - d)
  {
    Same64Add(x, y + d, d);
  }

  /** The sum of the differences on the path is the register minus the frame address. */
  lemma {:induction false} PathSumIsDifference(env: Env, defs: T.Defs, t: Tree, v: int)
    requires IsTree(defs, t) && v in t.dist && Satisfies(env, defs)
    ensures Same64(Column(env, v), env.frameBase + PathSum(defs, t, v))
    decreases t.dist[v]
  {
    hide Satisfies, Same64, InGraph, Edge;
    if v == T.CFA {
      Same64Self(env.frameBase);
    } else {
      var p, d := t.pred[v], Edge(defs, t.pred[v], v).value;
      PathSumIsDifference(env, defs, t, p);
      EdgeHolds(env, defs, p, v);
      Chain(Column(env, v), Column(env, p), env.frameBase + PathSum(defs, t, p), d);
    }
  }

  lemma Same64Self(x: int)
    ensures Same64(x, x)
  {
  }

  lemma Chain(x: int, y: int, z: int, d: int)
    requires Same64(x, y + d) && Same64(y, z)
    ensures Same64(x, z + d)
  {
    Same64Add(y, z, d);
  }

  // ---- One expression ----

  function Replacement(sum: int, op: Op): seq<Op> {
    [Op(CALL_FRAME_CFA, 0, 0), Op(CONSTS, U64(sum + AsSigned(op.n1)), 0), Op(PLUS, 0, 0)]
  }

  ghost function RewriteOp(defs: T.Defs, t: Tree, op: Op): seq<Op>
    requires IsTree(defs, t)
  {
    if IsBreg(op) && op.atom - BREG0 in t.dist then Replacement(PathSum(defs, t, op.atom - BREG0), op) else [op]
  }

  ghost function RewriteOps(defs: T.Defs, t: Tree, ops: seq<Op>): seq<Op>
    requires IsTree(defs, t)
  {
    if ops == [] then [] else RewriteOps(defs, t, ops[..|ops| - 1]) + RewriteOp(defs, t, ops[|ops| - 1])
  }

  /** The register that an operation refers to is reached, unless it or the frame address has nothing to do
      with the row. */
  ghost predicate CanRewriteOp(defs: T.Defs, t: Tree, op: Op) {
    InGraph(defs, T.CFA) && IsBreg(op) && InGraph(defs, op.atom - BREG0) ==> op.atom - BREG0 in t.dist
  }

  ghost predicate CanRewrite(defs: T.Defs, t: Tree, ops: seq<Op>) {
    forall k :: 0 <= k < |ops| ==> CanRewriteOp(defs, t, ops[k])
  }

  lemma NothingReached(defs: T.Defs, t: Tree, v: int)
    requires IsTree(defs, t) && !InGraph(defs, T.CFA)
    ensures v !in t.dist
    decreases if v in t.dist then t.dist[v] else 0
  {
    if v in t.dist { NothingReached(defs, t, t.pred[v]); }
  }

  /** Replaces each reference to a register in place. */
  method RewriteExpr(defs: T.Defs, t: Tree, ops: seq<Op>) returns (r: Option<seq<Op>>)
    requires IsTree(defs, t)
    ensures r == if CanRewrite(defs, t, ops) then Some(RewriteOps(defs, t, ops)) else None
  {
    hide IsTree, PathSum, Replacement, RewriteOps, RewriteOp, CanRewriteOp;
    var expr, i := ops, 0;
    ghost var k: nat, done := 0, [];
    RewriteNone(defs, t, ops);
    while i < |expr|
      invariant k <= |ops| && i == |done| && expr == done + ops[k..]
      invariant done == RewriteOps(defs, t, ops[..k]) && forall j :: 0 <= j < k ==> CanRewriteOp(defs, t, ops[j])
    {
      ReplaceOne(expr, done, ops, k);
      RewriteOneMore(defs, t, ops, k);
      var op := expr[i];
      var x := [op];
      if IsBreg(op) && InGraph(defs, T.CFA) {
        var path := WalkToCfa(defs, t, op.atom - BREG0);
        Outcomes(defs, t, op);
        if path.Stuck? {
          return None;
        }
        if path.Found? {
          x := Replacement(path.sum, op);
          expr := expr[..i] + x + expr[i + 1..];
        }
      } else {
        NotRewritten(defs, t, op);
      }
      i := i + |x|;
      k, done := k + 1, done + x;
    }
    assert ops[..k] == ops && expr == done;
    return Some(expr);
  }

  lemma RewriteNone(defs: T.Defs, t: Tree, ops: seq<Op>)
    requires IsTree(defs, t)
    ensures RewriteOps(defs, t, ops[..0]) == []
  {
  }

  lemma RewriteOneMore(defs: T.Defs, t: Tree, ops: seq<Op>, k: nat)
    requires IsTree(defs, t) && k < |ops|
    ensures RewriteOps(defs, t, ops[..k + 1]) == RewriteOps(defs, t, ops[..k]) + RewriteOp(defs, t, ops[k])
  {
    assert ops[..k + 1][..k] == ops[..k];
  }

  lemma ReplaceOne(expr: seq<Op>, done: seq<Op>, ops: seq<Op>, k: nat)
    requires k <= |ops| && expr == done + ops[k..] && |done| < |expr|
    ensures k < |ops| && expr[|done|] == ops[k]
    ensures expr == done + [ops[k]] + ops[k + 1..]
    ensures forall x: seq<Op> :: expr[..|done|] + x + expr[|done| + 1..] == done + x + ops[k + 1..]
  {
    assert expr[..|done|] == done && expr[|done| + 1..] == ops[k + 1..];
  }

  lemma Outcomes(defs: T.Defs, t: Tree, op: Op)
    requires IsTree(defs, t) && IsBreg(op) && InGraph(defs, T.CFA)
    ensures var v := op.atom - BREG0;
            if v in t.dist then
              RewriteOp(defs, t, op) == Replacement(PathSum(defs, t, v), op) && CanRewriteOp(defs, t, op)
            else RewriteOp(defs, t, op) == [op] && (CanRewriteOp(defs, t, op) <==> !InGraph(defs, v))
  {
    hide IsTree, InGraph, PathSum, Edge, Replacement;
  }

  lemma NotRewritten(defs: T.Defs, t: Tree, op: Op)
    requires IsTree(defs, t) && !(IsBreg(op) && InGraph(defs, T.CFA))
    ensures RewriteOp(defs, t, op) == [op] && CanRewriteOp(defs, t, op)
  {
    if IsBreg(op) { NothingReached(defs, t, op.atom - BREG0); }
  }

  // ---- The same stack ----

  lemma {:induction false} EvalAppend(env: Env, a: seq<Op>, b: seq<Op>, m: Machine, z: bool)
    requires forall k :: 0 <= k < |a| ==> a[k].atom != PIECE
    ensures Eval(env, a + b, m, z) == var n := Eval(env, a, m, z); if n.None? then None else Eval(env, b, n.value, z)
  {
    hide Step;
    if a == [] {
      assert a + b == b;
    } else {
      assert (a + b)[1..] == a[1..] + b;
      var n := Step(env, a[0], m, z);
      if n.Some? { EvalAppend(env, a[1..], b, n.value, z); }
    }
  }

  lemma ReplacementPushes(env: Env, sum: int, op: Op, m: Machine)
    ensures Eval(env, Replacement(sum, op), m, false)
              == Some(Push(m, U64(U64(sum + AsSigned(op.n1)) + U64(env.frameBase))))
  {
    var r := Replacement(sum, op);
    var c := U64(sum + AsSigned(op.n1));
    var m1 := m.(stack := [U64(env.frameBase)] + m.stack);
    var m2 := Push(m1, U64(c));
    assert Step(env, r[0], m, false) == Some(m1);
    assert Step(env, r[1], m1, false) == Some(m2);
    assert m2.stack == [U64(c), U64(env.frameBase)] + m.stack;
    assert m2.stack[2..] == m.stack;
    assert U64(U64(env.frameBase) + U64(c)) == U64(c + U64(env.frameBase));
    assert Step(env, r[2], m2, false) == Some(Push(m, U64(c + U64(env.frameBase))));
    assert r[1..][1..] == [r[2]] && r[1..][0] == r[1];
    assert Eval(env, [r[2]], m2, false) == Some(Push(m, U64(c + U64(env.frameBase))));
    assert Eval(env, r[1..], m1, false) == Eval(env, [r[2]], m2, false);
  }

  lemma {:induction false} RewriteFront(defs: T.Defs, t: Tree, ops: seq<Op>)
    requires IsTree(defs, t) && ops != []
    ensures RewriteOps(defs, t, ops) == RewriteOp(defs, t, ops[0]) + RewriteOps(defs, t, ops[1..])
  {
    hide IsTree, RewriteOp;
    if |ops| == 1 {
      assert ops[..0] == [] && ops[1..] == [];
      assert RewriteOps(defs, t, []) == [];
    } else {
      var init := ops[..|ops| - 1];
      RewriteFront(defs, t, init);
      assert ops[1..][..|ops| - 2] == init[1..];
    }
  }

  lemma SumsAgree(x: nat, fb: nat, sum: int, n: nat)
    requires Same64(x, fb + sum)
    ensures U64(U64(sum + AsSigned(n)) + U64(fb)) == U64(x + n)
  {
    Same64Add(x, fb + sum, n);
    var q := (if n >= 0x8000_0000_0000_0000 then -1 else 0) - (sum + AsSigned(n)) / TWO64 - fb / TWO64;
    assert U64(sum + AsSigned(n)) + U64(fb) == fb + sum + n + TWO64 * q;
    Periodic(fb + sum + n, q);
  }

  lemma RewriteOpEval(env: Env, defs: T.Defs, t: Tree, op: Op, m: Machine)
    requires IsTree(defs, t) && Satisfies(env, defs) && op.atom != PIECE
    ensures Eval(env, RewriteOp(defs, t, op), m, false) == Step(env, op, m, false)
    ensures forall k :: 0 <= k < |RewriteOp(defs, t, op)| ==> RewriteOp(defs, t, op)[k].atom != PIECE
  {
    hide Satisfies, IsTree, Binary, Unary, Same64;
    var v := op.atom - BREG0;
    if IsBreg(op) && v in t.dist {
      var sum := PathSum(defs, t, v);
      PathSumIsDifference(env, defs, t, v);
      ReplacementPushes(env, sum, op, m);
      SumsAgree(env.regs(v), env.frameBase, sum, op.n1);
    } else {
      EvalOne(env, op, m, false);
    }
  }

  lemma EvalOne(env: Env, op: Op, m: Machine, z: bool)
    requires op.atom != PIECE
    ensures Eval(env, [op], m, z) == Step(env, op, m, z)
  {
    hide Step;
    assert [op][1..] == [];
    assert Eval(env, [op], m, z) == var n := Step(env, op, m, z); if n.None? then None else Eval(env, [], n.value, z);
  }

  /** Rewriting an expression does not change what it evaluates to, whatever the values in the registers, if
      they agree with the row: an operation pushes once, as in section 2.5.1. */
  lemma {:induction false} RewriteKeepsMeaning(env: Env, defs: T.Defs, t: Tree, ops: seq<Op>, m: Machine)
    requires IsTree(defs, t) && Satisfies(env, defs)
    ensures Eval(env, RewriteOps(defs, t, ops), m, false) == Eval(env, ops, m, false)
  {
    hide IsTree, Satisfies, Step;
    if ops != [] {
      RewriteFront(defs, t, ops);
      if ops[0].atom == PIECE {
        PieceIsKept(defs, t, ops[0]);
      } else {
        RewriteOpEval(env, defs, t, ops[0], m);
        EvalAppend(env, RewriteOp(defs, t, ops[0]), RewriteOps(defs, t, ops[1..]), m, false);
        var n := Step(env, ops[0], m, false);
        if n.Some? { RewriteKeepsMeaning(env, defs, t, ops[1..], n.value); }
      }
    }
  }

  lemma PieceIsKept(defs: T.Defs, t: Tree, op: Op)
    requires IsTree(defs, t) && op.atom == PIECE
    ensures RewriteOp(defs, t, op) == [op]
  {
  }

  // ---- The extra zero ----

  /** How many references to registers are replaced before the first piece. */
  ghost function Replaced(defs: T.Defs, t: Tree, ops: seq<Op>): nat {
    if ops == [] || ops[0].atom == PIECE then 0
    else (if IsBreg(ops[0]) && ops[0].atom - BREG0 in t.dist then 1 else 0) + Replaced(defs, t, ops[1..])
  }

  lemma {:induction false} RewrittenGrowth(defs: T.Defs, t: Tree, ops: seq<Op>)
    requires IsTree(defs, t)
    ensures TotalGrowth(RewriteOps(defs, t, ops), true) == TotalGrowth(ops, true) - Replaced(defs, t, ops)
  {
    hide IsTree, PathSum, RewriteOps;
    if ops != [] {
      RewriteFront(defs, t, ops);
      var rest := RewriteOps(defs, t, ops[1..]);
      RewrittenGrowth(defs, t, ops[1..]);
      if ops[0].atom == PIECE {
        PieceIsKept(defs, t, ops[0]);
      } else if IsBreg(ops[0]) && ops[0].atom - BREG0 in t.dist {
        ThreeGrow(Replacement(PathSum(defs, t, ops[0].atom - BREG0), ops[0]), rest);
      } else {
        assert ([ops[0]] + rest)[1..] == rest;
      }
    } else {
      assert RewriteOps(defs, t, ops) == [] by { RewriteNone(defs, t, ops); assert ops[..0] == ops; }
    }
  }

  lemma ThreeGrow(r: seq<Op>, rest: seq<Op>)
    requires |r| == 3 && r[0].atom == CALL_FRAME_CFA && r[1].atom == CONSTS && r[2].atom == PLUS
    ensures TotalGrowth(r + rest, true) == 1 + TotalGrowth(rest, true)
  {
    var all := r + rest;
    assert all[1..][1..][1..] == rest;
    assert all[1..][0] == r[1] && all[1..][1..][0] == r[2];
    assert TotalGrowth(all, true) == 1 + TotalGrowth(all[1..], true);
    assert TotalGrowth(all[1..], true) == 1 + TotalGrowth(all[1..][1..], true);
    assert TotalGrowth(all[1..][1..], true) == -1 + TotalGrowth(rest, true);
  }

  lemma {:induction false} NothingReplaced(env: Env, defs: T.Defs, t: Tree, ops: seq<Op>, m: Machine)
    requires IsTree(defs, t) && Replaced(defs, t, ops) == 0
    ensures Eval(env, RewriteOps(defs, t, ops), m, true) == Eval(env, ops, m, true)
  {
    hide IsTree, PathSum, Step;
    if ops != [] {
      RewriteFront(defs, t, ops);
      var rest := RewriteOps(defs, t, ops[1..]);
      if ops[0].atom == PIECE {
        PieceIsKept(defs, t, ops[0]);
      } else {
        assert ([ops[0]] + rest)[1..] == rest;
        var n := Step(env, ops[0], m, true);
        if n.Some? { NothingReplaced(env, defs, t, ops[1..], n.value); }
      }
    }
  }

  /** With the extra zero under each register value, as coded, rewriting an expression that evaluates keeps
      its meaning exactly when nothing is rewritten. */
  lemma ExtraZeroLosesMeaning(env: Env, defs: T.Defs, t: Tree, ops: seq<Op>, m: Machine)
    requires IsTree(defs, t) && Eval(env, ops, m, true).Some?
    ensures Eval(env, RewriteOps(defs, t, ops), m, true) == Eval(env, ops, m, true) <==> Replaced(defs, t, ops) == 0
  {
    hide IsTree, RewriteOps, Eval;
    if Replaced(defs, t, ops) == 0 {
      NothingReplaced(env, defs, t, ops, m);
    } else if Eval(env, RewriteOps(defs, t, ops), m, true).Some? {
      RewrittenGrowth(defs, t, ops);
      EvalGrowth(env, ops, m, true);
      EvalGrowth(env, RewriteOps(defs, t, ops), m, true);
    }
  }
}
