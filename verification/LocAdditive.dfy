/** Turning frame-base-relative operations into additions to a frame base that is already on the stack. */
module LocAdditive {
  import opened Wrappers
  import opened Leb128
  import opened LocEval
  import opened LocStacks
  import opened CfaRewrite

  ghost function AdditiveOps(ops: seq<Op>): seq<Op> {
    if ops == [] then []
    else (if ops[0].atom == FBREG then [ops[0].(atom := CONSTS), Op(PLUS, 0, 0)] else [ops[0]]) + AdditiveOps(ops[1..])
  }

  /** Edits each expression of a copy of the list. */
  method AbsoluteToAdditive(l: seq<LocExpr>) returns (r: seq<LocExpr>)
    ensures |r| == |l| && forall k :: 0 <= k < |l| ==> r[k] == l[k].(ops := AdditiveOps(l[k].ops))
  {
    r := l;
    var k := 0;
    while k < |r|
      invariant 0 <= k <= |r| == |l|
      invariant forall j :: 0 <= j < k ==> r[j] == l[j].(ops := AdditiveOps(l[j].ops))
      invariant forall j :: k <= j < |l| ==> r[j] == l[j]
    {
      var ops := AdditiveInPlace(r[k].ops);
      r := r[k := r[k].(ops := ops)];
      k := k + 1;
    }
  }

  /** Changes each frame-base-relative operation and inserts an addition after it. */
  method AdditiveInPlace(expr: seq<Op>) returns (ops: seq<Op>)
    ensures ops == AdditiveOps(expr)
  {
    hide AdditiveOps;
    var i := 0;
    ops := expr;
    ghost var done: seq<Op>, rest := [], expr;
    while i < |ops|
      invariant i == |done| && ops == done + rest && done + AdditiveOps(rest) == AdditiveOps(expr)
      decreases |rest|
    {
      SplitHere(done, rest);
      AdditiveHere(done, rest);
      if ops[i].atom == FBREG {
        ops := ops[..i] + [ops[i].(atom := CONSTS)] + ops[i + 1..];
        i := i + 1;
        InsertHere(done, rest);
        ops := ops[..i] + [Op(PLUS, 0, 0)] + ops[i..];
        done := done + [rest[0].(atom := CONSTS), Op(PLUS, 0, 0)];
      } else {
        done := done + [rest[0]];
      }
      rest := rest[1..];
      i := i + 1;
    }
    NothingLeft(done);
  }

  lemma SplitHere(done: seq<Op>, rest: seq<Op>)
    requires rest != []
    ensures var ops, i := done + rest, |done|;
            ops[i] == rest[0] && ops[i + 1..] == rest[1..] && ops[..i] == done && ops == done + [rest[0]] + rest[1..]
  {
    assert rest == [rest[0]] + rest[1..];
  }

  lemma AdditiveHere(done: seq<Op>, rest: seq<Op>)
    requires rest != []
    ensures done + AdditiveOps(rest)
            == done + (if rest[0].atom == FBREG then [rest[0].(atom := CONSTS), Op(PLUS, 0, 0)] else [rest[0]])
               + AdditiveOps(rest[1..])
  {
    var x := if rest[0].atom == FBREG then [rest[0].(atom := CONSTS), Op(PLUS, 0, 0)] else [rest[0]];
    assert AdditiveOps(rest) == x + AdditiveOps(rest[1..]);
    Associate(done, x, AdditiveOps(rest[1..]));
  }

  lemma InsertHere(done: seq<Op>, rest: seq<Op>)
    requires rest != []
    ensures var c := rest[0].(atom := CONSTS);
            var ops, i := done + [c] + rest[1..], |done| + 1;
            ops[..i] + [Op(PLUS, 0, 0)] + ops[i..] == done + [c, Op(PLUS, 0, 0)] + rest[1..]
  {
    var c := rest[0].(atom := CONSTS);
    assert done + [c] + [Op(PLUS, 0, 0)] == done + [c, Op(PLUS, 0, 0)];
  }

  lemma NothingLeft(done: seq<Op>)
    ensures done + AdditiveOps([]) == done
  {
  }

  /** How many frame-base-relative operations there are before the first piece. */
  function FrameBaseUses(ops: seq<Op>): nat {
    if ops == [] || ops[0].atom == PIECE then 0 else Truth(ops[0].atom == FBREG) + FrameBaseUses(ops[1..])
  }

  lemma {:induction false} UnusedIsKept(env: Env, ops: seq<Op>, m: Machine, z: bool)
    requires FrameBaseUses(ops) == 0
    ensures Eval(env, AdditiveOps(ops), m, z) == Eval(env, ops, m, z)
  {
    hide Step;
    if ops != [] && ops[0].atom != PIECE {
      assert ([ops[0]] + AdditiveOps(ops[1..]))[1..] == AdditiveOps(ops[1..]);
      var n := Step(env, ops[0], m, z);
      if n.Some? { UnusedIsKept(env, ops[1..], n.value, z); }
    }
  }

  // ---- Operations before the frame base ----

  /** Started with d values of their own, the operations never look under them, nor use the frame base. */
  predicate KeepsOut(ops: seq<Op>, d: int, z: bool) {
    ops != [] ==>
      && ops[0].atom != PIECE && ops[0].atom != FBREG && Need(ops[0]) <= d
      && KeepsOut(ops[1..], d + Growth(ops[0], z), z)
  }

  /** The result with t at the bottom of the stack. */
  function Over(m: Option<Machine>, t: seq<nat>): Option<Machine> {
    if m.None? then None else Some(m.value.(stack := m.value.stack + t))
  }

  lemma StepFrames(env: Env, op: Op, s: seq<nat>, t: seq<nat>, tos: TosState, z: bool)
    requires Need(op) <= |s|
    ensures Step(env, op, Machine(s + t, tos), z) == Over(Step(env, op, Machine(s, tos), z), t)
  {
    hide Step, Over;
    if Need(op) == 0 {
      PushFrames(env, op, s, t, tos, z);
    } else if IsBinary(op.atom) {
      BinaryFrames(env, op, s, t, tos, z);
    } else if IsUnary(op.atom) {
      UnaryFrames(env, op, s, t, tos, z);
    } else if op.atom == DUP || op.atom == OVER || op.atom == PICK {
      CopyFrames(env, op, s, t, tos, z);
    } else {
      MoveFrames(env, op, s, t, tos, z);
    }
  }

  lemma PushFrames(env: Env, op: Op, s: seq<nat>, t: seq<nat>, tos: TosState, z: bool)
    requires Need(op) == 0
    ensures Step(env, op, Machine(s + t, tos), z) == Over(Step(env, op, Machine(s, tos), z), t)
  {
    hide Binary, Unary, U64;
    Under(t);
  }

  lemma BinaryFrames(env: Env, op: Op, s: seq<nat>, t: seq<nat>, tos: TosState, z: bool)
    requires IsBinary(op.atom) && 2 <= |s|
    ensures Step(env, op, Machine(s + t, tos), z) == Over(Step(env, op, Machine(s, tos), z), t)
  {
    hide Step, Binary, IsBinary;
    BinaryStep(env, op, s, tos, z);
    BinaryStep(env, op, s + t, tos, z);
    assert (s + t)[2..] == s[2..] + t;
    Under(t);
  }

  lemma BinaryStep(env: Env, op: Op, s: seq<nat>, tos: TosState, z: bool)
    requires IsBinary(op.atom) && 2 <= |s|
    ensures var x := Binary(op.atom, s[1], s[0]);
            Step(env, op, Machine(s, tos), z) == if x.None? then None else Some(Machine([x.value] + s[2..], ADDRESS))
  {
    hide Binary, U64;
  }

  lemma UnaryFrames(env: Env, op: Op, s: seq<nat>, t: seq<nat>, tos: TosState, z: bool)
    requires IsUnary(op.atom) && 1 <= |s|
    ensures Step(env, op, Machine(s + t, tos), z) == Over(Step(env, op, Machine(s, tos), z), t)
  {
    hide Binary, Unary, U64;
    Under(t);
    assert (s + t)[1..] == s[1..] + t;
  }

  lemma CopyFrames(env: Env, op: Op, s: seq<nat>, t: seq<nat>, tos: TosState, z: bool)
    requires op.atom == DUP || op.atom == OVER || op.atom == PICK
    requires Need(op) <= |s|
    ensures Step(env, op, Machine(s + t, tos), z) == Over(Step(env, op, Machine(s, tos), z), t)
  {
    hide Binary, Unary, U64, PushOnto, Truth;
    Under(t);
  }

  lemma MoveFrames(env: Env, op: Op, s: seq<nat>, t: seq<nat>, tos: TosState, z: bool)
    requires op.atom == DROP || op.atom == SWAP || op.atom == ROT
    requires Need(op) <= |s|
    ensures Step(env, op, Machine(s + t, tos), z) == Over(Step(env, op, Machine(s, tos), z), t)
  {
    hide Binary, Unary, U64, PushOnto, Truth;
    Under(t);
    if op.atom == DROP { assert (s + t)[1..] == s[1..] + t; }
    if op.atom == SWAP { assert (s + t)[2..] == s[2..] + t; }
    if op.atom == ROT { assert (s + t)[3..] == s[3..] + t; }
  }

  lemma Under(t: seq<nat>)
    ensures forall u: seq<nat>, s: seq<nat> :: u + (s + t) == (u + s) + t
  {
  }

  /** What is under its own values does not matter to such an expression, and stays there. */
  lemma {:induction false} EvalFrames(env: Env, ops: seq<Op>, s: seq<nat>, t: seq<nat>, tos: TosState, z: bool)
    requires KeepsOut(ops, |s|, z)
    ensures Eval(env, ops, Machine(s + t, tos), z) == Over(Eval(env, ops, Machine(s, tos), z), t)
  {
    hide Step, Growth, Need;
    if ops != [] {
      StepFrames(env, ops[0], s, t, tos, z);
      var n := Step(env, ops[0], Machine(s, tos), z);
      if n.Some? {
        StepGrowth(env, ops[0], Machine(s, tos), z);
        EvalFrames(env, ops[1..], n.value.stack, t, n.value.tos, z);
      }
    }
  }

  /** Operations without a use that evaluate on an empty stack keep out of what may be under it. */
  lemma {:induction false} EvaluatedKeepsOut(env: Env, ops: seq<Op>, m: Machine, z: bool)
    requires Eval(env, ops, m, z).Some? && forall k :: 0 <= k < |ops| ==> ops[k].atom != FBREG && ops[k].atom != PIECE
    ensures KeepsOut(ops, |m.stack|, z)
  {
    hide Step, Growth, Need;
    if ops != [] {
      StepNeeds(env, ops[0], m, z);
      StepGrowth(env, ops[0], m, z);
      EvaluatedKeepsOut(env, ops[1..], Step(env, ops[0], m, z).value, z);
    }
  }

  lemma {:induction false} KeptAsIs(pre: seq<Op>, rest: seq<Op>, d: int, z: bool)
    requires KeepsOut(pre, d, z)
    ensures AdditiveOps(pre + rest) == pre + AdditiveOps(rest)
    ensures forall k :: 0 <= k < |pre| ==> pre[k].atom != PIECE
  {
    hide Growth, Need;
    if pre == [] {
      assert pre + rest == rest;
    } else {
      assert (pre + rest)[1..] == pre[1..] + rest;
      KeptAsIs(pre[1..], rest, d + Growth(pre[0], z), z);
    }
  }

  lemma BeforeTheUse(env: Env, pre: seq<Op>, op: Op, post: seq<Op>, m: Machine, z: bool)
    requires KeepsOut(pre, 0, z) && op.atom == FBREG
    ensures var own := Eval(env, pre, Machine([], m.tos), z);
            Eval(env, pre + ([op] + post), m, z)
            == if own.None? then None
               else Eval(env, post, Machine([U64(env.frameBase + op.n1)] + (own.value.stack + m.stack),
                                            own.value.tos), z)
  {
    hide Step, KeepsOut;
    KeptAsIs(pre, [op] + post, 0, z);
    EvalAppend(env, pre, [op] + post, m, z);
    assert [] + m.stack == m.stack;
    EvalFrames(env, pre, [], m.stack, m.tos, z);
    var own := Eval(env, pre, Machine([], m.tos), z);
    if own.Some? {
      var n := own.value.(stack := own.value.stack + m.stack);
      EvalAppend(env, [op], post, n, z);
      EvalOne(env, op, n, z);
      FrameBaseStep(env, op, n, z);
    }
  }

  lemma FrameBaseStep(env: Env, op: Op, m: Machine, z: bool)
    requires op.atom == FBREG
    ensures Step(env, op, m, z) == Some(m.(stack := [U64(env.frameBase + op.n1)] + m.stack))
  {
    hide Binary, Unary;
  }

  lemma BeforeTheAddition(env: Env, pre: seq<Op>, op: Op, post: seq<Op>, m: Machine, z: bool)
    requires KeepsOut(pre, 0, z) && op.atom == FBREG && FrameBaseUses(post) == 0
    ensures var own := Eval(env, pre, Machine([], m.tos), z);
            Eval(env, AdditiveOps(pre + ([op] + post)), WithFrameBase(env, m), z)
            == if own.None? then None else Eval(env, post, Added(env, op, own.value.stack, m), z)
  {
    hide Step, KeepsOut, Added;
    KeptAsIs(pre, [op] + post, 0, z);
    var two := [op.(atom := CONSTS), Op(PLUS, 0, 0)];
    assert ([op] + post)[1..] == post;
    assert AdditiveOps([op] + post) == two + AdditiveOps(post);
    var start := WithFrameBase(env, m);
    EvalAppend(env, pre, two + AdditiveOps(post), start, z);
    assert [] + start.stack == start.stack;
    EvalFrames(env, pre, [], start.stack, m.tos, z);
    var own := Eval(env, pre, Machine([], m.tos), z);
    if own.Some? {
      TwoAdd(env, op, own.value, m, z);
      EvalAppend(env, two, AdditiveOps(post), own.value.(stack := own.value.stack + start.stack), z);
      UnusedIsKept(env, post, Added(env, op, own.value.stack, m), z);
    }
  }

  function WithFrameBase(env: Env, m: Machine): Machine { m.(stack := [U64(env.frameBase)] + m.stack) }

  /** The offset added to the value on top of the frame base, or to the frame base if there is none. */
  function Added(env: Env, op: Op, s: seq<nat>, m: Machine): Machine {
    var u := s + ([U64(env.frameBase)] + m.stack);
    Machine([U64(u[0] + U64(op.n1))] + u[1..], ADDRESS)
  }

  lemma TwoAdd(env: Env, op: Op, own: Machine, m: Machine, z: bool)
    ensures Eval(env, [op.(atom := CONSTS), Op(PLUS, 0, 0)], own.(stack := own.stack + WithFrameBase(env, m).stack), z)
            == Some(Added(env, op, own.stack, m))
  {
    hide Binary, Unary;
    var two := [op.(atom := CONSTS), Op(PLUS, 0, 0)];
    var start := own.(stack := own.stack + WithFrameBase(env, m).stack);
    var next := Push(start, U64(op.n1));
    assert next.stack[2..] == start.stack[1..];
    assert Step(env, two[0], start, z) == Some(next);
    AddStep(env, two[1], next, z);
    EvalOne(env, two[1], next, z);
    assert two[1..] == [two[1]];
  }

  lemma AddStep(env: Env, op: Op, m: Machine, z: bool)
    requires op.atom == PLUS && |m.stack| >= 2
    ensures Step(env, op, m, z) == Some(Machine([U64(m.stack[1] + m.stack[0])] + m.stack[2..], ADDRESS))
  {
  }

  /** With the frame base on the stack, after operations that keep out of what they find there, the meaning is as
      it was exactly when the rest makes the same of the address on top of the values they leave as of these and
      the frame base with the offset on the topmost. */
  lemma TheRestDecides(env: Env, pre: seq<Op>, op: Op, post: seq<Op>, m: Machine, z: bool)
    requires KeepsOut(pre, 0, z) && op.atom == FBREG && FrameBaseUses(post) == 0
    requires Eval(env, pre, Machine([], m.tos), z).Some?
    ensures var own, expr := Eval(env, pre, Machine([], m.tos), z).value, pre + ([op] + post);
            && |own.stack| == TotalGrowth(pre, z)
            && (Eval(env, AdditiveOps(expr), WithFrameBase(env, m), z) == Eval(env, expr, m, z)
                <==> (Eval(env, post, Added(env, op, own.stack, m), z)
                      == Eval(env, post, Addressed(env, op, own, m), z)))
  {
    hide Eval, KeepsOut, AdditiveOps, FrameBaseUses, TotalGrowth, Added, WithFrameBase, U64;
    BeforeTheUse(env, pre, op, post, m, z);
    BeforeTheAddition(env, pre, op, post, m, z);
    EvalGrowth(env, pre, Machine([], m.tos), z);
  }

  /** The address on top of the values left before it. */
  function Addressed(env: Env, op: Op, own: Machine, m: Machine): Machine {
    Machine([U64(env.frameBase + op.n1)] + (own.stack + m.stack), own.tos)
  }

  /** If they leave nothing, the meaning is as it was exactly when they leave the state alone too, or the rest
      sets it or has no result. */
  lemma AdditiveMeansTheSame(env: Env, pre: seq<Op>, op: Op, post: seq<Op>, m: Machine, z: bool)
    requires KeepsOut(pre, 0, z) && TotalGrowth(pre, z) == 0 && op.atom == FBREG && FrameBaseUses(post) == 0
    requires Eval(env, pre, Machine([], m.tos), z).Some?
    ensures var expr := pre + ([op] + post);
            Eval(env, AdditiveOps(expr), WithFrameBase(env, m), z) == Eval(env, expr, m, z)
            <==> Eval(env, expr, m, z).None? || StateAfter(pre, m.tos) == ADDRESS || SetsState(post)
  {
    hide Eval, KeepsOut, TotalGrowth, FrameBaseUses, StateAfter, SetsState, AdditiveOps;
    var own := Eval(env, pre, Machine([], m.tos), z).value;
    BeforeTheUse(env, pre, op, post, m, z);
    TheRestDecides(env, pre, op, post, m, z);
    EvalState(env, pre, Machine([], m.tos), z);
    assert own.stack == [] && [] + m.stack == m.stack;
    SumMod(env.frameBase, op.n1);
    assert Added(env, op, [], m) == Machine([U64(env.frameBase + op.n1)] + m.stack, ADDRESS);
    EvalSameIff(env, post, Addressed(env, op, own, m), Added(env, op, [], m), z);
  }

  // ---- Values that are added up ----

  predicate Adds(ops: seq<Op>, j: nat) { j <= |ops| && forall k :: 0 <= k < j ==> ops[k].atom == PLUS }

  function Total(s: seq<nat>): nat { if s == [] then 0 else s[0] + Total(s[1..]) }

  /** The stack with j values added to the one on top of them. */
  function AddedUp(s: seq<nat>, j: nat): seq<nat>
    requires 0 < j < |s|
  {
    [U64(Total(s[..j + 1]))] + s[j + 1..]
  }

  lemma {:induction false} AddsUp(env: Env, ops: seq<Op>, j: nat, m: Machine, z: bool)
    requires Adds(ops, j) && 0 < j < |m.stack|
    ensures Eval(env, ops, m, z) == Eval(env, ops[j..], Machine(AddedUp(m.stack, j), ADDRESS), z)
    decreases j
  {
    hide Step, Total;
    var s := m.stack;
    AddStep(env, ops[0], m, z);
    var n := Machine([U64(s[1] + s[0])] + s[2..], ADDRESS);
    if j == 1 {
      TotalOfTwo(s[..2]);
    } else {
      assert ops[1..][j - 1..] == ops[j..];
      AddsUp(env, ops[1..], j - 1, n, z);
      assert n.stack[j..] == s[j + 1..] && n.stack[..j] == [U64(s[1] + s[0])] + s[2..j + 1];
      TotalOfSum(s[..j + 1]);
      assert s[..j + 1][2..] == s[2..j + 1];
    }
  }

  lemma TotalFirst(s: seq<nat>)
    requires s != []
    ensures Total(s) == s[0] + Total(s[1..])
  {
  }

  lemma TotalFirstTwo(s: seq<nat>)
    requires |s| >= 2
    ensures Total(s) == s[0] + (s[1] + Total(s[2..]))
  {
    hide Total;
    TotalFirst(s);
    TotalFirst(s[1..]);
    assert s[1..][1..] == s[2..];
  }

  lemma TotalOfTwo(s: seq<nat>)
    requires |s| == 2
    ensures Total(s) == s[1] + s[0]
  {
    TotalFirstTwo(s);
    assert s[2..] == [];
  }

  lemma TotalOfSum(s: seq<nat>)
    requires |s| >= 2
    ensures U64(Total([U64(s[1] + s[0])] + s[2..])) == U64(Total(s))
  {
    hide U64, Total;
    var x, rest := U64(s[1] + s[0]), s[2..];
    TotalFirstTwo(s);
    TotalFirst([x] + rest);
    assert ([x] + rest)[1..] == rest;
    SumModRight(Total(rest), s[1] + s[0]);
  }

  lemma {:induction false} TotalAppend(s: seq<nat>, x: nat)
    ensures Total(s + [x]) == Total(s) + x
  {
    if s == [] {
      assert ([] + [x])[1..] == [];
    } else {
      assert (s + [x])[1..] == s[1..] + [x];
      TotalAppend(s[1..], x);
    }
  }

  /** All but the topmost of the values, and the frame base under them. */
  function MovedUp(env: Env, s: seq<nat>): seq<nat>
    requires s != []
  {
    s[1..] + [U64(env.frameBase)]
  }

  lemma UpShape(x: nat, v: seq<nat>, t: seq<nat>, j: nat)
    requires 0 < j <= |v|
    ensures AddedUp([x] + (v + t), j) == [U64(x + Total(v[..j]))] + (v[j..] + t)
  {
    var s := [x] + (v + t);
    assert s[..j + 1] == [x] + v[..j] && s[j + 1..] == v[j..] + t;
    assert ([x] + v[..j])[1..] == v[..j];
  }

  lemma AddedShape(env: Env, op: Op, s: seq<nat>, m: Machine)
    requires s != []
    ensures Added(env, op, s, m) == Machine([U64(s[0] + U64(op.n1))] + (MovedUp(env, s) + m.stack), ADDRESS)
  {
    var u := s + ([U64(env.frameBase)] + m.stack);
    assert u[1..] == MovedUp(env, s) + m.stack;
  }

  lemma {:induction false} MovedUpIff(env: Env, s: seq<nat>, j: nat)
    requires j < |s|
    ensures MovedUp(env, s)[j..] == s[j..] <==> forall i :: j <= i < |s| ==> s[i] == U64(env.frameBase)
    decreases |s| - j
  {
    hide U64;
    var v := MovedUp(env, s);
    assert v[j] == if j + 1 < |s| then s[j + 1] else U64(env.frameBase);
    if j + 1 < |s| {
      assert v[j..] == [v[j]] + v[j + 1..] && s[j..] == [s[j]] + s[j + 1..];
      MovedUpIff(env, s, j + 1);
    } else {
      assert v[j..] == [v[j]] && s[j..] == [s[j]];
    }
  }

  lemma TopsAlike(fb: nat, n: nat, x: nat, r: nat)
    ensures U64(U64(x + U64(n)) + (r + U64(fb))) == U64(U64(fb + n) + (x + r))
  {
    hide U64;
    SumModRight(x, n);
    SumModRight(r + U64(fb), x + n);
    SumModRight(r + x + n, fb);
    SumModRight(x + r, fb + n);
  }

  lemma AddedTops(env: Env, n: nat, s: seq<nat>, j: nat)
    requires 0 < j <= |s| && forall i :: j <= i < |s| ==> s[i] == U64(env.frameBase)
    ensures U64(U64(s[0] + U64(n)) + Total(MovedUp(env, s)[..j])) == U64(U64(env.frameBase + n) + Total(s[..j]))
  {
    hide U64, Total;
    var r := s[1..j];
    assert MovedUp(env, s)[..j] == r + [U64(env.frameBase)];
    TotalAppend(r, U64(env.frameBase));
    TotalFirst(s[..j]);
    assert s[..j][1..] == r;
    TopsAlike(env.frameBase, n, s[0], Total(r));
  }

  lemma SameOverIff(p: nat, v: seq<nat>, q: nat, s: seq<nat>, t: seq<nat>)
    requires |v| == |s|
    ensures [p] + (v + t) == [q] + (s + t) <==> p == q && v == s
  {
    var x, y := [p] + (v + t), [q] + (s + t);
    if x == y {
      assert x[0] == y[0];
      assert x[1..] == v + t && y[1..] == s + t;
      assert (v + t)[..|v|] == v && (s + t)[..|v|] == s;
    }
  }

  /** Once j values are added up, the two stacks are the same exactly when all values not added are the frame
      base. */
  lemma SumsAlikeIff(env: Env, op: Op, own: Machine, m: Machine, j: nat)
    requires 0 < j <= |own.stack|
    ensures |Added(env, op, own.stack, m).stack| == |Addressed(env, op, own, m).stack| == |own.stack| + 1 + |m.stack|
    ensures AddedUp(Added(env, op, own.stack, m).stack, j) == AddedUp(Addressed(env, op, own, m).stack, j)
            <==> forall i :: j <= i < |own.stack| ==> own.stack[i] == U64(env.frameBase)
  {
    hide AddedUp, Total, U64, Added;
    var s, t, v := own.stack, m.stack, MovedUp(env, own.stack);
    var x, y := U64(s[0] + U64(op.n1)), U64(env.frameBase + op.n1);
    AddedShape(env, op, s, m);
    UpShape(x, v, t, j);
    UpShape(y, s, t, j);
    SameOverIff(U64(x + Total(v[..j])), v[j..], U64(y + Total(s[..j])), s[j..], t);
    if j < |s| { MovedUpIff(env, s, j); }
    if forall i :: j <= i < |s| ==> s[i] == U64(env.frameBase) { AddedTops(env, op.n1, s, j); }
  }

  /** If as many values as they leave are added to the address at once, the meaning is as it was, whatever comes
      after. */
  lemma AddedLaterMeansTheSame(env: Env, pre: seq<Op>, op: Op, post: seq<Op>, m: Machine, z: bool)
    requires KeepsOut(pre, 0, z) && op.atom == FBREG && FrameBaseUses(post) == 0
    requires TotalGrowth(pre, z) > 0 && Adds(post, TotalGrowth(pre, z))
    ensures Eval(env, AdditiveOps(pre + ([op] + post)), WithFrameBase(env, m), z)
              == Eval(env, pre + ([op] + post), m, z)
  {
    hide *;
    if Eval(env, pre, Machine([], m.tos), z).None? {
      BeforeTheUse(env, pre, op, post, m, z);
      BeforeTheAddition(env, pre, op, post, m, z);
    } else {
      TheRestDecides(env, pre, op, post, m, z);
      var own := Eval(env, pre, Machine([], m.tos), z).value;
      var d := |own.stack|;
      SumsAlikeIff(env, op, own, m, d);
      AddsUp(env, post, d, Added(env, op, own.stack, m), z);
      AddsUp(env, post, d, Addressed(env, op, own, m), z);
    }
  }

  /** If some of the values that they leave are added to the address, and nothing else is done, the meaning is as it
      was exactly when all the others are the frame base. */
  lemma SomeAddedMeansTheSameIff(env: Env, pre: seq<Op>, op: Op, post: seq<Op>, m: Machine, z: bool)
    requires KeepsOut(pre, 0, z) && op.atom == FBREG && Eval(env, pre, Machine([], m.tos), z).Some?
    requires 0 < |post| <= TotalGrowth(pre, z) && Adds(post, |post|)
    ensures var own, expr := Eval(env, pre, Machine([], m.tos), z).value.stack, pre + ([op] + post);
            Eval(env, AdditiveOps(expr), WithFrameBase(env, m), z) == Eval(env, expr, m, z)
            <==> forall i :: |post| <= i < |own| ==> own[i] == U64(env.frameBase)
  {
    hide *;
    AddsUseNothing(post);
    TheRestDecides(env, pre, op, post, m, z);
    var own := Eval(env, pre, Machine([], m.tos), z).value;
    var j := |post|;
    SumsAlikeIff(env, op, own, m, j);
    AddsUp(env, post, j, Added(env, op, own.stack, m), z);
    AddsUp(env, post, j, Addressed(env, op, own, m), z);
    assert post[j..] == [];
    EvalNothing(env, Machine(AddedUp(Added(env, op, own.stack, m).stack, j), ADDRESS), z);
    EvalNothing(env, Machine(AddedUp(Addressed(env, op, own, m).stack, j), ADDRESS), z);
  }

  lemma EvalNothing(env: Env, m: Machine, z: bool)
    ensures Eval(env, [], m, z) == Some(m)
  {
  }

  lemma {:induction false} AddsUseNothing(ops: seq<Op>)
    requires Adds(ops, |ops|)
    ensures FrameBaseUses(ops) == 0
  {
    if ops != [] { AddsUseNothing(ops[1..]); }
  }

  lemma SumModRight(x: nat, y: nat)
    ensures U64(x + U64(y)) == U64(x + y)
  {
    Periodic(x + U64(y), y / TWO64);
  }

  /** If they leave one value and one binary operation takes it, the meaning is as it was exactly when the
      operation gives the same for the value and the frame base moved, and the frame base and the value moved. */
  lemma OneValueMeansTheSameIff(env: Env, pre: seq<Op>, op: Op, bin: Op, m: Machine, z: bool)
    requires KeepsOut(pre, 0, z) && TotalGrowth(pre, z) == 1 && op.atom == FBREG && IsBinary(bin.atom)
    requires Eval(env, pre, Machine([], m.tos), z).Some?
    ensures var expr := pre + ([op] + [bin]);
            var x := Eval(env, pre, Machine([], m.tos), z).value.stack;
            && |x| == 1
            && (Eval(env, AdditiveOps(expr), WithFrameBase(env, m), z) == Eval(env, expr, m, z)
                <==> (Binary(bin.atom, U64(env.frameBase), U64(x[0] + op.n1))
                      == Binary(bin.atom, x[0], U64(env.frameBase + op.n1))))
  {
    hide *;
    NoUse(bin);
    BeforeTheUse(env, pre, op, [bin], m, z);
    BeforeTheAddition(env, pre, op, [bin], m, z);
    EvalGrowth(env, pre, Machine([], m.tos), z);
    var own := Eval(env, pre, Machine([], m.tos), z).value;
    var x := own.stack[0];
    assert own.stack == [x];
    AddedToOne(env, op, x, m);
    BinaryEval(env, bin, U64(env.frameBase + op.n1), x, m.stack, own.tos, z);
    BinaryEval(env, bin, U64(x + op.n1), U64(env.frameBase), m.stack, ADDRESS, z);
  }

  lemma NoUse(bin: Op)
    requires IsBinary(bin.atom)
    ensures FrameBaseUses([bin]) == 0
  {
    hide IsBinary;
    assert FrameBaseUses([bin][1..]) == 0;
    assert bin.atom != FBREG by { Fbreg(bin); }
  }

  lemma Fbreg(bin: Op)
    requires IsBinary(bin.atom)
    ensures bin.atom != FBREG
  {
  }

  lemma AddedToOne(env: Env, op: Op, x: nat, m: Machine)
    ensures Added(env, op, [x], m) == Machine([U64(x + op.n1)] + ([U64(env.frameBase)] + m.stack), ADDRESS)
  {
    SumModRight(x, op.n1);
    assert ([x] + ([U64(env.frameBase)] + m.stack))[1..] == [U64(env.frameBase)] + m.stack;
  }

  lemma BinaryEval(env: Env, bin: Op, y: nat, x: nat, s: seq<nat>, tos: TosState, z: bool)
    requires IsBinary(bin.atom)
    ensures var b := Binary(bin.atom, x, y);
            Eval(env, [bin], Machine([y] + ([x] + s), tos), z)
            == if b.None? then None else Some(Machine([b.value] + s, ADDRESS))
    ensures forall v: nat, w: nat :: [v] + s == [w] + s ==> v == w
  {
    hide Binary;
    var t := [y] + ([x] + s);
    assert t[2..] == s && t[0] == y && t[1] == x;
    EvalOne(env, bin, Machine(t, tos), z);
    forall v: nat, w: nat | [v] + s == [w] + s ensures v == w { assert ([v] + s)[0] == v && ([w] + s)[0] == w; }
  }

  /** With frame base 100, five times the address 3 above it is 515 before and 800 after. */
  lemma ProductIsLost(env: Env, m: Machine, z: bool)
    requires env.frameBase == 100 && m.tos == ADDRESS
    ensures var expr := [Op(CONST1U, 5, 0), Op(FBREG, 3, 0), Op(MUL, 0, 0)];
            && FrameBaseUses(expr) == 1
            && Eval(env, expr, m, z) == Some(Machine([515] + m.stack, ADDRESS))
            && Eval(env, AdditiveOps(expr), WithFrameBase(env, m), z) == Some(Machine([800] + m.stack, ADDRESS))
  {
    hide Eval, AdditiveOps, KeepsOut, WithFrameBase, Added, Binary, FrameBaseUses, IsBinary;
    var pre, op, mul := [Op(CONST1U, 5, 0)], Op(FBREG, 3, 0), Op(MUL, 0, 0);
    var expr := [pre[0], op, mul];
    assert pre + ([op] + [mul]) == expr;
    OneUse(pre[0], op, mul);
    Constant(env, pre[0], m.tos, z);
    BeforeTheUse(env, pre, op, [mul], m, z);
    BeforeTheAddition(env, pre, op, [mul], m, z);
    AddedToOne(env, op, 5, m);
    BinaryEval(env, mul, 103, 5, m.stack, ADDRESS, z);
    BinaryEval(env, mul, 8, 100, m.stack, ADDRESS, z);
    Products();
  }

  lemma OneUse(x: Op, op: Op, bin: Op)
    requires x.atom == CONST1U && op.atom == FBREG && bin.atom == MUL
    ensures FrameBaseUses([x, op, bin]) == 1 && FrameBaseUses([bin]) == 0 && IsBinary(bin.atom)
  {
    NoUse(bin);
    assert [x, op, bin][1..] == [op, bin] && [op, bin][1..] == [bin];
  }

  lemma Products()
    ensures Binary(MUL, 5, 103) == Some(515) && Binary(MUL, 100, 8) == Some(800)
  {
  }

  lemma Constant(env: Env, op: Op, tos: TosState, z: bool)
    requires op == Op(CONST1U, 5, 0)
    ensures KeepsOut([op], 0, z) && Eval(env, [op], Machine([], tos), z) == Some(Machine([5], ADDRESS))
  {
    EvalOne(env, op, Machine([], tos), z);
    assert Step(env, op, Machine([], tos), z) == Some(Push(Machine([], tos), 5));
    assert [5] + [] == [5];
    assert [op][1..] == [] && Growth(op, z) == 1;
    assert KeepsOut([op][1..], 1, z);
  }

  lemma SumMod(x: nat, y: nat)
    ensures U64(U64(x) + U64(y)) == U64(x + y)
  {
    var q := x / TWO64 + y / TWO64;
    assert x + y == U64(x) + U64(y) + TWO64 * q;
    Periodic(U64(x) + U64(y), q);
  }

  lemma {:induction false} AdditiveGrowth(ops: seq<Op>, z: bool)
    ensures TotalGrowth(AdditiveOps(ops), z) == TotalGrowth(ops, z) - FrameBaseUses(ops)
  {
    if ops != [] && ops[0].atom != PIECE {
      AdditiveGrowth(ops[1..], z);
      var rest := AdditiveOps(ops[1..]);
      if ops[0].atom == FBREG {
        var all := [ops[0].(atom := CONSTS), Op(PLUS, 0, 0)] + rest;
        assert all[1..] == [Op(PLUS, 0, 0)] + rest;
        assert all[1..][1..] == rest;
      } else {
        assert ([ops[0]] + rest)[1..] == rest;
      }
    }
  }

  /** It can only do so with exactly one such operation. */
  lemma AdditiveNeedsOneUse(env: Env, ops: seq<Op>, m: Machine, z: bool)
    requires Eval(env, ops, m, z).Some?
    requires Eval(env, AdditiveOps(ops), WithFrameBase(env, m), z) == Eval(env, ops, m, z)
    ensures FrameBaseUses(ops) == 1
  {
    hide Eval;
    AdditiveGrowth(ops, z);
    EvalGrowth(env, ops, m, z);
    EvalGrowth(env, AdditiveOps(ops), WithFrameBase(env, m), z);
  }
}
