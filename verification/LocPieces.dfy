/** Composite locations: what evaluation gives when it is resumed after a piece. */
module LocPieces {
  import opened Wrappers
  import opened Leb128
  import opened LocEval
  import opened LocStacks

  /** What resuming evaluates when it has stopped after the k-th operation, a piece: all but the first
      operation of what follows. */
  function Resumed(ops: seq<Op>, k: nat): seq<Op>
    requires k < |ops| - 1
  {
    ops[k + 2..]
  }

  /** Section 2.6.1.2: each piece is located by what comes between it and the piece before. */
  function Following(ops: seq<Op>, k: nat): seq<Op>
    requires k < |ops| - 1
  {
    ops[k + 1..]
  }

  /** What the evaluation of a piece starts with. */
  const FRESH := Machine([], ADDRESS)

  /** The first operation of the piece, which is lost, neither pushes nor sets the state of the top to other than
      that left by the piece before, unless a later one sets it again. */
  predicate LosesNothing(ops: seq<Op>, k: nat, tos: TosState, z: bool)
    requires k < |ops| - 1
  {
    Growth(ops[k + 1], z) == 0 && (StateOf(ops[k + 1], ADDRESS) == tos || SetsState(Resumed(ops, k)))
  }

  /** The piece is empty, and the one after it, which is evaluated instead, leaves nothing either. */
  predicate NothingInstead(env: Env, ops: seq<Op>, k: nat, tos: TosState, z: bool)
    requires k < |ops| - 1
  {
    var next := Resumed(ops, k);
    Eval(env, next, FRESH, z).Some? && TotalGrowth(next, z) == 0 && StateAfter(next, tos) == ADDRESS
  }

  predicate ResumesRightly(env: Env, ops: seq<Op>, k: nat, tos: TosState, z: bool)
    requires k < |ops| - 1
  {
    if ops[k + 1].atom == PIECE then NothingInstead(env, ops, k, tos, z) else LosesNothing(ops, k, tos, z)
  }

  /** An operation that evaluates on an empty stack pushes, or leaves it empty. */
  lemma OnEmptyStack(env: Env, op: Op, m: Machine, z: bool)
    requires Step(env, op, m, z).Some? && m.stack == []
    ensures Growth(op, z) >= 0
    ensures Growth(op, z) == 0 ==> Step(env, op, m, z) == Some(Machine([], StateOf(op, m.tos)))
  {
    hide Step, StateOf;
    StepNeeds(env, op, m, z);
    StepGrowth(env, op, m, z);
    StepState(env, op, m, z);
  }

  /** Resuming after a piece, with the state that it left, gives what the operations of the next piece do, if
      these evaluate, exactly when losing the first of them loses nothing, or the piece is empty and so is what
      comes instead. */
  lemma ResumedIsRightIff(env: Env, ops: seq<Op>, k: nat, tos: TosState, z: bool)
    requires k < |ops| - 1 && ops[k].atom == PIECE && Eval(env, Following(ops, k), FRESH, z).Some?
    ensures Eval(env, Resumed(ops, k), Machine([], tos), z) == Eval(env, Following(ops, k), FRESH, z)
            <==> ResumesRightly(env, ops, k, tos, z)
  {
    hide Eval, LosesNothing, NothingInstead;
    if ops[k + 1].atom == PIECE {
      EmptyPiece(env, ops, k, tos, z);
    } else {
      FirstIsLost(env, ops, k, tos, z);
    }
  }

  lemma FirstIsLost(env: Env, ops: seq<Op>, k: nat, tos: TosState, z: bool)
    requires k < |ops| - 1 && ops[k + 1].atom != PIECE && Eval(env, Following(ops, k), FRESH, z).Some?
    ensures Eval(env, Resumed(ops, k), Machine([], tos), z) == Eval(env, Following(ops, k), FRESH, z)
            <==> LosesNothing(ops, k, tos, z)
  {
    hide Step, Growth, StateOf, SetsState;
    var all, rest := Following(ops, k), Resumed(ops, k);
    assert all[0] == ops[k + 1] && all[1..] == rest;
    OnEmptyStack(env, all[0], FRESH, z);
    if Growth(all[0], z) == 0 {
      EvalSameIff(env, rest, Machine([], tos), Machine([], StateOf(all[0], ADDRESS)), z);
    } else if Eval(env, rest, Machine([], tos), z).Some? {
      EvalGrowth(env, rest, Machine([], tos), z);
      EvalGrowth(env, all, FRESH, z);
    }
  }

  lemma EmptyPiece(env: Env, ops: seq<Op>, k: nat, tos: TosState, z: bool)
    requires k < |ops| - 1 && ops[k + 1].atom == PIECE
    ensures Eval(env, Following(ops, k), FRESH, z) == Some(FRESH)
    ensures Eval(env, Resumed(ops, k), Machine([], tos), z) == Some(FRESH) <==> NothingInstead(env, ops, k, tos, z)
  {
    hide Step, Growth, StateOf;
    var rest, left := Resumed(ops, k), Machine([], tos);
    assert Following(ops, k)[0] == ops[k + 1];
    EvalIgnoresState(env, rest, left, FRESH, z);
    if Eval(env, rest, left, z).Some? {
      EvalGrowth(env, rest, left, z);
      EvalState(env, rest, left, z);
    }
  }

  // ---- Pieces that are lost ----

  /** An object in two parts: the address of the second part, 2000, is lost. */
  lemma SecondPieceIsLost(env: Env, tos: TosState, z: bool)
    ensures var ops := [Op(ADDR, 1000, 0), Op(PIECE, 8, 0), Op(ADDR, 2000, 0), Op(PIECE, 8, 0)];
            && Eval(env, Following(ops, 1), FRESH, z) == Some(Machine([2000], ADDRESS))
            && Eval(env, Resumed(ops, 1), Machine([], tos), z) == Some(Machine([], tos))
  {
    var ops := [Op(ADDR, 1000, 0), Op(PIECE, 8, 0), Op(ADDR, 2000, 0), Op(PIECE, 8, 0)];
    var all := Following(ops, 1);
    assert all == [ops[2], ops[3]] && all[1..] == [ops[3]] && Resumed(ops, 1) == [ops[3]];
    assert Step(env, ops[2], FRESH, z) == Some(Push(FRESH, 2000));
    assert [2000] + [] == [2000];
  }

  /** The second part is in register 5: it is taken for the address that the first part left. */
  lemma RegisterPieceIsLost(env: Env, z: bool)
    ensures var ops := [Op(ADDR, 1000, 0), Op(PIECE, 8, 0), Op(REG0 + 5, 0, 0), Op(PIECE, 8, 0)];
            && Eval(env, Following(ops, 1), FRESH, z) == Some(Machine([], NAMED_REGISTER))
            && Eval(env, Resumed(ops, 1), FRESH, z) == Some(Machine([], ADDRESS))
  {
    var ops := [Op(ADDR, 1000, 0), Op(PIECE, 8, 0), Op(REG0 + 5, 0, 0), Op(PIECE, 8, 0)];
    var all := Following(ops, 1);
    assert all == [ops[2], ops[3]] && all[1..] == [ops[3]] && Resumed(ops, 1) == [ops[3]];
  }

  /** The second part has no location: it gets that of the third. */
  lemma EmptyPieceIsFilled(env: Env, tos: TosState, z: bool)
    ensures var ops := [Op(ADDR, 1000, 0), Op(PIECE, 8, 0), Op(PIECE, 8, 0), Op(ADDR, 2000, 0), Op(PIECE, 8, 0)];
            && Eval(env, Following(ops, 1), FRESH, z) == Some(FRESH)
            && Eval(env, Resumed(ops, 1), Machine([], tos), z) == Some(Machine([2000], ADDRESS))
  {
    var ops := [Op(ADDR, 1000, 0), Op(PIECE, 8, 0), Op(PIECE, 8, 0), Op(ADDR, 2000, 0), Op(PIECE, 8, 0)];
    var next := Resumed(ops, 1);
    assert Following(ops, 1)[0] == ops[2] && next == [ops[3], ops[4]] && next[1..] == [ops[4]];
    assert Step(env, ops[3], Machine([], tos), z) == Some(Push(Machine([], tos), 2000));
    assert [2000] + [] == [2000];
  }

  /** Evaluates an expression up to its first piece, and then the next by resuming. */
  method EvaluateNext(env: Env, ops: seq<Op>, initial: Machine)
    returns (first: Option<Machine>, second: Option<Machine>)
    requires PieceAt(ops) + 1 < |ops|
    ensures first == Eval(env, ops, initial, true)
    ensures first.Some? ==> second == Eval(env, Resumed(ops, PieceAt(ops)), Machine([], first.value.tos), true)
    ensures var intended := Eval(env, Following(ops, PieceAt(ops)), FRESH, true);
            first.Some? && intended.Some? ==>
              (second == intended <==> ResumesRightly(env, ops, PieceAt(ops), first.value.tos, true))
  {
    hide ResumesRightly;
    assert ops[0..] == ops;
    var evaluator := new Evaluator(env, ops, initial);
    var ok := evaluator.Run();
    if !ok {
      return None, None;
    }
    first := Some(evaluator.m);
    ok := evaluator.Run();
    second := if ok then Some(evaluator.m) else None;
    if Eval(env, Following(ops, PieceAt(ops)), FRESH, true).Some? {
      ResumedIsRightIff(env, ops, PieceAt(ops), first.value.tos, true);
    }
  }
}
