/** What evaluation does to the depth of the stack and to the state of its top, whatever the values on it; and
    where the operations as coded depart from section 2.5.1 of DWARF 4. */
module LocStacks {
  import opened Wrappers
  import opened Leb128
  import opened LocEval

  // ---- Depth ----

  /** An operation that makes room for its value twice. */
  predicate PushesTwice(op: Op) { LIT0 <= op.atom <= LIT0 + 31 || IsBreg(op) || op.atom == BREGX }

  /** How much deeper an operation makes the stack. */
  function Growth(op: Op, z: bool): int {
    var a := op.atom;
    if PushesTwice(op) then if z then 2 else 1
    else if a == ADDR || CONST1U <= a <= CONSTS || a == FBREG || a == CALL_FRAME_CFA then 1
    else if a == DUP || a == OVER || a == PICK then 1
    else if a == DROP || IsBinary(a) then -1
    else 0
  }

  function TotalGrowth(ops: seq<Op>, z: bool): int {
    if ops == [] || ops[0].atom == PIECE then 0 else Growth(ops[0], z) + TotalGrowth(ops[1..], z)
  }

  /** How many values an operation takes or copies from the stack. */
  function Need(op: Op): nat {
    if op.atom == ROT then 3
    else if op.atom == PICK then op.n1 + 1
    else if op.atom == OVER || op.atom == SWAP || IsBinary(op.atom) then 2
    else if op.atom == DUP || op.atom == DROP || IsUnary(op.atom) then 1
    else 0
  }

  lemma StepNeeds(env: Env, op: Op, m: Machine, z: bool)
    requires Step(env, op, m, z).Some?
    ensures Need(op) <= |m.stack|
  {
    hide Binary, Unary, U64;
  }

  lemma StepGrowth(env: Env, op: Op, m: Machine, z: bool)
    requires Step(env, op, m, z).Some?
    ensures |Step(env, op, m, z).value.stack| == |m.stack| + Growth(op, z)
  {
    hide Binary, Unary;
  }

  lemma {:induction false} EvalGrowth(env: Env, ops: seq<Op>, m: Machine, z: bool)
    requires Eval(env, ops, m, z).Some?
    ensures |Eval(env, ops, m, z).value.stack| == |m.stack| + TotalGrowth(ops, z)
  {
    hide Step, Growth;
    if ops != [] && ops[0].atom != PIECE {
      StepGrowth(env, ops[0], m, z);
      EvalGrowth(env, ops[1..], Step(env, ops[0], m, z).value, z);
    }
  }

  // ---- The state of the top ----

  predicate KeepsState(op: Op) {
    var a := op.atom;
    a == FBREG || a == CALL_FRAME_CFA || a == SWAP || a == ROT || IsUnary(a) || a == NOP
  }

  /** The state after an operation. */
  function StateOf(op: Op, tos: TosState): TosState {
    var a := op.atom;
    if KeepsState(op) then tos
    else if REG0 <= a <= REG0 + 31 || a == REGX then NAMED_REGISTER
    else if a == STACK_VALUE then VALUE
    else if a == IMPLICIT || a == GNU_IMPLICIT then IMPLICIT_POINTER(op.n1, AsSigned(op.n2))
    else ADDRESS
  }

  function StateAfter(ops: seq<Op>, tos: TosState): TosState {
    if ops == [] || ops[0].atom == PIECE then tos else StateAfter(ops[1..], StateOf(ops[0], tos))
  }

  /** Some operation before the first piece sets the state. */
  predicate SetsState(ops: seq<Op>) {
    ops != [] && ops[0].atom != PIECE && (!KeepsState(ops[0]) || SetsState(ops[1..]))
  }

  lemma StepState(env: Env, op: Op, m: Machine, z: bool)
    requires Step(env, op, m, z).Some?
    ensures Step(env, op, m, z).value.tos == StateOf(op, m.tos)
  {
    hide Binary, Unary, U64;
  }

  lemma {:induction false} EvalState(env: Env, ops: seq<Op>, m: Machine, z: bool)
    requires Eval(env, ops, m, z).Some?
    ensures Eval(env, ops, m, z).value.tos == StateAfter(ops, m.tos)
  {
    hide Step, StateOf;
    if ops != [] && ops[0].atom != PIECE {
      StepState(env, ops[0], m, z);
      EvalState(env, ops[1..], Step(env, ops[0], m, z).value, z);
    }
  }

  lemma {:induction false} StateAfterIff(ops: seq<Op>, t: TosState, u: TosState)
    ensures StateAfter(ops, t) == StateAfter(ops, u) <==> t == u || SetsState(ops)
    ensures !SetsState(ops) ==> StateAfter(ops, t) == t
  {
    if ops != [] && ops[0].atom != PIECE { StateAfterIff(ops[1..], StateOf(ops[0], t), StateOf(ops[0], u)); }
  }

  ghost predicate SameStack(m: Option<Machine>, n: Option<Machine>) {
    (m.Some? <==> n.Some?) && (m.Some? ==> m.value.stack == n.value.stack)
  }

  lemma StepIgnoresState(env: Env, op: Op, m: Machine, n: Machine, z: bool)
    requires m.stack == n.stack
    ensures SameStack(Step(env, op, m, z), Step(env, op, n, z))
  {
    hide Binary, Unary, U64;
  }

  lemma {:induction false} EvalIgnoresState(env: Env, ops: seq<Op>, m: Machine, n: Machine, z: bool)
    requires m.stack == n.stack
    ensures SameStack(Eval(env, ops, m, z), Eval(env, ops, n, z))
  {
    hide Step;
    if ops != [] && ops[0].atom != PIECE {
      StepIgnoresState(env, ops[0], m, n, z);
      var m', n' := Step(env, ops[0], m, z), Step(env, ops[0], n, z);
      if m'.Some? { EvalIgnoresState(env, ops[1..], m'.value, n'.value, z); }
    }
  }

  /** From the same stack with different states, evaluation gives the same exactly when an operation sets the
      state, or there is no result. */
  lemma EvalSameIff(env: Env, ops: seq<Op>, m: Machine, n: Machine, z: bool)
    requires m.stack == n.stack
    ensures Eval(env, ops, m, z) == Eval(env, ops, n, z)
            <==> Eval(env, ops, m, z).None? || m.tos == n.tos || SetsState(ops)
  {
    hide Eval, SetsState, StateAfter;
    EvalIgnoresState(env, ops, m, n, z);
    if Eval(env, ops, m, z).Some? {
      EvalState(env, ops, m, z);
      EvalState(env, ops, n, z);
      StateAfterIff(ops, m.tos, n.tos);
    }
  }

  // ---- The extra zero ----

  /** How many operations before the first piece make room twice. */
  function ExtraZeros(ops: seq<Op>): nat {
    if ops == [] || ops[0].atom == PIECE then 0 else Truth(PushesTwice(ops[0])) + ExtraZeros(ops[1..])
  }

  lemma {:induction false} ExtraGrowth(ops: seq<Op>)
    ensures TotalGrowth(ops, true) == TotalGrowth(ops, false) + ExtraZeros(ops)
  {
    hide IsBinary, PushesTwice;
    if ops != [] && ops[0].atom != PIECE { ExtraGrowth(ops[1..]); }
  }

  lemma {:induction false} NoExtraZeros(env: Env, ops: seq<Op>, m: Machine)
    requires ExtraZeros(ops) == 0
    ensures Eval(env, ops, m, true) == Eval(env, ops, m, false)
  {
    hide Binary, Unary, U64;
    if ops != [] && ops[0].atom != PIECE {
      var n := Step(env, ops[0], m, true);
      assert n == Step(env, ops[0], m, false);
      if n.Some? { NoExtraZeros(env, ops[1..], n.value); }
    }
  }

  /** Evaluation as coded gives what section 2.5.1 does, if either has a result, exactly when the expression has
      no lit, breg or bregx before the first piece. */
  lemma ExtraZeroIff(env: Env, ops: seq<Op>, m: Machine)
    requires Eval(env, ops, m, true).Some? || Eval(env, ops, m, false).Some?
    ensures Eval(env, ops, m, true) == Eval(env, ops, m, false) <==> ExtraZeros(ops) == 0
    ensures SameStack(Eval(env, ops, m, true), Eval(env, ops, m, false)) <==> ExtraZeros(ops) == 0
  {
    hide Eval, TotalGrowth, ExtraZeros;
    ExtraGrowth(ops);
    if ExtraZeros(ops) == 0 {
      NoExtraZeros(env, ops, m);
    } else if Eval(env, ops, m, true).Some? && Eval(env, ops, m, false).Some? {
      EvalGrowth(env, ops, m, true);
      EvalGrowth(env, ops, m, false);
    }
  }

  // ---- The arithmetic shift ----

  /** Section 2.5.1.4: the shift to the right that fills with the sign, which divides and rounds down. */
  function ShiftRightArithmetically(x: nat, n: nat): nat { U64(AsSigned(x) / Power2(n)) }

  lemma {:induction false} ShiftDivides(x: nat, n: nat)
    ensures ShiftRight(x, n) == x / Power2(n)
  {
    if n > 0 {
      ShiftDivides(x / 2, n - 1);
      HalvesFirst(x, Power2(n - 1));
    }
  }

  lemma HalvesFirst(x: nat, p: nat)
    requires p > 0
    ensures x / 2 / p == x / (2 * p)
  {
    var q, r := x / 2 / p, x / 2 % p;
    assert x == 2 * (q * p + r) + x % 2;
    QuotientIs(x, 2 * p, q, 2 * r + x % 2);
  }

  lemma QuotientIs(x: nat, d: nat, q: nat, r: nat)
    requires d > 0 && x == q * d + r && r < d
    ensures x / d == q
  {
    var e := x / d - q;
    assert e * d == r - x % d;
    if e != 0 { AtLeastOnce(e, d); }
  }

  lemma AtLeastOnce(e: int, d: nat)
    requires e != 0
    ensures e * d >= d || e * d + d <= 0
  {
    if e > 0 { Scales(e, d); } else { Scales(-e, d); }
  }

  lemma Scales(k: nat, d: nat)
    requires k > 0
    ensures k * d >= d
  {
  }

  lemma QuotientOfPositive(x: nat, p: nat)
    requires p > 0
    ensures 0 <= x / p <= x
  {
    if x / p > 0 { Scales(p, x / p); }
  }

  lemma QuotientOfNegative(x: int, p: nat)
    requires x < 0 < p
    ensures x <= x / p < 0
  {
    var q, r := x / p, x % p;
    assert x == q * p + r;
    BelowZero(x, p, q, r);
    Scales(-q, p - 1);
  }

  lemma BelowZero(x: int, p: nat, q: int, r: nat)
    requires x < 0 < p && x == q * p + r
    ensures q < 0
  {
    if q > 0 { Scales(q, p); }
  }

  /** The shift as coded is logical: it is the arithmetic one exactly when the top bit is clear or nothing is
      shifted. */
  lemma ShiftsAlikeIff(x: nat, n: nat)
    requires x < TWO64 && n < 64
    ensures Binary(SHRA, x, n) == Some(ShiftRightArithmetically(x, n)) <==> x < 0x8000_0000_0000_0000 || n == 0
  {
    assert Binary(SHRA, x, n) == Some(ShiftRight(x, n));
    hide Binary;
    if x < 0x8000_0000_0000_0000 {
      TopBitClear(x, n);
    } else {
      TopBitSet(x, n);
      ShiftsToLess(x, n);
    }
  }

  lemma TopBitClear(x: nat, n: nat)
    requires x < 0x8000_0000_0000_0000
    ensures ShiftRightArithmetically(x, n) == ShiftRight(x, n)
  {
    hide Power2, ShiftRight;
    ShiftDivides(x, n);
    QuotientOfPositive(x, Power2(n));
    SameModulo(x / Power2(n));
  }

  lemma TopBitSet(x: nat, n: nat)
    requires 0x8000_0000_0000_0000 <= x < TWO64
    ensures ShiftRightArithmetically(x, n) >= 0x8000_0000_0000_0000
    ensures n == 0 ==> ShiftRightArithmetically(x, n) == x
  {
    var q := (x - TWO64) / Power2(n);
    assert n == 0 ==> q == x - TWO64;
    hide Power2;
    QuotientOfNegative(x - TWO64, Power2(n));
    SameModulo(q);
  }

  lemma SameModulo(q: int)
    requires -TWO64 <= q < TWO64
    ensures U64(q) == if q < 0 then q + TWO64 else q
  {
  }

  lemma ShiftsToLess(x: nat, n: nat)
    ensures if n == 0 then ShiftRight(x, n) == x else ShiftRight(x, n) <= x / 2
  {
    if n > 0 {
      ShiftDivides(x / 2, n - 1);
      QuotientOfPositive(x / 2, Power2(n - 1));
    }
  }
}
