/** Location expressions and lists, and their evaluation: the computational part of section 2.5 of DWARF 4
    and the location lists of section 2.6.2. */
module LocEval {
  import opened Wrappers
  import opened Leb128

  /** An operation and its operands. */
  datatype Op = Op(atom: nat, n1: nat, n2: nat)

  const ADDR := 0x03
  const CONST1U := 0x08
  const CONSTS := 0x11
  const DUP := 0x12
  const DROP := 0x13
  const OVER := 0x14
  const PICK := 0x15
  const SWAP := 0x16
  const ROT := 0x17
  const ABS := 0x19
  const AND := 0x1a
  const DIV := 0x1b
  const MINUS := 0x1c
  const MOD := 0x1d
  const MUL := 0x1e
  const NEG := 0x1f
  const NOT := 0x20
  const OR := 0x21
  const PLUS := 0x22
  const PLUS_UCONST := 0x23
  const SHL := 0x24
  const SHR := 0x25
  const SHRA := 0x26
  const XOR := 0x27
  const EQ := 0x29
  const GE := 0x2a
  const GT := 0x2b
  const LE := 0x2c
  const LT := 0x2d
  const NE := 0x2e
  const LIT0 := 0x30
  const REG0 := 0x50
  const BREG0 := 0x70
  const REGX := 0x90
  const FBREG := 0x91
  const BREGX := 0x92
  const PIECE := 0x93
  const NOP := 0x96
  const CALL_FRAME_CFA := 0x9c
  const STACK_VALUE := 0x9f
  const IMPLICIT := 0xa0
  const GNU_IMPLICIT := 0xf2

  predicate IsBreg(op: Op) { BREG0 <= op.atom <= BREG0 + 31 }

  /** What the top of the stack is. An implicit pointer is not on the stack: it is a DIE and an offset. */
  datatype TosState = ADDRESS | NAMED_REGISTER | VALUE | IMPLICIT_POINTER(die: nat, offset: int)

  /** The top of the stack is stack[0]. */
  datatype Machine = Machine(stack: seq<nat>, tos: TosState)

  /** The contents of the registers and the frame base, which is also what call_frame_cfa pushes. */
  datatype Env = Env(regs: int -> nat, frameBase: nat)

  function Push(m: Machine, x: nat): Machine { Machine([x] + m.stack, ADDRESS) }

  /** A push of a register or literal, with or without a zero under it: the operations as coded make
      room for the value twice. */
  function PushOnto(m: Machine, x: nat, extraZero: bool): Machine {
    Push(if extraZero then Push(m, 0) else m, x)
  }

  function Truth(b: bool): nat { if b then 1 else 0 }

  function BitAnd(x: nat, y: nat): nat { if x == 0 || y == 0 then 0 else (x % 2) * (y % 2) + 2 * BitAnd(x / 2, y / 2) }

  function Quotient(x: int, y: int): int
    requires y != 0
  {
    var q := (if x < 0 then -x else x) / (if y < 0 then -y else y);
    if (x < 0) == (y < 0) then q else -q
  }

  function Remainder(x: int, y: int): int
    requires y != 0
  {
    x - y * Quotient(x, y)
  }

  /** The quotient of the least signed number and -1 is not a signed number. */
  predicate Overflows(x: nat, y: nat) { AsSigned(x) == -0x8000_0000_0000_0000 && AsSigned(y) == -1 }

  function Times(x: nat, y: nat): nat { U64(x * y) }

  function ShiftRight(x: nat, n: nat): nat { if n == 0 then x else ShiftRight(x / 2, n - 1) }

  predicate IsBinary(atom: nat) {
    atom == AND || atom == DIV || MINUS <= atom <= MUL || atom == OR || atom == PLUS || SHL <= atom <= XOR
      || EQ <= atom <= NE
  }

  /** y is the top of the stack, x is under it. None where the result is not defined. */
  function Binary(atom: nat, x: nat, y: nat): Option<nat>
    requires IsBinary(atom)
  {
    if atom == AND then Some(BitAnd(x, y))
    else if atom == OR then Some(U64(x + y - BitAnd(x, y)))
    else if atom == XOR then Some(U64(x + y - 2 * BitAnd(x, y)))
    else if atom == DIV then
      if AsSigned(y) == 0 || Overflows(x, y) then None else Some(U64(Quotient(AsSigned(x), AsSigned(y))))
    else if atom == MOD then
      if AsSigned(y) == 0 || Overflows(x, y) then None else Some(U64(Remainder(AsSigned(x), AsSigned(y))))
    else if atom == MINUS then Some(U64(x - y))
    else if atom == MUL then Some(Times(x, y))
    else if atom == PLUS then Some(U64(x + y))
    else if atom == SHL then if y >= 64 then None else Some(Times(x, Power2(y)))
    else if atom == SHR || atom == SHRA then if y >= 64 then None else Some(ShiftRight(x, y))
    else if atom == EQ then Some(Truth(AsSigned(x) == AsSigned(y)))
    else if atom == GE then Some(Truth(AsSigned(x) >= AsSigned(y)))
    else if atom == GT then Some(Truth(AsSigned(x) > AsSigned(y)))
    else if atom == LE then Some(Truth(AsSigned(x) <= AsSigned(y)))
    else if atom == LT then Some(Truth(AsSigned(x) < AsSigned(y)))
    else Some(Truth(AsSigned(x) != AsSigned(y)))
  }

  predicate IsUnary(atom: nat) { atom == ABS || atom == NEG || atom == NOT || atom == PLUS_UCONST }

  function Unary(op: Op, x: nat): nat
    requires IsUnary(op.atom)
  {
    if op.atom == ABS then U64(if AsSigned(x) < 0 then -AsSigned(x) else AsSigned(x))
    else if op.atom == NEG then U64(0 - x)
    else if op.atom == NOT then U64(0 - x - 1)
    else U64(x + op.n1)
  }

  /** One operation. None if it is not supported, or the stack is too short for it. */
  function Step(env: Env, op: Op, m: Machine, extraZero: bool): Option<Machine> {
    var a, s := op.atom, m.stack;
    if a == ADDR || CONST1U <= a <= CONSTS then Some(Push(m, U64(op.n1)))
    else if LIT0 <= a <= LIT0 + 31 then Some(PushOnto(m, a - LIT0, extraZero))
    else if IsBreg(op) then Some(PushOnto(m, U64(env.regs(a - BREG0) + op.n1), extraZero))
    else if a == BREGX then Some(PushOnto(m, U64(env.regs(op.n1) + op.n2), extraZero))
    else if a == FBREG then Some(m.(stack := [U64(env.frameBase + op.n1)] + s))
    else if a == CALL_FRAME_CFA then Some(m.(stack := [U64(env.frameBase)] + s))
    else if a == DUP then if |s| < 1 then None else Some(Push(m, s[0]))
    else if a == OVER then if |s| < 2 then None else Some(Push(m, s[1]))
    else if a == PICK then if |s| <= op.n1 then None else Some(Push(m, s[op.n1]))
    else if a == DROP then if |s| < 1 then None else Some(Machine(s[1..], ADDRESS))
    else if a == SWAP then if |s| < 2 then None else Some(m.(stack := [s[1], s[0]] + s[2..]))
    else if a == ROT then if |s| < 3 then None else Some(m.(stack := [s[1], s[2], s[0]] + s[3..]))
    else if IsUnary(a) then if |s| < 1 then None else Some(m.(stack := [Unary(op, s[0])] + s[1..]))
    else if IsBinary(a) then
      if |s| < 2 then None
      else
        var x := Binary(a, s[1], s[0]);
        if x.None? then None else Some(Machine([x.value] + s[2..], ADDRESS))
    else if REG0 <= a <= REG0 + 31 || a == REGX then Some(m.(tos := NAMED_REGISTER))
    else if a == STACK_VALUE then Some(m.(tos := VALUE))
    else if a == IMPLICIT || a == GNU_IMPLICIT then Some(m.(tos := IMPLICIT_POINTER(op.n1, AsSigned(op.n2))))
    else if a == NOP then Some(m)
    else None
  }

  /** Evaluates up to the end, or to the end of the first piece. */
  function Eval(env: Env, ops: seq<Op>, m: Machine, extraZero: bool): Option<Machine> {
    if ops == [] || ops[0].atom == PIECE then Some(m)
    else
      var n := Step(env, ops[0], m, extraZero);
      if n.None? then None else Eval(env, ops[1..], n.value, extraZero)
  }

  /** An expression for the addresses from lopc up to but not including hipc. */
  datatype LocExpr = LocExpr(lopc: nat, hipc: nat, ops: seq<Op>)

  const MAX_ADDR := 0xffff_ffff_ffff_ffff

  predicate IsSelection(lopc: nat) { lopc == 0xffff_ffff || lopc == MAX_ADDR }

  predicate In(e: LocExpr, a: nat) { e.lopc <= a < e.hipc }

  /** The expression an address selects. An entry with a special first address sets the base for those
      after it; one for all addresses has bounds of zero and the largest address, or of zero twice. */
  function SelectFrom(l: seq<LocExpr>, a: nat, base: nat): Option<seq<Op>> {
    if l == [] then None
    else if IsSelection(l[0].lopc) then SelectFrom(l[1..], a, l[0].hipc)
    else if (l[0].lopc == 0 && (l[0].hipc == MAX_ADDR || l[0].hipc == 0))
            || U64(l[0].lopc + base) <= a < U64(l[0].hipc + base) then
      Some(l[0].ops)
    else SelectFrom(l[1..], a, base)
  }

  /** Evaluates the expression for an address; none if there is none. */
  function EvalList(env: Env, l: seq<LocExpr>, a: nat, m: Machine, extraZero: bool): Option<Machine> {
    var ops := SelectFrom(l, a, 0);
    if ops.None? then None else Eval(env, ops.value, m, extraZero)
  }

  /** Evaluation selects the first entry that has the address. */
  method EvaluateList(env: Env, l: seq<LocExpr>, a: nat, initial: Machine) returns (r: Option<Machine>)
    ensures r == EvalList(env, l, a, initial, true)
  {
    var base, k := 0, 0;
    while k < |l|
      invariant 0 <= k <= |l| && SelectFrom(l, a, 0) == SelectFrom(l[k..], a, base)
    {
      assert l[k..][1..] == l[k + 1..];
      if IsSelection(l[k].lopc) {
        base := l[k].hipc;
      } else if (l[k].lopc == 0 && l[k].hipc == MAX_ADDR) || (l[k].lopc == 0 && l[k].hipc == 0)
                || U64(l[k].lopc + base) <= a < U64(l[k].hipc + base) {
        r := Evaluate(env, l[k].ops, initial);
        return;
      }
      k := k + 1;
    }
    r := None;
  }

  method Evaluate(env: Env, ops: seq<Op>, initial: Machine) returns (r: Option<Machine>)
    ensures r == Eval(env, ops, initial, true)
  {
    var evaluator := new Evaluator(env, ops, initial);
    assert ops[0..] == ops;
    var ok := evaluator.Run();
    r := if ok then Some(evaluator.m) else None;
  }

  /** How many operations come before the first piece. */
  function PieceAt(ops: seq<Op>): (k: nat)
    ensures k <= |ops| && (k < |ops| ==> ops[k].atom == PIECE)
  {
    if ops == [] || ops[0].atom == PIECE then 0 else 1 + PieceAt(ops[1..])
  }

  class Evaluator {
    const env: Env
    const expr: seq<Op>
    var i: nat
    var m: Machine

    constructor (env: Env, expr: seq<Op>, initial: Machine)
      ensures this.env == env && this.expr == expr && i == 0 && m == initial
    {
      this.env, this.expr, i, m := env, expr, 0, initial;
    }

    /** Evaluates up to the end or past the next piece; when it has stopped at a piece, from one operation
        after that and with an empty stack. */
    method Run() returns (ok: bool)
      requires i <= |expr|
      modifies this
      ensures i <= |expr|
      ensures var resumed := 0 < old(i) < |expr|;
              var from := if resumed then old(i) + 1 else old(i);
              var start := if resumed then old(m).(stack := []) else old(m);
              var end := from + PieceAt(expr[from..]);
              && Eval(env, expr[from..], start, true) == (if ok then Some(m) else None)
              && (ok ==> i == if end < |expr| then end + 1 else end)
    {
      hide Step;
      if i != |expr| && i != 0 {
        i := i + 1;
        m := m.(stack := []);
      }
      ghost var from, start := i, m;
      while i < |expr|
        invariant from <= i <= |expr|
        invariant Eval(env, expr[from..], start, true) == Eval(env, expr[i..], m, true)
        invariant from + PieceAt(expr[from..]) == i + PieceAt(expr[i..])
      {
        assert expr[i..][1..] == expr[i + 1..];
        if expr[i].atom == PIECE {
          i := i + 1;
          return true;
        }
        var n := Step(env, expr[i], m, true);
        if n.None? {
          return false;
        }
        m := n.value;
        i := i + 1;
      }
      return true;
    }
  }
}
