/** What each operation of a location expression computes, by its opcode, in arithmetic of its own; and which
    entry of a list an address selects. */
module LocArithmetic {
  import opened Wrappers
  import opened Leb128
  import opened LocEval
  import CfaRewrite
  import LocStacks

  /** One operation on a stack. */
  function On(env: Env, atom: nat, n1: nat, n2: nat, m: Machine, z: bool): Option<Machine> {
    Eval(env, [Op(atom, n1, n2)], m, z)
  }

  const WORD := 0x1_0000_0000_0000_0000

  predicate IsWord(x: nat) { x < WORD }

  function Signed(x: nat): int { if x < 0x8000_0000_0000_0000 then x else x - WORD }

  /** The k-th bit. */
  predicate Bit(x: nat, k: nat) { if k == 0 then x % 2 == 1 else Bit(x / 2, k - 1) }

  /** The stack after the two on top are replaced by v. */
  predicate Leaves(r: Option<Machine>, v: nat, s: seq<nat>) { r == Some(Machine([v] + s, ADDRESS)) }

  lemma OnIs(env: Env, atom: nat, n1: nat, n2: nat, m: Machine, z: bool)
    requires atom != PIECE
    ensures On(env, atom, n1, n2, m, z) == Step(env, Op(atom, n1, n2), m, z)
  {
    CfaRewrite.EvalOne(env, Op(atom, n1, n2), m, z);
  }

  lemma BinaryOn(env: Env, atom: nat, x: nat, y: nat, s: seq<nat>, tos: TosState, z: bool)
    requires IsBinary(atom)
    ensures var b := Binary(atom, x, y);
            On(env, atom, 0, 0, Machine([y, x] + s, tos), z)
            == if b.None? then None else Some(Machine([b.value] + s, ADDRESS))
  {
    hide Binary;
    OnIs(env, atom, 0, 0, Machine([y, x] + s, tos), z);
    assert ([y, x] + s)[2..] == s;
  }

  // ---- Sums, differences and products ----

  /** plus, minus and mul, modulo 2^64. */
  lemma SumsAndProducts(env: Env, x: nat, y: nat, s: seq<nat>, tos: TosState, z: bool)
    returns (sum: nat, difference: nat, product: nat)
    requires IsWord(x) && IsWord(y)
    ensures Leaves(On(env, 0x22, 0, 0, Machine([y, x] + s, tos), z), sum, s) && sum == (x + y) % WORD
    ensures Leaves(On(env, 0x1c, 0, 0, Machine([y, x] + s, tos), z), difference, s)
    ensures IsWord(difference) && (difference + y) % WORD == x
    ensures Leaves(On(env, 0x1e, 0, 0, Machine([y, x] + s, tos), z), product, s) && product == (x * y) % WORD
  {
    hide Binary, On;
    BinaryOn(env, 0x22, x, y, s, tos, z);
    BinaryOn(env, 0x1c, x, y, s, tos, z);
    BinaryOn(env, 0x1e, x, y, s, tos, z);
    sum, difference, product := SumResults(x, y);
  }

  lemma SumResults(x: nat, y: nat) returns (sum: nat, difference: nat, product: nat)
    requires IsWord(x) && IsWord(y)
    ensures Binary(0x22, x, y) == Some(sum) && sum == (x + y) % WORD
    ensures Binary(0x1c, x, y) == Some(difference) && IsWord(difference) && (difference + y) % WORD == x
    ensures Binary(0x1e, x, y) == Some(product) && product == (x * y) % WORD
  {
    sum, difference, product := (x + y) % WORD, if x < y then x - y + WORD else x - y, Times(x, y);
    SumBinaries(x, y);
    hide Binary;
    Borrow(x, y);
  }

  lemma SumBinaries(x: nat, y: nat)
    ensures Binary(0x22, x, y) == Some(U64(x + y)) && Binary(0x1c, x, y) == Some(U64(x - y))
    ensures Binary(0x1e, x, y) == Some(Times(x, y))
  {
    hide U64, Times;
  }

  lemma Borrow(x: nat, y: nat)
    requires IsWord(x) && IsWord(y)
    ensures U64(x - y) == if x < y then x - y + WORD else x - y
  {
  }

  // ---- Division ----

  /** div and mod are of signed numbers: the quotient is rounded towards zero, so that the remainder has the sign of
      the dividend. There is none for a divisor of zero, nor for the least number and -1. */
  lemma Divisions(env: Env, x: nat, y: nat, s: seq<nat>, tos: TosState, z: bool)
    returns (quotient: int, remainder: int)
    requires IsWord(x) && IsWord(y)
    ensures y == 0 || (x == 0x8000_0000_0000_0000 && y == WORD - 1) ==>
              && On(env, 0x1b, 0, 0, Machine([y, x] + s, tos), z).None?
              && On(env, 0x1d, 0, 0, Machine([y, x] + s, tos), z).None?
    ensures y != 0 && !(x == 0x8000_0000_0000_0000 && y == WORD - 1) ==>
              && Leaves(On(env, 0x1b, 0, 0, Machine([y, x] + s, tos), z), quotient % WORD, s)
              && Leaves(On(env, 0x1d, 0, 0, Machine([y, x] + s, tos), z), remainder % WORD, s)
              && Signed(x) == quotient * Signed(y) + remainder
              && Size(remainder) < Size(Signed(y))
              && (remainder == 0 || (remainder < 0 <==> Signed(x) < 0))
  {
    BinaryOn(env, 0x1b, x, y, s, tos, z);
    BinaryOn(env, 0x1d, x, y, s, tos, z);
    assert AsSigned(x) == Signed(x) && AsSigned(y) == Signed(y);
    quotient, remainder := 0, 0;
    if y != 0 {
      quotient, remainder := Quotient(Signed(x), Signed(y)), Remainder(Signed(x), Signed(y));
      hide Binary;
      QuotientRemainder(Signed(x), Signed(y));
    }
  }

  function Size(x: int): nat { if x < 0 then -x else x }

  lemma QuotientRemainder(x: int, y: int)
    requires y != 0
    ensures x == Quotient(x, y) * y + Remainder(x, y) && Size(Remainder(x, y)) < Size(y)
    ensures Remainder(x, y) == 0 || (Remainder(x, y) < 0 <==> x < 0)
  {
    var q, r := Size(x) / Size(y), Size(x) % Size(y);
    assert Size(x) == q * Size(y) + r;
    Signs(q, Size(y));
  }

  lemma Signs(q: int, d: int)
    ensures (-q) * (-d) == q * d && (-q) * d == -(q * d) && q * (-d) == -(q * d)
  {
  }

  // ---- Bits ----

  /** and, or and xor, bit by bit. */
  lemma BitOperations(env: Env, x: nat, y: nat, s: seq<nat>, tos: TosState, z: bool)
    returns (conjunction: nat, disjunction: nat, difference: nat)
    requires IsWord(x) && IsWord(y)
    ensures Leaves(On(env, 0x1a, 0, 0, Machine([y, x] + s, tos), z), conjunction, s) && IsWord(conjunction)
    ensures Leaves(On(env, 0x21, 0, 0, Machine([y, x] + s, tos), z), disjunction, s) && IsWord(disjunction)
    ensures Leaves(On(env, 0x27, 0, 0, Machine([y, x] + s, tos), z), difference, s) && IsWord(difference)
    ensures forall k: nat :: Bit(conjunction, k) <==> Bit(x, k) && Bit(y, k)
    ensures forall k: nat :: Bit(disjunction, k) <==> Bit(x, k) || Bit(y, k)
    ensures forall k: nat :: Bit(difference, k) <==> Bit(x, k) != Bit(y, k)
  {
    hide Binary, BitAnd, Bit;
    BinaryOn(env, 0x1a, x, y, s, tos, z);
    BinaryOn(env, 0x21, x, y, s, tos, z);
    BinaryOn(env, 0x27, x, y, s, tos, z);
    BitResults(x, y);
    conjunction, disjunction, difference := BitAnd(x, y), x + y - BitAnd(x, y), x + y - 2 * BitAnd(x, y);
    hide On, Leaves;
    forall k: nat
      ensures Bit(conjunction, k) <==> Bit(x, k) && Bit(y, k)
      ensures Bit(disjunction, k) <==> Bit(x, k) || Bit(y, k)
      ensures Bit(difference, k) <==> Bit(x, k) != Bit(y, k)
    {
      BitByBit(x, y, k);
    }
  }

  lemma BitResults(x: nat, y: nat)
    requires IsWord(x) && IsWord(y)
    ensures var c := BitAnd(x, y);
            && c <= x && c <= y && x + y - c < WORD && Binary(0x1a, x, y) == Some(c)
            && Binary(0x21, x, y) == Some(x + y - c) && Binary(0x27, x, y) == Some(x + y - 2 * c)
  {
    hide BitAnd, Power2, Binary;
    PowerOf64();
    BitsBelow(x, y, 64);
    BitBinaries(x, y);
    WordStays(x + y - BitAnd(x, y));
    WordStays(x + y - 2 * BitAnd(x, y));
  }

  lemma BitBinaries(x: nat, y: nat)
    ensures var c := BitAnd(x, y);
            && Binary(0x1a, x, y) == Some(c) && Binary(0x21, x, y) == Some(U64(x + y - c))
            && Binary(0x27, x, y) == Some(U64(x + y - 2 * c))
  {
    hide BitAnd, U64;
  }

  lemma WordStays(x: nat)
    requires IsWord(x)
    ensures U64(x) == x
  {
  }

  lemma PowerOf64()
    ensures Power2(64) == 0x1_0000_0000_0000_0000
  {
    hide Power2;
    ScaleUp(0);
  }

  lemma {:induction false} BitsBelow(x: nat, y: nat, n: nat)
    requires x < Power2(n) && y < Power2(n)
    ensures BitAnd(x, y) <= x && BitAnd(x, y) <= y && x + y - BitAnd(x, y) < Power2(n)
  {
    hide BitAnd;
    AndDigits(x, y);
    AndAtMost(x, y);
    if n > 0 { BitsBelow(x / 2, y / 2, n - 1); } else { AndAtMost(0, 0); }
  }

  lemma {:induction false} BitByBit(x: nat, y: nat, k: nat)
    ensures BitAnd(x, y) <= x && BitAnd(x, y) <= y
    ensures Bit(BitAnd(x, y), k) <==> Bit(x, k) && Bit(y, k)
    ensures Bit(x + y - BitAnd(x, y), k) <==> Bit(x, k) || Bit(y, k)
    ensures Bit(x + y - 2 * BitAnd(x, y), k) <==> Bit(x, k) != Bit(y, k)
    decreases k
  {
    AndAtMost(x, y);
    LowAndHigh(x, y);
    if k > 0 { BitByBit(x / 2, y / 2, k - 1); }
  }

  lemma {:induction false} AndAtMost(x: nat, y: nat)
    ensures BitAnd(x, y) <= x && BitAnd(x, y) <= y
  {
    if x != 0 && y != 0 { AndAtMost(x / 2, y / 2); }
  }

  function Both(x: nat, y: nat): nat { if x % 2 == 1 && y % 2 == 1 then 1 else 0 }

  /** The lowest bits, and the others. */
  lemma LowAndHigh(x: nat, y: nat)
    requires BitAnd(x, y) <= x && BitAnd(x, y) <= y
    ensures var a, b, c, n, h := x % 2, y % 2, Both(x, y), BitAnd(x, y), BitAnd(x / 2, y / 2);
            && h <= x / 2 && h <= y / 2 && n % 2 == c && n / 2 == h
            && (x + y - n) % 2 == a + b - c && (x + y - n) / 2 == x / 2 + y / 2 - h
            && (x + y - 2 * n) % 2 == a + b - 2 * c && (x + y - 2 * n) / 2 == x / 2 + y / 2 - 2 * h
  {
    hide BitAnd, Both;
    AndAtMost(x / 2, y / 2);
    AndDigits(x, y);
    BothIs(x, y);
    SumDigits(x, y, BitAnd(x, y), x % 2, y % 2, Both(x, y), BitAnd(x / 2, y / 2));
  }

  lemma BothIs(x: nat, y: nat)
    ensures Both(x, y) == if x % 2 == 1 && y % 2 == 1 then 1 else 0
  {
  }

  lemma AndDigits(x: nat, y: nat)
    ensures BitAnd(x, y) == Both(x, y) + 2 * BitAnd(x / 2, y / 2)
  {
    if x != 0 && y != 0 {
      var h := BitAnd(x / 2, y / 2);
      assert BitAnd(x, y) == (x % 2) * (y % 2) + 2 * h;
      hide BitAnd;
      BitProduct(x % 2, y % 2);
    }
  }

  lemma BitProduct(a: nat, b: nat)
    requires a < 2 && b < 2
    ensures a * b == if a == 1 && b == 1 then 1 else 0
  {
    if a == 0 { assert a * b == 0; } else { assert a * b == b; }
  }

  lemma SumDigits(x: nat, y: nat, n: nat, a: nat, b: nat, c: nat, h: nat)
    requires a == x % 2 && b == y % 2 && n == c + 2 * h && c == if a == 1 && b == 1 then 1 else 0
    ensures n % 2 == c && n / 2 == h
    ensures (x + y - n) % 2 == a + b - c && (x + y - n) / 2 == x / 2 + y / 2 - h
    ensures (x + y - 2 * n) % 2 == a + b - 2 * c && (x + y - 2 * n) / 2 == x / 2 + y / 2 - 2 * h
  {
    Digits(n, c, h);
    Digits(x + y - n, a + b - c, x / 2 + y / 2 - h);
    Digits(x + y - 2 * n, a + b - 2 * c, x / 2 + y / 2 - 2 * h);
  }

  lemma Digits(v: int, low: int, high: int)
    requires v == low + 2 * high && 0 <= low < 2
    ensures v % 2 == low && v / 2 == high
  {
  }

  // ---- Shifts ----

  /** shl multiplies and shr divides by a power of two; shra does so too, without regard to the sign. There is no
      shift by 64 or more. */
  lemma Shifts(env: Env, x: nat, y: nat, s: seq<nat>, tos: TosState, z: bool) returns (multiple: nat, part: nat)
    requires IsWord(x) && IsWord(y)
    ensures y < 64 ==>
              && Leaves(On(env, 0x24, 0, 0, Machine([y, x] + s, tos), z), multiple, s)
              && Leaves(On(env, 0x25, 0, 0, Machine([y, x] + s, tos), z), part, s)
              && Leaves(On(env, 0x26, 0, 0, Machine([y, x] + s, tos), z), part, s)
    ensures multiple == x * Power2(y) % WORD && part == x / Power2(y)
    ensures y >= 64 ==>
              && On(env, 0x24, 0, 0, Machine([y, x] + s, tos), z).None?
              && On(env, 0x25, 0, 0, Machine([y, x] + s, tos), z).None?
              && On(env, 0x26, 0, 0, Machine([y, x] + s, tos), z).None?
  {
    ShiftResults(x, y);
    hide Power2, ShiftRight, Binary, On, Times;
    BinaryOn(env, 0x24, x, y, s, tos, z);
    BinaryOn(env, 0x25, x, y, s, tos, z);
    BinaryOn(env, 0x26, x, y, s, tos, z);
    multiple, part := Times(x, Power2(y)), ShiftRight(x, y);
    LocStacks.ShiftDivides(x, y);
  }

  lemma ShiftResults(x: nat, y: nat)
    ensures y < 64 ==>
              && Binary(0x24, x, y) == Some(Times(x, Power2(y))) && Binary(0x25, x, y) == Some(ShiftRight(x, y))
              && Binary(0x26, x, y) == Some(ShiftRight(x, y))
    ensures y >= 64 ==> Binary(0x24, x, y).None? && Binary(0x25, x, y).None? && Binary(0x26, x, y).None?
    ensures Times(x, Power2(y)) == x * Power2(y) % WORD
  {
    hide Power2, ShiftRight;
  }

  // ---- Comparisons ----

  function OneIf(b: bool): nat { if b then 1 else 0 }

  /** Comparisons are of signed numbers, the one on top on the right. */
  lemma Comparisons(env: Env, x: nat, y: nat, s: seq<nat>, tos: TosState, z: bool)
    requires IsWord(x) && IsWord(y)
    ensures Leaves(On(env, 0x29, 0, 0, Machine([y, x] + s, tos), z), OneIf(x == y), s)
    ensures Leaves(On(env, 0x2a, 0, 0, Machine([y, x] + s, tos), z), OneIf(Signed(x) >= Signed(y)), s)
    ensures Leaves(On(env, 0x2b, 0, 0, Machine([y, x] + s, tos), z), OneIf(Signed(x) > Signed(y)), s)
    ensures Leaves(On(env, 0x2c, 0, 0, Machine([y, x] + s, tos), z), OneIf(Signed(x) <= Signed(y)), s)
    ensures Leaves(On(env, 0x2d, 0, 0, Machine([y, x] + s, tos), z), OneIf(Signed(x) < Signed(y)), s)
    ensures Leaves(On(env, 0x2e, 0, 0, Machine([y, x] + s, tos), z), OneIf(x != y), s)
  {
    hide On;
    BinaryOn(env, 0x29, x, y, s, tos, z);
    BinaryOn(env, 0x2a, x, y, s, tos, z);
    BinaryOn(env, 0x2b, x, y, s, tos, z);
    BinaryOn(env, 0x2c, x, y, s, tos, z);
    BinaryOn(env, 0x2d, x, y, s, tos, z);
    BinaryOn(env, 0x2e, x, y, s, tos, z);
  }

  // ---- One operand ----

  lemma UnaryOn(env: Env, atom: nat, n: nat, x: nat, s: seq<nat>, tos: TosState, z: bool)
    requires IsUnary(atom)
    ensures On(env, atom, n, 0, Machine([x] + s, tos), z) == Some(Machine([Unary(Op(atom, n, 0), x)] + s, tos))
  {
    hide Unary;
    OnIs(env, atom, n, 0, Machine([x] + s, tos), z);
    assert ([x] + s)[1..] == s;
  }

  /** abs is of a signed number and neg is modulo 2^64; not inverts each bit; plus_uconst adds its operand. The state
      stays. */
  lemma OneOperand(env: Env, n: nat, x: nat, s: seq<nat>, tos: TosState, z: bool)
    returns (negated: nat, inverted: nat)
    requires IsWord(x)
    ensures On(env, 0x19, 0, 0, Machine([x] + s, tos), z) == Some(Machine([Size(Signed(x))] + s, tos))
    ensures On(env, 0x1f, 0, 0, Machine([x] + s, tos), z) == Some(Machine([negated] + s, tos))
    ensures IsWord(negated) && (negated + x) % WORD == 0
    ensures On(env, 0x20, 0, 0, Machine([x] + s, tos), z) == Some(Machine([inverted] + s, tos))
    ensures IsWord(inverted) && forall k: nat :: k < 64 ==> (Bit(inverted, k) <==> !Bit(x, k))
    ensures On(env, 0x23, n, 0, Machine([x] + s, tos), z) == Some(Machine([(x + n) % WORD] + s, tos))
  {
    hide On;
    UnaryOn(env, 0x19, 0, x, s, tos, z);
    UnaryOn(env, 0x1f, 0, x, s, tos, z);
    UnaryOn(env, 0x20, 0, x, s, tos, z);
    UnaryOn(env, 0x23, n, x, s, tos, z);
    UnaryResults(x, n);
    hide Bit, Unary;
    negated, inverted := if x == 0 then 0 else WORD - x, WORD - 1 - x;
    PowerOf64();
    forall k: nat | k < 64 ensures Bit(inverted, k) <==> !Bit(x, k) { Inverted(x, 64, k); }
  }

  lemma UnaryResults(x: nat, n: nat)
    requires IsWord(x)
    ensures Unary(Op(0x19, 0, 0), x) == Size(Signed(x))
    ensures Unary(Op(0x1f, 0, 0), x) == if x == 0 then 0 else WORD - x
    ensures Unary(Op(0x20, 0, 0), x) == WORD - 1 - x
    ensures Unary(Op(0x23, n, 0), x) == (x + n) % WORD
  {
  }

  lemma {:induction false} Inverted(x: nat, n: nat, k: nat)
    requires x < Power2(n) && k < n
    ensures Bit(Power2(n) - 1 - x, k) <==> !Bit(x, k)
  {
    var p := Power2(n - 1);
    var v := 2 * p - 1 - x;
    assert Power2(n) == 2 * p;
    Digits(v, 1 - x % 2, p - 1 - x / 2);
    if k > 0 { Inverted(x / 2, n - 1, k - 1); }
  }

  // ---- The stack ----

  /** The operations that move or copy values. a is on top. */
  lemma Moves(env: Env, a: nat, b: nat, c: nat, s: seq<nat>, tos: TosState, z: bool)
    ensures On(env, 0x12, 0, 0, Machine([a] + s, tos), z) == Some(Machine([a, a] + s, ADDRESS))
    ensures On(env, 0x13, 0, 0, Machine([a] + s, tos), z) == Some(Machine(s, ADDRESS))
    ensures On(env, 0x14, 0, 0, Machine([a, b] + s, tos), z) == Some(Machine([b, a, b] + s, ADDRESS))
    ensures On(env, 0x16, 0, 0, Machine([a, b] + s, tos), z) == Some(Machine([b, a] + s, tos))
    ensures On(env, 0x17, 0, 0, Machine([a, b, c] + s, tos), z) == Some(Machine([b, c, a] + s, tos))
  {
    hide On, Binary, Unary;
    OnIs(env, 0x12, 0, 0, Machine([a] + s, tos), z);
    OnIs(env, 0x13, 0, 0, Machine([a] + s, tos), z);
    OnIs(env, 0x14, 0, 0, Machine([a, b] + s, tos), z);
    OnIs(env, 0x16, 0, 0, Machine([a, b] + s, tos), z);
    OnIs(env, 0x17, 0, 0, Machine([a, b, c] + s, tos), z);
    assert [a] + ([a] + s) == [a, a] + s && ([a] + s)[1..] == s && [b] + ([a, b] + s) == [b, a, b] + s;
    assert ([a, b] + s)[2..] == s && ([a, b, c] + s)[3..] == s;
  }

  /** pick copies the value that many places under the top. */
  lemma Picks(env: Env, n: nat, s: seq<nat>, tos: TosState, z: bool)
    ensures On(env, 0x15, n, 0, Machine(s, tos), z) == if n < |s| then Some(Machine([s[n]] + s, ADDRESS)) else None
  {
    OnIs(env, 0x15, n, 0, Machine(s, tos), z);
  }

  /** The zero under a value, as coded. */
  function Pushed(x: nat, s: seq<nat>, z: bool): Option<Machine> {
    Some(Machine([x] + (if z then [0] + s else s), ADDRESS))
  }

  /** Constants and addresses. */
  lemma PushesConstants(env: Env, atom: nat, n: nat, s: seq<nat>, tos: TosState, z: bool)
    requires atom == 0x03 || 0x08 <= atom <= 0x11
    ensures On(env, atom, n, 0, Machine(s, tos), z) == Some(Machine([n % WORD] + s, ADDRESS))
  {
    OnIs(env, atom, n, 0, Machine(s, tos), z);
  }

  /** Literals, registers and the frame base. The latter two do not set the state. */
  lemma PushesValues(env: Env, k: nat, n: nat, s: seq<nat>, tos: TosState, z: bool)
    ensures k < 32 ==>
              && On(env, 0x30 + k, 0, 0, Machine(s, tos), z) == Pushed(k, s, z)
              && On(env, 0x70 + k, n, 0, Machine(s, tos), z) == Pushed((env.regs(k) + n) % WORD, s, z)
    ensures On(env, 0x92, k, n, Machine(s, tos), z) == Pushed((env.regs(k) + n) % WORD, s, z)
    ensures On(env, 0x91, n, 0, Machine(s, tos), z) == Some(Machine([(env.frameBase + n) % WORD] + s, tos))
    ensures On(env, 0x9c, 0, 0, Machine(s, tos), z) == Some(Machine([env.frameBase % WORD] + s, tos))
  {
    hide On, Binary, Unary;
    if k < 32 {
      OnIs(env, 0x30 + k, 0, 0, Machine(s, tos), z);
      OnIs(env, 0x70 + k, n, 0, Machine(s, tos), z);
    }
    OnIs(env, 0x92, k, n, Machine(s, tos), z);
    OnIs(env, 0x91, n, 0, Machine(s, tos), z);
    OnIs(env, 0x9c, 0, 0, Machine(s, tos), z);
  }

  /** What is not on the stack: a register by name, the value itself, or an implicit pointer. */
  lemma SetsOnlyState(env: Env, k: nat, n: nat, s: seq<nat>, tos: TosState, z: bool)
    requires IsWord(n)
    ensures k < 32 ==> On(env, 0x50 + k, 0, 0, Machine(s, tos), z) == Some(Machine(s, NAMED_REGISTER))
    ensures On(env, 0x90, k, 0, Machine(s, tos), z) == Some(Machine(s, NAMED_REGISTER))
    ensures On(env, 0x9f, 0, 0, Machine(s, tos), z) == Some(Machine(s, VALUE))
    ensures On(env, 0xa0, k, n, Machine(s, tos), z) == Some(Machine(s, IMPLICIT_POINTER(k, Signed(n))))
    ensures On(env, 0xf2, k, n, Machine(s, tos), z) == Some(Machine(s, IMPLICIT_POINTER(k, Signed(n))))
    ensures On(env, 0x96, 0, 0, Machine(s, tos), z) == Some(Machine(s, tos))
  {
    hide On, Binary, Unary;
    if k < 32 { OnIs(env, 0x50 + k, 0, 0, Machine(s, tos), z); }
    OnIs(env, 0x90, k, 0, Machine(s, tos), z);
    OnIs(env, 0x9f, 0, 0, Machine(s, tos), z);
    OnIs(env, 0xa0, k, n, Machine(s, tos), z);
    OnIs(env, 0xf2, k, n, Machine(s, tos), z);
    OnIs(env, 0x96, 0, 0, Machine(s, tos), z);
  }

  /** How many values an operation needs. */
  function Takes(atom: nat): nat {
    if atom == 0x17 then 3
    else if 0x1a <= atom <= 0x1e || atom == 0x21 || atom == 0x22 || 0x24 <= atom <= 0x27 || 0x29 <= atom <= 0x2e then 2
    else if atom == 0x14 || atom == 0x16 then 2
    else if atom == 0x12 || atom == 0x13 || atom == 0x19 || atom == 0x1f || atom == 0x20 || atom == 0x23 then 1
    else 0
  }

  /** Operations on memory, branches, calls and anything unknown have no result, nor has an operation on too few
      values. */
  lemma NoResult(env: Env, atom: nat, n1: nat, n2: nat, m: Machine, z: bool)
    requires || |m.stack| < Takes(atom) || atom < 0x03 || 0x04 <= atom <= 0x07 || atom == 0x18 || atom == 0x28
             || atom == 0x2f || 0x94 <= atom <= 0x95 || 0x97 <= atom <= 0x9b || 0x9d <= atom <= 0x9e
             || 0xa1 <= atom <= 0xf1 || atom >= 0xf3
    ensures On(env, atom, n1, n2, m, z).None?
  {
    hide On, Binary, Unary;
    OnIs(env, atom, n1, n2, m, z);
  }

  // ---- Expressions ----

  /** An expression is evaluated one operation after the other, up to the first piece. */
  lemma InOrder(env: Env, ops: seq<Op>, m: Machine, z: bool)
    ensures Eval(env, [], m, z) == Some(m)
    ensures ops != [] && ops[0].atom == 0x93 ==> Eval(env, ops, m, z) == Some(m)
    ensures ops != [] && ops[0].atom != 0x93 ==>
              var n := On(env, ops[0].atom, ops[0].n1, ops[0].n2, m, z);
              Eval(env, ops, m, z) == if n.None? then None else Eval(env, ops[1..], n.value, z)
  {
    hide Step;
    if ops != [] && ops[0].atom != 0x93 { OnIs(env, ops[0].atom, ops[0].n1, ops[0].n2, m, z); }
  }

  // ---- The entry that an address selects ----

  predicate SelectsBase(e: LocExpr) { e.lopc == 0xffff_ffff || e.lopc == 0xffff_ffff_ffff_ffff }

  /** The base for the n-th entry: that of the last entry before it which selects one, or zero. */
  function BaseAt(l: seq<LocExpr>, n: nat): nat
    requires n <= |l|
  {
    if n == 0 then 0 else if SelectsBase(l[n - 1]) then l[n - 1].hipc else BaseAt(l, n - 1)
  }

  /** The n-th entry is for all addresses, or for one from its first to before its last, counted from the base. */
  predicate Covers(l: seq<LocExpr>, n: nat, a: nat)
    requires n < |l|
  {
    var e, base := l[n], BaseAt(l, n);
    !SelectsBase(e)
    && (|| (e.lopc == 0 && (e.hipc == 0 || e.hipc == 0xffff_ffff_ffff_ffff))
        || (e.lopc + base) % WORD <= a < (e.hipc + base) % WORD)
  }

  ghost predicate FirstFrom(l: seq<LocExpr>, k: nat, a: nat, n: nat) {
    k <= n < |l| && Covers(l, n, a) && forall j :: k <= j < n ==> !Covers(l, j, a)
  }

  lemma {:induction false} SelectedFrom(l: seq<LocExpr>, k: nat, a: nat) returns (n: nat)
    requires k <= |l|
    ensures var r := SelectFrom(l[k..], a, BaseAt(l, k));
            if n < |l| then FirstFrom(l, k, a, n) && r == Some(l[n].ops)
            else r.None? && forall j :: k <= j < |l| ==> !Covers(l, j, a)
    decreases |l| - k
  {
    if k == |l| || Covers(l, k, a) {
      n := k;
    } else {
      assert l[k..][1..] == l[k + 1..];
      n := SelectedFrom(l, k + 1, a);
    }
  }

  /** Evaluating a list evaluates the first entry that covers the address, with its own base, or has no result. */
  lemma FirstThatCovers(env: Env, l: seq<LocExpr>, a: nat, m: Machine, z: bool) returns (n: nat)
    ensures if n < |l| then FirstFrom(l, 0, a, n) && EvalList(env, l, a, m, z) == Eval(env, l[n].ops, m, z)
            else EvalList(env, l, a, m, z).None? && forall j :: 0 <= j < |l| ==> !Covers(l, j, a)
  {
    hide Eval, SelectFrom, Covers;
    n := SelectedFrom(l, 0, a);
    assert l[0..] == l;
  }
}
