/** Call-frame instructions by name, with their bytes and their meaning as sections 6.4.2 and 7.23 of DWARF 4
    write them, and what the parser and the table make of them. */
module FrameMeaning {
  import opened Wrappers
  import opened Leb128
  import opened FrameInstrs
  import opened FrameTable

  /** Operands of fixed size are given as their bytes. */
  datatype Cfi =
    | AdvanceLoc(delta: nat) | SetLoc(addr: seq<Byte>) | AdvanceLoc1(step: Byte) | AdvanceLoc2(steps: seq<Byte>)
    | AdvanceLoc4(steps: seq<Byte>)
    | DefCfa(reg: nat, n: nat) | DefCfaSf(reg: nat, s: int) | DefCfaRegister(reg: nat) | DefCfaOffset(n: nat)
    | DefCfaOffsetSf(s: int) | DefCfaExpression(block: seq<Byte>)
    | UndefinedReg(reg: nat) | SameValueReg(reg: nat) | Offset(reg: nat, n: nat) | OffsetExtended(reg: nat, n: nat)
    | OffsetExtendedSf(reg: nat, s: int) | ValOffset(reg: nat, n: nat) | ValOffsetSf(reg: nat, s: int)
    | Register(reg: nat, n: nat) | Expression(reg: nat, block: seq<Byte>) | ValExpression(reg: nat, block: seq<Byte>)
    | Restore(reg: nat) | RestoreExtended(reg: nat) | RememberState | RestoreState | Nop | GnuArgsSize(n: nat)

  // ---- Bytes ----

  /** The operands of fixed size have that size. */
  predicate Fits(cfg: Config, i: Cfi) {
    match i
    case AdvanceLoc(delta) => delta < 64
    case SetLoc(addr) => |addr| == cfg.addrLen
    case AdvanceLoc2(steps) => |steps| == 2
    case AdvanceLoc4(steps) => |steps| == 4
    case Offset(reg, _) => reg < 64
    case Restore(reg) => reg < 64
    case _ => true
  }

  function Bytes(cfg: Config, i: Cfi): seq<Byte>
    requires Fits(cfg, i)
  {
    match i
    case AdvanceLoc(delta) => [0x40 + delta]
    case Offset(reg, n) => [0x80 + reg] + EncodeUleb(n)
    case Restore(reg) => [0xc0 + reg]
    case Nop => [0x00]
    case SetLoc(addr) => [0x01] + addr
    case AdvanceLoc1(step) => [0x02, step]
    case AdvanceLoc2(steps) => [0x03] + steps
    case AdvanceLoc4(steps) => [0x04] + steps
    case OffsetExtended(reg, n) => [0x05] + (EncodeUleb(reg) + EncodeUleb(n))
    case RestoreExtended(reg) => [0x06] + EncodeUleb(reg)
    case UndefinedReg(reg) => [0x07] + EncodeUleb(reg)
    case SameValueReg(reg) => [0x08] + EncodeUleb(reg)
    case Register(reg, n) => [0x09] + (EncodeUleb(reg) + EncodeUleb(n))
    case RememberState => [0x0a]
    case RestoreState => [0x0b]
    case DefCfa(reg, n) => [0x0c] + (EncodeUleb(reg) + EncodeUleb(n))
    case DefCfaRegister(reg) => [0x0d] + EncodeUleb(reg)
    case DefCfaOffset(n) => [0x0e] + EncodeUleb(n)
    case DefCfaExpression(block) => [0x0f] + (EncodeUleb(|block|) + block)
    case Expression(reg, block) => [0x10] + (EncodeUleb(reg) + (EncodeUleb(|block|) + block))
    case OffsetExtendedSf(reg, s) => [0x11] + (EncodeUleb(reg) + EncodeSleb(s))
    case DefCfaSf(reg, s) => [0x12] + (EncodeUleb(reg) + EncodeSleb(s))
    case DefCfaOffsetSf(s) => [0x13] + EncodeSleb(s)
    case ValOffset(reg, n) => [0x14] + (EncodeUleb(reg) + EncodeUleb(n))
    case ValOffsetSf(reg, s) => [0x15] + (EncodeUleb(reg) + EncodeSleb(s))
    case ValExpression(reg, block) => [0x16] + (EncodeUleb(reg) + (EncodeUleb(|block|) + block))
    case GnuArgsSize(n) => [0x2e] + EncodeUleb(n)
  }

  function AllBytes(cfg: Config, l: seq<Cfi>): seq<Byte>
    requires forall k :: 0 <= k < |l| ==> Fits(cfg, l[k])
  {
    if l == [] then [] else Bytes(cfg, l[0]) + AllBytes(cfg, l[1..])
  }

  function FourBytes(a: nat, b: nat, c: nat, d: nat): nat { a + 0x100 * b + 0x1_0000 * c + 0x100_0000 * d }

  /** A number of two, four or eight bytes, the first of which is the lowest or the highest. */
  function FixedNumber(bs: seq<Byte>, big: bool): nat
    requires |bs| == 2 || |bs| == 4 || |bs| == 8
  {
    if |bs| == 2 then if big then FourBytes(bs[1], bs[0], 0, 0) else FourBytes(bs[0], bs[1], 0, 0)
    else if |bs| == 4 then
      if big then FourBytes(bs[3], bs[2], bs[1], bs[0]) else FourBytes(bs[0], bs[1], bs[2], bs[3])
    else if big then
      FourBytes(bs[7], bs[6], bs[5], bs[4]) + 0x1_0000_0000 * FourBytes(bs[3], bs[2], bs[1], bs[0])
    else
      FourBytes(bs[0], bs[1], bs[2], bs[3]) + 0x1_0000_0000 * FourBytes(bs[4], bs[5], bs[6], bs[7])
  }

  /** The operands that the parser gets right. */
  predicate Clear(cfg: Config, i: Cfi)
    requires IsConfig(cfg)
  {
    var limit, a := Limit(cfg.width), cfg.dataAlign;
    match i
    case Offset(_, n) => n < limit && (a < 0 ==> Wrapped(a * n) <= 0)
    case OffsetExtended(reg, n) => reg < 65536 && n < limit
    case RestoreExtended(reg) => reg < 65536
    case UndefinedReg(reg) => reg < 65536
    case SameValueReg(reg) => reg < 65536
    case Register(reg, n) => reg < 65536 && n < limit
    case DefCfa(reg, n) => reg < 65536 && n < limit
    case DefCfaRegister(reg) => reg < 65536
    case DefCfaOffset(n) => n < limit
    case DefCfaExpression(block) => |block| < limit
    case Expression(reg, block) => reg < 65536 && |block| < limit
    case OffsetExtendedSf(reg, s) => reg < 65536 && SlebFits(cfg.width, s) && InSigned(a * s)
    case DefCfaSf(reg, s) => reg < 65536 && SlebFits(cfg.width, s) && InSigned(a * s)
    case DefCfaOffsetSf(s) => SlebFits(cfg.width, s) && InSigned(a * s)
    case ValOffset(reg, n) => reg < 65536 && ReadableAsSleb(cfg, n)
    case ValOffsetSf(reg, s) => reg < 65536 && ReadableAsUleb(cfg, s)
    case ValExpression(reg, block) => reg < 65536 && |block| < limit
    case GnuArgsSize(n) => n < limit
    case _ => true
  }

  /** The signed 64-bit number congruent to x. */
  function Wrapped(x: int): int {
    x - 0x1_0000_0000_0000_0000 * ((x + 0x8000_0000_0000_0000) / 0x1_0000_0000_0000_0000)
  }

  lemma WrappedIs(x: int)
    ensures AsSigned(U64(x)) == Wrapped(x) && U64(Wrapped(x)) == U64(x)
    ensures InSigned(x) ==> Wrapped(x) == x
  {
    var q, r := x / TWO64, x % TWO64;
    assert x == TWO64 * q + r;
    var h := if r >= 0x8000_0000_0000_0000 then q + 1 else q;
    QuotientIs(x + 0x8000_0000_0000_0000, h, x + 0x8000_0000_0000_0000 - TWO64 * h);
    Remainder(x - TWO64 * h, q - h, r);
  }

  lemma QuotientIs(x: int, q: int, r: nat)
    requires x == TWO64 * q + r && r < TWO64
    ensures x / TWO64 == q
  {
    var p := x / TWO64;
    assert TWO64 * (p - q) == r - x % TWO64;
  }

  /** The fields of a decoded instruction; off is modulo 2^64. */
  datatype Fields = Fields(base: nat, extended: nat, reg: nat, off: int, block: Option<seq<Byte>>)

  function FieldsOf(cfg: Config, i: Cfi): Fields
    requires Fits(cfg, i) && (cfg.addrLen == 4 || cfg.addrLen == 8)
  {
    var a := cfg.dataAlign;
    match i
    case AdvanceLoc(delta) => Fields(1, 0, 0, delta, None)
    case Offset(reg, n) => Fields(2, 0, reg, a * n, None)
    case Restore(reg) => Fields(3, 0, reg, 0, None)
    case Nop => Fields(0, 0x00, 0, 0, None)
    case SetLoc(addr) => Fields(0, 0x01, 0, FixedNumber(addr, cfg.bigEndian), None)
    case AdvanceLoc1(step) => Fields(0, 0x02, 0, step, None)
    case AdvanceLoc2(steps) => Fields(0, 0x03, 0, FixedNumber(steps, cfg.bigEndian), None)
    case AdvanceLoc4(steps) => Fields(0, 0x04, 0, FixedNumber(steps, cfg.bigEndian), None)
    case OffsetExtended(reg, n) => Fields(0, 0x05, reg, a * n, None)
    case RestoreExtended(reg) => Fields(0, 0x06, reg, 0, None)
    case UndefinedReg(reg) => Fields(0, 0x07, reg, 0, None)
    case SameValueReg(reg) => Fields(0, 0x08, reg, 0, None)
    case Register(reg, n) => Fields(0, 0x09, reg, n, None)
    case RememberState => Fields(0, 0x0a, 0, 0, None)
    case RestoreState => Fields(0, 0x0b, 0, 0, None)
    case DefCfa(reg, n) => Fields(0, 0x0c, reg, n, None)
    case DefCfaRegister(reg) => Fields(0, 0x0d, reg, 0, None)
    case DefCfaOffset(n) => Fields(0, 0x0e, 0, n, None)
    case DefCfaExpression(block) => Fields(0, 0x0f, 0, |block|, Some(block))
    case Expression(reg, block) => Fields(0, 0x10, reg, |block|, Some(block))
    case OffsetExtendedSf(reg, s) => Fields(0, 0x11, reg, a * s, None)
    case DefCfaSf(reg, s) => Fields(0, 0x12, reg, a * s, None)
    case DefCfaOffsetSf(s) => Fields(0, 0x13, 0, a * s, None)
    case ValOffset(reg, n) => Fields(0, 0x14, reg, a * n, None)
    case ValOffsetSf(reg, s) => Fields(0, 0x15, reg, a * s, None)
    case ValExpression(reg, block) => Fields(0, 0x16, reg, |block|, Some(block))
    case GnuArgsSize(n) => Fields(0, 0x2e, 0, n, None)
  }

  /** The decoded instruction has these fields, and its block is in the bytes where it says. */
  ghost predicate Says(bytes: seq<Byte>, op: FrameOp, f: Fields) {
    && op.base == f.base && op.extended == f.extended && op.reg == f.reg && op.off == U64(f.off)
    && match f.block
       case None => op.blockAt == None
       case Some(block) =>
         op.blockAt.Some? && op.blockAt.value + |block| <= |bytes| && op.off == |block|
         && bytes[op.blockAt.value..op.blockAt.value + |block|] == block
  }

  // ---- The parser on literal bytes ----

  /** The same instruction as opcode and operands. */
  ghost function AsInstr(cfg: Config, i: Cfi): Instr
    requires Fits(cfg, i) && (cfg.addrLen == 4 || cfg.addrLen == 8)
  {
    match i
    case AdvanceLoc(delta) => Instr(0x40, Delta(delta))
    case Offset(reg, n) => Instr(0x80, SmallOffset(reg, n))
    case Restore(reg) => Instr(0xc0, SmallReg(reg))
    case Nop => Instr(0x00, Nothing)
    case SetLoc(addr) => Instr(0x01, Num(FixedNumber(addr, cfg.bigEndian)))
    case AdvanceLoc1(step) => Instr(0x02, Num(step))
    case AdvanceLoc2(steps) => Instr(0x03, Num(FixedNumber(steps, cfg.bigEndian)))
    case AdvanceLoc4(steps) => Instr(0x04, Num(FixedNumber(steps, cfg.bigEndian)))
    case OffsetExtended(reg, n) => Instr(0x05, RegNum(reg, n))
    case RestoreExtended(reg) => Instr(0x06, OneReg(reg))
    case UndefinedReg(reg) => Instr(0x07, OneReg(reg))
    case SameValueReg(reg) => Instr(0x08, OneReg(reg))
    case Register(reg, n) => Instr(0x09, RegNum(reg, n))
    case RememberState => Instr(0x0a, Nothing)
    case RestoreState => Instr(0x0b, Nothing)
    case DefCfa(reg, n) => Instr(0x0c, RegNum(reg, n))
    case DefCfaRegister(reg) => Instr(0x0d, OneReg(reg))
    case DefCfaOffset(n) => Instr(0x0e, Num(n))
    case DefCfaExpression(block) => Instr(0x0f, Args.Bytes(block))
    case Expression(reg, block) => Instr(0x10, RegBytes(reg, block))
    case OffsetExtendedSf(reg, s) => Instr(0x11, RegInt(reg, s))
    case DefCfaSf(reg, s) => Instr(0x12, RegInt(reg, s))
    case DefCfaOffsetSf(s) => Instr(0x13, Int(s))
    case ValOffset(reg, n) => Instr(0x14, RegNum(reg, n))
    case ValOffsetSf(reg, s) => Instr(0x15, RegInt(reg, s))
    case ValExpression(reg, block) => Instr(0x16, RegBytes(reg, block))
    case GnuArgsSize(n) => Instr(0x2e, Num(n))
  }

  lemma InstrBytes(cfg: Config, i: Cfi)
    requires Fits(cfg, i) && IsConfig(cfg)
    ensures WellFormed(cfg, AsInstr(cfg, i)) && Encode(cfg, AsInstr(cfg, i)) == Bytes(cfg, i)
  {
    hide AsInstr, Encode, WellFormed, Bytes, Fits, IsConfig;
    match i
    case AdvanceLoc(_) => PackedBytes(cfg, i);
    case Offset(_, _) => PackedBytes(cfg, i);
    case Restore(_) => PackedBytes(cfg, i);
    case Nop => PackedBytes(cfg, i);
    case RememberState => PackedBytes(cfg, i);
    case RestoreState => PackedBytes(cfg, i);
    case SetLoc(_) => FixedBytes(cfg, i);
    case AdvanceLoc1(_) => FixedBytes(cfg, i);
    case AdvanceLoc2(_) => FixedBytes(cfg, i);
    case AdvanceLoc4(_) => FixedBytes(cfg, i);
    case DefCfaExpression(_) => BlockBytes(cfg, i);
    case Expression(_, _) => BlockBytes(cfg, i);
    case ValExpression(_, _) => BlockBytes(cfg, i);
    case OffsetExtended(_, _) => PairBytes(cfg, i);
    case Register(_, _) => PairBytes(cfg, i);
    case DefCfa(_, _) => PairBytes(cfg, i);
    case ValOffset(_, _) => PairBytes(cfg, i);
    case OffsetExtendedSf(_, _) => PairBytes(cfg, i);
    case DefCfaSf(_, _) => PairBytes(cfg, i);
    case ValOffsetSf(_, _) => PairBytes(cfg, i);
    case _ => SingleBytes(cfg, i);
  }

  lemma PackedBytes(cfg: Config, i: Cfi)
    requires Fits(cfg, i) && IsConfig(cfg)
    requires || i.AdvanceLoc? || i.Offset? || i.Restore? || i.Nop? || i.RememberState? || i.RestoreState?
    ensures WellFormed(cfg, AsInstr(cfg, i)) && Encode(cfg, AsInstr(cfg, i)) == Bytes(cfg, i)
  {
    hide EncodeUleb, EncodeSleb, EncodeFixed, FixedNumber, Limit;
  }

  lemma FixedBytes(cfg: Config, i: Cfi)
    requires Fits(cfg, i) && IsConfig(cfg)
    requires i.SetLoc? || i.AdvanceLoc1? || i.AdvanceLoc2? || i.AdvanceLoc4?
    ensures WellFormed(cfg, AsInstr(cfg, i)) && Encode(cfg, AsInstr(cfg, i)) == Bytes(cfg, i)
  {
    hide EncodeUleb, EncodeSleb, EncodeFixed, FixedNumber, Limit;
    match i
    case SetLoc(addr) => FixedIs(addr, cfg.bigEndian);
    case AdvanceLoc1(step) => OneByte(step, cfg.bigEndian);
    case AdvanceLoc2(steps) => FixedIs(steps, cfg.bigEndian);
    case AdvanceLoc4(steps) => FixedIs(steps, cfg.bigEndian);
  }

  lemma BlockBytes(cfg: Config, i: Cfi)
    requires Fits(cfg, i) && IsConfig(cfg)
    requires i.DefCfaExpression? || i.Expression? || i.ValExpression?
    ensures WellFormed(cfg, AsInstr(cfg, i)) && Encode(cfg, AsInstr(cfg, i)) == Bytes(cfg, i)
  {
    hide EncodeUleb, EncodeSleb, EncodeFixed, FixedNumber, Limit;
  }

  lemma PairBytes(cfg: Config, i: Cfi)
    requires Fits(cfg, i) && IsConfig(cfg)
    requires || i.OffsetExtended? || i.Register? || i.DefCfa? || i.ValOffset?
             || i.OffsetExtendedSf? || i.DefCfaSf? || i.ValOffsetSf?
    ensures WellFormed(cfg, AsInstr(cfg, i)) && Encode(cfg, AsInstr(cfg, i)) == Bytes(cfg, i)
  {
    hide EncodeUleb, EncodeSleb, EncodeFixed, FixedNumber, Limit;
  }

  lemma SingleBytes(cfg: Config, i: Cfi)
    requires Fits(cfg, i) && IsConfig(cfg)
    requires || i.RestoreExtended? || i.UndefinedReg? || i.SameValueReg? || i.DefCfaRegister? || i.DefCfaOffset?
             || i.DefCfaOffsetSf? || i.GnuArgsSize?
    ensures WellFormed(cfg, AsInstr(cfg, i)) && Encode(cfg, AsInstr(cfg, i)) == Bytes(cfg, i)
  {
    hide EncodeUleb, EncodeSleb, EncodeFixed, FixedNumber, Limit;
  }

  lemma OneByte(b: Byte, big: bool)
    ensures b < Power256(1) && EncodeFixed(b, 1, big) == [b]
  {
    assert Power256(1) == 256 * Power256(0);
    assert EncodeFixed(b / 256, 0, big) == [];
  }

  lemma FixedIs(bs: seq<Byte>, big: bool)
    requires |bs| == 2 || |bs| == 4 || |bs| == 8
    ensures FixedNumber(bs, big) < Power256(|bs|) && EncodeFixed(FixedNumber(bs, big), |bs|, big) == bs
  {
    var low: seq<Byte> := if big then Backwards(bs) else bs;
    FromLowest(low, big);
    AsLowest(bs, big);
    if big { assert Backwards(low) == bs; }
  }

  ghost function Backwards(bs: seq<Byte>): (r: seq<Byte>)
    ensures |r| == |bs| && forall k :: 0 <= k < |bs| ==> r[k] == bs[|bs| - 1 - k]
  {
    seq(|bs|, k requires 0 <= k < |bs| => bs[|bs| - 1 - k])
  }

  ghost function LowestFirst(low: seq<Byte>): nat { if low == [] then 0 else low[0] + 256 * LowestFirst(low[1..]) }

  lemma {:induction false} FromLowest(low: seq<Byte>, big: bool)
    ensures LowestFirst(low) < Power256(|low|)
    ensures EncodeFixed(LowestFirst(low), |low|, big) == if big then Backwards(low) else low
  {
    if low != [] {
      var v := LowestFirst(low[1..]);
      FromLowest(low[1..], big);
      Digit(low[0], v);
      if big { assert Backwards(low) == Backwards(low[1..]) + [low[0]]; } else { assert low == [low[0]] + low[1..]; }
    }
  }

  lemma Digit(b: Byte, v: nat)
    ensures (b + 256 * v) % 256 == b && (b + 256 * v) / 256 == v
  {
  }

  lemma AsLowest(bs: seq<Byte>, big: bool)
    requires |bs| == 2 || |bs| == 4 || |bs| == 8
    ensures FixedNumber(bs, big) == LowestFirst(if big then Backwards(bs) else bs)
  {
    var low: seq<Byte> := if big then Backwards(bs) else bs;
    forall k | 0 <= k < |low| ensures LowestFirst(low[k..]) == low[k] + 256 * LowestFirst(low[k + 1..]) {
      assert low[k..][1..] == low[k + 1..];
    }
    assert low[0..] == low && low[|low|..] == [];
  }

  lemma ClearIff(cfg: Config, i: Cfi)
    requires Fits(cfg, i) && IsConfig(cfg)
    ensures Clear(cfg, i) <==> Readable(cfg, AsInstr(cfg, i))
  {
    hide FixedNumber, SlebFits, ReadableAsSleb, ReadableAsUleb, InSigned, Wrapped, U64, AsSigned;
    if i.Offset? { WrappedIs(cfg.dataAlign * i.n); }
  }

  lemma FieldsAre(cfg: Config, bytes: seq<Byte>, op: FrameOp, i: Cfi)
    requires Fits(cfg, i) && IsConfig(cfg) && (Clear(cfg, i) || Says(bytes, op, FieldsOf(cfg, i)))
    ensures Decodes(cfg, bytes, op, AsInstr(cfg, i)) <==> Says(bytes, op, FieldsOf(cfg, i))
  {
    hide FixedNumber, SlebFits, ReadableAsSleb, ReadableAsUleb, InSigned, Wrapped, AsSigned;
    if i.DefCfaExpression? || i.Expression? || i.ValExpression? {
      BlockFieldsAre(cfg, bytes, op, i);
    } else {
      hide U64, Limit;
      OtherFieldsAre(cfg, bytes, op, i);
    }
  }

  lemma BlockFieldsAre(cfg: Config, bytes: seq<Byte>, op: FrameOp, i: Cfi)
    requires Fits(cfg, i) && IsConfig(cfg) && (Clear(cfg, i) || Says(bytes, op, FieldsOf(cfg, i)))
    requires i.DefCfaExpression? || i.Expression? || i.ValExpression?
    ensures Decodes(cfg, bytes, op, AsInstr(cfg, i)) <==> Says(bytes, op, FieldsOf(cfg, i))
  {
  }

  lemma OtherFieldsAre(cfg: Config, bytes: seq<Byte>, op: FrameOp, i: Cfi)
    requires Fits(cfg, i) && IsConfig(cfg) && !(i.DefCfaExpression? || i.Expression? || i.ValExpression?)
    ensures Decodes(cfg, bytes, op, AsInstr(cfg, i)) <==> Says(bytes, op, FieldsOf(cfg, i))
  {
    hide FixedNumber, U64;
  }

  /** Reading the bytes of an instruction consumes them, or fails; it gives its fields exactly when the operands are
      clear. */
  lemma DecodesLiteral(cfg: Config, bytes: seq<Byte>, pos: nat, i: Cfi)
    requires IsConfig(cfg) && Fits(cfg, i) && Holds(bytes, pos, Bytes(cfg, i)) && pos < |bytes|
    ensures var r := Decode(cfg, bytes, pos);
            && (r.Some? ==> r.value.next == pos + |Bytes(cfg, i)|)
            && (r.Some? && Says(bytes, r.value.op, FieldsOf(cfg, i)) <==> Clear(cfg, i))
  {
    hide Decode, Clear, Says, Bytes, AsInstr, Encode, WellFormed, FieldsOf, Readable, Decodes, Holds, Fits;
    InstrBytes(cfg, i);
    DecodeEncoded(cfg, bytes, pos, AsInstr(cfg, i));
    ClearIff(cfg, i);
    var r := Decode(cfg, bytes, pos);
    if r.Some? && (Clear(cfg, i) || Says(bytes, r.value.op, FieldsOf(cfg, i))) {
      FieldsAre(cfg, bytes, r.value.op, i);
    }
  }

  /** Any other opcode is refused. */
  lemma UnknownOpcode(cfg: Config, bytes: seq<Byte>, pos: nat)
    requires IsConfig(cfg) && pos < |bytes|
    requires 0x17 <= bytes[pos] <= 0x2d || 0x2f <= bytes[pos] <= 0x3f
    ensures Decode(cfg, bytes, pos).None? && Parse(cfg, bytes, pos).None?
  {
  }

  ghost predicate AllFit(cfg: Config, l: seq<Cfi>) { forall k :: 0 <= k < |l| ==> Fits(cfg, l[k]) }

  ghost predicate AllSay(cfg: Config, bytes: seq<Byte>, ops: seq<FrameOp>, l: seq<Cfi>)
    requires IsConfig(cfg) && AllFit(cfg, l)
  {
    |ops| == |l| && forall k :: 0 <= k < |l| ==> Says(bytes, ops[k], FieldsOf(cfg, l[k]))
  }

  /** Parsing the bytes of an instruction list gives the fields of each, and consumes all, exactly when every
      operand is clear. */
  lemma {:induction false} ParsesLiteral(cfg: Config, bytes: seq<Byte>, pos: nat, l: seq<Cfi>)
    requires IsConfig(cfg) && AllFit(cfg, l)
    requires Holds(bytes, pos, AllBytes(cfg, l)) && pos + |AllBytes(cfg, l)| == |bytes|
    ensures var r := Parse(cfg, bytes, pos);
            && (r.Some? ==> |r.value| == |l|)
            && (r.Some? && AllSay(cfg, bytes, r.value, l) <==> forall k :: 0 <= k < |l| ==> Clear(cfg, l[k]))
    decreases |l|
  {
    hide IsConfig, Decode, Says, Clear, Bytes, Holds, Fits, FieldsOf;
    if l == [] {
      assert Parse(cfg, bytes, pos) == Some([]);
    } else {
      var first, rest := l[0], l[1..];
      HoldsBoth(bytes, pos, Bytes(cfg, first), AllBytes(cfg, rest));
      BytesNotEmpty(cfg, first);
      DecodesLiteral(cfg, bytes, pos, first);
      var d := Decode(cfg, bytes, pos);
      if d.Some? {
        ParsesLiteral(cfg, bytes, d.value.next, rest);
        var r := Parse(cfg, bytes, d.value.next);
        if r.Some? { AllSayCons(cfg, bytes, d.value.op, r.value, l); }
      }
      AllClearCons(cfg, l);
    }
  }

  lemma BytesNotEmpty(cfg: Config, i: Cfi)
    requires Fits(cfg, i)
    ensures |Bytes(cfg, i)| > 0
  {
    hide EncodeUleb, EncodeSleb;
  }

  lemma AllSayCons(cfg: Config, bytes: seq<Byte>, op: FrameOp, ops: seq<FrameOp>, l: seq<Cfi>)
    requires l != [] && IsConfig(cfg) && AllFit(cfg, l)
    ensures AllSay(cfg, bytes, [op] + ops, l)
            <==> Says(bytes, op, FieldsOf(cfg, l[0])) && AllSay(cfg, bytes, ops, l[1..])
  {
    hide Says, FieldsOf, Fits;
    var all := [op] + ops;
    if AllSay(cfg, bytes, all, l) {
      assert Says(bytes, all[0], FieldsOf(cfg, l[0]));
      forall k | 0 <= k < |ops| ensures Says(bytes, ops[k], FieldsOf(cfg, l[1..][k])) {
        assert Says(bytes, all[k + 1], FieldsOf(cfg, l[k + 1]));
      }
    }
    if Says(bytes, op, FieldsOf(cfg, l[0])) && AllSay(cfg, bytes, ops, l[1..]) {
      forall k | 0 <= k < |all| ensures Says(bytes, all[k], FieldsOf(cfg, l[k])) {
        if k > 0 { assert Says(bytes, ops[k - 1], FieldsOf(cfg, l[1..][k - 1])); }
      }
    }
  }

  lemma AllClearCons(cfg: Config, l: seq<Cfi>)
    requires IsConfig(cfg) && l != []
    ensures (forall k :: 0 <= k < |l| ==> Clear(cfg, l[k]))
            <==> Clear(cfg, l[0]) && forall k :: 0 <= k < |l[1..]| ==> Clear(cfg, l[1..][k])
  {
    hide Clear;
    var rest := l[1..];
    if Clear(cfg, l[0]) && forall k :: 0 <= k < |rest| ==> Clear(cfg, rest[k]) {
      forall k | 0 <= k < |l| ensures Clear(cfg, l[k]) {
        if k > 0 { assert Clear(cfg, rest[k - 1]); }
      }
    }
  }

  // ---- What instructions mean ----

  /** The column of the frame address. */
  const FRAME := 1436

  /** A number as an int keeps it, or as it is. */
  function Kept(x: int, narrow: bool): int {
    if narrow then x - 0x1_0000_0000 * ((x + 0x8000_0000) / 0x1_0000_0000) else x
  }

  predicate Advances(i: Cfi) { i.AdvanceLoc? || i.SetLoc? || i.AdvanceLoc1? || i.AdvanceLoc2? || i.AdvanceLoc4? }

  /** Section 6.4.2.1. */
  function Moved(cfg: Config, i: Cfi, loc: nat, factor: nat): nat
    requires Advances(i) && Fits(cfg, i) && IsConfig(cfg)
  {
    match i
    case SetLoc(addr) => FixedNumber(addr, cfg.bigEndian)
    case AdvanceLoc(delta) => loc + delta * factor
    case AdvanceLoc1(step) => loc + step * factor
    case AdvanceLoc2(steps) => loc + FixedNumber(steps, cfg.bigEndian) * factor
    case AdvanceLoc4(steps) => loc + FixedNumber(steps, cfg.bigEndian) * factor
  }

  function WithRule(m: Machine, column: int, rule: Rule): Option<Machine> { Some(m.(rules := m.rules[column := rule])) }

  /** Sections 6.4.2.2 to 6.4.2.5: the effect of an instruction other than an advance. */
  function Applied(cfg: Config, i: Cfi, m: Machine, initial: Option<Rules>, narrow: bool): Option<Machine> {
    var a := cfg.dataAlign;
    match i
    case DefCfa(reg, n) => WithRule(m, FRAME, InRegister(reg, Kept(n, narrow)))
    case DefCfaSf(reg, s) => WithRule(m, FRAME, InRegister(reg, Kept(a * s, narrow)))
    case DefCfaRegister(reg) =>
      if FRAME in m.rules && m.rules[FRAME].InRegister? then WithRule(m, FRAME, InRegister(reg, m.rules[FRAME].off))
      else None
    case DefCfaOffset(n) =>
      if FRAME in m.rules && m.rules[FRAME].InRegister? then
        WithRule(m, FRAME, InRegister(m.rules[FRAME].reg, Kept(n, narrow)))
      else None
    case DefCfaOffsetSf(s) =>
      if FRAME in m.rules && m.rules[FRAME].InRegister? then
        WithRule(m, FRAME, InRegister(m.rules[FRAME].reg, Kept(a * s, narrow)))
      else None
    case DefCfaExpression(block) => WithRule(m, FRAME, SavedAtExpr(block))
    case UndefinedReg(reg) => WithRule(m, reg, Undefined)
    case SameValueReg(reg) => WithRule(m, reg, SameValue)
    case Offset(reg, n) => WithRule(m, reg, SavedAt(Kept(Wrapped(a * n), narrow)))
    case OffsetExtended(reg, n) => WithRule(m, reg, SavedAt(Kept(Wrapped(a * n), narrow)))
    case OffsetExtendedSf(reg, s) => WithRule(m, reg, SavedAt(Kept(a * s, narrow)))
    case ValOffset(reg, n) => WithRule(m, reg, ValueIs(Kept(Wrapped(a * n), narrow)))
    case ValOffsetSf(reg, s) => WithRule(m, reg, ValueIs(Kept(Wrapped(a * s), narrow)))
    case Register(reg, n) => WithRule(m, reg, InRegister(Kept(n, narrow), 0))
    case Expression(reg, block) => WithRule(m, reg, SavedAtExpr(block))
    case ValExpression(reg, block) => WithRule(m, reg, ValueOfExpr(block))
    case Restore(reg) => Restored(m, reg, initial)
    case RestoreExtended(reg) => Restored(m, reg, initial)
    case RememberState => Some(m.(remembered := m.remembered + [m.rules]))
    case RestoreState =>
      if m.remembered == [] then None
      else Some(m.(rules := m.remembered[|m.remembered| - 1], remembered := m.remembered[..|m.remembered| - 1]))
    case Nop => Some(m)
    case GnuArgsSize(_) => Some(m)
    case _ => None
  }

  /** The rule of the initial instructions, or none. */
  function Restored(m: Machine, reg: int, initial: Option<Rules>): Option<Machine> {
    if initial.None? then None
    else if reg in initial.value then WithRule(m, reg, initial.value[reg])
    else Some(m.(rules := m.rules - {reg}))
  }

  /** The machine after all instructions from the k-th on; none if one is not valid. */
  function RunOf(cfg: Config, l: seq<Cfi>, k: nat, m: Machine, initial: Option<Rules>, factor: nat,
                 narrow: bool): Option<Machine>
    requires k <= |l| && IsConfig(cfg) && forall j :: 0 <= j < |l| ==> Fits(cfg, l[j])
    decreases |l| - k
  {
    if k == |l| then Some(m)
    else if Advances(l[k]) then
      var next := Moved(cfg, l[k], m.loc, factor);
      if m.loc < next < 0x1_0000_0000_0000_0000 then RunOf(cfg, l, k + 1, m.(loc := next), initial, factor, narrow)
      else None
    else
      var n := Applied(cfg, l[k], m, initial, narrow);
      if n.None? then None else RunOf(cfg, l, k + 1, n.value, initial, factor, narrow)
  }

  /** Section 6.4.3: the rules at an address. */
  function RulesOf(cfg: Config, l: seq<Cfi>, k: nat, m: Machine, initial: Option<Rules>, factor: nat, narrow: bool,
                   a: nat): Option<Rules>
    requires k <= |l| && IsConfig(cfg) && forall j :: 0 <= j < |l| ==> Fits(cfg, l[j])
    decreases |l| - k
  {
    if k == |l| then Some(m.rules)
    else if Advances(l[k]) then
      var next := Moved(cfg, l[k], m.loc, factor);
      if next > a then Some(m.rules) else RulesOf(cfg, l, k + 1, m.(loc := next), initial, factor, narrow, a)
    else
      var n := Applied(cfg, l[k], m, initial, narrow);
      if n.None? then None else RulesOf(cfg, l, k + 1, n.value, initial, factor, narrow, a)
  }

  // ---- The table gives what they mean ----

  /** The decoded instruction, with its offset as it is or as an int keeps it. */
  function Stored(op: FrameOp, narrow: bool): FrameOp { if narrow then Narrow(op) else op }

  lemma KeptIs(x: int)
    ensures ToInt(U64(x)) == Kept(x, true)
  {
    hide U64;
    var k, r := x / 0x1_0000_0000, x % 0x1_0000_0000;
    LowHalf(x);
    HalfIs(x + 0x8000_0000, if r >= 0x8000_0000 then k + 1 else k,
           if r >= 0x8000_0000 then r - 0x8000_0000 else r + 0x8000_0000);
  }

  lemma LowHalf(x: int)
    ensures U64(x) % 0x1_0000_0000 == x % 0x1_0000_0000
  {
    var q, k, r := x / TWO64, x / 0x1_0000_0000, x % 0x1_0000_0000;
    HalfIs(x - TWO64 * q, k - 0x1_0000_0000 * q, r);
  }

  lemma HalfIs(x: int, q: int, r: nat)
    requires x == 0x1_0000_0000 * q + r && r < 0x1_0000_0000
    ensures x / 0x1_0000_0000 == q && x % 0x1_0000_0000 == r
  {
    var p := x / 0x1_0000_0000;
    assert 0x1_0000_0000 * (p - q) == r - x % 0x1_0000_0000;
  }

  lemma SmallIs(x: int)
    requires InSigned(x)
    ensures AsSigned(U64(x)) == x
  {
    WrappedIs(x);
  }

  /** The signed offset that counts. */
  lemma StoredOffset(op: FrameOp, x: int, narrow: bool)
    requires op.off == U64(x) && HasOffset(op)
    ensures AsSigned(Stored(op, narrow).off) == Kept(Wrapped(x), narrow)
    ensures var s := Stored(op, narrow); s == op.(off := s.off) && CodeOf(s) == CodeOf(op) && !HasBlock(s)
  {
    hide Wrapped, Kept, IsAdvance;
    WrappedIs(x);
    if narrow {
      KeptIs(Wrapped(x));
      var d := ToInt(op.off);
      assert AsSigned(U64(d)) == d by { SmallIs(d); }
    } else {
      assert Kept(Wrapped(x), false) == Wrapped(x) by { NotKept(Wrapped(x)); }
    }
  }

  lemma NotKept(x: int)
    ensures Kept(x, false) == x
  {
  }

  lemma Kinds(cfg: Config, bytes: seq<Byte>, op: FrameOp, i: Cfi, narrow: bool)
    requires IsConfig(cfg) && Fits(cfg, i) && Says(bytes, op, FieldsOf(cfg, i))
    ensures IsAdvance(Stored(op, narrow)) == IsAdvance(op) == Advances(i)
    ensures HasBlock(op) <==> FieldsOf(cfg, i).block.Some?
    ensures Advances(i) ==> Stored(op, narrow) == op
    ensures HasBlock(op) ==> Stored(op, narrow) == op && BlockOf(bytes, op) == FieldsOf(cfg, i).block
  {
    hide FixedNumber, U64, ToInt;
    NarrowKind(op);
  }

  lemma FixedBelow(bs: seq<Byte>, big: bool)
    requires |bs| == 2 || |bs| == 4 || |bs| == 8
    ensures FixedNumber(bs, big) < 0x1_0000_0000_0000_0000
  {
  }

  lemma AdvanceBy(cfg: Config, bytes: seq<Byte>, op: FrameOp, i: Cfi)
    requires IsConfig(cfg) && Fits(cfg, i) && Says(bytes, op, FieldsOf(cfg, i)) && Advances(i)
    ensures op.off == FieldsOf(cfg, i).off && (CodeOf(op) == SET_LOC <==> i.SetLoc?)
  {
    hide FixedNumber;
    match i
    case SetLoc(addr) => FixedBelow(addr, cfg.bigEndian);
    case AdvanceLoc2(steps) => FixedBelow(steps, cfg.bigEndian);
    case AdvanceLoc4(steps) => FixedBelow(steps, cfg.bigEndian);
    case _ =>
  }

  lemma AdvanceMeans(cfg: Config, bytes: seq<Byte>, op: FrameOp, i: Cfi, loc: nat, factor: nat)
    requires IsConfig(cfg) && Fits(cfg, i) && Says(bytes, op, FieldsOf(cfg, i)) && Advances(i)
    ensures NextLoc(op, loc, factor) == Moved(cfg, i, loc, factor)
  {
    hide FixedNumber, Says, CodeOf, U64;
    AdvanceBy(cfg, bytes, op, i);
    var x := op.off;
    assert i.SetLoc? ==> x == FixedNumber(i.addr, cfg.bigEndian);
    assert !i.SetLoc? ==> Moved(cfg, i, loc, factor) == loc + x * factor;
  }

  ghost predicate EffectIs(cfg: Config, bytes: seq<Byte>, op: FrameOp, i: Cfi, m: Machine, initial: Option<Rules>,
                           narrow: bool)
  {
    Effect(bytes, Stored(op, narrow), m, initial) == Applied(cfg, i, m, initial, narrow)
  }

  ghost predicate Faithfully(cfg: Config, bytes: seq<Byte>, op: FrameOp, i: Cfi) {
    IsConfig(cfg) && Fits(cfg, i) && Clear(cfg, i) && Says(bytes, op, FieldsOf(cfg, i)) && !Advances(i)
  }

  lemma EffectMeans(cfg: Config, bytes: seq<Byte>, op: FrameOp, i: Cfi, m: Machine, initial: Option<Rules>,
                    narrow: bool)
    requires Faithfully(cfg, bytes, op, i)
    ensures EffectIs(cfg, bytes, op, i, m, initial, narrow)
  {
    hide EffectIs;
    if FieldsOf(cfg, i).block.Some? {
      BlockMeans(cfg, bytes, op, i, m, initial, narrow);
    } else if i.DefCfa? || i.DefCfaSf? || i.DefCfaRegister? || i.DefCfaOffset? || i.DefCfaOffsetSf? {
      FrameMeans(cfg, bytes, op, i, m, initial, narrow);
    } else if i.Restore? || i.RestoreExtended? || i.RememberState? || i.RestoreState? || i.Nop? || i.GnuArgsSize? {
      StateMeans(cfg, bytes, op, i, m, initial, narrow);
    } else {
      RegisterMeans(cfg, bytes, op, i, m, initial, narrow);
    }
  }

  lemma BlockMeans(cfg: Config, bytes: seq<Byte>, op: FrameOp, i: Cfi, m: Machine, initial: Option<Rules>, narrow: bool)
    requires Faithfully(cfg, bytes, op, i) && FieldsOf(cfg, i).block.Some?
    ensures EffectIs(cfg, bytes, op, i, m, initial, narrow)
  {
    hide BlockOf, Stored, FixedNumber;
    Kinds(cfg, bytes, op, i, narrow);
  }

  /** The signed offset that counts is the one of the instruction. */
  lemma OffsetOf(cfg: Config, bytes: seq<Byte>, op: FrameOp, i: Cfi, narrow: bool)
    requires Faithfully(cfg, bytes, op, i) && FieldsOf(cfg, i).block.None?
    ensures AsSigned(Stored(op, narrow).off) == Kept(Wrapped(FieldsOf(cfg, i).off), narrow)
    ensures var s := Stored(op, narrow); s == op.(off := s.off) && CodeOf(s) == CodeOf(op) && !HasBlock(s)
    ensures i.DefCfa? || i.DefCfaSf? || i.DefCfaOffset? || i.DefCfaOffsetSf? || i.OffsetExtendedSf? || i.Register? ==>
              Wrapped(FieldsOf(cfg, i).off) == FieldsOf(cfg, i).off
  {
    hide Stored, Kept, Wrapped, FixedNumber, SlebFits, ReadableAsSleb, ReadableAsUleb, U64, AsSigned;
    Kinds(cfg, bytes, op, i, narrow);
    StoredOffset(op, FieldsOf(cfg, i).off, narrow);
    WrappedIs(FieldsOf(cfg, i).off);
  }

  lemma FrameMeans(cfg: Config, bytes: seq<Byte>, op: FrameOp, i: Cfi, m: Machine, initial: Option<Rules>, narrow: bool)
    requires Faithfully(cfg, bytes, op, i)
    requires i.DefCfa? || i.DefCfaSf? || i.DefCfaRegister? || i.DefCfaOffset? || i.DefCfaOffsetSf?
    ensures EffectIs(cfg, bytes, op, i, m, initial, narrow)
  {
    OffsetOf(cfg, bytes, op, i, narrow);
    hide Stored, Kept, Wrapped, FixedNumber, SlebFits, ReadableAsSleb, ReadableAsUleb, U64, AsSigned, Clear, Fits;
  }

  lemma StateMeans(cfg: Config, bytes: seq<Byte>, op: FrameOp, i: Cfi, m: Machine, initial: Option<Rules>, narrow: bool)
    requires Faithfully(cfg, bytes, op, i)
    requires i.Restore? || i.RestoreExtended? || i.RememberState? || i.RestoreState? || i.Nop? || i.GnuArgsSize?
    ensures EffectIs(cfg, bytes, op, i, m, initial, narrow)
  {
    OffsetOf(cfg, bytes, op, i, narrow);
    StateCode(cfg, bytes, op, i);
    hide Stored, CodeOf, Effect, Restored, Faithfully, Clear, Fits, Says, FieldsOf, Kept, Wrapped, HasBlock;
    StateEffect(bytes, Stored(op, narrow), m, initial);
  }

  lemma StateEffect(bytes: seq<Byte>, op: FrameOp, m: Machine, initial: Option<Rules>)
    requires !HasBlock(op)
    ensures var e, c := Effect(bytes, op, m, initial), CodeOf(op);
            && (c == 0xc0 || c == 0x06 ==> e == Restored(m, op.reg, initial))
            && (c == 0x0a ==> e == Some(m.(remembered := m.remembered + [m.rules])))
            && (c == 0x0b ==>
                  e == if m.remembered == [] then None
                       else Some(m.(rules := m.remembered[|m.remembered| - 1],
                                    remembered := m.remembered[..|m.remembered| - 1])))
            && (c == 0x00 || c == 0x2e ==> e == Some(m))
  {
    hide RegisterRule, AsSigned, BlockOf;
  }

  lemma StateCode(cfg: Config, bytes: seq<Byte>, op: FrameOp, i: Cfi)
    requires Faithfully(cfg, bytes, op, i)
    ensures i.Restore? ==> CodeOf(op) == 0xc0 && op.reg == i.reg
    ensures i.RestoreExtended? ==> CodeOf(op) == 0x06 && op.reg == i.reg
    ensures i.RememberState? ==> CodeOf(op) == 0x0a
    ensures i.RestoreState? ==> CodeOf(op) == 0x0b
    ensures i.Nop? ==> CodeOf(op) == 0x00
    ensures i.GnuArgsSize? ==> CodeOf(op) == 0x2e
  {
    hide Kept, Wrapped, FixedNumber, U64, AsSigned, Clear;
  }

  lemma RegisterMeans(cfg: Config, bytes: seq<Byte>, op: FrameOp, i: Cfi, m: Machine, initial: Option<Rules>,
                      narrow: bool)
    requires Faithfully(cfg, bytes, op, i)
    requires || i.UndefinedReg? || i.SameValueReg? || i.Offset? || i.OffsetExtended? || i.OffsetExtendedSf?
             || i.ValOffset? || i.ValOffsetSf? || i.Register?
    ensures EffectIs(cfg, bytes, op, i, m, initial, narrow)
  {
    OffsetOf(cfg, bytes, op, i, narrow);
    hide Stored, Kept, Wrapped, FixedNumber, SlebFits, ReadableAsSleb, ReadableAsUleb, U64, AsSigned, Clear, Fits;
  }

  /** The instructions as used: with their offsets as they are, or as an int keeps them. */
  ghost function AllStored(ops: seq<FrameOp>, narrow: bool): seq<FrameOp> { if narrow then AsStored(ops) else ops }

  lemma StoredAt(ops: seq<FrameOp>, narrow: bool, k: nat)
    requires k < |ops|
    ensures |AllStored(ops, narrow)| == |ops| && AllStored(ops, narrow)[k] == Stored(ops[k], narrow)
  {
  }

  ghost predicate AllClear(cfg: Config, l: seq<Cfi>) {
    IsConfig(cfg) && AllFit(cfg, l) && forall k :: 0 <= k < |l| ==> Clear(cfg, l[k])
  }

  /** Running decoded instructions, and the rules that they give at an address, are what they mean. */
  lemma {:induction false} RunMeans(cfg: Config, bytes: seq<Byte>, ops: seq<FrameOp>, l: seq<Cfi>, k: nat, m: Machine,
                                    initial: Option<Rules>, factor: nat, narrow: bool)
    requires AllClear(cfg, l) && AllSay(cfg, bytes, ops, l) && k <= |l| == |AllStored(ops, narrow)|
    ensures RunAll(bytes, AllStored(ops, narrow), k, m, initial, factor) == RunOf(cfg, l, k, m, initial, factor, narrow)
    ensures forall a: nat ::
              RulesAt(bytes, AllStored(ops, narrow), k, m, initial, factor, a)
              == RulesOf(cfg, l, k, m, initial, factor, narrow, a)
    decreases |l| - k
  {
    hide Effect, Applied, Moved, NextLoc, IsAdvance, Advances, Fits, Clear, Says, FieldsOf, Stored, AllStored;
    if k < |l| {
      var op, i := ops[k], l[k];
      StoredAt(ops, narrow, k);
      Kinds(cfg, bytes, op, i, narrow);
      if Advances(i) {
        AdvanceMeans(cfg, bytes, op, i, m.loc, factor);
        var next := m.(loc := Moved(cfg, i, m.loc, factor));
        RunMeans(cfg, bytes, ops, l, k + 1, next, initial, factor, narrow);
      } else {
        EffectMeans(cfg, bytes, op, i, m, initial, narrow);
        var n := Applied(cfg, i, m, initial, narrow);
        if n.Some? { RunMeans(cfg, bytes, ops, l, k + 1, n.value, initial, factor, narrow); }
      }
    }
  }

  ghost predicate TableMeans(cfg: Config, rows: seq<Row>, l: seq<Cfi>, i: Machine, bound: nat)
    requires AllClear(cfg, l) && RunOf(cfg, l, 0, Machine(i.rules, [], i.loc), Some(i.rules), 1, true).Some?
  {
    var m := Machine(i.rules, [], i.loc);
    var last := RunOf(cfg, l, 0, m, Some(i.rules), 1, true).value.loc;
    forall a: nat ::
      if i.loc <= a && (a < last || a < bound) then
        var rules := RulesOf(cfg, l, 0, m, Some(i.rules), 1, true, a);
        rules.Some? && Means(Lookup(rows, a), rules.value)
      else Lookup(rows, a) == map[]
  }

  /** The table made from the bytes of the initial and the entry's own instructions gives, at each address up to its
      end, the rules that the instructions mean there, with advances not scaled and offsets as an int keeps them. */
  method DecodeTable(cfg: Config, cie: seq<Cfi>, fde: seq<Cfi>, lowPc: nat, funcLength: nat)
    returns (r: Option<seq<Row>>)
    requires AllClear(cfg, cie) && AllClear(cfg, fde)
    ensures var i := RunOf(cfg, cie, 0, Machine(map[], [], lowPc), None, 1, true);
            i.Some?
            && RunOf(cfg, fde, 0, Machine(i.value.rules, [], i.value.loc), Some(i.value.rules), 1, true).Some? ==>
              r.Some? && TableMeans(cfg, r.value, fde, i.value, (lowPc + funcLength + 1) % 0x1_0000_0000_0000_0000)
  {
    hide RunOf, RulesOf, RunAll, RulesAt, AllBytes, Parse, IsConfig, Fits, Clear, Lookup, Means, AsStored, RowsWithin;
    hide Says, FieldsOf;
    var cieBytes, fdeBytes := AllBytes(cfg, cie), AllBytes(cfg, fde);
    r := DecodeFde(cfg, cieBytes, fdeBytes, lowPc, funcLength);
    ghost var c := ParsedWhole(cfg, cie);
    ghost var f := ParsedWhole(cfg, fde);
    StoredLength(c);
    StoredLength(f);
    RunMeans(cfg, cieBytes, c, cie, 0, Machine(map[], [], lowPc), None, 1, true);
    ghost var i := RunOf(cfg, cie, 0, Machine(map[], [], lowPc), None, 1, true);
    if i.Some? {
      RunMeans(cfg, fdeBytes, f, fde, 0, Machine(i.value.rules, [], i.value.loc), Some(i.value.rules), 1, true);
    }
  }

  lemma StoredLength(ops: seq<FrameOp>)
    ensures AllStored(ops, true) == AsStored(ops) && |AsStored(ops)| == |ops|
  {
  }

  lemma ParsedWhole(cfg: Config, l: seq<Cfi>) returns (ops: seq<FrameOp>)
    requires AllClear(cfg, l)
    ensures var bytes := AllBytes(cfg, l);
            Parse(cfg, bytes, 0) == Some(ops) && |ops| == |l| && AllSay(cfg, bytes, ops, l)
  {
    hide Parse, AllBytes, Fits, Clear, Says, FieldsOf, IsConfig;
    var bytes := AllBytes(cfg, l);
    assert bytes[0..|bytes|] == bytes;
    ParsesLiteral(cfg, bytes, 0, l);
    ops := Parse(cfg, bytes, 0).value;
  }
}
