/** Call-frame instructions and their byte encoding, as in section 7.23 of DWARF 4, and the parser for
    instruction lists. */
module FrameInstrs {
  import opened Wrappers
  import opened Leb128

  /** dataAlign is the data alignment factor, a signed 64-bit number; width that of the shift in the
      number readers. */
  datatype Config = Config(dataAlign: int, addrLen: nat, bigEndian: bool, width: nat)

  predicate IsConfig(cfg: Config) {
    && IsWidth(cfg.width) && (cfg.addrLen == 4 || cfg.addrLen == 8)
    && -0x8000_0000_0000_0000 <= cfg.dataAlign < 0x8000_0000_0000_0000
  }

  /** A decoded instruction: the opcode in two parts, a 16-bit register, an unsigned 64-bit offset or
      block length, and where in the instruction bytes the block begins. */
  datatype FrameOp = FrameOp(base: nat, extended: nat, reg: nat, off: nat, blockAt: Option<nat>)

  datatype Decoded = Decoded(op: FrameOp, next: nat)

  // ---- Opcodes ----

  const ADVANCE_LOC := 0x40
  const OFFSET := 0x80
  const RESTORE := 0xc0
  const NOP := 0x00
  const SET_LOC := 0x01
  const ADVANCE_LOC1 := 0x02
  const ADVANCE_LOC2 := 0x03
  const ADVANCE_LOC4 := 0x04
  const OFFSET_EXTENDED := 0x05
  const RESTORE_EXTENDED := 0x06
  const UNDEFINED := 0x07
  const SAME_VALUE := 0x08
  const REGISTER := 0x09
  const REMEMBER_STATE := 0x0a
  const RESTORE_STATE := 0x0b
  const DEF_CFA := 0x0c
  const DEF_CFA_REGISTER := 0x0d
  const DEF_CFA_OFFSET := 0x0e
  const DEF_CFA_EXPRESSION := 0x0f
  const EXPRESSION := 0x10
  const OFFSET_EXTENDED_SF := 0x11
  const DEF_CFA_SF := 0x12
  const DEF_CFA_OFFSET_SF := 0x13
  const VAL_OFFSET := 0x14
  const VAL_OFFSET_SF := 0x15
  const VAL_EXPRESSION := 0x16
  const GNU_ARGS_SIZE := 0x2e

  /** The operands that follow an opcode. */
  datatype Format =
    | PackedDelta | PackedOffset | PackedReg | NoOperands | Number(bytes: nat) | Reg | RegUnsigned
    | RegFactored | RegSigned | Unsigned | Signed | RegBlock | Block | Unsupported

  /** Section 7.23. */
  function DwarfFormat(cfg: Config, code: nat): Format {
    if code == ADVANCE_LOC then PackedDelta
    else if code == OFFSET then PackedOffset
    else if code == RESTORE then PackedReg
    else if code == NOP || code == REMEMBER_STATE || code == RESTORE_STATE then NoOperands
    else if code == SET_LOC then Number(cfg.addrLen)
    else if code == ADVANCE_LOC1 then Number(1)
    else if code == ADVANCE_LOC2 then Number(2)
    else if code == ADVANCE_LOC4 then Number(4)
    else if code == RESTORE_EXTENDED || code == UNDEFINED || code == SAME_VALUE || code == DEF_CFA_REGISTER then Reg
    else if code == OFFSET_EXTENDED || code == VAL_OFFSET then RegFactored
    else if code == DEF_CFA || code == REGISTER then RegUnsigned
    else if code == OFFSET_EXTENDED_SF || code == DEF_CFA_SF || code == VAL_OFFSET_SF then RegSigned
    else if code == DEF_CFA_OFFSET || code == GNU_ARGS_SIZE then Unsigned
    else if code == DEF_CFA_OFFSET_SF then Signed
    else if code == EXPRESSION || code == VAL_EXPRESSION then RegBlock
    else if code == DEF_CFA_EXPRESSION then Block
    else Unsupported
  }

  /** The parser reads the two val_offset forms with the kinds of number swapped. */
  function FormatOf(cfg: Config, code: nat): Format {
    if code == VAL_OFFSET then RegSigned
    else if code == VAL_OFFSET_SF then RegFactored
    else DwarfFormat(cfg, code)
  }

  // ---- Decoding ----

  function FixedValue(bs: seq<Byte>, big: bool): nat {
    if bs == [] then 0
    else if big then FixedValue(bs[..|bs| - 1], big) * 256 + bs[|bs| - 1]
    else bs[0] + 256 * FixedValue(bs[1..], big)
  }

  function ReadFixed(bytes: seq<Byte>, pos: nat, n: nat, big: bool): Option<Read> {
    if pos + n > |bytes| then None else Some(Read(FixedValue(bytes[pos..pos + n], big), pos + n))
  }

  function WithReg(cfg: Config, bytes: seq<Byte>, d: Decoded): Option<Decoded>
    requires IsConfig(cfg)
  {
    var r := Uleb(cfg.width, bytes, d.next);
    if r.None? then None else Some(Decoded(d.op.(reg := r.value.value % 65536), r.value.next))
  }

  function WithUnsigned(cfg: Config, bytes: seq<Byte>, d: Decoded): Option<Decoded>
    requires IsConfig(cfg)
  {
    var r := Uleb(cfg.width, bytes, d.next);
    if r.None? then None else Some(Decoded(d.op.(off := U64(r.value.value)), r.value.next))
  }

  function WithFactored(cfg: Config, bytes: seq<Byte>, d: Decoded): Option<Decoded>
    requires IsConfig(cfg)
  {
    var r := Uleb(cfg.width, bytes, d.next);
    if r.None? then None else Some(Decoded(d.op.(off := U64(cfg.dataAlign * r.value.value)), r.value.next))
  }

  /** A product of signed numbers that overflows has no value. */
  function WithSigned(cfg: Config, bytes: seq<Byte>, d: Decoded): Option<Decoded>
    requires IsConfig(cfg)
  {
    var r := Sleb(cfg.width, bytes, d.next);
    if r.None? || !InSigned(cfg.dataAlign * r.value.value) then None
    else Some(Decoded(d.op.(off := U64(cfg.dataAlign * r.value.value)), r.value.next))
  }

  predicate InSigned(x: int) { -0x8000_0000_0000_0000 <= x < 0x8000_0000_0000_0000 }

  /** Skips the block, wherever that leads. */
  function WithBlock(cfg: Config, bytes: seq<Byte>, d: Decoded): Option<Decoded>
    requires IsConfig(cfg)
  {
    var r := WithUnsigned(cfg, bytes, d);
    if r.None? then None
    else Some(Decoded(r.value.op.(blockAt := Some(r.value.next)), r.value.next + r.value.op.off))
  }

  /** Reads the operands; low is the argument part of a packed opcode. */
  function DecodeArgs(cfg: Config, bytes: seq<Byte>, d: Decoded, f: Format, low: nat): Option<Decoded>
    requires IsConfig(cfg)
  {
    match f
    case PackedDelta => Some(d.(op := d.op.(off := low)))
    case PackedOffset =>
      var r := WithFactored(cfg, bytes, d.(op := d.op.(reg := low)));
      if r.Some? && cfg.dataAlign < 0 && AsSigned(r.value.op.off) > 0 then None else r
    case PackedReg => Some(d.(op := d.op.(reg := low)))
    case NoOperands => Some(d)
    case Number(n) =>
      var r := ReadFixed(bytes, d.next, n, cfg.bigEndian);
      if r.None? then None else Some(Decoded(d.op.(off := U64(r.value.value)), r.value.next))
    case Reg => WithReg(cfg, bytes, d)
    case RegUnsigned => var r := WithReg(cfg, bytes, d); if r.None? then None else WithUnsigned(cfg, bytes, r.value)
    case RegFactored => var r := WithReg(cfg, bytes, d); if r.None? then None else WithFactored(cfg, bytes, r.value)
    case RegSigned => var r := WithReg(cfg, bytes, d); if r.None? then None else WithSigned(cfg, bytes, r.value)
    case Unsigned => WithUnsigned(cfg, bytes, d)
    case Signed => WithSigned(cfg, bytes, d)
    case RegBlock => var r := WithReg(cfg, bytes, d); if r.None? then None else WithBlock(cfg, bytes, r.value)
    case Block => WithBlock(cfg, bytes, d)
    case Unsupported => None
  }

  function Decode(cfg: Config, bytes: seq<Byte>, pos: nat): Option<Decoded>
    requires IsConfig(cfg) && pos < |bytes|
  {
    var b := bytes[pos];
    var code := if b >= 64 then b / 64 * 64 else b;
    var d := Decoded(FrameOp(b / 64, if b < 64 then b else 0, 0, 0, None), pos + 1);
    DecodeArgs(cfg, bytes, d, FormatOf(cfg, code), b % 64)
  }

  lemma DecodeAdvances(cfg: Config, bytes: seq<Byte>, pos: nat)
    requires IsConfig(cfg) && pos < |bytes| && Decode(cfg, bytes, pos).Some?
    ensures Decode(cfg, bytes, pos).value.next > pos
  {
    hide UlebFrom;
    forall p: nat | Uleb(cfg.width, bytes, p).Some? ensures Uleb(cfg.width, bytes, p).value.next > p {
      UlebAdvances(cfg.width, bytes, p, 0);
    }
  }

  function Parse(cfg: Config, bytes: seq<Byte>, pos: nat): Option<seq<FrameOp>>
    requires IsConfig(cfg)
    decreases |bytes| - pos
  {
    if pos >= |bytes| then Some([])
    else
      var d := Decode(cfg, bytes, pos);
      if d.None? then None
      else
        DecodeAdvances(cfg, bytes, pos);
        After([d.value.op], Parse(cfg, bytes, d.value.next))
  }

  function After(ops: seq<FrameOp>, r: Option<seq<FrameOp>>): Option<seq<FrameOp>> {
    if r.None? then None else Some(ops + r.value)
  }

  lemma AfterIsAssociative(a: seq<FrameOp>, b: seq<FrameOp>, r: Option<seq<FrameOp>>)
    ensures After(a, After(b, r)) == After(a + b, r)
    ensures After([], r) == r && After(a, Some([])) == Some(a)
  {
    if r.Some? {
      assert a + (b + r.value) == a + b + r.value;
      assert [] + r.value == r.value;
    }
    assert a + [] == a;
  }

  // ---- Encoding ----

  datatype Args =
    | Delta(n: nat) | SmallOffset(reg: nat, n: nat) | SmallReg(reg: nat) | Nothing | Num(n: nat) | OneReg(reg: nat)
    | RegNum(reg: nat, n: nat) | RegInt(reg: nat, s: int) | Int(s: int)
    | RegBytes(reg: nat, block: seq<Byte>) | Bytes(block: seq<Byte>)

  datatype Instr = Instr(code: nat, args: Args)

  function Power256(n: nat): nat {
    if n == 0 then 1 else 256 * Power256(n - 1)
  }

  /** The operands are those of the opcode, and those of fixed size fit it. */
  predicate WellFormed(cfg: Config, i: Instr) {
    match DwarfFormat(cfg, i.code)
    case PackedDelta => i.args.Delta? && i.args.n < 64
    case PackedOffset => i.args.SmallOffset? && i.args.reg < 64
    case PackedReg => i.args.SmallReg? && i.args.reg < 64
    case NoOperands => i.args.Nothing?
    case Number(n) => i.args.Num? && i.args.n < Power256(n)
    case Reg => i.args.OneReg?
    case RegUnsigned => i.args.RegNum?
    case RegFactored => i.args.RegNum?
    case RegSigned => i.args.RegInt?
    case Unsigned => i.args.Num?
    case Signed => i.args.Int?
    case RegBlock => i.args.RegBytes?
    case Block => i.args.Bytes?
    case Unsupported => false
  }

  function EncodeFixed(v: nat, n: nat, big: bool): seq<Byte> {
    if n == 0 then []
    else if big then EncodeFixed(v / 256, n - 1, big) + [v % 256]
    else [v % 256] + EncodeFixed(v / 256, n - 1, big)
  }

  function EncodeArgs(cfg: Config, code: nat, args: Args): seq<Byte> {
    match args
    case Delta(_) => []
    case SmallOffset(_, n) => EncodeUleb(n)
    case SmallReg(_) => []
    case Nothing => []
    case Num(n) =>
      var f := DwarfFormat(cfg, code);
      if f.Number? then EncodeFixed(n, f.bytes, cfg.bigEndian) else EncodeUleb(n)
    case OneReg(reg) => EncodeUleb(reg)
    case RegNum(reg, n) => EncodeUleb(reg) + EncodeUleb(n)
    case RegInt(reg, s) => EncodeUleb(reg) + EncodeSleb(s)
    case Int(s) => EncodeSleb(s)
    case RegBytes(reg, block) => EncodeUleb(reg) + (EncodeUleb(|block|) + block)
    case Bytes(block) => EncodeUleb(|block|) + block
  }

  function Packed(args: Args): nat {
    match args
    case Delta(n) => n
    case SmallOffset(reg, _) => reg
    case SmallReg(reg) => reg
    case _ => 0
  }

  function Encode(cfg: Config, i: Instr): seq<Byte>
    requires WellFormed(cfg, i)
  {
    [i.code + Packed(i.args)] + EncodeArgs(cfg, i.code, i.args)
  }

  function EncodeAll(cfg: Config, instrs: seq<Instr>): seq<Byte>
    requires forall k :: 0 <= k < |instrs| ==> WellFormed(cfg, instrs[k])
  {
    if instrs == [] then [] else Encode(cfg, instrs[0]) + EncodeAll(cfg, instrs[1..])
  }

  // ---- What decoding should give ----

  /** The register operand. */
  function RegOf(i: Instr): nat {
    match i.args
    case SmallOffset(reg, _) => reg
    case SmallReg(reg) => reg
    case OneReg(reg) => reg
    case RegNum(reg, _) => reg
    case RegInt(reg, _) => reg
    case RegBytes(reg, _) => reg
    case _ => 0
  }

  /** The offset, with factored ones multiplied by the data alignment factor, or the block length. */
  function OffOf(cfg: Config, i: Instr): int {
    match i.args
    case Delta(n) => n
    case SmallOffset(_, n) => cfg.dataAlign * n
    case Num(n) => n
    case RegNum(_, n) => if DwarfFormat(cfg, i.code) == RegFactored then cfg.dataAlign * n else n
    case RegInt(_, s) => cfg.dataAlign * s
    case Int(s) => cfg.dataAlign * s
    case RegBytes(_, block) => |block|
    case Bytes(block) => |block|
    case _ => 0
  }

  /** The decoded instruction says what the instruction does; offsets are taken modulo 2^64. */
  ghost predicate Decodes(cfg: Config, bytes: seq<Byte>, op: FrameOp, i: Instr) {
    && op.base == i.code / 64 && op.extended == i.code % 64 && op.reg == RegOf(i) && op.off == U64(OffOf(cfg, i))
    && if i.args.RegBytes? || i.args.Bytes? then
         op.blockAt.Some? && op.blockAt.value + op.off <= |bytes|
         && bytes[op.blockAt.value..op.blockAt.value + op.off] == i.args.block
       else op.blockAt == None
  }

  /** The operands the parser gets right. */
  predicate Readable(cfg: Config, i: Instr)
    requires IsConfig(cfg)
  {
    && RegOf(i) < 65536
    && match i.args
       case SmallOffset(_, n) => n < Limit(cfg.width) && (cfg.dataAlign < 0 ==> AsSigned(U64(cfg.dataAlign * n)) <= 0)
       case Num(n) => DwarfFormat(cfg, i.code).Number? || n < Limit(cfg.width)
       case RegNum(_, n) => if i.code == VAL_OFFSET then ReadableAsSleb(cfg, n) else n < Limit(cfg.width)
       case RegInt(_, s) =>
         if i.code == VAL_OFFSET_SF then ReadableAsUleb(cfg, s)
         else SlebFits(cfg.width, s) && InSigned(cfg.dataAlign * s)
       case Int(s) => SlebFits(cfg.width, s) && InSigned(cfg.dataAlign * s)
       case RegBytes(_, block) => |block| < Limit(cfg.width)
       case Bytes(block) => |block| < Limit(cfg.width)
       case _ => true
  }

  /** An unsigned number read as a signed one: right if its top bit is clear, or cannot matter. */
  predicate ReadableAsSleb(cfg: Config, n: nat)
    requires IsConfig(cfg)
  {
    && n < Limit(cfg.width)
    && if n < UlebWeight(n) / 2 then InSigned(cfg.dataAlign * n)
       else cfg.dataAlign * UlebWeight(n) % TWO64 == 0 && InSigned(cfg.dataAlign * (n - UlebWeight(n)))
  }

  /** A signed number read as an unsigned one: right if it is not negative, or that cannot matter. */
  predicate ReadableAsUleb(cfg: Config, s: int)
    requires IsConfig(cfg)
  {
    SlebFits(cfg.width, s) && (s >= 0 || cfg.dataAlign * SlebWeight(s) % TWO64 == 0)
  }

  // ---- Decoding undoes encoding ----

  /** The bytes from pos on begin with bs. */
  predicate Holds(bytes: seq<Byte>, pos: nat, bs: seq<Byte>) {
    pos + |bs| <= |bytes| && bytes[pos..pos + |bs|] == bs
  }

  lemma HoldsBoth(bytes: seq<Byte>, pos: nat, a: seq<Byte>, b: seq<Byte>)
    requires Holds(bytes, pos, a + b)
    ensures Holds(bytes, pos, a) && Holds(bytes, pos + |a|, b)
  {
    assert bytes[pos..pos + |a|] == bytes[pos..pos + |a + b|][..|a|];
    assert bytes[pos + |a|..pos + |a| + |b|] == bytes[pos..pos + |a + b|][|a|..];
  }

  lemma {:induction false} FixedRoundTrip(v: nat, n: nat, big: bool)
    requires v < Power256(n)
    ensures |EncodeFixed(v, n, big)| == n && FixedValue(EncodeFixed(v, n, big), big) == v
  {
    if n > 0 {
      FixedRoundTrip(v / 256, n - 1, big);
      var rest := EncodeFixed(v / 256, n - 1, big);
      if big {
        assert (rest + [v % 256])[..n - 1] == rest;
      } else {
        assert ([v % 256] + rest)[1..] == rest;
      }
    }
  }

  lemma FixedReads(bytes: seq<Byte>, pos: nat, v: nat, n: nat, big: bool)
    requires v < Power256(n) && Holds(bytes, pos, EncodeFixed(v, n, big))
    ensures ReadFixed(bytes, pos, n, big) == Some(Read(v, pos + n))
  {
    FixedRoundTrip(v, n, big);
  }

  lemma RegReads(cfg: Config, bytes: seq<Byte>, d: Decoded, reg: nat)
    requires IsConfig(cfg) && Holds(bytes, d.next, EncodeUleb(reg))
    ensures WithReg(cfg, bytes, d)
            == if reg < Limit(cfg.width) then Some(Decoded(d.op.(reg := reg % 65536), d.next + |EncodeUleb(reg)|))
               else None
  {
    UlebRoundTrip(cfg.width, bytes, d.next, reg);
  }

  lemma UnsignedReads(cfg: Config, bytes: seq<Byte>, d: Decoded, n: nat)
    requires IsConfig(cfg) && Holds(bytes, d.next, EncodeUleb(n))
    ensures WithUnsigned(cfg, bytes, d)
            == if n < Limit(cfg.width) then Some(Decoded(d.op.(off := U64(n)), d.next + |EncodeUleb(n)|)) else None
    ensures n < Limit(cfg.width) ==> U64(n) == n
  {
    UlebRoundTrip(cfg.width, bytes, d.next, n);
  }

  lemma FactoredReads(cfg: Config, bytes: seq<Byte>, d: Decoded, n: nat)
    requires IsConfig(cfg) && Holds(bytes, d.next, EncodeUleb(n))
    ensures WithFactored(cfg, bytes, d)
            == if n < Limit(cfg.width) then
                 Some(Decoded(d.op.(off := U64(cfg.dataAlign * n)), d.next + |EncodeUleb(n)|))
               else None
  {
    UlebRoundTrip(cfg.width, bytes, d.next, n);
  }

  lemma SignedReads(cfg: Config, bytes: seq<Byte>, d: Decoded, s: int)
    requires IsConfig(cfg) && Holds(bytes, d.next, EncodeSleb(s))
    ensures WithSigned(cfg, bytes, d)
            == if SlebFits(cfg.width, s) && InSigned(cfg.dataAlign * s)
               then Some(Decoded(d.op.(off := U64(cfg.dataAlign * s)), d.next + |EncodeSleb(s)|)) else None
  {
    SlebRoundTrip(cfg.width, bytes, d.next, s);
  }

  lemma BlockReads(cfg: Config, bytes: seq<Byte>, d: Decoded, block: seq<Byte>)
    requires IsConfig(cfg) && Holds(bytes, d.next, EncodeUleb(|block|) + block)
    ensures WithBlock(cfg, bytes, d)
            == if |block| < Limit(cfg.width) then
                 var at := d.next + |EncodeUleb(|block|)|;
                 Some(Decoded(d.op.(off := |block|, blockAt := Some(at)), at + |block|))
               else None
    ensures Holds(bytes, d.next + |EncodeUleb(|block|)|, block)
  {
    hide WithUnsigned, EncodeUleb, Holds;
    HoldsBoth(bytes, d.next, EncodeUleb(|block|), block);
    UnsignedReads(cfg, bytes, d, |block|);
  }

  lemma CongruentProduct(a: int, x: int, m: nat)
    ensures U64(a * (x + m)) == U64(a * x) <==> a * m % TWO64 == 0
    ensures U64(a * (x - m)) == U64(a * x) <==> a * m % TWO64 == 0
  {
    assert a * (x + m) == a * x + a * m;
    assert a * (x - m) == a * x - a * m;
    Congruent(a * x, a * m);
  }

  lemma Congruent(x: int, y: int)
    ensures (x + y) % TWO64 == x % TWO64 <==> y % TWO64 == 0
    ensures (x - y) % TWO64 == x % TWO64 <==> y % TWO64 == 0
  {
    if y % TWO64 == 0 {
      Remainder(x + y, x / TWO64 + y / TWO64, x % TWO64);
      Remainder(x - y, x / TWO64 - y / TWO64, x % TWO64);
    }
    if (x + y) % TWO64 == x % TWO64 {
      Remainder(y, (x + y) / TWO64 - x / TWO64, 0);
    }
    if (x - y) % TWO64 == x % TWO64 {
      Remainder(y, x / TWO64 - (x - y) / TWO64, 0);
    }
  }

  lemma Remainder(x: int, q: int, r: nat)
    requires x == TWO64 * q + r && r < TWO64
    ensures x % TWO64 == r
  {
    var p := x / TWO64;
    assert TWO64 * (p - q) == r - x % TWO64;
    assert p == q;
  }

  /** val_offset: its unsigned number is read as a signed one. */
  lemma ValOffsetReads(cfg: Config, bytes: seq<Byte>, d: Decoded, n: nat)
    requires IsConfig(cfg) && Holds(bytes, d.next, EncodeUleb(n))
    ensures var r := WithSigned(cfg, bytes, d);
            && (r.Some? ==> r.value.next == d.next + |EncodeUleb(n)| && r.value.op == d.op.(off := r.value.op.off))
            && (r.Some? && r.value.op.off == U64(cfg.dataAlign * n) <==> ReadableAsSleb(cfg, n))
  {
    UlebAsSleb(cfg.width, bytes, d.next, n);
    CongruentProduct(cfg.dataAlign, n, UlebWeight(n));
  }

  /** val_offset_sf: its signed number is read as an unsigned one. */
  lemma ValOffsetSfReads(cfg: Config, bytes: seq<Byte>, d: Decoded, s: int)
    requires IsConfig(cfg) && Holds(bytes, d.next, EncodeSleb(s))
    ensures var r := WithFactored(cfg, bytes, d);
            && (r.Some? ==> r.value.next == d.next + |EncodeSleb(s)| && r.value.op == d.op.(off := r.value.op.off))
            && (r.Some? && r.value.op.off == U64(cfg.dataAlign * s) <==> ReadableAsUleb(cfg, s))
  {
    SlebAsUleb(cfg.width, bytes, d.next, s);
    CongruentProduct(cfg.dataAlign, s, SlebWeight(s));
  }

  lemma Opcode(cfg: Config, i: Instr)
    requires WellFormed(cfg, i)
    ensures var b := i.code + Packed(i.args);
            && b < 256 && (if b >= 64 then b / 64 * 64 else b) == i.code && b / 64 == i.code / 64
            && (if b < 64 then b else 0) == i.code % 64 && (b >= 64 ==> b % 64 == Packed(i.args))
  {
  }

  /** Decoding the operands succeeds with the right ones exactly when they are readable. */
  ghost predicate ArgsOutcome(cfg: Config, bytes: seq<Byte>, d: Decoded, i: Instr, r: Option<Decoded>)
    requires IsConfig(cfg)
  {
    && (r.Some? ==> r.value.next == d.next + |EncodeArgs(cfg, i.code, i.args)|)
    && (r.Some? && Decodes(cfg, bytes, r.value.op, i) <==> Readable(cfg, i))
  }

  ghost predicate Started(cfg: Config, bytes: seq<Byte>, d: Decoded, i: Instr) {
    && IsConfig(cfg) && WellFormed(cfg, i) && Holds(bytes, d.next, EncodeArgs(cfg, i.code, i.args))
    && d.op == FrameOp(i.code / 64, i.code % 64, 0, 0, None)
  }

  lemma ArgsDecoded(cfg: Config, bytes: seq<Byte>, d: Decoded, i: Instr)
    requires Started(cfg, bytes, d, i)
    ensures ArgsOutcome(cfg, bytes, d, i, DecodeArgs(cfg, bytes, d, FormatOf(cfg, i.code), Packed(i.args)))
  {
    hide ArgsOutcome, Holds, EncodeArgs, Packed, DecodeArgs;
    match i.args
    case Delta(n) => PackedDecoded(cfg, bytes, d, i);
    case SmallOffset(reg, n) => PackedDecoded(cfg, bytes, d, i);
    case SmallReg(reg) => PackedDecoded(cfg, bytes, d, i);
    case Nothing => PackedDecoded(cfg, bytes, d, i);
    case Num(n) => NumberDecoded(cfg, bytes, d, i);
    case Int(s) => NumberDecoded(cfg, bytes, d, i);
    case OneReg(reg) => RegDecoded(cfg, bytes, d, i);
    case RegNum(reg, n) => RegNumDecoded(cfg, bytes, d, i);
    case RegInt(reg, s) => RegIntDecoded(cfg, bytes, d, i);
    case RegBytes(reg, block) => RegBlockDecoded(cfg, bytes, d, i);
    case Bytes(block) => BlockDecoded(cfg, bytes, d, i);
  }

  lemma PackedDecoded(cfg: Config, bytes: seq<Byte>, d: Decoded, i: Instr)
    requires Started(cfg, bytes, d, i)
    requires i.args.Delta? || i.args.SmallOffset? || i.args.SmallReg? || i.args.Nothing?
    ensures ArgsOutcome(cfg, bytes, d, i, DecodeArgs(cfg, bytes, d, FormatOf(cfg, i.code), Packed(i.args)))
  {
    hide WithFactored, EncodeUleb;
    if i.args.SmallOffset? {
      FactoredReads(cfg, bytes, d.(op := d.op.(reg := i.args.reg)), i.args.n);
    }
  }

  lemma NumberDecoded(cfg: Config, bytes: seq<Byte>, d: Decoded, i: Instr)
    requires Started(cfg, bytes, d, i) && (i.args.Num? || i.args.Int?)
    ensures ArgsOutcome(cfg, bytes, d, i, DecodeArgs(cfg, bytes, d, FormatOf(cfg, i.code), Packed(i.args)))
  {
    hide WithUnsigned, WithSigned, ReadFixed, EncodeUleb, EncodeSleb, EncodeFixed;
    if i.args.Int? {
      SignedReads(cfg, bytes, d, i.args.s);
    } else if DwarfFormat(cfg, i.code).Number? {
      FixedReads(bytes, d.next, i.args.n, DwarfFormat(cfg, i.code).bytes, cfg.bigEndian);
      FixedRoundTrip(i.args.n, DwarfFormat(cfg, i.code).bytes, cfg.bigEndian);
    } else {
      UnsignedReads(cfg, bytes, d, i.args.n);
    }
  }

  lemma RegDecoded(cfg: Config, bytes: seq<Byte>, d: Decoded, i: Instr)
    requires Started(cfg, bytes, d, i) && i.args.OneReg?
    ensures ArgsOutcome(cfg, bytes, d, i, DecodeArgs(cfg, bytes, d, FormatOf(cfg, i.code), Packed(i.args)))
  {
    hide WithReg, EncodeUleb;
    RegReads(cfg, bytes, d, i.args.reg);
  }

  lemma RegNumDecoded(cfg: Config, bytes: seq<Byte>, d: Decoded, i: Instr)
    requires Started(cfg, bytes, d, i) && i.args.RegNum?
    ensures ArgsOutcome(cfg, bytes, d, i, DecodeArgs(cfg, bytes, d, FormatOf(cfg, i.code), Packed(i.args)))
  {
    hide WithReg, WithUnsigned, WithFactored, WithSigned, EncodeUleb, Holds, ReadableAsSleb;
    var reg, n := i.args.reg, i.args.n;
    HoldsBoth(bytes, d.next, EncodeUleb(reg), EncodeUleb(n));
    RegReads(cfg, bytes, d, reg);
    var e := Decoded(d.op.(reg := reg % 65536), d.next + |EncodeUleb(reg)|);
    if i.code == VAL_OFFSET {
      ValOffsetReads(cfg, bytes, e, n);
    } else if DwarfFormat(cfg, i.code) == RegFactored {
      FactoredReads(cfg, bytes, e, n);
    } else {
      UnsignedReads(cfg, bytes, e, n);
    }
  }

  lemma RegIntDecoded(cfg: Config, bytes: seq<Byte>, d: Decoded, i: Instr)
    requires Started(cfg, bytes, d, i) && i.args.RegInt?
    ensures ArgsOutcome(cfg, bytes, d, i, DecodeArgs(cfg, bytes, d, FormatOf(cfg, i.code), Packed(i.args)))
  {
    hide WithReg, WithFactored, WithSigned, EncodeUleb, EncodeSleb, Holds, ReadableAsUleb;
    var reg, s := i.args.reg, i.args.s;
    HoldsBoth(bytes, d.next, EncodeUleb(reg), EncodeSleb(s));
    RegReads(cfg, bytes, d, reg);
    var e := Decoded(d.op.(reg := reg % 65536), d.next + |EncodeUleb(reg)|);
    if i.code == VAL_OFFSET_SF {
      ValOffsetSfReads(cfg, bytes, e, s);
    } else {
      SignedReads(cfg, bytes, e, s);
    }
  }

  lemma U64OfLength(block: seq<Byte>)
    ensures |block| < TWO64 ==> U64(|block|) == |block|
  {
  }

  lemma BlockDecoded(cfg: Config, bytes: seq<Byte>, d: Decoded, i: Instr)
    requires Started(cfg, bytes, d, i) && i.args.Bytes?
    ensures ArgsOutcome(cfg, bytes, d, i, DecodeArgs(cfg, bytes, d, FormatOf(cfg, i.code), Packed(i.args)))
  {
    hide WithReg, WithBlock, EncodeUleb, U64, IsConfig;
    U64OfLength(i.args.block);
    BlockReads(cfg, bytes, d, i.args.block);
  }

  lemma RegBlockDecoded(cfg: Config, bytes: seq<Byte>, d: Decoded, i: Instr)
    requires Started(cfg, bytes, d, i) && i.args.RegBytes?
    ensures ArgsOutcome(cfg, bytes, d, i, DecodeArgs(cfg, bytes, d, FormatOf(cfg, i.code), Packed(i.args)))
  {
    hide WithReg, WithBlock, EncodeUleb, U64, IsConfig;
    var reg, block := i.args.reg, i.args.block;
    U64OfLength(block);
    HoldsBoth(bytes, d.next, EncodeUleb(reg), EncodeUleb(|block|) + block);
    RegReads(cfg, bytes, d, reg);
    BlockReads(cfg, bytes, Decoded(d.op.(reg := reg % 65536), d.next + |EncodeUleb(reg)|), block);
  }

  /** Decoding an encoded instruction consumes its bytes, or fails; it gives the instruction back exactly
      when its operands are readable. */
  lemma DecodeEncoded(cfg: Config, bytes: seq<Byte>, pos: nat, i: Instr)
    requires IsConfig(cfg) && WellFormed(cfg, i) && Holds(bytes, pos, Encode(cfg, i)) && pos < |bytes|
    ensures var r := Decode(cfg, bytes, pos);
            && (r.Some? ==> r.value.next == pos + |Encode(cfg, i)|)
            && (r.Some? && Decodes(cfg, bytes, r.value.op, i) <==> Readable(cfg, i))
  {
    hide IsConfig, EncodeArgs, DecodeArgs, Readable, Decodes, WellFormed, FormatOf;
    Opcode(cfg, i);
    HoldsBoth(bytes, pos, [i.code + Packed(i.args)], EncodeArgs(cfg, i.code, i.args));
    assert bytes[pos] == bytes[pos..pos + 1][0];
    var d := Decoded(FrameOp(i.code / 64, i.code % 64, 0, 0, None), pos + 1);
    ArgsDecoded(cfg, bytes, d, i);
    if bytes[pos] < 64 { LowUnused(cfg, bytes, d, i, bytes[pos] % 64); }
  }

  lemma LowUnused(cfg: Config, bytes: seq<Byte>, d: Decoded, i: Instr, low: nat)
    requires IsConfig(cfg) && WellFormed(cfg, i) && i.code < 64
    ensures DecodeArgs(cfg, bytes, d, FormatOf(cfg, i.code), low)
              == DecodeArgs(cfg, bytes, d, FormatOf(cfg, i.code), Packed(i.args))
  {
  }

  ghost predicate AllDecode(cfg: Config, bytes: seq<Byte>, ops: seq<FrameOp>, instrs: seq<Instr>) {
    |ops| == |instrs| && forall k :: 0 <= k < |ops| ==> Decodes(cfg, bytes, ops[k], instrs[k])
  }

  /** Parsing the encoding of an instruction list gives the list back, and consumes all the bytes, exactly
      when every operand in it is readable. */
  lemma {:induction false} ParseEncoded(cfg: Config, bytes: seq<Byte>, pos: nat, instrs: seq<Instr>)
    requires IsConfig(cfg) && forall k :: 0 <= k < |instrs| ==> WellFormed(cfg, instrs[k])
    requires Holds(bytes, pos, EncodeAll(cfg, instrs)) && pos + |EncodeAll(cfg, instrs)| == |bytes|
    ensures var r := Parse(cfg, bytes, pos);
            && (r.Some? ==> |r.value| == |instrs|)
            && (r.Some? && AllDecode(cfg, bytes, r.value, instrs)
                <==> forall k :: 0 <= k < |instrs| ==> Readable(cfg, instrs[k]))
    decreases |instrs|
  {
    hide IsConfig, Decode, Decodes, Readable, WellFormed, Encode, Holds;
    if instrs == [] {
      assert Parse(cfg, bytes, pos) == Some([]);
    } else {
      var first, rest := instrs[0], instrs[1..];
      HoldsBoth(bytes, pos, Encode(cfg, first), EncodeAll(cfg, rest));
      EncodeNotEmpty(cfg, first);
      DecodeEncoded(cfg, bytes, pos, first);
      var d := Decode(cfg, bytes, pos);
      if d.Some? {
        ParseEncoded(cfg, bytes, d.value.next, rest);
        var r := Parse(cfg, bytes, d.value.next);
        if r.Some? { AllDecodeCons(cfg, bytes, d.value.op, r.value, instrs); }
      }
      AllReadableCons(cfg, instrs);
    }
  }

  lemma EncodeNotEmpty(cfg: Config, i: Instr)
    requires WellFormed(cfg, i)
    ensures |Encode(cfg, i)| > 0
  {
  }

  lemma AllDecodeCons(cfg: Config, bytes: seq<Byte>, op: FrameOp, ops: seq<FrameOp>, instrs: seq<Instr>)
    requires instrs != []
    ensures AllDecode(cfg, bytes, [op] + ops, instrs)
            <==> Decodes(cfg, bytes, op, instrs[0]) && AllDecode(cfg, bytes, ops, instrs[1..])
  {
    hide Decodes;
    var all := [op] + ops;
    if AllDecode(cfg, bytes, all, instrs) {
      assert Decodes(cfg, bytes, all[0], instrs[0]);
      forall k | 0 <= k < |ops| ensures Decodes(cfg, bytes, ops[k], instrs[1..][k]) {
        assert Decodes(cfg, bytes, all[k + 1], instrs[k + 1]);
      }
    }
    if Decodes(cfg, bytes, op, instrs[0]) && AllDecode(cfg, bytes, ops, instrs[1..]) {
      forall k | 0 <= k < |all| ensures Decodes(cfg, bytes, all[k], instrs[k]) {
        if k > 0 { assert Decodes(cfg, bytes, ops[k - 1], instrs[1..][k - 1]); }
      }
    }
  }

  lemma AllReadableCons(cfg: Config, instrs: seq<Instr>)
    requires IsConfig(cfg) && instrs != []
    ensures (forall k :: 0 <= k < |instrs| ==> Readable(cfg, instrs[k]))
            <==> Readable(cfg, instrs[0]) && forall k :: 0 <= k < |instrs[1..]| ==> Readable(cfg, instrs[1..][k])
  {
    hide Readable;
    var rest := instrs[1..];
    if Readable(cfg, instrs[0]) && forall k :: 0 <= k < |rest| ==> Readable(cfg, rest[k]) {
      forall k | 0 <= k < |instrs| ensures Readable(cfg, instrs[k]) {
        if k > 0 { assert Readable(cfg, rest[k - 1]); }
      }
    }
  }

  // ---- The parser ----

  /** Reads one instruction at pos. */
  method DecodeOne(cfg: Config, bytes: seq<Byte>, pos: nat) returns (r: Option<Decoded>)
    requires IsConfig(cfg) && pos < |bytes|
    ensures r == Decode(cfg, bytes, pos)
  {
    hide Uleb, Sleb, ReadFixed;
    var b := bytes[pos];
    var f := FormatOf(cfg, if b >= 64 then b / 64 * 64 else b);
    var op, next := FrameOp(b / 64, if b < 64 then b else 0, 0, 0, None), pos + 1;
    if f == PackedOffset || f == PackedReg {
      op := op.(reg := b % 64);
    } else if f == Reg || f == RegUnsigned || f == RegFactored || f == RegSigned || f == RegBlock {
      var u := ReadUleb128(cfg.width, bytes, next);
      if u.None? {
        return None;
      }
      op, next := op.(reg := u.value.value % 65536), u.value.next;
    }
    if f == PackedDelta {
      op := op.(off := b % 64);
    } else if f.Number? {
      var n := ReadFixed(bytes, next, f.bytes, cfg.bigEndian);
      if n.None? {
        return None;
      }
      op, next := op.(off := U64(n.value.value)), n.value.next;
    } else if f == RegSigned || f == Signed {
      var s := ReadSleb128(cfg.width, bytes, next);
      if s.None? || !InSigned(cfg.dataAlign * s.value.value) {
        return None;
      }
      op, next := op.(off := U64(cfg.dataAlign * s.value.value)), s.value.next;
    } else if f == PackedOffset || f == RegFactored {
      var u := ReadUleb128(cfg.width, bytes, next);
      if u.None? {
        return None;
      }
      op, next := op.(off := U64(cfg.dataAlign * u.value.value)), u.value.next;
      if f == PackedOffset && cfg.dataAlign < 0 && AsSigned(op.off) > 0 {
        return None;
      }
    } else if f == RegUnsigned || f == Unsigned || f == RegBlock || f == Block {
      var u := ReadUleb128(cfg.width, bytes, next);
      if u.None? {
        return None;
      }
      op, next := op.(off := U64(u.value.value)), u.value.next;
      if f == RegBlock || f == Block {
        op, next := op.(blockAt := Some(next)), next + op.off;
      }
    } else if f == Unsupported {
      return None;
    }
    return Some(Decoded(op, next));
  }

  /** Parses a whole instruction list; none where the parser has no defined result. */
  method ParseInstrs(cfg: Config, bytes: seq<Byte>) returns (r: Option<seq<FrameOp>>)
    requires IsConfig(cfg)
    ensures r == Parse(cfg, bytes, 0)
  {
    hide Decode, IsConfig;
    var ops, pos := [], 0;
    AfterIsAssociative([], [], Parse(cfg, bytes, 0));
    while pos < |bytes|
      invariant Parse(cfg, bytes, 0) == After(ops, Parse(cfg, bytes, pos))
      decreases |bytes| - pos
    {
      var d := DecodeOne(cfg, bytes, pos);
      if d.None? {
        return None;
      }
      DecodeAdvances(cfg, bytes, pos);
      AfterIsAssociative(ops, [d.value.op], Parse(cfg, bytes, d.value.next));
      ops, pos := ops + [d.value.op], d.value.next;
    }
    AfterIsAssociative(ops, [], None);
    return Some(ops);
  }
}
