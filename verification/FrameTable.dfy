/** Interpreting call-frame instructions into a table of unwind rules by address, and what sections 6.4.2
    and 6.4.3 of DWARF 4 say the rules at an address are. */
module FrameTable {
  import opened Wrappers
  import opened Leb128
  import opened FrameInstrs

  // ---- Register definitions ----

  datatype Kind =
    | INDETERMINATE | UNDEF | SAMEVALUE | SAVED_AT_OFFSET_FROM_CFA | VAL_IS_OFFSET_FROM_CFA | REG | SAVED_AT_EXPR
    | VAL_OF_EXPR

  /** The value has all the fields at once: only the kind says which one counts. */
  datatype RegisterDef = RegisterDef(kind: Kind, savedAtOffset: int, valIsOffset: int, regPlusOffset: (int, int),
                                     savedAtExpr: seq<Byte>, valOfExpr: seq<Byte>)

  type Defs = map<int, RegisterDef>

  const BLANK := RegisterDef(INDETERMINATE, 0, 0, (0, 0), [], [])

  /** The column of the canonical frame address. */
  const CFA := 1436

  function DefOf(defs: Defs, r: int): RegisterDef {
    if r in defs then defs[r] else BLANK
  }

  /** Equality of definitions as coded: those of kinds without a value to compare never are. */
  predicate DefEq(a: RegisterDef, b: RegisterDef) {
    && a.kind == b.kind
    && match a.kind
       case UNDEF => true
       case SAVED_AT_OFFSET_FROM_CFA => a.savedAtOffset == b.savedAtOffset
       case VAL_IS_OFFSET_FROM_CFA => a.valIsOffset == b.valIsOffset
       case REG => a.regPlusOffset == b.regPlusOffset
       case SAVED_AT_EXPR => a.savedAtExpr == b.savedAtExpr
       case VAL_OF_EXPR => a.valOfExpr == b.valOfExpr
       case _ => false
  }

  predicate DefsEq(a: Defs, b: Defs) {
    a.Keys == b.Keys && forall r :: r in a ==> DefEq(a[r], b[r])
  }

  // ---- The interval map of rows ----

  datatype Row = Row(lo: nat, hi: nat, defs: Defs)

  /** Adds a row after the others. An empty row is not stored, and an equal one is joined. */
  function AddRow(rows: seq<Row>, lo: nat, hi: nat, defs: Defs): seq<Row> {
    if lo >= hi || defs == map[] then rows
    else if rows != [] && rows[|rows| - 1].hi == lo && DefsEq(rows[|rows| - 1].defs, defs) then
      rows[..|rows| - 1] + [rows[|rows| - 1].(hi := hi)]
    else rows + [Row(lo, hi, defs)]
  }

  /** Rows are in order, do not overlap, and lie between the two addresses. */
  ghost predicate RowsWithin(rows: seq<Row>, from: nat, to: nat) {
    && (forall i :: 0 <= i < |rows| ==> from <= rows[i].lo < rows[i].hi <= to)
    && (forall i, j :: 0 <= i < j < |rows| ==> rows[i].hi <= rows[j].lo)
  }

  /** The definitions at an address; none if no row has it. */
  function Lookup(rows: seq<Row>, a: nat): Defs {
    if rows == [] then map[]
    else if rows[|rows| - 1].lo <= a < rows[|rows| - 1].hi then rows[|rows| - 1].defs
    else Lookup(rows[..|rows| - 1], a)
  }

  // ---- Executing instructions ----

  datatype Results = Results(rows: seq<Row>, unfinishedRow: Defs, unfinishedAddr: nat)

  datatype Working = Working(defs: Defs, remembered: seq<Defs>)

  function CodeOf(op: FrameOp): nat { op.base * 64 + op.extended }

  predicate IsAdvance(op: FrameOp) {
    var c := CodeOf(op);
    c == SET_LOC || c == ADVANCE_LOC || c == ADVANCE_LOC1 || c == ADVANCE_LOC2 || c == ADVANCE_LOC4
  }

  /** Where the next row begins, in 64-bit arithmetic. */
  function NewRowAddr(op: FrameOp, current: nat): nat {
    if CodeOf(op) == SET_LOC then op.off else U64(current + op.off)
  }

  /** Conversion of an unsigned 64-bit number to an int. */
  function ToInt(u: nat): int {
    var low := u % 0x1_0000_0000;
    if low >= 0x8000_0000 then low - 0x1_0000_0000 else low
  }

  function BlockOf(bytes: seq<Byte>, op: FrameOp): Option<seq<Byte>> {
    if op.blockAt.None? || op.blockAt.value + op.off > |bytes| then None
    else Some(bytes[op.blockAt.value..op.blockAt.value + op.off])
  }

  predicate HasBlock(op: FrameOp) {
    CodeOf(op) == DEF_CFA_EXPRESSION || CodeOf(op) == EXPRESSION || CodeOf(op) == VAL_EXPRESSION
  }

  /** The definition that a register had after the initial instructions. */
  function PreviousDef(initial: Results, r: int, current: nat): Option<RegisterDef> {
    if r in initial.unfinishedRow then Some(initial.unfinishedRow[r])
    else if r in Lookup(initial.rows, current) then Some(Lookup(initial.rows, current)[r])
    else None
  }

  /** One instruction that makes no row. None where the interpreter asserts. */
  function Execute(bytes: seq<Byte>, op: FrameOp, w: Working, initial: Option<Results>, current: nat): Option<Working> {
    var c := CodeOf(op);
    var defs := w.defs;
    var r := op.reg;
    if HasBlock(op) && BlockOf(bytes, op).None? then None
    else if c == DEF_CFA || c == DEF_CFA_SF then
      Some(w.(defs := defs[CFA := DefOf(defs, CFA).(kind := REG, regPlusOffset := (r, ToInt(op.off)))]))
    else if c == DEF_CFA_REGISTER then
      if CFA !in defs then None
      else Some(w.(defs := defs[CFA := defs[CFA].(kind := REG, regPlusOffset := (r, defs[CFA].regPlusOffset.1))]))
    else if c == DEF_CFA_OFFSET || c == DEF_CFA_OFFSET_SF then
      if CFA !in defs then None
      else Some(w.(defs := defs[CFA := defs[CFA].(kind := REG,
                                                  regPlusOffset := (defs[CFA].regPlusOffset.0, ToInt(op.off)))]))
    else if c == DEF_CFA_EXPRESSION then
      Some(w.(defs := defs[CFA := DefOf(defs, CFA).(kind := SAVED_AT_EXPR, savedAtExpr := BlockOf(bytes, op).value)]))
    else if c == UNDEFINED then Some(w.(defs := defs[r := DefOf(defs, r).(kind := UNDEF)]))
    else if c == SAME_VALUE then Some(w.(defs := defs[r := DefOf(defs, r).(kind := SAMEVALUE)]))
    else if c == OFFSET || c == OFFSET_EXTENDED || c == OFFSET_EXTENDED_SF then
      Some(w.(defs := defs[r := DefOf(defs, r).(kind := SAVED_AT_OFFSET_FROM_CFA, savedAtOffset := ToInt(op.off))]))
    else if c == VAL_OFFSET || c == VAL_OFFSET_SF then
      Some(w.(defs := defs[r := DefOf(defs, r).(kind := VAL_IS_OFFSET_FROM_CFA, valIsOffset := ToInt(op.off))]))
    else if c == REGISTER then
      Some(w.(defs := defs[r := DefOf(defs, r).(kind := REG, regPlusOffset := (ToInt(op.off), 0))]))
    else if c == EXPRESSION then
      Some(w.(defs := defs[r := DefOf(defs, r).(kind := SAVED_AT_EXPR, savedAtExpr := BlockOf(bytes, op).value)]))
    else if c == VAL_EXPRESSION then
      Some(w.(defs := defs[r := DefOf(defs, r).(kind := VAL_OF_EXPR, valOfExpr := BlockOf(bytes, op).value)]))
    else if c == RESTORE || c == RESTORE_EXTENDED then
      if initial.None? then None
      else
        var previous := PreviousDef(initial.value, r, current);
        Some(w.(defs := defs[r := if previous.Some? then previous.value else BLANK]))
    else if c == RESTORE_STATE then
      if w.remembered == [] then None
      else Some(Working(w.remembered[|w.remembered| - 1], w.remembered[..|w.remembered| - 1]))
    else if c == REMEMBER_STATE then Some(w.(remembered := w.remembered + [defs]))
    else if c == NOP || c == GNU_ARGS_SIZE then Some(w)
    else None
  }

  // ---- What the instructions mean ----

  /** The rule for a register or for the frame address; a register without one has the default rule. */
  datatype Rule =
    | Undefined | SameValue | SavedAt(off: int) | ValueIs(off: int) | InRegister(reg: int, off: int)
    | SavedAtExpr(expr: seq<Byte>) | ValueOfExpr(expr: seq<Byte>)

  type Rules = map<int, Rule>

  datatype Machine = Machine(rules: Rules, remembered: seq<Rules>, loc: nat)

  /** Section 6.4.2: the effect of an instruction other than an advance. Changing the register or the offset
      of the frame address is valid only if it is now a register plus an offset; restoring a register, only
      after the initial instructions. */
  function Effect(bytes: seq<Byte>, op: FrameOp, m: Machine, initial: Option<Rules>): Option<Machine> {
    var c := CodeOf(op);
    var r := op.reg;
    var off := AsSigned(op.off);
    if HasBlock(op) && BlockOf(bytes, op).None? then None
    else if c == DEF_CFA || c == DEF_CFA_SF then Some(m.(rules := m.rules[CFA := InRegister(r, off)]))
    else if c == DEF_CFA_REGISTER then
      if CFA !in m.rules || !m.rules[CFA].InRegister? then None
      else Some(m.(rules := m.rules[CFA := InRegister(r, m.rules[CFA].off)]))
    else if c == DEF_CFA_OFFSET || c == DEF_CFA_OFFSET_SF then
      if CFA !in m.rules || !m.rules[CFA].InRegister? then None
      else Some(m.(rules := m.rules[CFA := InRegister(m.rules[CFA].reg, off)]))
    else if c == DEF_CFA_EXPRESSION then Some(m.(rules := m.rules[CFA := SavedAtExpr(BlockOf(bytes, op).value)]))
    else if c == RESTORE || c == RESTORE_EXTENDED then
      if initial.None? then None
      else if r in initial.value then Some(m.(rules := m.rules[r := initial.value[r]]))
      else Some(m.(rules := m.rules - {r}))
    else if c == RESTORE_STATE then
      if m.remembered == [] then None
      else Some(m.(rules := m.remembered[|m.remembered| - 1], remembered := m.remembered[..|m.remembered| - 1]))
    else if c == REMEMBER_STATE then Some(m.(remembered := m.remembered + [m.rules]))
    else if c == NOP || c == GNU_ARGS_SIZE then Some(m)
    else
      var rule := RegisterRule(bytes, op);
      if rule.None? then None else Some(m.(rules := m.rules[r := rule.value]))
  }

  function RegisterRule(bytes: seq<Byte>, op: FrameOp): Option<Rule>
    requires HasBlock(op) ==> BlockOf(bytes, op).Some?
  {
    var c := CodeOf(op);
    var off := AsSigned(op.off);
    if c == UNDEFINED then Some(Undefined)
    else if c == SAME_VALUE then Some(SameValue)
    else if c == OFFSET || c == OFFSET_EXTENDED || c == OFFSET_EXTENDED_SF then Some(SavedAt(off))
    else if c == VAL_OFFSET || c == VAL_OFFSET_SF then Some(ValueIs(off))
    else if c == REGISTER then Some(InRegister(off, 0))
    else if c == EXPRESSION then Some(SavedAtExpr(BlockOf(bytes, op).value))
    else if c == VAL_EXPRESSION then Some(ValueOfExpr(BlockOf(bytes, op).value))
    else None
  }

  /** Section 6.4.2.1, for a code alignment factor: an advance must go forward. */
  function NextLoc(op: FrameOp, loc: nat, factor: nat): nat {
    if CodeOf(op) == SET_LOC then op.off else loc + op.off * factor
  }

  predicate GoesForward(op: FrameOp, loc: nat, factor: nat) {
    loc < NextLoc(op, loc, factor) < TWO64
  }

  /** The machine after all the instructions from the k-th on; none if one is not valid. */
  function RunAll(bytes: seq<Byte>, ops: seq<FrameOp>, k: nat, m: Machine, initial: Option<Rules>,
                  factor: nat): Option<Machine>
    requires k <= |ops|
    decreases |ops| - k
  {
    if k == |ops| then Some(m)
    else if IsAdvance(ops[k]) then
      if GoesForward(ops[k], m.loc, factor) then
        RunAll(bytes, ops, k + 1, m.(loc := NextLoc(ops[k], m.loc, factor)), initial, factor)
      else None
    else
      var n := Effect(bytes, ops[k], m, initial);
      if n.None? then None else RunAll(bytes, ops, k + 1, n.value, initial, factor)
  }

  /** Section 6.4.3: the rules at an address are those that hold when an advance would go past it. */
  function RulesAt(bytes: seq<Byte>, ops: seq<FrameOp>, k: nat, m: Machine, initial: Option<Rules>, factor: nat,
                   a: nat): Option<Rules>
    requires k <= |ops|
    decreases |ops| - k
  {
    if k == |ops| then Some(m.rules)
    else if IsAdvance(ops[k]) then
      if NextLoc(ops[k], m.loc, factor) > a then Some(m.rules)
      else RulesAt(bytes, ops, k + 1, m.(loc := NextLoc(ops[k], m.loc, factor)), initial, factor, a)
    else
      var n := Effect(bytes, ops[k], m, initial);
      if n.None? then None else RulesAt(bytes, ops, k + 1, n.value, initial, factor, a)
  }

  // ---- The definitions stand for rules ----

  function RuleOf(d: RegisterDef): Rule
    requires d.kind != INDETERMINATE
  {
    match d.kind
    case UNDEF => Undefined
    case SAMEVALUE => SameValue
    case SAVED_AT_OFFSET_FROM_CFA => SavedAt(d.savedAtOffset)
    case VAL_IS_OFFSET_FROM_CFA => ValueIs(d.valIsOffset)
    case REG => InRegister(d.regPlusOffset.0, d.regPlusOffset.1)
    case SAVED_AT_EXPR => SavedAtExpr(d.savedAtExpr)
    case VAL_OF_EXPR => ValueOfExpr(d.valOfExpr)
  }

  /** An indeterminate definition is no rule. */
  ghost predicate Means(defs: Defs, rules: Rules) {
    && (forall r :: r in rules <==> r in defs && defs[r].kind != INDETERMINATE)
    && (forall r :: r in rules ==> rules[r] == RuleOf(defs[r]))
  }

  ghost predicate AllMean(s: seq<Defs>, t: seq<Rules>) {
    |s| == |t| && forall k :: 0 <= k < |s| ==> Means(s[k], t[k])
  }

  /** An offset that an int can hold. */
  predicate FitsInt(op: FrameOp) {
    op.off < TWO64 && -0x8000_0000 <= AsSigned(op.off) < 0x8000_0000
  }

  lemma ToIntIsExact(u: nat)
    requires u < TWO64
    ensures ToInt(u) == AsSigned(u) <==> -0x8000_0000 <= AsSigned(u) < 0x8000_0000
  {
  }

  predicate HasOffset(op: FrameOp) { !IsAdvance(op) && !HasBlock(op) }

  ghost predicate OffsetsFit(ops: seq<FrameOp>) {
    forall k :: 0 <= k < |ops| && HasOffset(ops[k]) ==> FitsInt(ops[k])
  }

  /** The offset as an int keeps it. */
  function Narrow(op: FrameOp): FrameOp { if HasOffset(op) then op.(off := U64(ToInt(op.off))) else op }

  function AsStored(ops: seq<FrameOp>): (r: seq<FrameOp>)
    ensures |r| == |ops| && forall k :: 0 <= k < |ops| ==> r[k] == Narrow(ops[k])
  {
    seq(|ops|, k requires 0 <= k < |ops| => Narrow(ops[k]))
  }

  lemma NarrowFits(op: FrameOp)
    ensures HasOffset(op) ==> FitsInt(Narrow(op))
    ensures Narrow(op) == op <==> (HasOffset(op) ==> FitsInt(op))
  {
    hide IsAdvance, HasBlock;
    var d := ToInt(op.off);
    assert AsSigned(U64(d)) == d;
  }

  /** The instructions are stored as they are exactly when the offsets fit. */
  lemma AsStoredIff(ops: seq<FrameOp>)
    ensures OffsetsFit(AsStored(ops))
    ensures AsStored(ops) == ops <==> OffsetsFit(ops)
  {
    hide FitsInt, HasOffset, Narrow;
    forall k | 0 <= k < |ops|
      ensures HasOffset(AsStored(ops)[k]) ==> FitsInt(AsStored(ops)[k])
      ensures AsStored(ops)[k] == ops[k] <==> (HasOffset(ops[k]) ==> FitsInt(ops[k]))
    {
      NarrowFits(ops[k]);
      NarrowKind(ops[k]);
    }
    if OffsetsFit(ops) { assert AsStored(ops) == ops; }
  }

  lemma NarrowKind(op: FrameOp)
    ensures CodeOf(Narrow(op)) == CodeOf(op) && HasOffset(Narrow(op)) == HasOffset(op)
    ensures IsAdvance(Narrow(op)) == IsAdvance(op)
    ensures IsAdvance(op) ==> Narrow(op) == op
  {
    hide ToInt, U64;
  }

  lemma NarrowExecutes(bytes: seq<Byte>, op: FrameOp, w: Working, initial: Option<Results>, current: nat)
    ensures Execute(bytes, op, w, initial, current) == Execute(bytes, Narrow(op), w, initial, current)
  {
    hide PreviousDef, BlockOf, ToInt, U64;
    assert ToInt(U64(ToInt(op.off))) == ToInt(op.off) by { Twice(op.off); }
  }

  lemma Twice(u: nat)
    ensures ToInt(U64(ToInt(u))) == ToInt(u)
  {
  }

  lemma MeansUpdate(defs: Defs, rules: Rules, r: int, d: RegisterDef)
    requires Means(defs, rules) && d.kind != INDETERMINATE
    ensures Means(defs[r := d], rules[r := RuleOf(d)])
  {
  }

  ghost predicate Stands(w: Working, m: Machine) {
    Means(w.defs, m.rules) && AllMean(w.remembered, m.remembered)
  }

  /** The initial results stand for the initial rules, and lie before the current address. */
  ghost predicate InitialMeans(initial: Option<Results>, rules: Option<Rules>, current: nat) {
    && (initial.Some? <==> rules.Some?)
    && (initial.Some? ==>
          && Means(initial.value.unfinishedRow, rules.value)
          && RowsWithin(initial.value.rows, 0, initial.value.unfinishedAddr)
          && initial.value.unfinishedAddr <= current)
  }

  lemma {:induction false} LookupAbove(rows: seq<Row>, from: nat, to: nat, a: nat)
    requires RowsWithin(rows, from, to) && (a < from || to <= a)
    ensures Lookup(rows, a) == map[]
  {
    if rows != [] { LookupAbove(rows[..|rows| - 1], from, to, a); }
  }

  /** What an instruction does to the definitions is what it means for the rules. In restoring a register,
      the rows of the initial instructions never matter. */
  lemma ExecuteMeans(bytes: seq<Byte>, op: FrameOp, w: Working, initial: Option<Results>, current: nat, m: Machine,
                     rules: Option<Rules>)
    requires Stands(w, m) && InitialMeans(initial, rules, current)
    requires Effect(bytes, op, m, rules).Some? && !IsAdvance(op) && (HasOffset(op) ==> FitsInt(op))
    ensures Execute(bytes, op, w, initial, current).Some?
    ensures Stands(Execute(bytes, op, w, initial, current).value, Effect(bytes, op, m, rules).value)
    ensures Effect(bytes, op, m, rules).value.loc == m.loc
  {
    hide Means, RowsWithin, BlockOf, ToInt, AsSigned;
    var c, r, defs := CodeOf(op), op.reg, w.defs;
    if c == REMEMBER_STATE || c == RESTORE_STATE || c == NOP || c == GNU_ARGS_SIZE {
    } else if c == RESTORE || c == RESTORE_EXTENDED {
      RestoreMeans(w, initial.value, current, r, m.rules, rules.value);
    } else {
      SetMeans(bytes, op, w, initial, current, m, rules);
    }
  }

  lemma RestoreMeans(w: Working, initial: Results, current: nat, r: int, rules: Rules, initialRules: Rules)
    requires Means(w.defs, rules) && InitialMeans(Some(initial), Some(initialRules), current)
    ensures var previous := PreviousDef(initial, r, current);
            Means(w.defs[r := if previous.Some? then previous.value else BLANK],
                  if r in initialRules then rules[r := initialRules[r]] else rules - {r})
  {
    LookupAbove(initial.rows, 0, initial.unfinishedAddr, current);
  }

  /** An instruction that defines a register or the frame address. */
  lemma SetMeans(bytes: seq<Byte>, op: FrameOp, w: Working, initial: Option<Results>, current: nat, m: Machine,
                 rules: Option<Rules>)
    requires Stands(w, m) && Effect(bytes, op, m, rules).Some? && !IsAdvance(op) && (HasOffset(op) ==> FitsInt(op))
    requires var c := CodeOf(op);
             c != REMEMBER_STATE && c != RESTORE_STATE && c != NOP && c != GNU_ARGS_SIZE && c != RESTORE
                                  && c != RESTORE_EXTENDED
    ensures Execute(bytes, op, w, initial, current).Some?
    ensures Stands(Execute(bytes, op, w, initial, current).value, Effect(bytes, op, m, rules).value)
    ensures Effect(bytes, op, m, rules).value.loc == m.loc
  {
    hide AllMean, BlockOf, ToInt, AsSigned;
    if op.off < TWO64 { ToIntIsExact(op.off); }
    var c := CodeOf(op);
    var r := if c == DEF_CFA || c == DEF_CFA_SF || c == DEF_CFA_REGISTER || c == DEF_CFA_OFFSET
      || c == DEF_CFA_OFFSET_SF
                || c == DEF_CFA_EXPRESSION then CFA else op.reg;
    var after := Execute(bytes, op, w, initial, current).value.defs;
    MeansUpdate(w.defs, m.rules, r, after[r]);
  }

  // ---- Adding rows ----

  lemma AddRowWithin(rows: seq<Row>, from: nat, lo: nat, hi: nat, defs: Defs)
    requires RowsWithin(rows, from, lo) && from <= lo
    ensures RowsWithin(AddRow(rows, lo, hi, defs), from, if lo < hi then hi else lo)
  {
  }

  lemma DefsEqMeans(a: Defs, b: Defs, rules: Rules)
    requires DefsEq(a, b) && Means(b, rules)
    ensures Means(a, rules)
  {
  }

  lemma AddRowLookup(rows: seq<Row>, from: nat, lo: nat, hi: nat, defs: Defs, a: nat, rules: Rules)
    requires RowsWithin(rows, from, lo) && from <= lo
    ensures lo <= a < hi && Means(defs, rules) ==> Means(Lookup(AddRow(rows, lo, hi, defs), a), rules)
    ensures !(lo <= a < hi) ==> Lookup(AddRow(rows, lo, hi, defs), a) == Lookup(rows, a)
  {
    hide Means;
    if lo <= a { LookupAbove(rows, from, lo, a); }
    if lo < hi && defs != map[] {
      if rows != [] && rows[|rows| - 1].hi == lo && DefsEq(rows[|rows| - 1].defs, defs) {
        JoinedLookup(rows, lo, hi, a);
        if Means(defs, rules) { DefsEqMeans(rows[|rows| - 1].defs, defs, rules); }
      } else {
        assert (rows + [Row(lo, hi, defs)])[..|rows|] == rows;
      }
    }
  }

  /** The same registers with the same rules, none of them a rule that never compares equal. */
  ghost predicate SameRules(a: Defs, b: Defs) {
    && a.Keys == b.Keys
    && forall r :: r in a ==> a[r].kind != INDETERMINATE && a[r].kind != SAMEVALUE && b[r].kind != INDETERMINATE
                              && RuleOf(a[r]) == RuleOf(b[r])
  }

  /** No row is without definitions, and none has the rules of the row that it begins at the end of. */
  ghost predicate NoneToJoin(rows: seq<Row>) {
    && (forall i :: 0 <= i < |rows| ==> rows[i].defs != map[])
    && forall i, j :: 0 <= i && j == i + 1 < |rows| && rows[i].hi == rows[j].lo ==>
                        !SameRules(rows[i].defs, rows[j].defs)
  }

  lemma SameRulesAreEqual(a: Defs, b: Defs)
    ensures DefsEq(a, b) <==> SameRules(a, b)
  {
  }

  lemma NoneLeftToJoin(rows: seq<Row>, lo: nat, hi: nat, defs: Defs)
    requires NoneToJoin(rows)
    ensures NoneToJoin(AddRow(rows, lo, hi, defs))
  {
    hide SameRules, DefsEq;
    if rows != [] {
      SameRulesAreEqual(rows[|rows| - 1].defs, defs);
    }
  }

  lemma JoinedLookup(rows: seq<Row>, lo: nat, hi: nat, a: nat)
    requires rows != [] && rows[|rows| - 1].lo <= rows[|rows| - 1].hi == lo < hi
    ensures var last, init := rows[|rows| - 1], rows[..|rows| - 1];
            Lookup(init + [last.(hi := hi)], a) == if lo <= a < hi then last.defs else Lookup(rows, a)
  {
    var last, init := rows[|rows| - 1], rows[..|rows| - 1];
    assert (init + [last.(hi := hi)])[..|rows| - 1] == init;
  }

  // ---- The interpreter ----

  ghost function Abstract(defs: Defs): (rules: Rules)
    ensures Means(defs, rules)
  {
    map r | r in defs && defs[r].kind != INDETERMINATE :: RuleOf(defs[r])
  }

  ghost function AbstractInitial(initial: Option<Results>): Option<Rules> {
    if initial.None? then None else Some(Abstract(initial.value.unfinishedRow))
  }

  /** The machine that an instruction list starts with. */
  ghost function Start(initialRowAddr: nat, initial: Option<Results>): Machine {
    if initial.None? then Machine(map[], [], initialRowAddr)
    else Machine(Abstract(initial.value.unfinishedRow), [], initial.value.unfinishedAddr)
  }

  /** The rows give the rules at every address between the two. */
  ghost predicate Table(bytes: seq<Byte>, ops: seq<FrameOp>, m: Machine, initial: Option<Rules>, rows: seq<Row>,
                        from: nat, to: nat) {
    forall a: nat :: from <= a < to ==>
      && RulesAt(bytes, ops, 0, m, initial, 1, a).Some?
      && Means(Lookup(rows, a), RulesAt(bytes, ops, 0, m, initial, 1, a).value)
  }

  /** The instructions are valid. */
  ghost predicate Valid(bytes: seq<Byte>, ops: seq<FrameOp>, m: Machine, initial: Option<Rules>) {
    RunAll(bytes, ops, 0, m, initial, 1).Some?
  }

  /** The k-th machine of the run. */
  ghost predicate Reached(bytes: seq<Byte>, ops: seq<FrameOp>, m: Machine, initial: Option<Rules>, k: nat, n: Machine)
    requires k <= |ops|
  {
    && RunAll(bytes, ops, 0, m, initial, 1) == RunAll(bytes, ops, k, n, initial, 1)
    && forall a: nat :: a >= n.loc ==>
        RulesAt(bytes, ops, 0, m, initial, 1, a) == RulesAt(bytes, ops, k, n, initial, 1, a)
  }

  /** What the interpreter knows before the k-th instruction of a valid list. */
  ghost predicate Knows(bytes: seq<Byte>, ops: seq<FrameOp>, m: Machine, initial: Option<Rules>, k: nat, n: Machine,
                        w: Working, rows: seq<Row>, current: nat)
    requires k <= |ops|
  {
    Reached(bytes, ops, m, initial, k, n) && Stands(w, n) && n.loc == current
      && Table(bytes, ops, m, initial, rows, m.loc, current)
  }

  lemma AdvanceKnows(bytes: seq<Byte>, ops: seq<FrameOp>, m: Machine, initial: Option<Rules>, k: nat, n: Machine,
                     w: Working, rows: seq<Row>, current: nat) returns (n': Machine)
    requires k < |ops| && IsAdvance(ops[k]) && m.loc <= current && RowsWithin(rows, m.loc, current)
    requires Valid(bytes, ops, m, initial) && Knows(bytes, ops, m, initial, k, n, w, rows, current)
    ensures current < NewRowAddr(ops[k], current) == n'.loc
    ensures Knows(bytes, ops, m, initial, k + 1, n', w,
                  AddRow(rows, current, NewRowAddr(ops[k], current), w.defs), NewRowAddr(ops[k], current))
  {
    hide Means, RowsWithin, AddRow;
    assert GoesForward(ops[k], n.loc, 1);
    n' := n.(loc := NextLoc(ops[k], n.loc, 1));
    var rows' := AddRow(rows, current, n'.loc, w.defs);
    forall a: nat | m.loc <= a < n'.loc
      ensures RulesAt(bytes, ops, 0, m, initial, 1, a).Some?
      ensures Means(Lookup(rows', a), RulesAt(bytes, ops, 0, m, initial, 1, a).value)
    {
      AddRowLookup(rows, m.loc, current, n'.loc, w.defs, a, n.rules);
      if a >= current { assert RulesAt(bytes, ops, k, n, initial, 1, a) == Some(n.rules); }
    }
  }

  lemma StepKnows(bytes: seq<Byte>, ops: seq<FrameOp>, m: Machine, initialResults: Option<Results>,
                  initial: Option<Rules>, k: nat,
                  n: Machine, w: Working, rows: seq<Row>, current: nat) returns (n': Machine)
    requires k < |ops| && !IsAdvance(ops[k]) && OffsetsFit(ops) && InitialMeans(initialResults, initial, current)
    requires Valid(bytes, ops, m, initial) && Knows(bytes, ops, m, initial, k, n, w, rows, current)
    ensures var e := Execute(bytes, ops[k], w, initialResults, current);
            e.Some? && Knows(bytes, ops, m, initial, k + 1, n', e.value, rows, current)
  {
    hide Stands, InitialMeans, Table, Execute, Effect;
    n' := Effect(bytes, ops[k], n, initial).value;
    ExecuteMeans(bytes, ops[k], w, initialResults, current, n, initial);
  }

  lemma StartKnows(bytes: seq<Byte>, ops: seq<FrameOp>, initialRowAddr: nat, initial: Option<Results>)
    ensures var m := Start(initialRowAddr, initial);
            Knows(bytes, ops, m, AbstractInitial(initial), 0, m,
                  Working(if initial.Some? then initial.value.unfinishedRow else map[], []), [], m.loc)
  {
  }

  /** What the results of the interpreter are, for valid instructions. */
  ghost predicate Interprets(bytes: seq<Byte>, ops: seq<FrameOp>, m: Machine, initial: Option<Rules>, r: Results) {
    var f := RunAll(bytes, ops, 0, m, initial, 1);
    && f.Some? && Means(r.unfinishedRow, f.value.rules) && r.unfinishedAddr == f.value.loc
    && Table(bytes, ops, m, initial, r.rows, m.loc, r.unfinishedAddr)
    && (forall a: nat :: a >= r.unfinishedAddr ==> RulesAt(bytes, ops, 0, m, initial, 1, a) == Some(f.value.rules))
  }

  /** Makes the rows of an instruction list. */
  method InterpretInstructions(cfg: Config, bytes: seq<Byte>, initialRowAddr: nat, initial: Option<Results>)
    returns (r: Option<Results>)
    requires IsConfig(cfg)
    requires initial.Some? ==> RowsWithin(initial.value.rows, 0, initial.value.unfinishedAddr)
    ensures r.Some? ==> Parse(cfg, bytes, 0).Some?
                        && var from := Start(initialRowAddr, initial).loc;
                           from <= r.value.unfinishedAddr && RowsWithin(r.value.rows, from, r.value.unfinishedAddr)
    ensures r.Some? ==> NoneToJoin(r.value.rows)
    ensures var m := Start(initialRowAddr, initial);
            Parse(cfg, bytes, 0).Some? ==>
              var ops := AsStored(Parse(cfg, bytes, 0).value);
              Valid(bytes, ops, m, AbstractInitial(initial)) ==>
                  r.Some? && Interprets(bytes, ops, m, AbstractInitial(initial), r.value)
  {
    hide Knows, Execute, RowsWithin, Valid, AddRow, IsAdvance, InitialMeans, Parse, IsConfig, Narrow, OffsetsFit;
    hide Interprets, CodeOf, NewRowAddr, NoneToJoin;
    var parsed := ParseInstrs(cfg, bytes);
    if parsed.None? {
      return None;
    }
    var ops := parsed.value;
    var current, working := initialRowAddr, Working(map[], []);
    if initial.Some? {
      current, working := initial.value.unfinishedAddr, Working(initial.value.unfinishedRow, []);
    }
    var rows := [];
    ghost var stored, m, rules := AsStored(ops), Start(initialRowAddr, initial), AbstractInitial(initial);
    ghost var valid, n := Valid(bytes, stored, m, rules), m;
    AsStoredIff(ops);
    StartKnows(bytes, stored, initialRowAddr, initial);
    NoRows(m.loc);
    InitialStands(initial, current);
    var k := 0;
    while k < |ops|
      invariant 0 <= k <= |ops| && m.loc <= current && RowsWithin(rows, m.loc, current) && NoneToJoin(rows)
      invariant InitialMeans(initial, rules, current)
      invariant valid ==> Knows(bytes, stored, m, rules, k, n, working, rows, current)
    {
      NarrowKind(ops[k]);
      NarrowExecutes(bytes, ops[k], working, initial, current);
      if IsAdvance(ops[k]) {
        var newRowAddr := NewRowAddr(ops[k], current);
        if valid { n := AdvanceKnows(bytes, stored, m, rules, k, n, working, rows, current); }
        if newRowAddr <= current {
          return None;
        }
        AddRowWithin(rows, m.loc, current, newRowAddr, working.defs);
        NoneLeftToJoin(rows, current, newRowAddr, working.defs);
        InitialStays(initial, rules, current, newRowAddr);
        rows := AddRow(rows, current, newRowAddr, working.defs);
        current := newRowAddr;
      } else {
        var e := Execute(bytes, ops[k], working, initial, current);
        if valid { n := StepKnows(bytes, stored, m, initial, rules, k, n, working, rows, current); }
        if e.None? {
          return None;
        }
        working := e.value;
      }
      k := k + 1;
    }
    r := Some(Results(rows, working.defs, current));
    if valid { EndInterprets(bytes, stored, m, rules, n, working, rows, current); }
  }

  lemma NoRows(from: nat)
    ensures RowsWithin([], from, from) && NoneToJoin([])
  {
  }

  lemma InitialStands(initial: Option<Results>, current: nat)
    requires initial.Some? ==>
               RowsWithin(initial.value.rows, 0, initial.value.unfinishedAddr)
                 && current == initial.value.unfinishedAddr
    ensures InitialMeans(initial, AbstractInitial(initial), current)
  {
  }

  lemma InitialStays(initial: Option<Results>, rules: Option<Rules>, current: nat, later: nat)
    requires InitialMeans(initial, rules, current) && current <= later
    ensures InitialMeans(initial, rules, later)
  {
  }

  lemma EndInterprets(bytes: seq<Byte>, ops: seq<FrameOp>, m: Machine, initial: Option<Rules>, n: Machine,
                      w: Working, rows: seq<Row>, current: nat)
    requires Knows(bytes, ops, m, initial, |ops|, n, w, rows, current)
    ensures Interprets(bytes, ops, m, initial, Results(rows, w.defs, current))
  {
  }

  // ---- The table of a frame description entry ----

  lemma RulesAreUnique(defs: Defs, r: Rules, t: Rules)
    requires Means(defs, r) && Means(defs, t)
    ensures r == t
  {
    assert forall k :: k in r ==> k in t && r[k] == t[k];
    assert forall k :: k in t ==> k in r;
    assert r == t;
  }

  /** The machine after the initial instructions of a common information entry. */
  ghost function InitialMachine(cie: seq<Byte>, ops: seq<FrameOp>, lowPc: nat): Option<Machine> {
    RunAll(cie, ops, 0, Machine(map[], [], lowPc), None, 1)
  }

  /** The frame description entry starts from the rules and the location of the initial instructions, with
      nothing remembered. */
  ghost function Resumed(m: Machine): Machine { Machine(m.rules, [], m.loc) }

  ghost predicate ValidEntry(cie: seq<Byte>, cieOps: seq<FrameOp>, fde: seq<Byte>, fdeOps: seq<FrameOp>, lowPc: nat) {
    && Valid(cie, cieOps, Machine(map[], [], lowPc), None)
    && var i := InitialMachine(cie, cieOps, lowPc).value;
       Valid(fde, fdeOps, Resumed(i), Some(i.rules))
  }

  /** The rows give the rules at each address up to the bound, or up to the start of the last row if that is
      beyond it, and nothing elsewhere. */
  ghost predicate GivesRules(rows: seq<Row>, fde: seq<Byte>, ops: seq<FrameOp>, i: Machine, bound: nat)
    requires RunAll(fde, ops, 0, Resumed(i), Some(i.rules), 1).Some?
  {
    var last := RunAll(fde, ops, 0, Resumed(i), Some(i.rules), 1).value.loc;
    && RowsWithin(rows, i.loc, if last < bound then bound else last)
    && forall a: nat ::
         if i.loc <= a && (a < last || a < bound) then
           var rules := RulesAt(fde, ops, 0, Resumed(i), Some(i.rules), 1, a);
           rules.Some? && Means(Lookup(rows, a), rules.value)
         else Lookup(rows, a) == map[]
  }

  lemma LastRowGivesRules(r: Results, fde: seq<Byte>, ops: seq<FrameOp>, i: Machine, bound: nat)
    requires Interprets(fde, ops, Resumed(i), Some(i.rules), r)
    requires i.loc <= r.unfinishedAddr && RowsWithin(r.rows, i.loc, r.unfinishedAddr)
    ensures GivesRules(AddRow(r.rows, r.unfinishedAddr, bound, r.unfinishedRow), fde, ops, i, bound)
  {
    hide AddRow, Means, RowsWithin;
    var rows := AddRow(r.rows, r.unfinishedAddr, bound, r.unfinishedRow);
    var last := r.unfinishedAddr;
    AddRowWithin(r.rows, i.loc, last, bound, r.unfinishedRow);
    forall a: nat
      ensures if i.loc <= a && (a < last || a < bound) then
                var rules := RulesAt(fde, ops, 0, Resumed(i), Some(i.rules), 1, a);
                rules.Some? && Means(Lookup(rows, a), rules.value)
              else Lookup(rows, a) == map[]
    {
      var f := RunAll(fde, ops, 0, Resumed(i), Some(i.rules), 1).value;
      AddRowLookup(r.rows, i.loc, last, bound, r.unfinishedRow, a, f.rules);
      if a < i.loc || last <= a { LookupAbove(r.rows, i.loc, last, a); }
    }
  }

  lemma WithinFromZero(rows: seq<Row>, from: nat, to: nat)
    requires RowsWithin(rows, from, to)
    ensures RowsWithin(rows, 0, to)
  {
  }

  /** Builds the table: the initial instructions give the first definitions but no rows. The last row ends one
      past the end of the function. The rules are those of the instructions with offsets as an int keeps them. */
  method DecodeFde(cfg: Config, cie: seq<Byte>, fde: seq<Byte>, lowPc: nat, funcLength: nat)
    returns (r: Option<seq<Row>>)
    requires IsConfig(cfg)
    ensures var c, f := Parse(cfg, cie, 0), Parse(cfg, fde, 0);
            c.Some? && f.Some? ==>
              var first, ops := AsStored(c.value), AsStored(f.value);
              ValidEntry(cie, first, fde, ops, lowPc) ==>
                r.Some? && GivesRules(r.value, fde, ops, InitialMachine(cie, first, lowPc).value,
                                      U64(lowPc + funcLength + 1))
    ensures r.Some? ==> Parse(cfg, cie, 0).Some? && Parse(cfg, fde, 0).Some? && NoneToJoin(r.value)
  {
    hide IsConfig, Parse, RowsWithin, Interprets, GivesRules, AddRow, Valid, Means, AsStored, NoneToJoin;
    var initial := InterpretInstructions(cfg, cie, lowPc, None);
    if initial.None? {
      return None;
    }
    WithinFromZero(initial.value.rows, lowPc, initial.value.unfinishedAddr);
    var final := InterpretInstructions(cfg, fde, initial.value.unfinishedAddr, initial);
    ghost var c, f := Parse(cfg, cie, 0), Parse(cfg, fde, 0);
    ghost var first, ops := AsStored(c.value), if f.Some? then AsStored(f.value) else [];
    ghost var valid := f.Some? && ValidEntry(cie, first, fde, ops, lowPc);
    if valid {
      StartsResumed(cie, first, lowPc, initial.value);
    }
    if final.None? {
      return None;
    }
    var bound := U64(lowPc + funcLength + 1);
    NoneLeftToJoin(final.value.rows, final.value.unfinishedAddr, bound, final.value.unfinishedRow);
    r := Some(AddRow(final.value.rows, final.value.unfinishedAddr, bound, final.value.unfinishedRow));
    if valid {
      LastRowGivesRules(final.value, fde, ops, InitialMachine(cie, first, lowPc).value, bound);
    }
  }

  lemma StartsResumed(cie: seq<Byte>, ops: seq<FrameOp>, lowPc: nat, initial: Results)
    requires Interprets(cie, ops, Machine(map[], [], lowPc), None, initial)
    ensures InitialMachine(cie, ops, lowPc).Some?
    ensures Start(initial.unfinishedAddr, Some(initial)) == Resumed(InitialMachine(cie, ops, lowPc).value)
    ensures AbstractInitial(Some(initial)) == Some(InitialMachine(cie, ops, lowPc).value.rules)
  {
    hide Means;
    RulesAreUnique(initial.unfinishedRow, Abstract(initial.unfinishedRow), InitialMachine(cie, ops, lowPc).value.rules);
  }

  // ---- The code alignment factor ----

  /** The location after the first n instructions. */
  function LocAfter(ops: seq<FrameOp>, n: nat, loc: nat, factor: nat): nat
    requires n <= |ops|
  {
    if n == 0 then loc
    else if IsAdvance(ops[n - 1]) then NextLoc(ops[n - 1], LocAfter(ops, n - 1, loc, factor), factor)
    else LocAfter(ops, n - 1, loc, factor)
  }

  /** The advances since the last set_loc. */
  function Advanced(ops: seq<FrameOp>, n: nat): nat
    requires n <= |ops|
  {
    if n == 0 || CodeOf(ops[n - 1]) == SET_LOC then 0
    else if IsAdvance(ops[n - 1]) then Advanced(ops, n - 1) + ops[n - 1].off
    else Advanced(ops, n - 1)
  }

  lemma {:induction false} LocDifference(ops: seq<FrameOp>, n: nat, loc: nat, factor: nat)
    requires n <= |ops|
    ensures LocAfter(ops, n, loc, factor) - LocAfter(ops, n, loc, 1) == (factor - 1) * Advanced(ops, n)
  {
    if n > 0 {
      LocDifference(ops, n - 1, loc, factor);
      Spread(factor, Advanced(ops, n - 1), ops[n - 1].off);
    }
  }

  lemma Spread(factor: int, x: nat, off: nat)
    ensures (factor - 1) * (x + off) == (factor - 1) * x + off * factor - off
  {
  }

  ghost predicate RowsBeginAlike(ops: seq<FrameOp>, loc: nat, factor: nat) {
    forall n: nat :: n <= |ops| ==> LocAfter(ops, n, loc, factor) == LocAfter(ops, n, loc, 1)
  }

  ghost predicate NothingAdvances(ops: seq<FrameOp>) {
    forall k :: 0 <= k < |ops| && IsAdvance(ops[k]) && CodeOf(ops[k]) != SET_LOC ==> ops[k].off == 0
  }

  /** Advances are not scaled by the code alignment factor: the rows begin where they should exactly when it
      is 1 or nothing advances. */
  lemma RowsBeginAlikeIff(ops: seq<FrameOp>, loc: nat, factor: nat)
    ensures RowsBeginAlike(ops, loc, factor) <==> factor == 1 || NothingAdvances(ops)
  {
    if RowsBeginAlike(ops, loc, factor) && factor != 1 {
      forall k: nat | k < |ops| && IsAdvance(ops[k]) && CodeOf(ops[k]) != SET_LOC ensures ops[k].off == 0 {
        hide IsAdvance;
        assert LocAfter(ops, k + 1, loc, factor) == LocAfter(ops, k + 1, loc, 1);
        LocDifference(ops, k + 1, loc, factor);
        ZeroProduct(factor - 1, Advanced(ops, k + 1));
      }
      assert NothingAdvances(ops);
    }
    if factor == 1 || NothingAdvances(ops) {
      forall n: nat | n <= |ops| ensures LocAfter(ops, n, loc, factor) == LocAfter(ops, n, loc, 1) {
        hide LocAfter;
        if factor != 1 { NothingAdvanced(ops, n); }
        LocDifference(ops, n, loc, factor);
      }
    }
  }

  lemma ZeroProduct(a: int, b: nat)
    requires a != 0 && a * b == 0
    ensures b == 0
  {
  }

  lemma {:induction false} NothingAdvanced(ops: seq<FrameOp>, n: nat)
    requires n <= |ops| && NothingAdvances(ops)
    ensures Advanced(ops, n) == 0
  {
    if n > 0 { NothingAdvanced(ops, n - 1); }
  }

  /** The locations are those of the machine. */
  lemma {:induction false} MachineIsAt(bytes: seq<Byte>, ops: seq<FrameOp>, k: nat, m: Machine,
                                       initial: Option<Rules>, factor: nat, loc: nat)
    requires k <= |ops| && RunAll(bytes, ops, k, m, initial, factor).Some? && m.loc == LocAfter(ops, k, loc, factor)
    ensures RunAll(bytes, ops, k, m, initial, factor).value.loc == LocAfter(ops, |ops|, loc, factor)
    decreases |ops| - k
  {
    if k < |ops| {
      if IsAdvance(ops[k]) {
        MachineIsAt(bytes, ops, k + 1, m.(loc := NextLoc(ops[k], m.loc, factor)), initial, factor, loc);
      } else {
        MachineIsAt(bytes, ops, k + 1, Effect(bytes, ops[k], m, initial).value, initial, factor, loc);
      }
    }
  }

  lemma {:induction false} PrefixRuns(bytes: seq<Byte>, ops: seq<FrameOp>, n: nat, k: nat, m: Machine,
                                      initial: Option<Rules>,
                                      factor: nat)
    requires k <= n <= |ops| && RunAll(bytes, ops, k, m, initial, factor).Some?
    ensures RunAll(bytes, ops[..n], k, m, initial, factor).Some?
    decreases n - k
  {
    hide Effect, IsAdvance, GoesForward, NextLoc;
    if k < n {
      if IsAdvance(ops[k]) {
        PrefixRuns(bytes, ops, n, k + 1, m.(loc := NextLoc(ops[k], m.loc, factor)), initial, factor);
      } else {
        PrefixRuns(bytes, ops, n, k + 1, Effect(bytes, ops[k], m, initial).value, initial, factor);
      }
    }
  }

  lemma {:induction false} LocAfterPrefix(ops: seq<FrameOp>, n: nat, k: nat, loc: nat, factor: nat)
    requires k <= n <= |ops|
    ensures LocAfter(ops[..n], k, loc, factor) == LocAfter(ops, k, loc, factor)
  {
    hide IsAdvance, NextLoc;
    if k > 0 { LocAfterPrefix(ops, n, k - 1, loc, factor); }
  }

  /** The machine is the same after each instruction, whether advances are scaled or not. */
  ghost predicate RunsAlike(bytes: seq<Byte>, ops: seq<FrameOp>, m: Machine, initial: Option<Rules>, factor: nat) {
    forall n: nat :: n <= |ops| ==>
      RunAll(bytes, ops[..n], 0, m, initial, factor) == RunAll(bytes, ops[..n], 0, m, initial, 1)
  }

  lemma {:induction false} NothingScaled(bytes: seq<Byte>, ops: seq<FrameOp>, k: nat, m: Machine,
                                         initial: Option<Rules>,
                                         factor: nat)
    requires k <= |ops| && (factor == 1 || NothingAdvances(ops))
    ensures RunAll(bytes, ops, k, m, initial, factor) == RunAll(bytes, ops, k, m, initial, 1)
    ensures forall a: nat :: RulesAt(bytes, ops, k, m, initial, factor, a) == RulesAt(bytes, ops, k, m, initial, 1, a)
    decreases |ops| - k
  {
    hide Effect;
    if k < |ops| {
      if IsAdvance(ops[k]) {
        assert NextLoc(ops[k], m.loc, factor) == NextLoc(ops[k], m.loc, 1);
        NothingScaled(bytes, ops, k + 1, m.(loc := NextLoc(ops[k], m.loc, 1)), initial, factor);
      } else if Effect(bytes, ops[k], m, initial).Some? {
        NothingScaled(bytes, ops, k + 1, Effect(bytes, ops[k], m, initial).value, initial, factor);
      }
    }
  }

  /** For instructions that are valid with and without the factor, leaving it out makes no difference to any
      machine of the run exactly when the factor is 1 or nothing advances; then the rules at each address,
      which the rows give, are those of the factor too. */
  lemma RunsAlikeIff(bytes: seq<Byte>, ops: seq<FrameOp>, m: Machine, initial: Option<Rules>, factor: nat)
    requires RunAll(bytes, ops, 0, m, initial, factor).Some? && RunAll(bytes, ops, 0, m, initial, 1).Some?
    ensures RunsAlike(bytes, ops, m, initial, factor) <==> factor == 1 || NothingAdvances(ops)
    ensures factor == 1 || NothingAdvances(ops) ==>
              forall a: nat :: RulesAt(bytes, ops, 0, m, initial, factor, a) == RulesAt(bytes, ops, 0, m, initial, 1, a)
  {
    hide RunAll, RulesAt, LocAfter;
    forall n: nat | n <= |ops| && (factor == 1 || NothingAdvances(ops))
      ensures RunAll(bytes, ops[..n], 0, m, initial, factor) == RunAll(bytes, ops[..n], 0, m, initial, 1)
    {
      NothingScaled(bytes, ops[..n], 0, m, initial, factor);
    }
    if factor == 1 || NothingAdvances(ops) { NothingScaled(bytes, ops, 0, m, initial, factor); }
    if RunsAlike(bytes, ops, m, initial, factor) {
      forall n: nat | n <= |ops| ensures LocAfter(ops, n, m.loc, factor) == LocAfter(ops, n, m.loc, 1) {
        LocationAfter(bytes, ops, n, m, initial, factor);
        LocationAfter(bytes, ops, n, m, initial, 1);
      }
      RowsBeginAlikeIff(ops, m.loc, factor);
    }
  }

  lemma LocationAfter(bytes: seq<Byte>, ops: seq<FrameOp>, n: nat, m: Machine, initial: Option<Rules>, factor: nat)
    requires n <= |ops| && RunAll(bytes, ops, 0, m, initial, factor).Some?
    ensures var f := RunAll(bytes, ops[..n], 0, m, initial, factor);
            f.Some? && f.value.loc == LocAfter(ops, n, m.loc, factor)
  {
    hide RunAll;
    PrefixRuns(bytes, ops, n, 0, m, initial, factor);
    MachineIsAt(bytes, ops[..n], 0, m, initial, factor, m.loc);
    LocAfterPrefix(ops, n, n, m.loc, factor);
  }

  // ---- Where definitions do not stand for rules ----

  /** A frame address given by an expression keeps the offset from before it: def_cfa_register after
      def_cfa_expression is not valid, but has an effect. */
  lemma StaleOffset(bytes: seq<Byte>, op: FrameOp, w: Working, initial: Option<Results>, current: nat)
    requires CodeOf(op) == DEF_CFA_REGISTER && CFA in w.defs && w.defs[CFA].kind == SAVED_AT_EXPR
    ensures var e := Execute(bytes, op, w, initial, current);
            e.Some? && RuleOf(e.value.defs[CFA]) == InRegister(op.reg, w.defs[CFA].regPlusOffset.1)
    ensures forall m: Machine, rules: Option<Rules> :: Stands(w, m) ==> Effect(bytes, op, m, rules).None?
  {
  }
}
