/** When the rules that the rows give are those that the instructions mean, although advances are not scaled and
    offsets are stored in an int. */
module FrameRules {
  import opened Wrappers
  import opened Leb128
  import opened FrameInstrs
  import opened FrameTable

  // ---- The code alignment factor ----

  /** The rules when the next advance is met, or at the end. */
  ghost function NextRules(bytes: seq<Byte>, ops: seq<FrameOp>, k: nat, m: Machine, initial: Option<Rules>)
    : Option<Rules>
    requires k <= |ops|
    decreases |ops| - k
  {
    if k == |ops| || IsAdvance(ops[k]) then Some(m.rules)
    else
      var n := Effect(bytes, ops[k], m, initial);
      if n.None? then None else NextRules(bytes, ops, k + 1, n.value, initial)
  }

  /** Every advance that is not a set_loc has the same rules after it as before it. */
  ghost predicate OnlySetLocChanges(bytes: seq<Byte>, ops: seq<FrameOp>, k: nat, m: Machine, initial: Option<Rules>)
    requires k <= |ops|
    decreases |ops| - k
  {
    k < |ops| ==>
      if IsAdvance(ops[k]) then
        && (CodeOf(ops[k]) == SET_LOC || NextRules(bytes, ops, k + 1, m, initial) == Some(m.rules))
        && OnlySetLocChanges(bytes, ops, k + 1, m, initial)
      else
        var n := Effect(bytes, ops[k], m, initial);
        n.Some? ==> OnlySetLocChanges(bytes, ops, k + 1, n.value, initial)
  }

  /** The machines are the same but for the location. */
  predicate Elsewhere(m: Machine, n: Machine) { m.rules == n.rules && m.remembered == n.remembered }

  lemma EffectElsewhere(bytes: seq<Byte>, op: FrameOp, m: Machine, n: Machine, initial: Option<Rules>)
    requires Elsewhere(m, n)
    ensures var e, f := Effect(bytes, op, m, initial), Effect(bytes, op, n, initial);
            && (e.Some? <==> f.Some?)
            && (e.Some? ==> Elsewhere(e.value, f.value) && e.value.loc == m.loc && f.value.loc == n.loc)
  {
    hide BlockOf, RegisterRule, AsSigned;
  }

  lemma {:induction false} ChangesElsewhere(bytes: seq<Byte>, ops: seq<FrameOp>, k: nat, m: Machine, n: Machine,
                                            initial: Option<Rules>)
    requires k <= |ops| && Elsewhere(m, n)
    ensures NextRules(bytes, ops, k, m, initial) == NextRules(bytes, ops, k, n, initial)
    ensures OnlySetLocChanges(bytes, ops, k, m, initial) == OnlySetLocChanges(bytes, ops, k, n, initial)
    decreases |ops| - k
  {
    hide Effect;
    if k < |ops| {
      if IsAdvance(ops[k]) {
        ChangesElsewhere(bytes, ops, k + 1, m, n, initial);
      } else {
        EffectElsewhere(bytes, ops[k], m, n, initial);
        var e := Effect(bytes, ops[k], m, initial);
        if e.Some? { ChangesElsewhere(bytes, ops, k + 1, e.value, Effect(bytes, ops[k], n, initial).value, initial); }
      }
    }
  }

  /** Up to where the machine is, the rules are those when it next advances. */
  lemma {:induction false} RulesUpToHere(bytes: seq<Byte>, ops: seq<FrameOp>, k: nat, m: Machine,
                                         initial: Option<Rules>, factor: nat, a: nat)
    requires k <= |ops| && RunAll(bytes, ops, k, m, initial, factor).Some? && a <= m.loc
    ensures RulesAt(bytes, ops, k, m, initial, factor, a) == NextRules(bytes, ops, k, m, initial)
    decreases |ops| - k
  {
    hide Effect, NextLoc;
    if k < |ops| && !IsAdvance(ops[k]) {
      EffectElsewhere(bytes, ops[k], m, m, initial);
      RulesUpToHere(bytes, ops, k + 1, Effect(bytes, ops[k], m, initial).value, initial, factor, a);
    }
  }

  /** The rules at every address are the same without the factor. */
  ghost predicate RulesAlike(bytes: seq<Byte>, ops: seq<FrameOp>, k: nat, m: Machine, n: Machine,
                             initial: Option<Rules>, factor: nat)
    requires k <= |ops|
  {
    forall a: nat :: AlikeAt(bytes, ops, k, m, n, initial, factor, a)
  }

  ghost predicate AlikeAt(bytes: seq<Byte>, ops: seq<FrameOp>, k: nat, m: Machine, n: Machine,
                          initial: Option<Rules>, factor: nat, a: nat)
    requires k <= |ops|
  {
    RulesAt(bytes, ops, k, n, initial, factor, a) == RulesAt(bytes, ops, k, m, initial, 1, a)
  }

  ghost predicate BothRun(bytes: seq<Byte>, ops: seq<FrameOp>, k: nat, m: Machine, n: Machine, initial: Option<Rules>,
                          factor: nat)
    requires k <= |ops|
  {
    && Elsewhere(m, n) && RunAll(bytes, ops, k, m, initial, 1).Some?
    && RunAll(bytes, ops, k, n, initial, factor).Some?
  }

  lemma AcrossSame(bytes: seq<Byte>, ops: seq<FrameOp>, k: nat, m: Machine, initial: Option<Rules>, factor: nat, a: nat)
    requires k < |ops| && IsAdvance(ops[k]) && RunAll(bytes, ops, k, m, initial, factor).Some?
    requires NextRules(bytes, ops, k + 1, m, initial) == Some(m.rules)
    ensures RulesAt(bytes, ops, k, m, initial, factor, a)
            == RulesAt(bytes, ops, k + 1, m.(loc := NextLoc(ops[k], m.loc, factor)), initial, factor, a)
  {
    hide Effect, NextLoc;
    var next := m.(loc := NextLoc(ops[k], m.loc, factor));
    ChangesElsewhere(bytes, ops, k + 1, m, next, initial);
    if a < next.loc { RulesUpToHere(bytes, ops, k + 1, next, initial, factor, a); }
  }

  lemma AcrossOther(bytes: seq<Byte>, ops: seq<FrameOp>, k: nat, m: Machine, n: Machine, initial: Option<Rules>,
                    factor: nat)
    requires k < |ops| && IsAdvance(ops[k]) && BothRun(bytes, ops, k, m, n, initial, factor)
    requires NextRules(bytes, ops, k + 1, m, initial) != Some(m.rules)
    requires NextLoc(ops[k], m.loc, 1) != NextLoc(ops[k], n.loc, factor)
    ensures !RulesAlike(bytes, ops, k, m, n, initial, factor)
  {
    hide Effect, NextLoc;
    var m', n' := m.(loc := NextLoc(ops[k], m.loc, 1)), n.(loc := NextLoc(ops[k], n.loc, factor));
    var a := if m'.loc < n'.loc then m'.loc else n'.loc;
    ChangesElsewhere(bytes, ops, k + 1, m, m', initial);
    ChangesElsewhere(bytes, ops, k + 1, m, n', initial);
    RulesUpToHere(bytes, ops, k + 1, m', initial, 1, a);
    RulesUpToHere(bytes, ops, k + 1, n', initial, factor, a);
    assert !AlikeAt(bytes, ops, k, m, n, initial, factor, a);
  }

  lemma AcrossTogether(bytes: seq<Byte>, ops: seq<FrameOp>, k: nat, m: Machine, n: Machine, initial: Option<Rules>,
                       factor: nat)
    requires k < |ops| && IsAdvance(ops[k]) && BothRun(bytes, ops, k, m, n, initial, factor)
    requires NextLoc(ops[k], m.loc, 1) == NextLoc(ops[k], n.loc, factor)
    ensures var m', n' := m.(loc := NextLoc(ops[k], m.loc, 1)), n.(loc := NextLoc(ops[k], n.loc, factor));
            RulesAlike(bytes, ops, k, m, n, initial, factor) <==> RulesAlike(bytes, ops, k + 1, m', n', initial, factor)
  {
    hide Effect, NextLoc;
    var j: nat := k + 1;
    var m', n' := m.(loc := NextLoc(ops[k], m.loc, 1)), n.(loc := NextLoc(ops[k], n.loc, factor));
    ChangesElsewhere(bytes, ops, k + 1, m', n', initial);
    forall a: nat
      ensures AlikeAt(bytes, ops, k, m, n, initial, factor, a)
              == (a < m'.loc || AlikeAt(bytes, ops, j, m', n', initial, factor, a))
      ensures a < m'.loc ==> AlikeAt(bytes, ops, j, m', n', initial, factor, a)
    {
      if a < m'.loc {
        RulesUpToHere(bytes, ops, k + 1, m', initial, 1, a);
        RulesUpToHere(bytes, ops, k + 1, n', initial, factor, a);
      }
    }
    hide AlikeAt;
    if RulesAlike(bytes, ops, k, m, n, initial, factor) {
      forall a: nat ensures AlikeAt(bytes, ops, j, m', n', initial, factor, a) {
        assert AlikeAt(bytes, ops, k, m, n, initial, factor, a);
      }
    }
  }

  /** adv is by how much the code has advanced since the last set_loc. */
  lemma {:induction false} RulesAlikeFrom(bytes: seq<Byte>, ops: seq<FrameOp>, k: nat, m: Machine, n: Machine,
                                          initial: Option<Rules>, factor: nat, adv: nat)
    requires k <= |ops| && BothRun(bytes, ops, k, m, n, initial, factor)
    requires factor != 1 && n.loc - m.loc == (factor - 1) * adv
    ensures RulesAlike(bytes, ops, k, m, n, initial, factor) <==> OnlySetLocChanges(bytes, ops, k, m, initial)
    decreases |ops| - k
  {
    hide Effect, NextLoc, NextRules;
    var j: nat := k + 1;
    if k < |ops| {
      if IsAdvance(ops[k]) {
        var m', n' := m.(loc := NextLoc(ops[k], m.loc, 1)), n.(loc := NextLoc(ops[k], n.loc, factor));
        var adv' := if CodeOf(ops[k]) == SET_LOC then 0 else adv + ops[k].off;
        Difference(ops[k], m.loc, n.loc, factor, adv);
        RulesAlikeFrom(bytes, ops, k + 1, m', n', initial, factor, adv');
        ChangesElsewhere(bytes, ops, k + 1, m, m', initial);
        ChangesElsewhere(bytes, ops, k + 1, m, n, initial);
        if NextRules(bytes, ops, k + 1, m, initial) == Some(m.rules) {
          forall a: nat
            ensures AlikeAt(bytes, ops, k, m, n, initial, factor, a)
                    == AlikeAt(bytes, ops, j, m', n', initial, factor, a)
          {
            AcrossSame(bytes, ops, k, m, initial, 1, a);
            AcrossSame(bytes, ops, k, n, initial, factor, a);
          }
        } else if m'.loc == n'.loc {
          AcrossTogether(bytes, ops, k, m, n, initial, factor);
        } else {
          AcrossOther(bytes, ops, k, m, n, initial, factor);
        }
      } else {
        EffectElsewhere(bytes, ops[k], m, n, initial);
        var m', n' := Effect(bytes, ops[k], m, initial).value, Effect(bytes, ops[k], n, initial).value;
        RulesAlikeFrom(bytes, ops, k + 1, m', n', initial, factor, adv);
        forall a: nat
          ensures AlikeAt(bytes, ops, k, m, n, initial, factor, a)
                  == AlikeAt(bytes, ops, j, m', n', initial, factor, a)
        {
        }
      }
    }
  }

  lemma Difference(op: FrameOp, loc: nat, loc': nat, factor: nat, adv: nat)
    requires factor != 1 && loc' - loc == (factor - 1) * adv && GoesForward(op, loc, 1)
    ensures var adv' := if CodeOf(op) == SET_LOC then 0 else adv + op.off;
            NextLoc(op, loc', factor) - NextLoc(op, loc, 1) == (factor - 1) * adv'
    ensures NextLoc(op, loc', factor) == NextLoc(op, loc, 1) <==> CodeOf(op) == SET_LOC
  {
    Spread(factor, adv, op.off);
    if CodeOf(op) != SET_LOC && (factor - 1) * (adv + op.off) == 0 { ZeroProduct(factor - 1, adv + op.off); }
  }

  /** For instructions that are valid with and without the factor, leaving it out changes no rule at any address
      exactly when it is 1, or the rules change only where a set_loc is. */
  lemma RulesAlikeIff(bytes: seq<Byte>, ops: seq<FrameOp>, m: Machine, initial: Option<Rules>, factor: nat)
    requires RunAll(bytes, ops, 0, m, initial, factor).Some? && RunAll(bytes, ops, 0, m, initial, 1).Some?
    ensures RulesAlike(bytes, ops, 0, m, m, initial, factor)
            <==> factor == 1 || OnlySetLocChanges(bytes, ops, 0, m, initial)
  {
    hide RunAll, RulesAt, OnlySetLocChanges;
    if factor != 1 { RulesAlikeFrom(bytes, ops, 0, m, m, initial, factor, 0); }
  }

  /** With factor 2, an advance by 4 ends at address 8; the code has the rules after it from address 4 on. */
  lemma FactorIsLost(bytes: seq<Byte>)
    ensures var ops := [FrameOp(1, 0, 0, 4, None), FrameOp(0, SAME_VALUE, 5, 0, None)];
            var m := Machine(map[], [], 0);
            && RulesAt(bytes, ops, 0, m, None, 2, 4) == Some(map[])
            && RulesAt(bytes, ops, 0, m, None, 1, 4) == Some(map[5 := SameValue])
  {
    var ops := [FrameOp(1, 0, 0, 4, None), FrameOp(0, SAME_VALUE, 5, 0, None)];
    var n := Machine(map[], [], 4);
    assert Effect(bytes, ops[1], n, None) == Some(n.(rules := map[5 := SameValue]));
    assert RulesAt(bytes, ops, 1, n, None, 1, 4) == Some(map[5 := SameValue]);
  }

  // ---- Offsets stored in an int ----

  predicate Misstored(op: FrameOp) { ToInt(op.off) != AsSigned(op.off) }

  /** The columns whose rules have other offsets or registers than they should. */
  datatype Doubt = Doubt(offs: set<int>, regs: set<int>) {
    function With(c: int, off: bool, reg: bool): Doubt {
      Doubt(if off then offs + {c} else offs - {c}, if reg then regs + {c} else regs - {c})
    }
  }

  const NO_DOUBT := Doubt({}, {})

  datatype Doubts = Doubts(now: Doubt, remembered: seq<Doubt>)

  /** What an instruction other than an advance does to them; initial are those of the initial rules. */
  function Doubted(op: FrameOp, d: Doubts, initial: Doubt): Doubts {
    var c, r := CodeOf(op), op.reg;
    if c == DEF_CFA || c == DEF_CFA_SF then d.(now := d.now.With(CFA, Misstored(op), false))
    else if c == DEF_CFA_REGISTER then d.(now := d.now.With(CFA, CFA in d.now.offs, false))
    else if c == DEF_CFA_OFFSET || c == DEF_CFA_OFFSET_SF then
      d.(now := d.now.With(CFA, Misstored(op), CFA in d.now.regs))
    else if c == DEF_CFA_EXPRESSION then d.(now := d.now.With(CFA, false, false))
    else if c == RESTORE || c == RESTORE_EXTENDED then d.(now := d.now.With(r, r in initial.offs, r in initial.regs))
    else if c == RESTORE_STATE then
      if d.remembered == [] then d
      else Doubts(d.remembered[|d.remembered| - 1], d.remembered[..|d.remembered| - 1])
    else if c == REMEMBER_STATE then d.(remembered := d.remembered + [d.now])
    else if c == NOP || c == GNU_ARGS_SIZE then d
    else if c == REGISTER then d.(now := d.now.With(r, false, Misstored(op)))
    else d.(now := d.now.With(r, StoresOffset(c) && Misstored(op), false))
  }

  predicate StoresOffset(c: nat) {
    || c == OFFSET || c == OFFSET_EXTENDED || c == OFFSET_EXTENDED_SF
    || c == VAL_OFFSET || c == VAL_OFFSET_SF
  }

  /** From the k-th instruction on, nothing is in doubt at any advance, nor at the end, if rows are made of that. */
  predicate NeverInDoubt(ops: seq<FrameOp>, k: nat, d: Doubts, initial: Doubt, endCounts: bool)
    requires k <= |ops|
    decreases |ops| - k
  {
    if k == |ops| then endCounts ==> d.now == NO_DOUBT
    else if IsAdvance(ops[k]) then d.now == NO_DOUBT && NeverInDoubt(ops, k + 1, d, initial, endCounts)
    else NeverInDoubt(ops, k + 1, Doubted(ops[k], d, initial), initial, endCounts)
  }

  /** The two rules are the same but for the offset or register in doubt, which is not the same. */
  predicate SameBut(x: Rule, y: Rule, off: bool, reg: bool) {
    match (x, y)
    case (SavedAt(a), SavedAt(b)) => !reg && (off <==> a != b)
    case (ValueIs(a), ValueIs(b)) => !reg && (off <==> a != b)
    case (InRegister(p, a), InRegister(q, b)) => (reg <==> p != q) && (off <==> a != b)
    case _ => x == y && !off && !reg
  }

  ghost predicate RulesBut(s: Rules, t: Rules, d: Doubt) {
    && s.Keys == t.Keys && d.offs <= s.Keys && d.regs <= s.Keys
    && forall c :: c in s ==> SameBut(s[c], t[c], c in d.offs, c in d.regs)
  }

  ghost predicate MachinesBut(m: Machine, n: Machine, d: Doubts) {
    && RulesBut(m.rules, n.rules, d.now) && m.loc == n.loc
    && |m.remembered| == |n.remembered| == |d.remembered|
    && forall i :: 0 <= i < |d.remembered| ==> RulesBut(m.remembered[i], n.remembered[i], d.remembered[i])
  }

  lemma SameIffNoDoubt(s: Rules, t: Rules, d: Doubt)
    requires RulesBut(s, t, d)
    ensures s == t <==> d == NO_DOUBT
  {
    if s == t {
      forall c | c in s ensures c !in d.offs && c !in d.regs { assert SameBut(s[c], t[c], c in d.offs, c in d.regs); }
    }
    if d == NO_DOUBT {
      forall c | c in s ensures s[c] == t[c] { assert SameBut(s[c], t[c], false, false); }
    }
  }

  lemma PutBut(s: Rules, t: Rules, d: Doubt, c: int, x: Rule, y: Rule, off: bool, reg: bool)
    requires RulesBut(s, t, d) && SameBut(x, y, off, reg)
    ensures RulesBut(s[c := x], t[c := y], d.With(c, off, reg))
  {
    hide SameBut;
  }

  lemma RemoveBut(s: Rules, t: Rules, d: Doubt, c: int)
    requires RulesBut(s, t, d)
    ensures RulesBut(s - {c}, t - {c}, d.With(c, false, false))
  {
    hide SameBut;
  }

  /** The initial rules, too, may be in doubt. */
  ghost predicate InitialBut(s: Option<Rules>, t: Option<Rules>, d: Doubt) {
    if s.Some? then t.Some? && RulesBut(s.value, t.value, d) else t.None?
  }

  lemma NarrowOffset(op: FrameOp)
    requires HasOffset(op)
    ensures CodeOf(Narrow(op)) == CodeOf(op) && Narrow(op).reg == op.reg && !HasBlock(Narrow(op))
    ensures AsSigned(Narrow(op).off) == ToInt(op.off)
  {
  }

  lemma StepBut(bytes: seq<Byte>, op: FrameOp, m: Machine, n: Machine, d: Doubts, s: Option<Rules>, t: Option<Rules>,
                initial: Doubt)
    requires !IsAdvance(op) && MachinesBut(m, n, d) && InitialBut(s, t, initial)
    ensures var e, f := Effect(bytes, Narrow(op), m, s), Effect(bytes, op, n, t);
            (e.Some? <==> f.Some?) && (e.Some? ==> MachinesBut(e.value, f.value, Doubted(op, d, initial)))
  {
    hide Effect, Narrow, MachinesBut, InitialBut, Doubted, IsAdvance;
    var c := CodeOf(op);
    if IsCfaCode(c) {
      CfaBut(bytes, op, m, n, d, s, t, initial);
    } else if c == RESTORE || c == RESTORE_EXTENDED {
      RestoreBut(bytes, op, m, n, d, s, t, initial);
    } else if IsStateCode(c) {
      StateBut(bytes, op, m, n, d, s, t, initial);
    } else {
      RegisterBut(bytes, op, m, n, d, s, t, initial);
    }
  }

  predicate IsCfaCode(c: nat) {
    || c == DEF_CFA || c == DEF_CFA_SF || c == DEF_CFA_REGISTER || c == DEF_CFA_OFFSET || c == DEF_CFA_OFFSET_SF
    || c == DEF_CFA_EXPRESSION
  }

  predicate IsStateCode(c: nat) {
    c == RESTORE_STATE || c == REMEMBER_STATE || c == NOP || c == GNU_ARGS_SIZE
  }

  lemma CfaBut(bytes: seq<Byte>, op: FrameOp, m: Machine, n: Machine, d: Doubts, s: Option<Rules>, t: Option<Rules>,
               initial: Doubt)
    requires !IsAdvance(op) && MachinesBut(m, n, d) && InitialBut(s, t, initial)
    requires IsCfaCode(CodeOf(op))
    ensures var e, f := Effect(bytes, Narrow(op), m, s), Effect(bytes, op, n, t);
            (e.Some? <==> f.Some?) && (e.Some? ==> MachinesBut(e.value, f.value, Doubted(op, d, initial)))
  {
    hide RulesBut, ToInt, U64, AsSigned, BlockOf, Narrow, Doubt.With, RegisterRule;
    if HasBlock(op) {
      assert Narrow(op) == op by { NarrowBlock(op); }
    } else {
      NarrowOffset(op);
    }
    var e, f := Effect(bytes, Narrow(op), m, s), Effect(bytes, op, n, t);
    CfaKind(m.rules, n.rules, d.now);
    if e.Some? && f.Some? {
      var c := CodeOf(op);
      var off := if c == DEF_CFA_REGISTER then CFA in d.now.offs else c != DEF_CFA_EXPRESSION && Misstored(op);
      var reg := (c == DEF_CFA_OFFSET || c == DEF_CFA_OFFSET_SF) && CFA in d.now.regs;
      PutBut(m.rules, n.rules, d.now, CFA, e.value.rules[CFA], f.value.rules[CFA], off, reg);
    }
  }

  lemma RestoreBut(bytes: seq<Byte>, op: FrameOp, m: Machine, n: Machine, d: Doubts, s: Option<Rules>, t: Option<Rules>,
                   initial: Doubt)
    requires !IsAdvance(op) && MachinesBut(m, n, d) && InitialBut(s, t, initial)
    requires CodeOf(op) == RESTORE || CodeOf(op) == RESTORE_EXTENDED
    ensures var e, f := Effect(bytes, Narrow(op), m, s), Effect(bytes, op, n, t);
            (e.Some? <==> f.Some?) && (e.Some? ==> MachinesBut(e.value, f.value, Doubted(op, d, initial)))
  {
    hide RulesBut, ToInt, U64, AsSigned, BlockOf, Narrow, Doubt.With, RegisterRule;
    NarrowOffset(op);
    if s.Some? {
      RestoredBut(m.rules, n.rules, d.now, op.reg, s.value, t.value, initial);
    }
  }

  lemma StateBut(bytes: seq<Byte>, op: FrameOp, m: Machine, n: Machine, d: Doubts, s: Option<Rules>, t: Option<Rules>,
                 initial: Doubt)
    requires !IsAdvance(op) && MachinesBut(m, n, d) && InitialBut(s, t, initial)
    requires IsStateCode(CodeOf(op))
    ensures var e, f := Effect(bytes, Narrow(op), m, s), Effect(bytes, op, n, t);
            (e.Some? <==> f.Some?) && (e.Some? ==> MachinesBut(e.value, f.value, Doubted(op, d, initial)))
  {
    hide RulesBut, ToInt, U64, AsSigned, BlockOf, Narrow, Doubt.With, RegisterRule;
    NarrowOffset(op);
  }

  lemma RegisterBut(bytes: seq<Byte>, op: FrameOp, m: Machine, n: Machine, d: Doubts, s: Option<Rules>,
                    t: Option<Rules>, initial: Doubt)
    requires !IsAdvance(op) && MachinesBut(m, n, d) && InitialBut(s, t, initial)
    requires !IsCfaCode(CodeOf(op)) && !IsStateCode(CodeOf(op))
    requires CodeOf(op) != RESTORE && CodeOf(op) != RESTORE_EXTENDED
    ensures var e, f := Effect(bytes, Narrow(op), m, s), Effect(bytes, op, n, t);
            (e.Some? <==> f.Some?) && (e.Some? ==> MachinesBut(e.value, f.value, Doubted(op, d, initial)))
  {
    hide RulesBut, ToInt, U64, AsSigned, BlockOf, Narrow, Doubt.With;
    if HasBlock(op) {
      assert Narrow(op) == op by { NarrowBlock(op); }
    } else {
      NarrowOffset(op);
    }
    var e, f := Effect(bytes, Narrow(op), m, s), Effect(bytes, op, n, t);
    if e.Some? && f.Some? {
      var c := CodeOf(op);
      PutBut(m.rules, n.rules, d.now, op.reg, e.value.rules[op.reg], f.value.rules[op.reg],
             StoresOffset(c) && Misstored(op), c == REGISTER && Misstored(op));
    }
  }

  lemma NarrowBlock(op: FrameOp)
    requires HasBlock(op)
    ensures Narrow(op) == op
  {
  }

  /** Whether there is a rule for the frame address, and it is a register, is never in doubt. */
  lemma CfaKind(s: Rules, t: Rules, d: Doubt)
    requires RulesBut(s, t, d)
    ensures CFA in s <==> CFA in t
    ensures CFA in s ==> (s[CFA].InRegister? <==> t[CFA].InRegister?)
    ensures CFA in s && s[CFA].InRegister? ==>
              && (CFA in d.offs <==> s[CFA].off != t[CFA].off) && (CFA in d.regs <==> s[CFA].reg != t[CFA].reg)
  {
    if CFA in s { assert SameBut(s[CFA], t[CFA], CFA in d.offs, CFA in d.regs); }
  }

  lemma RestoredBut(s: Rules, t: Rules, d: Doubt, r: int, first: Rules, it: Rules, initial: Doubt)
    requires RulesBut(s, t, d) && RulesBut(first, it, initial)
    ensures RulesBut(if r in first then s[r := first[r]] else s - {r}, if r in it then t[r := it[r]] else t - {r},
                     d.With(r, r in initial.offs, r in initial.regs))
  {
    if r in first {
      assert SameBut(first[r], it[r], r in initial.offs, r in initial.regs);
      PutBut(s, t, d, r, first[r], it[r], r in initial.offs, r in initial.regs);
    } else {
      RemoveBut(s, t, d, r);
    }
  }

  ghost function EndOf(bytes: seq<Byte>, ops: seq<FrameOp>, k: nat, m: Machine, initial: Option<Rules>): Machine
    requires k <= |ops| && RunAll(bytes, ops, k, m, initial, 1).Some?
  {
    RunAll(bytes, ops, k, m, initial, 1).value
  }

  /** What is in doubt at the end. */
  function DoubtedAll(ops: seq<FrameOp>, k: nat, d: Doubts, initial: Doubt): Doubts
    requires k <= |ops|
    decreases |ops| - k
  {
    if k == |ops| then d
    else DoubtedAll(ops, k + 1, if IsAdvance(ops[k]) then d else Doubted(ops[k], d, initial), initial)
  }

  /** If the instructions are valid, they are as stored, and the machines at the end differ by what is in doubt. */
  lemma {:induction false} StoredRuns(bytes: seq<Byte>, ops: seq<FrameOp>, k: nat, m: Machine, n: Machine, d: Doubts,
                                      s: Option<Rules>, t: Option<Rules>, initial: Doubt)
    requires k <= |ops| && MachinesBut(m, n, d) && InitialBut(s, t, initial)
    requires RunAll(bytes, ops, k, n, t, 1).Some?
    ensures RunAll(bytes, AsStored(ops), k, m, s, 1).Some?
    ensures MachinesBut(EndOf(bytes, AsStored(ops), k, m, s), EndOf(bytes, ops, k, n, t),
                        DoubtedAll(ops, k, d, initial))
    ensures n.loc <= EndOf(bytes, ops, k, n, t).loc
    decreases |ops| - k
  {
    hide RulesBut, InitialBut, Effect, Narrow, Doubted, NextLoc, IsAdvance;
    if k < |ops| {
      NarrowKind(ops[k]);
      if IsAdvance(ops[k]) {
        var m', n' := m.(loc := NextLoc(ops[k], m.loc, 1)), n.(loc := NextLoc(ops[k], n.loc, 1));
        StoredRuns(bytes, ops, k + 1, m', n', d, s, t, initial);
      } else {
        StepBut(bytes, ops[k], m, n, d, s, t, initial);
        EffectElsewhere(bytes, ops[k], n, n, t);
        var m', n' := Effect(bytes, Narrow(ops[k]), m, s).value, Effect(bytes, ops[k], n, t).value;
        StoredRuns(bytes, ops, k + 1, m', n', Doubted(ops[k], d, initial), s, t, initial);
      }
    }
  }

  /** At each address from the machine's on and before the end or the bound, the rules are as they should be. */
  ghost predicate StoredRight(bytes: seq<Byte>, ops: seq<FrameOp>, k: nat, m: Machine, n: Machine, s: Option<Rules>,
                              t: Option<Rules>, last: nat, bound: nat)
    requires k <= |ops|
  {
    forall a: nat :: n.loc <= a && (a < last || a < bound) ==> StoredRightAt(bytes, ops, k, m, n, s, t, a)
  }

  ghost predicate StoredRightAt(bytes: seq<Byte>, ops: seq<FrameOp>, k: nat, m: Machine, n: Machine, s: Option<Rules>,
                                t: Option<Rules>, a: nat)
    requires k <= |ops|
  {
    RulesAt(bytes, AsStored(ops), k, m, s, 1, a) == RulesAt(bytes, ops, k, n, t, 1, a)
  }

  lemma {:induction false} StoredRightIff(bytes: seq<Byte>, ops: seq<FrameOp>, k: nat, m: Machine, n: Machine,
                                          d: Doubts, s: Option<Rules>, t: Option<Rules>, initial: Doubt, bound: nat)
    requires k <= |ops| && MachinesBut(m, n, d) && InitialBut(s, t, initial)
    requires RunAll(bytes, ops, k, n, t, 1).Some?
    ensures var last := EndOf(bytes, ops, k, n, t).loc;
            StoredRight(bytes, ops, k, m, n, s, t, last, bound) <==> NeverInDoubt(ops, k, d, initial, last < bound)
    decreases |ops| - k
  {
    hide RulesBut, InitialBut, Effect, Narrow, Doubted, NextLoc, IsAdvance;
    var last, j: nat := EndOf(bytes, ops, k, n, t).loc, k + 1;
    SameIffNoDoubt(m.rules, n.rules, d.now);
    if k == |ops| {
      forall a: nat ensures StoredRightAt(bytes, ops, k, m, n, s, t, a) <==> m.rules == n.rules {
      }
      if last < bound && StoredRight(bytes, ops, k, m, n, s, t, last, bound) {
        assert StoredRightAt(bytes, ops, k, m, n, s, t, last);
      }
    } else {
      NarrowKind(ops[k]);
      if IsAdvance(ops[k]) {
        var m', n' := m.(loc := NextLoc(ops[k], m.loc, 1)), n.(loc := NextLoc(ops[k], n.loc, 1));
        StoredRightIff(bytes, ops, j, m', n', d, s, t, initial, bound);
        StoredRuns(bytes, ops, j, m', n', d, s, t, initial);
        forall a: nat
          ensures StoredRightAt(bytes, ops, k, m, n, s, t, a)
                  == if a < n'.loc then m.rules == n.rules else StoredRightAt(bytes, ops, j, m', n', s, t, a)
        {
        }
        Segments(bytes, ops, k, m, n, m', n', s, t, last, bound);
      } else {
        StepBut(bytes, ops[k], m, n, d, s, t, initial);
        EffectElsewhere(bytes, ops[k], n, n, t);
        var m', n' := Effect(bytes, Narrow(ops[k]), m, s).value, Effect(bytes, ops[k], n, t).value;
        StoredRightIff(bytes, ops, j, m', n', Doubted(ops[k], d, initial), s, t, initial, bound);
        forall a: nat
          ensures StoredRightAt(bytes, ops, k, m, n, s, t, a) <==> StoredRightAt(bytes, ops, j, m', n', s, t, a)
        {
        }
      }
    }
  }

  lemma Segments(bytes: seq<Byte>, ops: seq<FrameOp>, k: nat, m: Machine, n: Machine, m': Machine, n': Machine,
                 s: Option<Rules>, t: Option<Rules>, last: nat, bound: nat)
    requires k < |ops| && n.loc < n'.loc <= last
    requires forall a: nat :: a < n'.loc ==> (StoredRightAt(bytes, ops, k, m, n, s, t, a) <==> m.rules == n.rules)
    requires forall a: nat :: a >= n'.loc ==>
               (StoredRightAt(bytes, ops, k, m, n, s, t, a) <==> StoredRightAt(bytes, ops, k + 1, m', n', s, t, a))
    ensures StoredRight(bytes, ops, k, m, n, s, t, last, bound)
            <==> m.rules == n.rules && StoredRight(bytes, ops, k + 1, m', n', s, t, last, bound)
  {
    hide StoredRightAt;
    var j: nat := k + 1;
    if StoredRight(bytes, ops, k, m, n, s, t, last, bound) {
      assert StoredRightAt(bytes, ops, k, m, n, s, t, n.loc);
      forall a: nat | n'.loc <= a && (a < last || a < bound) ensures StoredRightAt(bytes, ops, j, m', n', s, t, a) {
        assert StoredRightAt(bytes, ops, k, m, n, s, t, a);
      }
    }
  }

  /** A register that is saved 2^31 above the frame address is looked for as far below it. */
  lemma LargeOffsetIsLost(bytes: seq<Byte>, op: FrameOp, m: Machine, initial: Option<Rules>)
    requires CodeOf(op) == OFFSET_EXTENDED && op.off == 0x8000_0000
    ensures Effect(bytes, op, m, initial) == Some(m.(rules := m.rules[op.reg := SavedAt(0x8000_0000)]))
    ensures Effect(bytes, Narrow(op), m, initial) == Some(m.(rules := m.rules[op.reg := SavedAt(-0x8000_0000)]))
  {
  }

  /** What is in doubt after the initial instructions. */
  function InitialDoubt(ops: seq<FrameOp>): Doubt { DoubtedAll(ops, 0, Doubts(NO_DOUBT, []), NO_DOUBT).now }

  /** A valid entry is valid with its offsets as stored. */
  lemma EntryBut(cie: seq<Byte>, cieOps: seq<FrameOp>, fde: seq<Byte>, fdeOps: seq<FrameOp>, lowPc: nat)
    requires ValidEntry(cie, cieOps, fde, fdeOps, lowPc)
    ensures ValidEntry(cie, AsStored(cieOps), fde, AsStored(fdeOps), lowPc)
    ensures var i, j := InitialMachine(cie, AsStored(cieOps), lowPc).value, InitialMachine(cie, cieOps, lowPc).value;
            && MachinesBut(Resumed(i), Resumed(j), Doubts(InitialDoubt(cieOps), []))
            && EndOf(fde, AsStored(fdeOps), 0, Resumed(i), Some(i.rules)).loc
               == EndOf(fde, fdeOps, 0, Resumed(j), Some(j.rules)).loc >= j.loc
  {
    hide RunAll, AsStored, DoubtedAll;
    var start := Machine(map[], [], lowPc);
    StoredRuns(cie, cieOps, 0, start, start, Doubts(NO_DOUBT, []), None, None, NO_DOUBT);
    var i, j := InitialMachine(cie, AsStored(cieOps), lowPc).value, InitialMachine(cie, cieOps, lowPc).value;
    var d := InitialDoubt(cieOps);
    StoredRuns(fde, fdeOps, 0, Resumed(i), Resumed(j), Doubts(d, []), Some(i.rules), Some(j.rules), d);
  }

  /** The table of a valid entry, made with the offsets as stored, gives the rules that the instructions mean exactly
      when at no advance, nor at the end if the last row is not empty, the rule of any column depends on an offset
      or register that an int cannot hold. */
  lemma TableRightIff(rows: seq<Row>, cie: seq<Byte>, cieOps: seq<FrameOp>, fde: seq<Byte>, fdeOps: seq<FrameOp>,
                      lowPc: nat, bound: nat)
    requires ValidEntry(cie, cieOps, fde, fdeOps, lowPc)
    requires ValidEntry(cie, AsStored(cieOps), fde, AsStored(fdeOps), lowPc)
    requires GivesRules(rows, fde, AsStored(fdeOps), InitialMachine(cie, AsStored(cieOps), lowPc).value, bound)
    ensures var i, d := InitialMachine(cie, cieOps, lowPc).value, InitialDoubt(cieOps);
            GivesRules(rows, fde, fdeOps, i, bound)
            <==> NeverInDoubt(fdeOps, 0, Doubts(d, []), d, EndOf(fde, fdeOps, 0, Resumed(i), Some(i.rules)).loc < bound)
  {
    hide RunAll, AsStored, DoubtedAll, RulesAt, NeverInDoubt, Means, RowsWithin, RulesBut;
    EntryBut(cie, cieOps, fde, fdeOps, lowPc);
    var i, j := InitialMachine(cie, AsStored(cieOps), lowPc).value, InitialMachine(cie, cieOps, lowPc).value;
    var d := InitialDoubt(cieOps);
    StoredRightIff(fde, fdeOps, 0, Resumed(i), Resumed(j), Doubts(d, []), Some(i.rules), Some(j.rules), d, bound);
    SameTable(rows, fde, fdeOps, i, j, bound);
  }

  lemma SameTable(rows: seq<Row>, fde: seq<Byte>, ops: seq<FrameOp>, i: Machine, j: Machine, bound: nat)
    requires RunAll(fde, AsStored(ops), 0, Resumed(i), Some(i.rules), 1).Some?
    requires RunAll(fde, ops, 0, Resumed(j), Some(j.rules), 1).Some?
    requires var last := EndOf(fde, ops, 0, Resumed(j), Some(j.rules)).loc;
             i.loc == j.loc <= last && last == EndOf(fde, AsStored(ops), 0, Resumed(i), Some(i.rules)).loc
    requires GivesRules(rows, fde, AsStored(ops), i, bound)
    ensures var last := EndOf(fde, ops, 0, Resumed(j), Some(j.rules)).loc;
            GivesRules(rows, fde, ops, j, bound)
            <==> StoredRight(fde, ops, 0, Resumed(i), Resumed(j), Some(i.rules), Some(j.rules), last, bound)
  {
    hide RunAll, AsStored, RulesAt, Means, RowsWithin;
    var last := EndOf(fde, ops, 0, Resumed(j), Some(j.rules)).loc;
    if GivesRules(rows, fde, ops, j, bound) {
      forall a: nat | j.loc <= a && (a < last || a < bound)
        ensures StoredRightAt(fde, ops, 0, Resumed(i), Resumed(j), Some(i.rules), Some(j.rules), a)
      {
        RulesAreUnique(Lookup(rows, a), RulesAt(fde, AsStored(ops), 0, Resumed(i), Some(i.rules), 1, a).value,
                       RulesAt(fde, ops, 0, Resumed(j), Some(j.rules), 1, a).value);
      }
    }
    if StoredRight(fde, ops, 0, Resumed(i), Resumed(j), Some(i.rules), Some(j.rules), last, bound) {
      forall a: nat | j.loc <= a && (a < last || a < bound)
        ensures RulesAt(fde, ops, 0, Resumed(j), Some(j.rules), 1, a).Some?
        ensures Means(Lookup(rows, a), RulesAt(fde, ops, 0, Resumed(j), Some(j.rules), 1, a).value)
      {
        assert StoredRightAt(fde, ops, 0, Resumed(i), Resumed(j), Some(i.rules), Some(j.rules), a);
      }
    }
  }
}
